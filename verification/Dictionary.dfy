/** The record-to-`WordDefinition` pipeline of the dictionary service:
    phonetic formatting, the Chinese-only gloss, the part-of-speech table,
    and the line-oriented parser that groups senses by part of speech.
    The SQLite lookup is an abstract function from a key to an optional row. */
module Dictionary {
  import opened Optional
  import opened Text
  import opened Models

  const General := "general"
  const NoDefinition := "No definition available"

  /** The characters `re.split(r'[;；,，]', ...)` cuts a sense list on. */
  const SenseSeparators: set<char> := {';', '；', ',', '，'}

  /** The abbreviation table of `_normalize_pos`. */
  const PosNames: map<string, string> := map[
    "n" := "noun", "v" := "verb", "adj" := "adjective", "adv" := "adverb",
    "prep" := "preposition", "conj" := "conjunction", "interj" := "interjection",
    "pron" := "pronoun", "art" := "article", "det" := "determiner", "num" := "numeral"]

  // ---------------------------------------------------------------------------
  // Phonetic

  /** Wraps a phonetic in slashes unless it already starts with one. */
  function FormatPhonetic(phonetic: Option<string>): (r: Option<string>)
    ensures r.None? <==> !Truthy(phonetic)
    ensures r.Some? ==> |r.value| > 0 && r.value[0] == '/'
    ensures r.Some? ==> r.value == phonetic.value || r.value == "/" + phonetic.value + "/"
  {
    if !Truthy(phonetic) then None
    else if phonetic.value[0] == '/' then phonetic
    else Some("/" + phonetic.value + "/")
  }

  /** Formatting an already formatted phonetic changes nothing. */
  lemma FormatPhoneticIdempotent(phonetic: Option<string>)
    ensures FormatPhonetic(FormatPhonetic(phonetic)) == FormatPhonetic(phonetic)
  {
  }

  /** A wrapped phonetic ends in a slash, and removing the two slashes gives
      the raw value back; a phonetic already starting with `/` is kept. */
  lemma FormatPhoneticUnwrap(p: string)
    requires p != []
    ensures p[0] != '/' ==> var w := FormatPhonetic(Some(p)).value;
      |w| == |p| + 2 && w[|w| - 1] == '/' && w[1..|w| - 1] == p
    ensures p[0] == '/' ==> FormatPhonetic(Some(p)) == Some(p)
  {
    if p[0] != '/' {
      var w := FormatPhonetic(Some(p)).value;
      assert w == "/" + p + "/";
      assert w[1..|w| - 1] == p;
    }
  }

  // ---------------------------------------------------------------------------
  // Chinese-only gloss

  /** Length of the run of ASCII letters at the start of `s`: what `[a-z]+`
      with IGNORECASE consumes. */
  function LetterRun(s: string): (n: nat)
    ensures n <= |s|
    ensures forall i :: 0 <= i < n ==> IsAsciiLetter(s[i])
    ensures n < |s| ==> !IsAsciiLetter(s[n])
  {
    if s != [] && IsAsciiLetter(s[0]) then 1 + LetterRun(s[1..]) else 0
  }

  /** `re.sub(r'^[a-z]+\.\s*', '', s, flags=re.IGNORECASE)`: removes at most
      one leading `letters.` prefix together with all whitespace after it,
      line breaks included. */
  function DropPosPrefix(s: string): (r: string)
    ensures |r| <= |s| && r == s[|s| - |r|..]
    ensures r != s ==> r == [] || !IsSpace(r[0])
    ensures s == [] || !IsAsciiLetter(s[0]) ==> r == s
    ensures LetterRun(s) == 0 || LetterRun(s) == |s| || s[LetterRun(s)] != '.' ==> r == s
  {
    var n := LetterRun(s);
    if 0 < n < |s| && s[n] == '.' then
      var after := s[n + 1..];
      var r := TrimStart(after);
      assert r == s[|s| - |r|..] by { SuffixOfSuffix(s, n + 1, r); }
      assert IsAsciiLetter(s[0]) && |r| < |s|;
      r
    else s
  }

  /** A suffix of a suffix of `s` is a suffix of `s`. */
  lemma SuffixOfSuffix(s: string, k: nat, r: string)
    requires k <= |s| && |r| <= |s| - k && r == s[k..][|s| - k - |r|..]
    ensures r == s[|s| - |r|..]
  {
  }

  /** The first line of the translation with its part-of-speech prefix
      removed, stripped; `None` when nothing is left. */
  function ExtractChineseOnly(translation: Option<string>): (r: Option<string>)
    ensures !Truthy(translation) ==> r.None?
    ensures r.Some? ==> r.value != [] && '\n' !in r.value && IsStripped(r.value)
  {
    if !Truthy(translation) then None
    else
      var first := Strip(Split(DropPosPrefix(translation.value), '\n')[0]);
      if first == [] then None else Some(first)
  }

  /** The gloss after a `tag.` prefix and any whitespace (line breaks
      included), up to the next line break, is what is extracted. */
  lemma ExtractTaggedGloss(tag: string, ws: string, gloss: string, pad: string, more: string)
    requires tag != [] && AllLetters(tag)
    requires AllSpace(ws) && AllSpace(pad) && '\n' !in pad
    requires gloss != [] && IsStripped(gloss) && '\n' !in gloss
    requires more == [] || more[0] == '\n'
    ensures ExtractChineseOnly(Some(tag + "." + ws + gloss + pad + more)) == Some(gloss)
  {
    var rest := gloss + pad + more;
    var s := tag + "." + ws + gloss + pad + more;
    assert s == tag + "." + ws + rest by { Regroup(tag + "." + ws, gloss, pad, more); }
    assert !IsSpace(rest[0]) by { assert rest[0] == gloss[0]; }
    DropTaggedPrefix(tag, ws, rest);
    FirstLineStripped(gloss, pad, more);
    ExtractOf(s, rest);
  }

  /** Text with no `letters.` prefix (no leading letter, or a letter run not
      followed by a dot) loses nothing: the gloss is its stripped first line. */
  lemma ExtractUnprefixed(s: string)
    requires s != []
    requires LetterRun(s) == 0 || LetterRun(s) == |s| || s[LetterRun(s)] != '.'
    ensures ExtractChineseOnly(Some(s)) ==
      (var f := Strip(Split(s, '\n')[0]); if f == [] then None else Some(f))
  {
    assert DropPosPrefix(s) == s;
  }

  /** A `tag.` prefix followed only by whitespace leaves nothing to extract. */
  lemma ExtractTagOnly(tag: string, ws: string)
    requires tag != [] && AllLetters(tag) && AllSpace(ws)
    ensures ExtractChineseOnly(Some(tag + "." + ws)) == None
  {
    DropTaggedPrefix(tag, ws, []);
    assert tag + "." + ws + [] == tag + "." + ws;
    assert Split([], '\n') == [[]];
  }

  lemma Regroup(a: string, b: string, c: string, d: string)
    ensures a + b + c + d == a + (b + c + d)
  {
  }

  /** ExtractChineseOnly unfolded on a present text whose prefix removal is known. */
  lemma ExtractOf(s: string, dropped: string)
    requires s != [] && DropPosPrefix(s) == dropped
    requires Strip(Split(dropped, '\n')[0]) != []
    ensures ExtractChineseOnly(Some(s)) == Some(Strip(Split(dropped, '\n')[0]))
  {
  }

  /** The stripped first line of `gloss pad more` is the gloss. */
  lemma FirstLineStripped(gloss: string, pad: string, more: string)
    requires AllSpace(pad) && '\n' !in pad
    requires IsStripped(gloss) && '\n' !in gloss
    requires more == [] || more[0] == '\n'
    ensures Strip(Split(gloss + pad + more, '\n')[0]) == gloss
  {
    var line := gloss + pad;
    assert '\n' !in line;
    assert gloss + pad + more == line + more;
    FirstLineOf(line, more);
    assert [] + gloss + pad == line;
    StripExact([], gloss, pad);
  }

  /** The prefix pattern removes the tag, its dot and all the whitespace after. */
  lemma DropTaggedPrefix(tag: string, ws: string, rest: string)
    requires tag != [] && AllLetters(tag) && AllSpace(ws)
    requires rest == [] || !IsSpace(rest[0])
    ensures DropPosPrefix(tag + "." + ws + rest) == rest
  {
    var after := ws + rest;
    var tail := ['.'] + after;
    var s := tag + tail;
    assert s == tag + "." + ws + rest by { DotShape(tag, ws, rest); }
    assert LetterRun(s) == |tag| by { LetterRunOf(tag, tail); }
    assert s[|tag|] == '.' && s[|tag| + 1..] == after by { TagParts(tag, after); }
    assert TrimStart(after) == rest by { TrimStartSpaces(ws, rest); }
  }

  /** The letter run of a letters-only tag followed by a non-letter is the tag. */
  lemma {:induction false} LetterRunOf(tag: string, rest: string)
    requires AllLetters(tag)
    requires rest == [] || !IsAsciiLetter(rest[0])
    ensures LetterRun(tag + rest) == |tag|
    decreases |tag|
  {
    if tag != [] {
      assert (tag + rest)[1..] == tag[1..] + rest;
      LetterRunOf(tag[1..], rest);
    } else {
      assert tag + rest == rest;
    }
  }

  /** The first piece of `split('\n')` is everything before the first break. */
  lemma FirstLineOf(line: string, more: string)
    requires '\n' !in line
    requires more == [] || more[0] == '\n'
    ensures Split(line + more, '\n')[0] == line
  {
    assert NoneIn(line, {'\n'});
    FirstPiece(line, more, {'\n'});
  }

  lemma {:induction false} FirstPiece(line: string, more: string, seps: set<char>)
    requires NoneIn(line, seps)
    requires more == [] || more[0] in seps
    ensures SplitAny(line + more, seps)[0] == line
    decreases |line|
  {
    if line == [] {
      assert line + more == more;
    } else {
      assert (line + more)[1..] == line[1..] + more;
      FirstPiece(line[1..], more, seps);
      assert line == [line[0]] + line[1..];
    }
  }

  // ---------------------------------------------------------------------------
  // Part-of-speech names

  /** `_normalize_pos`: a known abbreviation, in any letter case, becomes its
      full name; anything else is returned exactly as given. */
  function NormalizePos(tag: string): (r: string)
    ensures Lower(tag) in PosNames ==> r == PosNames[Lower(tag)]
    ensures Lower(tag) !in PosNames ==> r == tag
    ensures r != [] <==> tag != []
  {
    if Lower(tag) in PosNames then PosNames[Lower(tag)] else tag
  }

  /** Tags that differ only in letter case normalize alike when known. */
  lemma NormalizePosCaseInsensitive(a: string, b: string)
    requires Lower(a) == Lower(b) && Lower(a) in PosNames
    ensures NormalizePos(a) == NormalizePos(b)
  {
  }

  /** No full name is itself an abbreviation, so normalizing twice is
      normalizing once. */
  lemma NormalizePosIdempotent(tag: string)
    ensures NormalizePos(NormalizePos(tag)) == NormalizePos(tag)
  {
    var r := NormalizePos(tag);
    if Lower(tag) in PosNames {
      assert r in PosNames.Values;
      FullNamesAreNotKeys(r);
    }
  }

  /** No full name, in lower case, is an abbreviation: a lowering keeps the
      length and lowers the first letter, and every key of the same length as
      a full name starts with a different letter. */
  lemma FullNamesAreNotKeys(name: string)
    requires name in PosNames.Values
    ensures Lower(name) !in PosNames
  {
    var k :| k in PosNames && PosNames[k] == name;
    var l := Lower(name);
    assert |l| == |name| && l[0] == LowerChar(name[0]);
  }

  // ---------------------------------------------------------------------------
  // One line of the combined text

  /** `re.match(r'^([a-z]+)\.\s+(.+)', line, re.IGNORECASE)` on a line the
      parser has split on `\n` and stripped: the tag letters, a dot, at least
      one whitespace character, then a non-empty remainder. On such a line
      the pattern never needs to backtrack, so the two groups are the letter
      run and the text after the whitespace run. */
  function MatchTag(line: string): (r: Option<(string, string)>)
    ensures r.Some? ==> r.value.0 != [] && AllLetters(r.value.0)
    ensures r.Some? ==> r.value.1 != [] && !IsSpace(r.value.1[0])
    ensures r.Some? ==> |r.value.0| + |r.value.1| + 2 <= |line|
  {
    var n := LetterRun(line);
    if n == 0 || n == |line| || line[n] != '.' then None
    else
      var after := line[n + 1..];
      var body := TrimStart(after);
      if |body| == |after| || body == [] then None
      else
        PrefixLetters(line, n);
        Some((line[..n], body))
  }

  /** What MatchTag finds is a tagged shape of the line. */
  lemma MatchTagSound(line: string)
    ensures MatchTag(line).Some? ==>
      exists ws :: IsTagLine(line, MatchTag(line).value.0, ws, MatchTag(line).value.1)
  {
    if MatchTag(line).Some? {
      var ws := TagLineOf(line, LetterRun(line));
    }
  }

  /** A line cut after a run of letters at a dot, followed by a non-empty run
      of whitespace and a non-empty body, has the tagged shape; `ws` is that
      run of whitespace. */
  lemma TagLineOf(line: string, n: nat) returns (ws: string)
    requires 0 < n < |line| && line[n] == '.'
    requires forall i :: 0 <= i < n ==> IsAsciiLetter(line[i])
    requires var after := line[n + 1..];
      TrimStart(after) != [] && |TrimStart(after)| < |after|
    ensures IsTagLine(line, line[..n], ws, TrimStart(line[n + 1..]))
  {
    var after := line[n + 1..];
    var body := TrimStart(after);
    ws := LeadingSpace(after);
    PrefixLetters(line, n);
    Assemble(line, n, ws, body);
    TagLineFrom(line, line[..n], ws, body);
  }

  /** The whitespace that TrimStart removes, in front of what it keeps. */
  lemma LeadingSpace(s: string) returns (ws: string)
    ensures s == ws + TrimStart(s) && AllSpace(ws) && |ws| + |TrimStart(s)| == |s|
  {
    ws := s[..|s| - |TrimStart(s)|];
    SuffixSplit(s, TrimStart(s));
  }

  /** The tagged shape from its parts. */
  lemma TagLineFrom(line: string, tag: string, ws: string, body: string)
    requires tag != [] && AllLetters(tag)
    requires ws != [] && AllSpace(ws)
    requires body != [] && !IsSpace(body[0])
    requires line == tag + "." + ws + body
    ensures IsTagLine(line, tag, ws, body)
  {
  }

  lemma PrefixLetters(line: string, n: nat)
    requires n <= |line|
    requires forall i :: 0 <= i < n ==> IsAsciiLetter(line[i])
    ensures AllLetters(line[..n])
  {
  }

  /** A line is its part before a dot, the dot, and what follows. */
  lemma Assemble(line: string, n: nat, ws: string, body: string)
    requires n < |line| && line[n] == '.' && line[n + 1..] == ws + body
    ensures line == line[..n] + "." + ws + body
  {
    CutAt(line, n);
  }

  /** A sequence is its part before `n`, its element at `n`, and the rest. */
  lemma CutAt(s: string, n: nat)
    requires n < |s|
    ensures s == s[..n] + [s[n]] + s[n + 1..]
  {
  }

  /** A suffix completes the prefix it leaves. */
  lemma SuffixSplit(s: string, t: string)
    requires |t| <= |s| && t == s[|s| - |t|..]
    ensures s == s[..|s| - |t|] + t
  {
  }

  /** `line` reads `tag . ws body` with a letters-only tag, a non-empty run
      of whitespace, and a body starting with a non-space character. */
  ghost predicate IsTagLine(line: string, tag: string, ws: string, body: string) {
    && tag != [] && AllLetters(tag)
    && ws != [] && AllSpace(ws)
    && body != [] && !IsSpace(body[0])
    && line == tag + "." + ws + body
  }

  /** MatchTag finds the tag exactly when the line has the tagged shape. */
  lemma MatchTagComplete(line: string, tag: string, ws: string, body: string)
    requires IsTagLine(line, tag, ws, body)
    ensures MatchTag(line) == Some((tag, body))
  {
    var n := |tag|;
    var after := ws + body;
    assert line == tag + (['.'] + after) by { DotShape(tag, ws, body); }
    assert LetterRun(line) == n by { LetterRunOf(tag, ['.'] + after); }
    assert line[n] == '.' && line[..n] == tag && line[n + 1..] == after by {
      TagParts(tag, after);
    }
    assert TrimStart(after) == body by { TrimStartSpaces(ws, body); }
    MatchTagOf(line, n, after, body);
  }

  /** MatchTag unfolded on the pieces it computes. */
  lemma MatchTagOf(line: string, n: nat, after: string, body: string)
    requires LetterRun(line) == n && 0 < n < |line| && line[n] == '.'
    requires line[n + 1..] == after && TrimStart(after) == body
    requires |body| < |after| && body != []
    ensures MatchTag(line) == Some((line[..n], body))
  {
  }

  lemma DotShape(tag: string, ws: string, rest: string)
    ensures tag + "." + ws + rest == tag + (['.'] + (ws + rest))
  {
  }

  lemma TagParts(tag: string, after: string)
    ensures var line := tag + (['.'] + after);
      line[|tag|] == '.' && line[..|tag|] == tag && line[|tag| + 1..] == after
  {
  }

  /** A line is blank, tagged (normalized part of speech and its senses) or
      untagged (one sense holding the whole line). */
  datatype Line = Blank | Tagged(pos: string, senses: seq<Definition>) | Untagged(sense: Definition)

  /** A sense whose Chinese rendering is the source text itself; the
      dictionary's translation column is already Chinese. */
  function Sense(text: string): Definition {
    Definition(text, Some(text), None, None)
  }

  predicate IsSense(d: Definition) {
    d.definition != [] && d == Sense(d.definition)
  }

  /** Every element is a sense whose text has no surrounding whitespace. */
  predicate StrippedSenses(ds: seq<Definition>) {
    forall i :: 0 <= i < |ds| ==> IsSense(ds[i]) && IsStripped(ds[i].definition)
  }

  lemma StrippedSensesAppend(a: seq<Definition>, b: seq<Definition>)
    requires StrippedSenses(a) && StrippedSenses(b)
    ensures StrippedSenses(a + b)
  {
    forall i | 0 <= i < |a + b| ensures IsSense((a + b)[i]) && IsStripped((a + b)[i].definition) {
      if i < |a| { assert (a + b)[i] == a[i]; } else { assert (a + b)[i] == b[i - |a|]; }
    }
  }

  /** The stripped, non-empty pieces, each as one sense, in order. */
  function KeepSenses(parts: seq<string>): (r: seq<Definition>)
    ensures |r| <= |parts|
    ensures StrippedSenses(r)
  {
    if parts == [] then []
    else
      var p := Strip(parts[0]);
      var head := if p == [] then [] else [Sense(p)];
      var rest := KeepSenses(parts[1..]);
      assert StrippedSenses(head) by {
        if p != [] { assert IsStripped(Sense(p).definition); }
      }
      StrippedSensesAppend(head, rest);
      head + rest
  }

  lemma {:induction false} KeepSensesAppend(a: seq<string>, b: seq<string>)
    ensures KeepSenses(a + b) == KeepSenses(a) + KeepSenses(b)
    decreases |a|
  {
    if a != [] {
      assert a + b == [a[0]] + (a[1..] + b);
      assert a == [a[0]] + a[1..];
      KeepSensesAppend(a[1..], b);
      KeepSensesCons(a[0], a[1..] + b);
      KeepSensesCons(a[0], a[1..]);
      var p := Strip(a[0]);
      AppendAssoc(if p == [] then [] else [Sense(p)], KeepSenses(a[1..]), KeepSenses(b));
    } else {
      assert a + b == b;
    }
  }

  /** One step of the filter: the first piece, stripped, is kept unless blank. */
  lemma KeepSensesCons(p: string, rest: seq<string>)
    ensures KeepSenses([p] + rest) ==
      (if Strip(p) == [] then [] else [Sense(Strip(p))]) + KeepSenses(rest)
  {
    assert ([p] + rest)[1..] == rest;
  }

  /** The senses of the text after a tag: split on `; ； , ，`, stripped,
      empties dropped. No sense contains a separator. */
  function SenseList(body: string): (r: seq<Definition>)
    ensures StrippedSenses(r)
    ensures SeparatorFree(r)
  {
    var parts := SplitAny(body, SenseSeparators);
    var r := KeepSenses(parts);
    SensesFromPieces(parts);
    r
  }

  /** No sense of the list contains a sense separator. */
  predicate SeparatorFree(ds: seq<Definition>) {
    forall i :: 0 <= i < |ds| ==> NoneIn(ds[i].definition, SenseSeparators)
  }

  lemma SeparatorFreeAppend(a: seq<Definition>, b: seq<Definition>)
    requires SeparatorFree(a) && SeparatorFree(b)
    ensures SeparatorFree(a + b)
  {
    forall i | 0 <= i < |a + b| ensures NoneIn((a + b)[i].definition, SenseSeparators) {
      if i < |a| { assert (a + b)[i] == a[i]; } else { assert (a + b)[i] == b[i - |a|]; }
    }
  }

  lemma {:induction false} SensesFromPieces(parts: seq<string>)
    requires forall i :: 0 <= i < |parts| ==> NoneIn(parts[i], SenseSeparators)
    ensures SeparatorFree(KeepSenses(parts))
    decreases |parts|
  {
    if parts != [] {
      TailNoneIn(parts);
      SensesFromPieces(parts[1..]);
      HeadSeparatorFree(parts[0]);
      KeepSensesUnfold(parts);
      SeparatorFreeAppend(if Strip(parts[0]) == [] then [] else [Sense(Strip(parts[0]))], KeepSenses(parts[1..]));
    }
  }

  lemma TailNoneIn(parts: seq<string>)
    requires parts != []
    requires forall i :: 0 <= i < |parts| ==> NoneIn(parts[i], SenseSeparators)
    ensures forall i :: 0 <= i < |parts[1..]| ==> NoneIn(parts[1..][i], SenseSeparators)
  {
    forall i | 0 <= i < |parts[1..]| ensures NoneIn(parts[1..][i], SenseSeparators) {
      assert parts[1..][i] == parts[i + 1];
    }
  }

  /** The sense a separator-free piece gives, if any, is separator-free. */
  lemma HeadSeparatorFree(p: string)
    requires NoneIn(p, SenseSeparators)
    ensures SeparatorFree(if Strip(p) == [] then [] else [Sense(Strip(p))])
  {
    StripNoneIn(p, SenseSeparators);
  }

  /** KeepSenses unfolded once. */
  lemma KeepSensesUnfold(parts: seq<string>)
    requires parts != []
    ensures KeepSenses(parts) ==
      (if Strip(parts[0]) == [] then [] else [Sense(Strip(parts[0]))]) + KeepSenses(parts[1..])
  {
  }

  /** A separator splits the sense list into the senses before it followed by
      those after it. */
  lemma SenseListAppend(a: string, c: char, b: string)
    requires c in SenseSeparators
    ensures SenseList(a + [c] + b) == SenseList(a) + SenseList(b)
  {
    SplitAnyAppend(a, c, b, SenseSeparators);
    KeepSensesAppend(SplitAny(a, SenseSeparators), SplitAny(b, SenseSeparators));
  }

  /** Text without separators is one sense, stripped, or none if blank. */
  lemma SenseListSingle(body: string)
    requires NoneIn(body, SenseSeparators)
    ensures SenseList(body) == if Strip(body) == [] then [] else [Sense(Strip(body))]
  {
    SplitAnyNone(body, SenseSeparators);
    assert [body][1..] == [];
  }

  /** One raw line, as one pass of the loop body of `_parse_definitions` sees it. */
  function Classify(raw: string): (k: Line)
    requires '\n' !in raw
    ensures k.Tagged? <==> !AllSpace(raw) && MatchTag(Strip(raw)).Some?
    ensures k.Tagged? ==> k.pos != [] && forall i :: 0 <= i < |k.senses| ==> IsSense(k.senses[i])
    ensures k.Untagged? ==> IsSense(k.sense) && k.sense.definition == Strip(raw)
    ensures k.Blank? <==> AllSpace(raw)
  {
    var line := Strip(raw);
    if line == [] then Blank
    else
      MatchTagSound(line);
      match MatchTag(line)
      case Some((tag, body)) => Tagged(NormalizePos(tag), SenseList(body))
      case None => Untagged(Sense(line))
  }

  /** A line of the tagged shape, once stripped, is classified as its
      normalized tag with the senses of its body. */
  lemma ClassifyTagLine(raw: string, tag: string, ws: string, body: string)
    requires '\n' !in raw && IsTagLine(Strip(raw), tag, ws, body)
    ensures Classify(raw) == Tagged(NormalizePos(tag), SenseList(body))
  {
    MatchTagComplete(Strip(raw), tag, ws, body);
  }

  function ClassifyAll(lines: seq<string>): (ks: seq<Line>)
    requires forall i :: 0 <= i < |lines| ==> '\n' !in lines[i]
    ensures |ks| == |lines|
    ensures forall i :: 0 <= i < |ks| ==> ks[i] == Classify(lines[i])
  {
    seq(|lines|, i requires 0 <= i < |lines| => Classify(lines[i]))
  }

  // ---------------------------------------------------------------------------
  // The parser, as the source writes it: a left fold over the lines

  /** The loop variables of `_parse_definitions`: the finished groups, the
      current part of speech (`None` before any) and the current senses. */
  datatype ParseState = ParseState(meanings: seq<Meaning>, pos: Option<string>, defs: seq<Definition>)

  const Start := ParseState([], None, [])

  /** The finished groups plus the current one when it has a part of speech
      and at least one sense. */
  function Close(st: ParseState): seq<Meaning>
  {
    if Truthy(st.pos) && st.defs != [] then st.meanings + [Meaning(st.pos.value, st.defs)]
    else st.meanings
  }

  /** Closing keeps the finished groups and adds at most the current one,
      only when it has a part of speech and a sense. */
  lemma CloseKeepsFinished(st: ParseState)
    ensures var r := Close(st);
      && st.meanings <= r && |r| <= |st.meanings| + 1
      && (|r| > |st.meanings| <==> Truthy(st.pos) && st.defs != [])
      && (|r| > |st.meanings| ==> r[|st.meanings|] == Meaning(st.pos.value, st.defs))
  {
  }

  /** One pass of the loop body over a classified line. */
  function Step(st: ParseState, line: Line): ParseState
  {
    match line
    case Blank => st
    case Tagged(pos, senses) => ParseState(Close(st), Some(pos), senses)
    case Untagged(d) =>
      if !Truthy(st.pos) then ParseState(st.meanings, Some(General), [d])
      else st.(defs := st.defs + [d])
  }

  /** What one pass does: a blank line changes nothing, a tagged line closes
      the current group and opens its own, an untagged line joins the open
      group (a `general` one when none is open). Finished groups are kept. */
  lemma StepEffect(st: ParseState, line: Line)
    ensures var r := Step(st, line);
      && st.meanings <= r.meanings
      && (line.Blank? ==> r == st)
      && (line.Tagged? ==> r.meanings == Close(st) && r.pos == Some(line.pos) && r.defs == line.senses)
      && (line.Untagged? ==> Truthy(r.pos) && r.defs != [] && r.defs[|r.defs| - 1] == line.sense)
      && (line.Untagged? && Truthy(st.pos) ==> r.pos == st.pos && r.defs[..|r.defs| - 1] == st.defs)
      && (line.Untagged? ==> r.meanings == st.meanings)
      && (line.Untagged? && !Truthy(st.pos) ==> r == ParseState(st.meanings, Some(General), [line.sense]))
  {
  }

  /** The loop over all lines. */
  function Fold(st: ParseState, ks: seq<Line>): ParseState
    decreases |ks|
  {
    if ks == [] then st else Fold(Step(st, ks[0]), ks[1..])
  }

  /** The loop never revises a finished group. */
  lemma {:induction false} FoldKeepsFinished(st: ParseState, ks: seq<Line>)
    ensures st.meanings <= Fold(st, ks).meanings
    decreases |ks|
  {
    if ks != [] {
      StepEffect(st, ks[0]);
      FoldKeepsFinished(Step(st, ks[0]), ks[1..]);
    }
  }

  /** Every group has a non-empty part of speech and at least one sense,
      and every sense is a plain source sense. */
  predicate WellFormedGroups(ms: seq<Meaning>) {
    forall i :: 0 <= i < |ms| ==>
      && ms[i].partOfSpeech != []
      && ms[i].definitions != []
      && (forall j :: 0 <= j < |ms[i].definitions| ==> IsSense(ms[i].definitions[j]))
  }

  predicate WellFormedLine(k: Line) {
    && (k.Tagged? ==> k.pos != [] && forall j :: 0 <= j < |k.senses| ==> IsSense(k.senses[j]))
    && (k.Untagged? ==> IsSense(k.sense))
  }

  predicate WellFormedLines(ks: seq<Line>) {
    forall i :: 0 <= i < |ks| ==> WellFormedLine(ks[i])
  }

  predicate WellFormedState(st: ParseState) {
    && WellFormedGroups(st.meanings)
    && (st.pos.Some? ==> st.pos.value != [])
    && forall j :: 0 <= j < |st.defs| ==> IsSense(st.defs[j])
  }

  function FoldWellFormed(st: ParseState, ks: seq<Line>): (r: ParseState)
    requires WellFormedState(st) && WellFormedLines(ks)
    ensures r == Fold(st, ks)
    ensures WellFormedState(r)
    decreases |ks|
  {
    if ks == [] then st else FoldWellFormed(Step(st, ks[0]), ks[1..])
  }

  /** `_parse_definitions`: split on `\n`, classify each line, fold. */
  function ParseDefinitions(text: string): (r: seq<Meaning>)
    ensures WellFormedGroups(r)
  {
    var lines := Split(text, '\n');
    var ks := ClassifyAll(lines);
    assert WellFormedLines(ks) by {
      forall i | 0 <= i < |ks| ensures WellFormedLine(ks[i]) {
        assert ks[i] == Classify(lines[i]);
      }
    }
    var st := FoldWellFormed(Start, ks);
    CloseWellFormed(st);
    Close(st)
  }

  /** Closing the last group keeps the groups well formed. */
  lemma CloseWellFormed(st: ParseState)
    requires WellFormedState(st)
    ensures WellFormedGroups(Close(st))
  {
    if Truthy(st.pos) && st.defs != [] {
      var ms := st.meanings + [Meaning(st.pos.value, st.defs)];
      forall i | 0 <= i < |ms|
        ensures ms[i].partOfSpeech != [] && ms[i].definitions != []
        ensures forall j :: 0 <= j < |ms[i].definitions| ==> IsSense(ms[i].definitions[j])
      {
        if i < |st.meanings| { assert ms[i] == st.meanings[i]; }
      }
    }
  }

  // ---------------------------------------------------------------------------
  // The grouping, stated declaratively

  function OwnSenses(k: Line): seq<Definition>
  {
    match k
    case Blank => []
    case Tagged(_, senses) => senses
    case Untagged(d) => [d]
  }

  /** Senses of the untagged lines before the first tagged line. */
  function LeadSenses(ks: seq<Line>): seq<Definition>
  {
    if ks == [] || ks[0].Tagged? then [] else OwnSenses(ks[0]) + LeadSenses(ks[1..])
  }

  /** The lines from the first tagged line on. */
  function FromFirstTag(ks: seq<Line>): (r: seq<Line>)
    ensures |r| <= |ks|
    ensures r == [] || r[0].Tagged?
  {
    if ks == [] || ks[0].Tagged? then ks else FromFirstTag(ks[1..])
  }

  /** A tagged line opens a group that collects the untagged lines after it;
      the group is kept only when it has a sense. */
  function Block(pos: string, senses: seq<Definition>, ks: seq<Line>): seq<Meaning>
    decreases |ks|, 1
  {
    var all := senses + LeadSenses(ks);
    (if all == [] then [] else [Meaning(pos, all)]) + Blocks(FromFirstTag(ks))
  }

  function Blocks(ks: seq<Line>): seq<Meaning>
    requires ks == [] || ks[0].Tagged?
    decreases |ks|, 0
  {
    if ks == [] then [] else Block(ks[0].pos, ks[0].senses, ks[1..])
  }

  /** The grouping the parser promises: untagged lines before any tag form a
      `"general"` group; every tagged line, with the untagged lines up to the
      next tag, forms one group of its own (a repeated tag opens a new group);
      groups without senses are dropped; order is line order. */
  function Grouped(ks: seq<Line>): seq<Meaning>
  {
    var lead := LeadSenses(ks);
    (if lead == [] then [] else [Meaning(General, lead)]) + Blocks(FromFirstTag(ks))
  }

  lemma {:induction false} FoldOpenGroup(done: seq<Meaning>, pos: string, ds: seq<Definition>, ks: seq<Line>)
    requires pos != [] && WellFormedLines(ks)
    ensures Close(Fold(ParseState(done, Some(pos), ds), ks)) == done + Block(pos, ds, ks)
    decreases |ks|
  {
    var st := ParseState(done, Some(pos), ds);
    if ks == [] {
      assert ds + LeadSenses(ks) == ds;
      assert Blocks(FromFirstTag(ks)) == [];
      assert Fold(st, ks) == st;
    } else {
      assert WellFormedLine(ks[0]);
      assert Fold(st, ks) == Fold(Step(st, ks[0]), ks[1..]);
      match ks[0]
      case Blank =>
        FoldOpenGroup(done, pos, ds, ks[1..]);
        BlockSkipsBlank(pos, ds, ks);
      case Untagged(d) =>
        FoldOpenGroup(done, pos, ds + [d], ks[1..]);
        BlockTakesUntagged(pos, ds, d, ks);
      case Tagged(q, es) =>
        assert q != [] by { assert ks[0].Tagged?; }
        FoldOpenGroup(Close(st), q, es, ks[1..]);
        var head: seq<Meaning> := if ds == [] then [] else [Meaning(pos, ds)];
        BlockEndsAtTag(pos, ds, ks);
        assert Close(st) == done + head;
        AppendAssoc(done, head, Block(q, es, ks[1..]));
    }
  }

  /** A blank line adds nothing to the open group. */
  lemma BlockSkipsBlank(pos: string, ds: seq<Definition>, ks: seq<Line>)
    requires ks != [] && ks[0].Blank?
    ensures Block(pos, ds, ks) == Block(pos, ds, ks[1..])
  {
    assert LeadSenses(ks) == [] + LeadSenses(ks[1..]);
    assert LeadSenses(ks) == LeadSenses(ks[1..]);
    assert FromFirstTag(ks) == FromFirstTag(ks[1..]);
  }

  /** An untagged line adds its sense to the open group. */
  lemma BlockTakesUntagged(pos: string, ds: seq<Definition>, d: Definition, ks: seq<Line>)
    requires ks != [] && ks[0] == Untagged(d)
    ensures Block(pos, ds, ks) == Block(pos, ds + [d], ks[1..])
  {
    assert LeadSenses(ks) == [d] + LeadSenses(ks[1..]);
    assert ds + [d] + LeadSenses(ks[1..]) == ds + LeadSenses(ks);
    assert FromFirstTag(ks) == FromFirstTag(ks[1..]);
  }

  /** A tagged line ends the open group, kept when it has a sense, and opens
      its own. */
  lemma BlockEndsAtTag(pos: string, ds: seq<Definition>, ks: seq<Line>)
    requires ks != [] && ks[0].Tagged?
    ensures Block(pos, ds, ks) ==
      (if ds == [] then [] else [Meaning(pos, ds)]) + Block(ks[0].pos, ks[0].senses, ks[1..])
  {
    assert LeadSenses(ks) == [];
    assert FromFirstTag(ks) == ks;
    assert ds + [] == ds;
  }

  lemma {:induction false} FoldFromStart(ks: seq<Line>)
    requires WellFormedLines(ks)
    ensures Close(Fold(Start, ks)) == Grouped(ks)
    decreases |ks|
  {
    if ks != [] {
      assert WellFormedLine(ks[0]);
      match ks[0]
      case Blank =>
        FoldFromStart(ks[1..]);
        assert Fold(Start, ks) == Fold(Start, ks[1..]);
        assert LeadSenses(ks) == [] + LeadSenses(ks[1..]);
        assert LeadSenses(ks) == LeadSenses(ks[1..]);
        assert FromFirstTag(ks) == FromFirstTag(ks[1..]);
      case Untagged(d) =>
        FoldOpenGroup([], General, [d], ks[1..]);
      case Tagged(q, es) =>
        assert q != [] by { assert ks[0].Tagged?; }
        FoldOpenGroup([], q, es, ks[1..]);
    }
  }

  /** The parser's fold computes exactly the declarative grouping of its lines. */
  lemma ParseIsGrouping(text: string)
    ensures ParseDefinitions(text) == Grouped(ClassifyAll(Split(text, '\n')))
  {
    var ks := ClassifyAll(Split(text, '\n'));
    FoldFromStart(ks);
  }

  // ---------------------------------------------------------------------------
  // Consequences of the grouping

  function AllSenses(ks: seq<Line>): seq<Definition>
  {
    if ks == [] then [] else OwnSenses(ks[0]) + AllSenses(ks[1..])
  }

  function Senses(ms: seq<Meaning>): seq<Definition>
  {
    if ms == [] then [] else ms[0].definitions + Senses(ms[1..])
  }

  lemma {:induction false} SensesAppend(a: seq<Meaning>, b: seq<Meaning>)
    ensures Senses(a + b) == Senses(a) + Senses(b)
    decreases |a|
  {
    if a != [] {
      assert (a + b)[1..] == a[1..] + b;
      SensesAppend(a[1..], b);
    } else {
      assert a + b == b;
    }
  }

  lemma {:induction false} LeadThenRest(ks: seq<Line>)
    ensures AllSenses(ks) == LeadSenses(ks) + AllSenses(FromFirstTag(ks))
    decreases |ks|
  {
    if ks != [] && !ks[0].Tagged? {
      LeadThenRest(ks[1..]);
    }
  }

  lemma {:induction false} BlockSenses(pos: string, ds: seq<Definition>, ks: seq<Line>)
    ensures Senses(Block(pos, ds, ks)) == ds + AllSenses(ks)
    decreases |ks|, 1
  {
    var all := ds + LeadSenses(ks);
    var head: seq<Meaning> := if all == [] then [] else [Meaning(pos, all)];
    SensesAppend(head, Blocks(FromFirstTag(ks)));
    BlocksSenses(FromFirstTag(ks));
    LeadThenRest(ks);
  }

  lemma {:induction false} BlocksSenses(ks: seq<Line>)
    requires ks == [] || ks[0].Tagged?
    ensures Senses(Blocks(ks)) == AllSenses(ks)
    decreases |ks|, 0
  {
    if ks != [] {
      BlockSenses(ks[0].pos, ks[0].senses, ks[1..]);
    }
  }

  /** No sense is lost or invented: read group by group, the parser's output
      lists every sense of every line, in line order. */
  lemma ParseKeepsEverySense(text: string)
    ensures Senses(ParseDefinitions(text)) == AllSenses(ClassifyAll(Split(text, '\n')))
  {
    var ks := ClassifyAll(Split(text, '\n'));
    ParseIsGrouping(text);
    var lead := LeadSenses(ks);
    var head: seq<Meaning> := if lead == [] then [] else [Meaning(General, lead)];
    SensesAppend(head, Blocks(FromFirstTag(ks)));
    BlocksSenses(FromFirstTag(ks));
    LeadThenRest(ks);
  }

  /** Parsing finds nothing exactly when no line carries a sense. */
  lemma ParseEmptyIffNoSense(text: string)
    ensures ParseDefinitions(text) == [] <==> AllSenses(ClassifyAll(Split(text, '\n'))) == []
  {
    ParseKeepsEverySense(text);
    GroupsHaveSenses(ParseDefinitions(text));
  }

  /** Well-formed groups carry a sense exactly when there is a group. */
  lemma GroupsHaveSenses(ms: seq<Meaning>)
    requires WellFormedGroups(ms)
    ensures ms == [] <==> Senses(ms) == []
  {
    if ms != [] {
      assert ms[0].definitions != [];
      assert Senses(ms) == ms[0].definitions + Senses(ms[1..]);
    }
  }

  // ---------------------------------------------------------------------------
  // Record to WordDefinition

  /** The text the parser reads: the translation, a line break, then the
      definition; an absent or empty side is skipped. */
  function CombinedText(translation: Option<string>, definition: Option<string>): (r: Option<string>)
    ensures r.None? <==> !Truthy(translation) && !Truthy(definition)
    ensures r.Some? ==> r.value != []
  {
    if Truthy(translation) && Truthy(definition) then Some(translation.value + "\n" + definition.value)
    else if Truthy(translation) then translation
    else if Truthy(definition) then definition
    else None
  }

  /** The lines of the combined text are the translation's lines followed by
      the definition's lines. */
  lemma CombinedLines(translation: string, definition: string)
    requires translation != [] && definition != []
    ensures Split(CombinedText(Some(translation), Some(definition)).value, '\n')
         == Split(translation, '\n') + Split(definition, '\n')
  {
    SplitAnyAppend(translation, '\n', definition, {'\n'});
  }

  /** The lines of the combined text for any pair of sides: those of each
      present, non-empty side, the translation's first; an absent side adds
      nothing. */
  lemma CombinedLinesAll(t: Option<string>, d: Option<string>)
    requires Truthy(t) || Truthy(d)
    ensures Split(CombinedText(t, d).value, '\n') ==
      (if Truthy(t) then Split(t.value, '\n') else []) + (if Truthy(d) then Split(d.value, '\n') else [])
  {
    if Truthy(t) && Truthy(d) { CombinedLines(t.value, d.value); }
  }

  /** What the parser makes of a record; empty when there is no text. */
  function ParsedMeanings(rec: Record): (r: seq<Meaning>)
    ensures WellFormedGroups(r)
  {
    match CombinedText(rec.translation, rec.definition)
    case None => []
    case Some(text) => ParseDefinitions(text)
  }

  /** The single group used when parsing finds nothing. */
  function Fallback(rec: Record): (m: Meaning)
    ensures m.partOfSpeech == General && |m.definitions| == 1
    ensures m.definitions[0].definition != []
    ensures m.definitions[0].definitionChinese == rec.translation
    ensures m.definitions[0].example.None? && m.definitions[0].exampleChinese.None?
    ensures Truthy(rec.definition) ==> m.definitions[0].definition == rec.definition.value
    ensures !Truthy(rec.definition) ==> m.definitions[0].definition == NoDefinition
  {
    var text := if Truthy(rec.definition) then rec.definition.value else NoDefinition;
    Meaning(General, [Definition(text, rec.translation, None, None)])
  }

  /** `_transform_response`. */
  function TransformResponse(rec: Record): (r: WordDefinition)
    ensures r.word == rec.word
    ensures r.phonetic == FormatPhonetic(rec.phonetic)
    ensures r.chinese == ExtractChineseOnly(rec.translation)
    ensures r.meanings != []
    ensures forall i :: 0 <= i < |r.meanings| ==> r.meanings[i].partOfSpeech != [] && r.meanings[i].definitions != []
    ensures ParsedMeanings(rec) != [] ==> r.meanings == ParsedMeanings(rec)
    ensures ParsedMeanings(rec) == [] ==> r.meanings == [Fallback(rec)]
  {
    var parsed := ParsedMeanings(rec);
    var meanings := if parsed == [] then [Fallback(rec)] else parsed;
    WordDefinition(rec.word, FormatPhonetic(rec.phonetic), ExtractChineseOnly(rec.translation), meanings)
  }

  /** A record with neither translation nor definition text yields one
      `"general"` group holding the placeholder sense. */
  lemma TransformEmptyRecord(rec: Record)
    requires !Truthy(rec.translation) && !Truthy(rec.definition)
    ensures TransformResponse(rec).meanings
         == [Meaning(General, [Definition(NoDefinition, rec.translation, None, None)])]
  {
  }

  /** `DictionaryService.get_definition`: the key is lower-cased and stripped;
      a missing row (or a failing query) is the `ValueError` the callers see. */
  function GetDefinition(lookup: string -> Option<Record>, word: string): (r: Result<WordDefinition, string>)
    ensures r.Failure? <==> lookup(Strip(Lower(word))).None?
    ensures r.Failure? ==> r.error == "Word not found: " + word
    ensures r.Success? ==> r.value == TransformResponse(lookup(Strip(Lower(word))).value)
  {
    match lookup(Strip(Lower(word)))
    case None => Failure("Word not found: " + word)
    case Some(rec) => Success(TransformResponse(rec))
  }
}
