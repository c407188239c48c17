/** The translation service: script-based language detection, single and
    batch translation with per-item fallback, and the flatten/scatter that
    translates every definition and example of a `Meaning` in one batch.
    The Google Translate client is a `Provider`: it receives the text, the
    source code and the target code, and returns `None` where the client
    would raise. The batch runs its calls concurrently, but `asyncio.gather`
    keeps input order, so the batch is a map over the sequence. */
module Translation {
  import opened Optional
  import opened Text
  import opened Models

  type Provider = (string, string, string) -> Option<string>

  // ---------------------------------------------------------------------------
  // Language detection

  /** `re.search('[lo-hi]', s)` for one character range. */
  function ContainsInRange(s: string, lo: char, hi: char): (b: bool)
    ensures b <==> exists i :: 0 <= i < |s| && lo <= s[i] <= hi
  {
    if s == [] then false
    else if lo <= s[0] <= hi then true
    else
      var b := ContainsInRange(s[1..], lo, hi);
      assert b ==> exists i :: 0 <= i < |s| && lo <= s[i] <= hi by {
        if b {
          var j :| 0 <= j < |s[1..]| && lo <= s[1..][j] <= hi;
          assert s[j + 1] == s[1..][j];
        }
      }
      b
  }

  /** The CJK unified ideographs the source checks: U+4E00 to U+9FA5. */
  predicate IsHan(c: char) { '\U{4E00}' <= c <= '\U{9FA5}' }

  /** Hiragana and katakana: U+3040 to U+30FF. */
  predicate IsKana(c: char) { '\U{3040}' <= c <= '\U{30FF}' }

  /** Hangul syllables: U+AC00 to U+D7AF. */
  predicate IsHangul(c: char) { '\U{AC00}' <= c <= '\U{D7AF}' }

  /** The language code of a query, decided by the first script class, in
      the order Chinese, Japanese, Korean, that occurs anywhere in it;
      English otherwise. Every text gets exactly one code. */
  function DetectLanguage(text: string): (code: string)
    ensures code == "zh-CN" <==> exists i :: 0 <= i < |text| && IsHan(text[i])
    ensures code == "ja" <==>
      && (forall i :: 0 <= i < |text| ==> !IsHan(text[i]))
      && (exists i :: 0 <= i < |text| && IsKana(text[i]))
    ensures code == "ko" <==>
      && (forall i :: 0 <= i < |text| ==> !IsHan(text[i]) && !IsKana(text[i]))
      && (exists i :: 0 <= i < |text| && IsHangul(text[i]))
    ensures code == "en" <==>
      forall i :: 0 <= i < |text| ==> !IsHan(text[i]) && !IsKana(text[i]) && !IsHangul(text[i])
  {
    if ContainsInRange(text, '\U{4E00}', '\U{9FA5}') then "zh-CN"
    else if ContainsInRange(text, '\U{3040}', '\U{309F}') || ContainsInRange(text, '\U{30A0}', '\U{30FF}') then "ja"
    else if ContainsInRange(text, '\U{AC00}', '\U{D7AF}') then "ko"
    else "en"
  }

  /** The table of `_convert_lang_code`. */
  const LangCodes: map<string, string> :=
    map["zh-CN" := "zh-CN", "en" := "en", "ja" := "ja", "ko" := "ko", "auto" := "auto"]

  /** Every entry of the table maps a code to itself and unknown codes pass
      through, so the conversion is the identity. */
  function ConvertLangCode(code: string): (r: string)
    ensures r == code
  {
    if code in LangCodes then LangCodes[code] else code
  }

  // ---------------------------------------------------------------------------
  // Translation with fallback

  /** One provider call with the fallback of the source: the original text
      when the call fails. */
  function Attempt(p: Provider, text: string, source: string, target: string): (r: string)
    ensures p(text, source, target).Some? ==> r == p(text, source, target).value
    ensures p(text, source, target).None? ==> r == text
  {
    match p(text, source, target)
    case Some(t) => t
    case None => text
  }

  /** `translate`: the provider's result, or the original text when it fails.
      The provider sees the caller's own language codes. */
  function Translate(p: Provider, text: string, src: string, dest: string): (r: string)
    ensures p(text, src, dest).Some? ==> r == p(text, src, dest).value
    ensures p(text, src, dest).None? ==> r == text
  {
    var source := if src == "auto" then "auto" else ConvertLangCode(src);
    var target := ConvertLangCode(dest);
    Attempt(p, text, source, target)
  }

  /** The gathered per-item calls, in input order. */
  function Gather(p: Provider, texts: seq<string>, source: string, target: string): (r: seq<string>)
    ensures |r| == |texts|
    ensures forall i :: 0 <= i < |texts| ==> r[i] == Attempt(p, texts[i], source, target)
  {
    if texts == [] then []
    else [Attempt(p, texts[0], source, target)] + Gather(p, texts[1..], source, target)
  }

  /** `translate_batch`: one result per input, in order. Item `i` is the
      provider's translation of `texts[i]`, or `texts[i]` itself when that
      one call failed; a failure never touches any other item. */
  function TranslateBatch(p: Provider, texts: seq<string>, src: string, dest: string): (r: seq<string>)
    ensures |r| == |texts|
    ensures forall i :: 0 <= i < |texts| ==>
      r[i] == (if p(texts[i], src, dest).Some? then p(texts[i], src, dest).value else texts[i])
  {
    if texts == [] then []
    else Gather(p, texts, ConvertLangCode(src), ConvertLangCode(dest))
  }

  /** A provider that fails on exactly one input leaves that item as it was
      and translates every other one. */
  lemma BatchSingleFailure(p: Provider, texts: seq<string>, src: string, dest: string, k: nat)
    requires k < |texts|
    requires p(texts[k], src, dest).None?
    requires forall i :: 0 <= i < |texts| && i != k ==> p(texts[i], src, dest).Some?
    ensures var r := TranslateBatch(p, texts, src, dest);
      && |r| == |texts|
      && r[k] == texts[k]
      && forall i :: 0 <= i < |texts| && i != k ==> r[i] == p(texts[i], src, dest).value
  {
  }

  // ---------------------------------------------------------------------------
  // Translating a Meaning: flatten, batch, scatter

  /** A definition whose example is present and non-empty, which is what
      `if definition.example:` tests. */
  predicate HasExample(d: Definition) {
    Truthy(d.example)
  }

  /** Batch slots one definition uses: its text, then its example if any. */
  function Slots(d: Definition): nat {
    if HasExample(d) then 2 else 1
  }

  function SlotCount(defs: seq<Definition>): nat
  {
    if defs == [] then 0 else Slots(defs[0]) + SlotCount(defs[1..])
  }

  /** Index of the first slot of `defs[i]`. */
  function Offset(defs: seq<Definition>, i: nat): (k: nat)
    requires i < |defs|
    ensures k + Slots(defs[i]) <= SlotCount(defs)
  {
    if i == 0 then 0 else Slots(defs[0]) + Offset(defs[1..], i - 1)
  }

  /** The first definition starts at slot 0, and each later one right after
      the slots of the one before it. */
  lemma {:induction false} OffsetNext(defs: seq<Definition>, i: nat)
    requires i + 1 < |defs|
    ensures Offset(defs, 0) == 0
    ensures Offset(defs, i + 1) == Offset(defs, i) + Slots(defs[i])
    decreases i
  {
    if i > 0 {
      OffsetNext(defs[1..], i - 1);
      assert defs[1..][i - 1] == defs[i];
    }
  }

  /** The texts to translate: each definition's text, then its example when
      it has one, in definition order. */
  function Flatten(defs: seq<Definition>): (texts: seq<string>)
    ensures |texts| == SlotCount(defs)
    ensures forall i :: 0 <= i < |defs| ==> texts[Offset(defs, i)] == defs[i].definition
    ensures forall i :: 0 <= i < |defs| && HasExample(defs[i]) ==>
      texts[Offset(defs, i) + 1] == defs[i].example.value
  {
    if defs == [] then []
    else
      var d := defs[0];
      var head := if HasExample(d) then [d.definition, d.example.value] else [d.definition];
      var rest := Flatten(defs[1..]);
      assert forall i :: 1 <= i < |defs| ==> Offset(defs, i) == |head| + Offset(defs[1..], i - 1);
      assert forall i :: 1 <= i < |defs| ==> defs[i] == defs[1..][i - 1];
      head + rest
  }

  /** A definition with its translations read from slot `k` on: the text's
      translation at `k`, the example's at `k + 1` when it has one. */
  function Fill(d: Definition, ts: seq<string>, k: nat): (r: Definition)
    requires k + Slots(d) <= |ts|
    ensures r.definition == d.definition && r.example == d.example
    ensures r.definitionChinese == Some(ts[k])
    ensures r.exampleChinese.Some? <==> HasExample(d)
    ensures HasExample(d) ==> r.exampleChinese == Some(ts[k + 1])
  {
    Definition(d.definition, Some(ts[k]), d.example, if HasExample(d) then Some(ts[k + 1]) else None)
  }

  /** Puts the translations back, reading slots in the order Flatten wrote
      them; `None` where the source would index past the end of the list. */
  function Scatter(defs: seq<Definition>, ts: seq<string>): (r: Option<seq<Definition>>)
    ensures r.Some? <==> |ts| >= SlotCount(defs)
    ensures r.Some? ==> |r.value| == |defs|
    ensures r.Some? ==> forall i :: 0 <= i < |defs| ==> r.value[i] == Fill(defs[i], ts, Offset(defs, i))
  {
    if defs == [] then Some([])
    else
      var d := defs[0];
      if |ts| < Slots(d) then None
      else
        match Scatter(defs[1..], ts[Slots(d)..])
        case None => None
        case Some(rest) =>
          ScatterCons(defs, ts, rest);
          Some([Fill(d, ts, 0)] + rest)
  }

  /** The first definition takes the first slots; the rest were scattered
      from the slots after them. */
  lemma ScatterCons(defs: seq<Definition>, ts: seq<string>, rest: seq<Definition>)
    requires defs != [] && |ts| >= SlotCount(defs)
    requires |rest| == |defs| - 1
    requires forall i :: 0 <= i < |rest| ==>
      rest[i] == Fill(defs[1..][i], ts[Slots(defs[0])..], Offset(defs[1..], i))
    ensures var r := [Fill(defs[0], ts, 0)] + rest;
      forall i :: 0 <= i < |defs| ==> r[i] == Fill(defs[i], ts, Offset(defs, i))
  {
    var r := [Fill(defs[0], ts, 0)] + rest;
    forall i | 1 <= i < |defs| ensures r[i] == Fill(defs[i], ts, Offset(defs, i)) {
      assert r[i] == rest[i - 1];
      assert defs[1..][i - 1] == defs[i];
      FillShift(defs[i], ts, Slots(defs[0]), Offset(defs[1..], i - 1));
    }
  }

  /** Reading from a suffix of the slots is reading further along. */
  lemma FillShift(d: Definition, ts: seq<string>, s: nat, k: nat)
    requires s + k + Slots(d) <= |ts|
    ensures Fill(d, ts[s..], k) == Fill(d, ts, s + k)
  {
  }

  /** Scattering the flattened texts themselves fills every translation slot
      with the text it came from: the scatter inverts the flatten. */
  lemma ScatterFlatten(defs: seq<Definition>)
    ensures Scatter(defs, Flatten(defs)).Some?
    ensures forall i :: 0 <= i < |defs| ==>
      Scatter(defs, Flatten(defs)).value[i] == Definition(
        defs[i].definition,
        Some(defs[i].definition),
        defs[i].example,
        if HasExample(defs[i]) then defs[i].example else None)
  {
  }

  /** `translate_meaning` (target `dest`, source English). The catch-all
      `except` of the source cannot fire: the batch returns exactly as many
      strings as were flattened, so the scatter never runs out. */
  function TranslateMeaning(p: Provider, m: Meaning, dest: string): (r: Meaning)
    ensures r.partOfSpeech == m.partOfSpeech
    ensures |r.definitions| == |m.definitions|
    ensures forall i :: 0 <= i < |m.definitions| ==>
      var d := m.definitions[i];
      r.definitions[i] == Definition(
        d.definition,
        Some(Attempt(p, d.definition, "en", dest)),
        d.example,
        if HasExample(d) then Some(Attempt(p, d.example.value, "en", dest)) else None)
  {
    var texts := Flatten(m.definitions);
    var translations := TranslateBatch(p, texts, "en", dest);
    match Scatter(m.definitions, translations)
    case None => assert false; m
    case Some(defs) => Meaning(m.partOfSpeech, defs)
  }

  /** Clears the translated fields. */
  function Untranslated(m: Meaning): Meaning
  {
    Meaning(m.partOfSpeech, seq(|m.definitions|, i requires 0 <= i < |m.definitions| =>
      m.definitions[i].(definitionChinese := None, exampleChinese := None)))
  }

  /** Translating a meaning and then discarding the translated fields gives
      back the meaning with its translated fields discarded: structure,
      order, texts and examples are untouched. */
  lemma TranslateMeaningRoundTrip(p: Provider, m: Meaning, dest: string)
    ensures Untranslated(TranslateMeaning(p, m, dest)) == Untranslated(m)
  {
    var r := TranslateMeaning(p, m, dest);
    assert Untranslated(r).definitions == Untranslated(m).definitions;
  }
}
