/** The few Python `str` operations the services rely on: `isspace`, `strip`,
    `split`, `join`, `replace` and `lower`, written over `seq<char>`. */
module Text {
  import opened Optional

  /** Python's `str.isspace()` for one character: the code point lies in one
      of the ten ranges below, tried from `k` on. The regex class `\s` of a
      `str` pattern matches exactly these, and `str.strip()` removes them. */
  function SpaceFrom(c: char, k: nat): bool
    decreases 10 - k
  {
    if k >= 10 then false
    else
      var first := "\t\U{1C}\U{85}\U{A0}\U{1680}\U{2000}\U{2028}\U{202F}\U{205F}\U{3000}"[k];
      var last := "\r \U{85}\U{A0}\U{1680}\U{200A}\U{2029}\U{202F}\U{205F}\U{3000}"[k];
      (first <= c <= last) || SpaceFrom(c, k + 1)
  }

  predicate IsSpace(c: char) {
    SpaceFrom(c, 0)
  }

  predicate AllSpace(s: string) {
    forall i :: 0 <= i < |s| ==> IsSpace(s[i])
  }

  /** No whitespace at either end: what `strip()` leaves. */
  predicate IsStripped(s: string) {
    s == [] || (!IsSpace(s[0]) && !IsSpace(s[|s| - 1]))
  }

  predicate IsAsciiLetter(c: char) {
    ('a' <= c <= 'z') || ('A' <= c <= 'Z')
  }

  predicate AllLetters(s: string) {
    forall i :: 0 <= i < |s| ==> IsAsciiLetter(s[i])
  }

  /** Python truthiness of an `Optional[str]`: present and non-empty. */
  predicate Truthy(o: Option<string>) {
    o.Some? && o.value != []
  }

  /** True iff no character of `s` lies in `cs`. */
  predicate NoneIn(s: string, cs: set<char>) {
    forall i :: 0 <= i < |s| ==> s[i] !in cs
  }

  function LowerChar(c: char): char {
    if 'A' <= c <= 'Z' then (c as int + 32) as char else c
  }

  /** `str.lower()` on ASCII letters; every other character is kept. */
  function Lower(s: string): (r: string)
    ensures |r| == |s|
    ensures forall i :: 0 <= i < |s| ==> r[i] == LowerChar(s[i])
  {
    seq(|s|, i requires 0 <= i < |s| => LowerChar(s[i]))
  }

  /** `lstrip()`: drops the leading whitespace run. */
  function TrimStart(s: string): (r: string)
    ensures |r| <= |s| && r == s[|s| - |r|..]
    ensures AllSpace(s[..|s| - |r|])
    ensures r == [] || !IsSpace(r[0])
  {
    if s != [] && IsSpace(s[0]) then TrimStart(s[1..]) else s
  }

  /** `rstrip()`: drops the trailing whitespace run. */
  function TrimEnd(s: string): (r: string)
    ensures |r| <= |s| && r == s[..|r|]
    ensures AllSpace(s[|r|..])
    ensures r == [] || !IsSpace(r[|r| - 1])
  {
    if s != [] && IsSpace(s[|s| - 1]) then
      var init := s[..|s| - 1];
      var r := TrimEnd(init);
      assert s[|r|..] == init[|r|..] + [s[|s| - 1]];
      assert init[..|r|] == s[..|r|];
      r
    else s
  }

  /** `strip()`. */
  function Strip(s: string): (r: string)
    ensures IsStripped(r)
    ensures r == [] <==> AllSpace(s)
    ensures forall c :: c in r ==> c in s
  {
    var t := TrimStart(s);
    var r := TrimEnd(t);
    assert r == [] ==> AllSpace(t) by {
      if r == [] { assert t[|r|..] == t; }
    }
    assert AllSpace(s) ==> t == [];
    assert t == [] ==> AllSpace(s) by {
      if t == [] { assert s[..|s|] == s; }
    }
    r
  }

  /** Stripping adds no character. */
  lemma StripNoneIn(s: string, cs: set<char>)
    requires NoneIn(s, cs)
    ensures NoneIn(Strip(s), cs)
  {
    var p := Strip(s);
    forall i | 0 <= i < |p| ensures p[i] !in cs {
      assert p[i] in p;
      var j :| 0 <= j < |s| && s[j] == p[i];
    }
  }

  lemma {:induction false} TrimStartSpaces(lead: string, m: string)
    requires AllSpace(lead)
    requires m == [] || !IsSpace(m[0])
    ensures TrimStart(lead + m) == m
    decreases |lead|
  {
    if lead != [] {
      assert (lead + m)[1..] == lead[1..] + m;
      TrimStartSpaces(lead[1..], m);
    } else {
      assert lead + m == m;
    }
  }

  lemma {:induction false} TrimEndSpaces(m: string, trail: string)
    requires AllSpace(trail)
    requires m == [] || !IsSpace(m[|m| - 1])
    ensures TrimEnd(m + trail) == m
    decreases |trail|
  {
    if trail != [] {
      var t := trail[..|trail| - 1];
      assert (m + trail)[..|m + trail| - 1] == m + t;
      TrimEndSpaces(m, t);
    } else {
      assert m + trail == m;
    }
  }

  /** `strip()` removes exactly the surrounding whitespace: any text with
      non-space ends, padded by whitespace on both sides, comes back. */
  lemma StripExact(lead: string, m: string, trail: string)
    requires AllSpace(lead) && AllSpace(trail)
    requires IsStripped(m)
    ensures Strip(lead + m + trail) == m
  {
    if m == [] {
      assert AllSpace(lead + m + trail) by {
        var s := lead + m + trail;
        forall i | 0 <= i < |s| ensures IsSpace(s[i]) {
          if i < |lead| { assert s[i] == lead[i]; } else { assert s[i] == trail[i - |lead|]; }
        }
      }
    } else {
      assert lead + m + trail == lead + (m + trail);
      TrimStartSpaces(lead, m + trail);
      TrimEndSpaces(m, trail);
    }
  }

  /** Number of characters of `s` that lie in `cs`. */
  function CountIn(s: string, cs: set<char>): nat
  {
    if s == [] then 0 else (if s[0] in cs then 1 else 0) + CountIn(s[1..], cs)
  }

  function Count(s: string, c: char): nat
  {
    CountIn(s, {c})
  }

  /** One character in front of a list of pieces: a separator opens a new,
      empty first piece; any other character joins the first piece. */
  function Push(x: char, isSep: bool, pieces: seq<string>): (r: seq<string>)
    requires pieces != []
    ensures r != [] && r[1..] == (if isSep then pieces else pieces[1..])
  {
    if isSep then [[]] + pieces else [[x] + pieces[0]] + pieces[1..]
  }

  /** `re.split('[...]', s)` for a character class `seps`; `str.split(c)`
      is the case of a single separator. The pieces are the maximal runs
      between separators, empty runs included. */
  function SplitAny(s: string, seps: set<char>): (parts: seq<string>)
    ensures |parts| == CountIn(s, seps) + 1
    ensures forall i :: 0 <= i < |parts| ==> NoneIn(parts[i], seps)
  {
    if s == [] then [[]]
    else
      var rest := SplitAny(s[1..], seps);
      var r := Push(s[0], s[0] in seps, rest);
      assert forall i :: 1 <= i < |r| ==> r[i] == r[1..][i - 1];
      r
  }

  /** `str.split(sep)` with a one-character separator. */
  function Split(s: string, sep: char): (parts: seq<string>)
    ensures |parts| == Count(s, sep) + 1
    ensures forall i :: 0 <= i < |parts| ==> sep !in parts[i]
  {
    var parts := SplitAny(s, {sep});
    assert forall i :: 0 <= i < |parts| ==> sep !in parts[i] by {
      forall i | 0 <= i < |parts| ensures sep !in parts[i] {
        assert NoneIn(parts[i], {sep});
      }
    }
    parts
  }

  /** `sep.join(xs)`. */
  function Join(xs: seq<string>, sep: string): string
  {
    if xs == [] then []
    else if |xs| == 1 then xs[0]
    else xs[0] + sep + Join(xs[1..], sep)
  }

  lemma JoinNonEmpty(xs: seq<string>, sep: string)
    requires xs != [] && xs[0] != []
    ensures Join(xs, sep) != []
  {
  }

  /** Splitting on one separator and joining back with it is the identity. */
  lemma {:induction false} SplitJoin(s: string, sep: char)
    ensures Join(Split(s, sep), [sep]) == s
    decreases |s|
  {
    if s != [] {
      var rest := SplitAny(s[1..], {sep});
      SplitJoin(s[1..], sep);
      assert Join(rest, [sep]) == s[1..];
      if s[0] == sep {
        assert SplitAny(s, {sep}) == [[]] + rest;
        assert ([[]] + rest)[1..] == rest;
        assert Join([[]] + rest, [sep]) == [] + [sep] + Join(rest, [sep]);
        assert s == [s[0]] + s[1..];
      } else {
        var parts := [[s[0]] + rest[0]] + rest[1..];
        assert SplitAny(s, {sep}) == parts;
        if |rest| == 1 {
          assert Join(parts, [sep]) == [s[0]] + rest[0];
          assert s == [s[0]] + s[1..];
        } else {
          assert parts[1..] == rest[1..];
          assert Join(rest, [sep]) == rest[0] + [sep] + Join(rest[1..], [sep]);
          assert Join(parts, [sep]) == [s[0]] + rest[0] + [sep] + Join(rest[1..], [sep]);
          assert s == [s[0]] + s[1..];
        }
      }
    }
  }

  /** One step of the split: the first character is pushed onto the pieces
      of the rest. */
  lemma SplitAnyCons(x: char, s: string, seps: set<char>)
    ensures SplitAny([x] + s, seps) == Push(x, x in seps, SplitAny(s, seps))
  {
    assert ([x] + s)[1..] == s;
  }

  /** Pushing a character in front commutes with appending more pieces. */
  lemma PushAppend(x: char, isSep: bool, ra: seq<string>, rb: seq<string>)
    requires ra != []
    ensures Push(x, isSep, ra + rb) == Push(x, isSep, ra) + rb
  {
    assert (ra + rb)[0] == ra[0];
    assert (ra + rb)[1..] == ra[1..] + rb;
  }

  /** A separator splits the text into the pieces before it followed by
      the pieces after it: the pieces keep their left-to-right order. */
  lemma {:induction false} SplitAnyAppend(a: string, c: char, b: string, seps: set<char>)
    requires c in seps
    ensures SplitAny(a + [c] + b, seps) == SplitAny(a, seps) + SplitAny(b, seps)
    decreases |a|
  {
    if a == [] {
      assert a + [c] + b == [c] + b;
      SplitAnyCons(c, b, seps);
    } else {
      var u := a[1..] + [c] + b;
      assert a + [c] + b == [a[0]] + u;
      assert a == [a[0]] + a[1..];
      SplitAnyAppend(a[1..], c, b, seps);
      SplitAnyCons(a[0], u, seps);
      SplitAnyCons(a[0], a[1..], seps);
      PushAppend(a[0], a[0] in seps, SplitAny(a[1..], seps), SplitAny(b, seps));
    }
  }

  lemma AppendAssoc<T>(x: seq<T>, y: seq<T>, z: seq<T>)
    ensures x + (y + z) == (x + y) + z
  {
  }

  /** Text without separators is a single piece: itself. */
  lemma {:induction false} SplitAnyNone(s: string, seps: set<char>)
    requires NoneIn(s, seps)
    ensures SplitAny(s, seps) == [s]
    decreases |s|
  {
    if s != [] {
      assert s == [s[0]] + s[1..];
      SplitAnyNone(s[1..], seps);
      SplitAnyCons(s[0], s[1..], seps);
    }
  }

  /** `str.replace(from, to)` for single characters. */
  function Replace(s: string, from: char, to: char): (r: string)
    ensures |r| == |s|
    ensures forall i :: 0 <= i < |s| ==> r[i] == (if s[i] == from then to else s[i])
  {
    seq(|s|, i requires 0 <= i < |s| => if s[i] == from then to else s[i])
  }

  /** After replacing `from` by `to`, the occurrences of `to` are those of
      both characters in the original. */
  lemma {:induction false} ReplaceCount(s: string, from: char, to: char)
    requires from != to
    ensures Count(Replace(s, from, to), to) == Count(s, from) + Count(s, to)
    ensures from !in Replace(s, from, to)
    decreases |s|
  {
    var r := Replace(s, from, to);
    if s != [] {
      ReplaceCount(s[1..], from, to);
      assert r[1..] == Replace(s[1..], from, to);
    }
  }
}
