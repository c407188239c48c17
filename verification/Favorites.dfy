/** The favourites service over the stored list. Loading and saving the JSON
    file is the identity on the list here, so each operation takes the
    current list and returns the list it would save; the fresh id and the
    creation instant are parameters. Words are compared case-insensitively. */
module Favorites {
  import opened Optional
  import opened Text
  import opened Models

  /** `a.lower() == b.lower()`. */
  predicate SameWord(a: string, b: string) {
    Lower(a) == Lower(b)
  }

  /** Comparing words up to case is an equivalence, and only words of the
      same length compare equal. */
  lemma SameWordEquivalence(a: string, b: string, c: string)
    ensures SameWord(a, a)
    ensures SameWord(a, b) ==> SameWord(b, a) && |a| == |b|
    ensures SameWord(a, b) && SameWord(b, c) ==> SameWord(a, c)
  {
    if SameWord(a, b) { assert |Lower(a)| == |Lower(b)|; }
  }

  /** Some favourite of the list is stored under `word`, in any case. */
  predicate HasWord(favs: seq<Favorite>, word: string) {
    exists i :: 0 <= i < |favs| && SameWord(favs[i].word, word)
  }

  /** No two favourites share a word up to case: the invariant `add` keeps. */
  predicate NoCaseDuplicates(favs: seq<Favorite>) {
    forall i, j :: 0 <= i < j < |favs| ==> !SameWord(favs[i].word, favs[j].word)
  }

  /** `favs[i]` is the first favourite stored under `word`. */
  predicate FirstMatchAt(favs: seq<Favorite>, word: string, i: int) {
    && 0 <= i < |favs|
    && SameWord(favs[i].word, word)
    && forall j :: 0 <= j < i ==> !SameWord(favs[j].word, word)
  }

  /** `check`: the first favourite stored under `word`, in any case. */
  function Check(favs: seq<Favorite>, word: string): (r: Option<Favorite>)
    ensures r.None? <==> !HasWord(favs, word)
    ensures r.Some? ==> exists i :: FirstMatchAt(favs, word, i) && favs[i] == r.value
  {
    if favs == [] then None
    else if SameWord(favs[0].word, word) then Some(favs[0])
    else
      var r := Check(favs[1..], word);
      assert HasWord(favs, word) ==> HasWord(favs[1..], word) by {
        if HasWord(favs, word) {
          var i :| 0 <= i < |favs| && SameWord(favs[i].word, word);
          assert favs[1..][i - 1] == favs[i];
        }
      }
      assert r.Some? ==> exists i :: FirstMatchAt(favs, word, i) && favs[i] == r.value by {
        if r.Some? {
          var i :| FirstMatchAt(favs[1..], word, i) && favs[1..][i] == r.value;
          assert favs[i + 1] == r.value;
          forall j | 0 <= j < i + 1 ensures !SameWord(favs[j].word, word) {
            if j > 0 { assert favs[j] == favs[1..][j - 1]; }
          }
          assert FirstMatchAt(favs, word, i + 1);
        }
      }
      r
  }

  /** `add`: an existing favourite for the word, in any case, is returned
      and the list is left as it was; otherwise a new favourite built from
      the request, with the given id and instant, goes to the front. */
  function Add(favs: seq<Favorite>, req: FavoriteCreate, id: string, now: int): (r: (Favorite, seq<Favorite>))
    ensures HasWord(favs, req.word) ==> r.1 == favs && Some(r.0) == Check(favs, req.word)
    ensures !HasWord(favs, req.word) ==>
      r.1 == [r.0] + favs && r.0 == Favorite(id, req.word, req.phonetic, req.chinese, now)
    ensures SameWord(r.0.word, req.word) && r.0 in r.1
  {
    match Check(favs, req.word)
    case Some(existing) => (existing, favs)
    case None =>
      var created := Favorite(id, req.word, req.phonetic, req.chinese, now);
      (created, [created] + favs)
  }

  /** The favourites whose id is not `id`, in their order. */
  function WithoutId(favs: seq<Favorite>, id: string): (r: seq<Favorite>)
    ensures |r| <= |favs|
    ensures forall f :: f in r <==> f in favs && f.id != id
    ensures |r| == |favs| <==> forall i :: 0 <= i < |favs| ==> favs[i].id != id
  {
    if favs == [] then []
    else
      var rest := WithoutId(favs[1..], id);
      assert forall f :: f in favs <==> f == favs[0] || f in favs[1..];
      assert (forall i :: 0 <= i < |favs| ==> favs[i].id != id) <==>
        favs[0].id != id && forall i :: 0 <= i < |favs[1..]| ==> favs[1..][i].id != id by {
        forall i | 1 <= i < |favs| ensures favs[i] == favs[1..][i - 1] { }
      }
      if favs[0].id == id then rest else [favs[0]] + rest
  }

  /** `remove`: drops every favourite with the id and reports whether the
      list got shorter, which is exactly when one had the id. */
  function Remove(favs: seq<Favorite>, id: string): (r: (bool, seq<Favorite>))
    ensures r.0 <==> exists i :: 0 <= i < |favs| && favs[i].id == id
    ensures forall f :: f in r.1 <==> f in favs && f.id != id
    ensures !r.0 ==> r.1 == favs
    ensures r.1 == WithoutId(favs, id)
  {
    var kept := WithoutId(favs, id);
    if |kept| < |favs| then (true, kept)
    else
      assert kept == favs by { KeepAll(favs, id); }
      (false, kept)
  }

  /** Filtering a list none of whose ids match gives the list back. */
  lemma {:induction false} KeepAll(favs: seq<Favorite>, id: string)
    requires forall i :: 0 <= i < |favs| ==> favs[i].id != id
    ensures WithoutId(favs, id) == favs
    decreases |favs|
  {
    if favs != [] {
      KeepAll(favs[1..], id);
      assert [favs[0]] + favs[1..] == favs;
    }
  }

  /** The filter keeps the relative order: it distributes over `+`. */
  lemma {:induction false} WithoutIdAppend(a: seq<Favorite>, b: seq<Favorite>, id: string)
    ensures WithoutId(a + b, id) == WithoutId(a, id) + WithoutId(b, id)
    decreases |a|
  {
    if a == [] {
      assert a + b == b;
    } else {
      assert (a + b)[1..] == a[1..] + b;
      WithoutIdAppend(a[1..], b, id);
    }
  }

  /** After `add`, `check` finds a favourite for the word. */
  lemma AddThenCheck(favs: seq<Favorite>, req: FavoriteCreate, id: string, now: int)
    ensures var (f, after) := Add(favs, req, id, now);
      Check(after, req.word).Some? && SameWord(Check(after, req.word).value.word, req.word)
  {
    var (f, after) := Add(favs, req, id, now);
    var k :| 0 <= k < |after| && after[k] == f;
    assert HasWord(after, req.word);
  }

  /** Adding the same word again, in any case, changes nothing and returns
      the favourite the first call returned. */
  lemma AddIdempotent(favs: seq<Favorite>, req: FavoriteCreate, again: FavoriteCreate,
                      id: string, id2: string, now: int, now2: int)
    requires SameWord(again.word, req.word)
    ensures var (f, after) := Add(favs, req, id, now);
      Add(after, again, id2, now2) == (f, after)
  {
    var (f, after) := Add(favs, req, id, now);
    var k :| 0 <= k < |after| && after[k] == f;
    assert SameWord(after[k].word, again.word);
    assert HasWord(after, again.word);
    if HasWord(favs, req.word) {
      var i :| 0 <= i < |favs| && SameWord(favs[i].word, req.word);
      assert SameWord(favs[i].word, again.word);
      var c := Check(favs, again.word).value;
      var ci :| FirstMatchAt(favs, again.word, ci) && favs[ci] == c;
      var d := Check(favs, req.word).value;
      var di :| FirstMatchAt(favs, req.word, di) && favs[di] == d;
      assert !(ci < di) && !(di < ci);
    } else {
      assert after[0] == f;
      assert Check(after, again.word) == Some(f);
    }
  }

  /** `add` keeps the list free of case-insensitive duplicates. */
  lemma AddKeepsNoCaseDuplicates(favs: seq<Favorite>, req: FavoriteCreate, id: string, now: int)
    requires NoCaseDuplicates(favs)
    ensures NoCaseDuplicates(Add(favs, req, id, now).1)
  {
    var (f, after) := Add(favs, req, id, now);
    if !HasWord(favs, req.word) {
      forall i, j | 0 <= i < j < |after| ensures !SameWord(after[i].word, after[j].word) {
        assert after[j] == favs[j - 1];
        if i > 0 { assert after[i] == favs[i - 1]; }
      }
    }
  }

  /** Filtering by id keeps the list free of case-insensitive duplicates. */
  lemma {:induction false} WithoutIdKeepsNoCaseDuplicates(favs: seq<Favorite>, id: string)
    requires NoCaseDuplicates(favs)
    ensures NoCaseDuplicates(WithoutId(favs, id))
    decreases |favs|
  {
    if favs != [] {
      NoCaseDuplicatesUncons(favs);
      WithoutIdKeepsNoCaseDuplicates(favs[1..], id);
      if favs[0].id != id {
        NoCaseDuplicatesCons(favs[0], WithoutId(favs[1..], id));
      }
    }
  }

  /** A duplicate-free list is its head, which shares no word with the tail,
      followed by a duplicate-free tail. */
  lemma NoCaseDuplicatesUncons(favs: seq<Favorite>)
    requires favs != [] && NoCaseDuplicates(favs)
    ensures NoCaseDuplicates(favs[1..])
    ensures forall g :: g in favs[1..] ==> !SameWord(favs[0].word, g.word)
  {
    var tail := favs[1..];
    forall i, j | 0 <= i < j < |tail| ensures !SameWord(tail[i].word, tail[j].word) {
      assert tail[i] == favs[i + 1] && tail[j] == favs[j + 1];
    }
    forall g | g in tail ensures !SameWord(favs[0].word, g.word) {
      var k :| 0 <= k < |tail| && tail[k] == g;
      assert favs[k + 1] == g;
    }
  }

  /** The converse: a head sharing no word with a duplicate-free tail. */
  lemma NoCaseDuplicatesCons(f: Favorite, rest: seq<Favorite>)
    requires NoCaseDuplicates(rest)
    requires forall g :: g in rest ==> !SameWord(f.word, g.word)
    ensures NoCaseDuplicates([f] + rest)
  {
    var r := [f] + rest;
    forall i, j | 0 <= i < j < |r| ensures !SameWord(r[i].word, r[j].word) {
      assert r[j] == rest[j - 1];
      if i == 0 {
        assert r[j] in rest;
      } else {
        assert r[i] == rest[i - 1];
      }
    }
  }

  lemma RemoveKeepsNoCaseDuplicates(favs: seq<Favorite>, id: string)
    requires NoCaseDuplicates(favs)
    ensures NoCaseDuplicates(Remove(favs, id).1)
  {
    WithoutIdKeepsNoCaseDuplicates(favs, id);
  }

  /** Adding a new word under an id nobody holds and then removing that id
      gives back the original list, and the removal reports success. */
  lemma AddRemoveRoundTrip(favs: seq<Favorite>, req: FavoriteCreate, id: string, now: int)
    requires !HasWord(favs, req.word)
    requires forall i :: 0 <= i < |favs| ==> favs[i].id != id
    ensures Remove(Add(favs, req, id, now).1, id) == (true, favs)
  {
    var (f, after) := Add(favs, req, id, now);
    WithoutIdAppend([f], favs, id);
    KeepAll(favs, id);
    assert WithoutId([f], id) == [];
    assert WithoutId(after, id) == favs;
  }

  /** A second removal of the same id finds nothing and changes nothing. */
  lemma RemoveTwice(favs: seq<Favorite>, id: string)
    ensures var after := Remove(favs, id).1;
      Remove(after, id) == (false, after)
  {
    var after := Remove(favs, id).1;
    forall i | 0 <= i < |after| ensures after[i].id != id {
      assert after[i] in after;
    }
  }
}
