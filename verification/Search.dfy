/** The two request handlers of the search router: the simplified search,
    which picks the Chinese or the English path by the detected language, and
    the full definition, which translates every meaning. A dictionary
    `ValueError` becomes a 404 on both. */
module Search {
  import opened Optional
  import opened Text
  import opened Models
  import Dictionary
  import Translation

  // ---------------------------------------------------------------------------
  // Chinese path

  function StripEach(parts: seq<string>): (r: seq<string>)
    ensures |r| == |parts|
    ensures forall i :: 0 <= i < |parts| ==> r[i] == Strip(parts[i])
  {
    seq(|parts|, i requires 0 <= i < |parts| => Strip(parts[i]))
  }

  /** The candidate English terms of a translated query: `、` is read as `,`,
      the string is cut at every comma, each piece is stripped. Empty pieces
      are kept, so there is one term per separator plus one. */
  function CandidateTerms(translation: string): (r: seq<string>)
    ensures |r| == Count(translation, ',') + Count(translation, '、') + 1
    ensures forall i :: 0 <= i < |r| ==> IsStripped(r[i]) && ',' !in r[i] && '、' !in r[i]
  {
    var replaced := Replace(translation, '、', ',');
    ReplaceCount(translation, '、', ',');
    var parts := Split(replaced, ',');
    assert forall i :: 0 <= i < |parts| ==> '、' !in parts[i] by {
      forall i | 0 <= i < |parts| ensures '、' !in parts[i] {
        PieceOfSplit(replaced, ',', i);
      }
    }
    StripEach(parts)
  }

  /** Every piece of a split is made of characters of the split text. */
  lemma {:induction false} PieceOfSplit(s: string, sep: char, i: nat)
    requires i < |Split(s, sep)|
    ensures forall c :: c in Split(s, sep)[i] ==> c in s
    decreases |s|
  {
    if s != [] {
      var rest := SplitAny(s[1..], {sep});
      if s[0] == sep {
        if i > 0 { PieceOfSplit(s[1..], sep, i - 1); }
      } else {
        if i == 0 { PieceOfSplit(s[1..], sep, 0); }
        else { PieceOfSplit(s[1..], sep, i); }
      }
    }
  }

  /** Joining the unstripped pieces with commas gives back the translation
      with every `、` turned into `,`. */
  lemma CandidatePiecesJoin(translation: string)
    ensures Join(Split(Replace(translation, '、', ','), ','), ",") == Replace(translation, '、', ',')
  {
    SplitJoin(Replace(translation, '、', ','), ',');
  }

  /** The terms are the stripped pieces of the translation cut at every
      separator: there are pieces, free of separators, one per term, that
      join back with commas into the translation with `、` read as `,`. */
  lemma CandidateTermsPieces(translation: string)
    ensures exists ps: seq<string> ::
      && |ps| == |CandidateTerms(translation)|
      && Join(ps, ",") == Replace(translation, '、', ',')
      && forall i :: 0 <= i < |ps| ==> ',' !in ps[i] && CandidateTerms(translation)[i] == Strip(ps[i])
  {
    var ps := Split(Replace(translation, '、', ','), ',');
    CandidatePiecesJoin(translation);
    assert |ps| == |CandidateTerms(translation)|;
  }

  /** A translation without separators is one term: itself, stripped. */
  lemma CandidateTermsSingle(translation: string)
    requires ',' !in translation && '、' !in translation
    ensures CandidateTerms(translation) == [Strip(translation)]
  {
    assert Replace(translation, '、', ',') == translation;
    assert NoneIn(translation, {','});
    SplitAnyNone(translation, {','});
  }

  // ---------------------------------------------------------------------------
  // English path

  /** The Chinese renderings of a meaning's senses that are present and
      non-empty, in order. */
  function Glosses(defs: seq<Definition>): (r: seq<string>)
    ensures |r| <= |defs|
    ensures forall i :: 0 <= i < |r| ==> r[i] != []
  {
    if defs == [] then []
    else
      var own := if Truthy(defs[0].definitionChinese) then [defs[0].definitionChinese.value] else [];
      own + Glosses(defs[1..])
  }

  /** The glosses of a concatenation are the glosses of each part, in order. */
  lemma {:induction false} GlossesAppend(a: seq<Definition>, b: seq<Definition>)
    ensures Glosses(a + b) == Glosses(a) + Glosses(b)
    decreases |a|
  {
    if a == [] {
      assert a + b == b;
    } else {
      assert (a + b)[1..] == a[1..] + b;
      GlossesAppend(a[1..], b);
    }
  }

  /** A definition alone contributes its Chinese rendering exactly when that
      is present and non-empty. */
  lemma GlossesOne(d: Definition)
    ensures Glosses([d]) == if Truthy(d.definitionChinese) then [d.definitionChinese.value] else []
  {
    assert [d][1..] == [];
  }

  /** Each meaning with at least one gloss becomes its part of speech and
      its glosses joined by `"; "`; meanings without a gloss are omitted. */
  function Simplify(ms: seq<Meaning>): (r: seq<SimpleMeaning>)
    ensures |r| <= |ms|
    ensures forall i :: 0 <= i < |r| ==> r[i].meaning != []
  {
    if ms == [] then []
    else
      var gs := Glosses(ms[0].definitions);
      var head := if gs == [] then [] else [SimpleMeaning(ms[0].partOfSpeech, Join(gs, "; "))];
      assert gs != [] ==> Join(gs, "; ") != [] by {
        if gs != [] { JoinNonEmpty(gs, "; "); }
      }
      head + Simplify(ms[1..])
  }

  /** Simplify works meaning by meaning: the result for a concatenation is
      the concatenation of the results, so the kept meanings stay in order. */
  lemma {:induction false} SimplifyAppend(a: seq<Meaning>, b: seq<Meaning>)
    ensures Simplify(a + b) == Simplify(a) + Simplify(b)
    decreases |a|
  {
    if a == [] {
      assert a + b == b;
    } else {
      assert (a + b)[1..] == a[1..] + b;
      SimplifyAppend(a[1..], b);
    }
  }

  /** A meaning alone is kept exactly when it has a gloss. */
  lemma SimplifyOne(m: Meaning)
    ensures Simplify([m]) ==
      if Glosses(m.definitions) == [] then []
      else [SimpleMeaning(m.partOfSpeech, Join(Glosses(m.definitions), "; "))]
  {
    assert [m][1..] == [];
  }

  lemma {:induction false} GlossesOfSenses(defs: seq<Definition>)
    requires forall j :: 0 <= j < |defs| ==> Dictionary.IsSense(defs[j])
    ensures |Glosses(defs)| == |defs|
    decreases |defs|
  {
    if defs != [] {
      GlossesOfSenses(defs[1..]);
    }
  }

  /** Every group the parser produces has a gloss per sense, so the English
      search keeps all of them, with their parts of speech, in order. */
  lemma {:induction false} SimplifyKeepsParsedGroups(ms: seq<Meaning>)
    requires Dictionary.WellFormedGroups(ms)
    ensures |Simplify(ms)| == |ms|
    ensures forall i :: 0 <= i < |ms| ==> Simplify(ms)[i].pos == ms[i].partOfSpeech
    decreases |ms|
  {
    if ms != [] {
      GlossesOfSenses(ms[0].definitions);
      assert Dictionary.WellFormedGroups(ms[1..]) by {
        forall i | 0 <= i < |ms[1..]|
          ensures ms[1..][i].partOfSpeech != [] && ms[1..][i].definitions != []
          ensures forall j :: 0 <= j < |ms[1..][i].definitions| ==> Dictionary.IsSense(ms[1..][i].definitions[j])
        {
          assert ms[1..][i] == ms[i + 1];
        }
      }
      SimplifyKeepsParsedGroups(ms[1..]);
    }
  }

  // ---------------------------------------------------------------------------
  // Handlers

  function NotFound(message: string): HttpError {
    HttpError(404, message)
  }

  /** `search_word`. The query is stripped; the Chinese path is taken exactly
      when the detector says `zh-CN`, so Japanese and Korean queries go to the
      dictionary like English ones. */
  function SearchWord(p: Translation.Provider, lookup: string -> Option<Record>, query: string)
    : (r: Result<SearchResponse, HttpError>)
    ensures r.Success? ==>
      && r.value.query == Strip(query)
      && (r.value.isChinese <==> Translation.DetectLanguage(Strip(query)) == "zh-CN")
      && (r.value.isChinese <==> r.value.chineseResult.Some?)
      && (r.value.isChinese <==> r.value.englishResult.None?)
    ensures var q := Strip(query);
      Translation.DetectLanguage(q) == "zh-CN" ==>
        && r.Success? && r.value.chineseResult.Some?
        && r.value.chineseResult.value.translations == CandidateTerms(Translation.Translate(p, q, "zh-CN", "en"))
    ensures var q := Strip(query);
      Translation.DetectLanguage(q) != "zh-CN" ==>
        match lookup(Strip(Lower(q)))
        case None => r == Failure(HttpError(404, "Word not found: " + q))
        case Some(rec) =>
          r == Success(SearchResponse(q, false, Some(EnglishResult(
            rec.word,
            Dictionary.FormatPhonetic(rec.phonetic),
            Simplify(Dictionary.TransformResponse(rec).meanings))), None))
  {
    var q := Strip(query);
    if Translation.DetectLanguage(q) == "zh-CN" then
      var translation := Translation.Translate(p, q, "zh-CN", "en");
      Success(SearchResponse(q, true, None, Some(ChineseResult(CandidateTerms(translation)))))
    else
      match Dictionary.GetDefinition(lookup, q)
      case Failure(e) => Failure(NotFound(e))
      case Success(d) =>
        Success(SearchResponse(q, false, Some(EnglishResult(d.word, d.phonetic, Simplify(d.meanings))), None))
  }

  /** An English lookup that finds a row reports every parsed group: none is
      dropped by the collapse, and each keeps its part of speech. */
  lemma SearchEnglishKeepsGroups(p: Translation.Provider, lookup: string -> Option<Record>, query: string)
    requires Translation.DetectLanguage(Strip(query)) != "zh-CN"
    requires lookup(Strip(Lower(Strip(query)))).Some?
    requires Dictionary.ParsedMeanings(lookup(Strip(Lower(Strip(query)))).value) != []
    ensures var r := SearchWord(p, lookup, query);
      var ms := Dictionary.ParsedMeanings(lookup(Strip(Lower(Strip(query)))).value);
      && r.Success? && r.value.englishResult.Some?
      && |r.value.englishResult.value.meanings| == |ms|
      && forall i :: 0 <= i < |ms| ==> r.value.englishResult.value.meanings[i].pos == ms[i].partOfSpeech
  {
    var rec := lookup(Strip(Lower(Strip(query)))).value;
    SimplifyKeepsParsedGroups(Dictionary.ParsedMeanings(rec));
  }

  function TranslateAll(p: Translation.Provider, ms: seq<Meaning>): (r: seq<Meaning>)
    ensures |r| == |ms|
    ensures forall i :: 0 <= i < |ms| ==> r[i] == Translation.TranslateMeaning(p, ms[i], "zh-CN")
  {
    if ms == [] then [] else [Translation.TranslateMeaning(p, ms[0], "zh-CN")] + TranslateAll(p, ms[1..])
  }

  /** `get_definition`: the dictionary entry with the word translated into
      Chinese and every meaning translated, one for one and in order. */
  function GetDefinition(p: Translation.Provider, lookup: string -> Option<Record>, word: string)
    : (r: Result<WordDefinition, HttpError>)
    ensures r.Failure? <==> Dictionary.GetDefinition(lookup, word).Failure?
    ensures r.Failure? ==> r.error == HttpError(404, Dictionary.GetDefinition(lookup, word).error)
    ensures r.Success? ==>
      var d := Dictionary.GetDefinition(lookup, word).value;
      && r.value.word == d.word
      && r.value.phonetic == d.phonetic
      && r.value.chinese == Some(Translation.Translate(p, word, "en", "zh-CN"))
      && |r.value.meanings| == |d.meanings|
      && forall i :: 0 <= i < |d.meanings| ==>
           r.value.meanings[i] == Translation.TranslateMeaning(p, d.meanings[i], "zh-CN")
  {
    match Dictionary.GetDefinition(lookup, word)
    case Failure(e) => Failure(NotFound(e))
    case Success(d) =>
      var chinese := Translation.Translate(p, word, "en", "zh-CN");
      Success(WordDefinition(d.word, d.phonetic, Some(chinese), TranslateAll(p, d.meanings)))
  }
}
