# air-dirct dictionary server core, modelled in Dafny

air-dirct is a small English–Chinese dictionary server. This project models four
parts of its core as pure functions and proves properties of them:

- **Dictionary service.** This is the pipeline from a `stardict` row to a
  `WordDefinition`. It covers:
  - phonetic formatting;
  - extraction of the Chinese gloss;
  - the part-of-speech table;
  - the line parser that groups senses by part of speech.

  The parser is written as the source writes it: strip each line, match the tag
  regex, then run a left fold over the loop variables. It is then proved equal
  to a declarative grouping, `Dictionary.Grouped`:
  - untagged lines before the first tag form a `general` group;
  - each tagged line forms one group together with the untagged lines that
    follow it;
  - groups without senses are dropped;
  - no sense is lost or invented.
- **Translation service.** This covers:
  - script-based language detection;
  - translation with a fallback to the original text;
  - the batch, where each item falls back on its own;
  - the flatten/batch/scatter that translates every definition and example of
    a `Meaning`.

  The scatter is proved to invert the flatten. The catch-all `except` of
  `translate_meaning` is proved unreachable.
- **Search handlers.** These are `search_word`, with its Chinese path and its
  English path, and `get_definition`.
- **Favourites service.** These are `add`, `remove` and `check` over the stored
  list. `add` is proved idempotent and to keep the list free of words that
  differ only in letter case. `add` followed by `remove` of the new id is proved
  to give back the original list.

Python semantics are written out explicitly:

- `Text.IsSpace` is the exact `str.isspace` set. That set is also what `\s`
  matches and what `strip()` removes.
- `str.split` keeps empty pieces.
- The truthiness of an `Optional[str]` is `Text.Truthy`.
- A regex split on a character class is `Text.SplitAny`.

The SQLite lookup is a parameter, `lookup: string -> Option<Record>`. The Google
Translate client is also a parameter, `Translation.Provider`. It maps text, a
source code and a target code to `Some(translation)`, or to `None` where the
client raises. For favourites, the fresh id (`uuid4()`) and the creation
instant (`datetime.now()`) are parameters. Loading and saving the JSON file is
the identity on the list.

Modules:

| module | contents |
|---|---|
| `Optional` | `Option` and `Result` |
| `Text` | the Python `str` operations the services use |
| `Models` | the records |
| `Dictionary` | the dictionary service |
| `DictionaryExamples` | the service on the samples in its own docstrings |
| `Translation` | the translation service |
| `Search` | the search handlers |
| `Favorites` | the favourites service |

## Model

| member | source | states |
|---|---|---|
| Dictionary.FormatPhonetic | server/services/dictionary.py:108-115 | `None` exactly when the phonetic is absent or empty. Otherwise the result starts with `/` and is the raw value or the raw value wrapped in slashes. |
| Dictionary.FormatPhoneticIdempotent | server/services/dictionary.py:108-115 | Formatting an already formatted phonetic changes nothing. |
| Dictionary.FormatPhoneticUnwrap | server/services/dictionary.py:112-115 | A value without a leading `/` gains exactly one slash at each end, and removing them gives the raw value back. A value with a leading `/` is kept as it is. |
| Dictionary.LetterRun | server/services/dictionary.py:169 | The run of ASCII letters `[a-z]+` consumes with IGNORECASE: all letters, and maximal. |
| Dictionary.DropPosPrefix | server/services/dictionary.py:169 | The result is a suffix of the text. A text is kept whole when it does not start with a letter, or when its letter run is not followed by a dot. Whatever remains after a removal is empty or starts with a non-space character. What a removal takes away is stated by `DropTaggedPrefix`. |
| Dictionary.DropTaggedPrefix | server/services/dictionary.py:169 | For a letters-only tag, a dot, a whitespace run (line breaks included) and a remainder that is empty or starts with a non-space character, exactly the remainder is left. |
| Dictionary.ExtractChineseOnly | server/services/dictionary.py:158-172 | `None` for an absent or empty translation. Any gloss returned is non-empty, stripped and has no line break. The exact result is pinned by `ExtractTaggedGloss`, `ExtractTagOnly` and `ExtractUnprefixed`. |
| Dictionary.ExtractTaggedGloss | server/services/dictionary.py:164-172 | For `tag.` followed by whitespace (line breaks included), a stripped gloss, trailing blanks and optionally more lines, the extracted gloss is exactly that gloss. |
| Dictionary.ExtractTagOnly | server/services/dictionary.py:169-172 | A `tag.` prefix followed only by whitespace, such as `"n."`, gives `None`. |
| Dictionary.ExtractUnprefixed | server/services/dictionary.py:164-172 | Text with no `letters.` prefix, meaning no leading letter or a letter run not followed by a dot, keeps everything. The gloss is its stripped first line, or `None` when that line is blank. |
| Dictionary.NormalizePos | server/services/dictionary.py:251-274 | A known abbreviation, in any letter case, maps to its full name. Anything else is returned unchanged. The result is empty only for an empty tag. |
| Dictionary.NormalizePosCaseInsensitive | server/services/dictionary.py:274 | Known tags that differ only in case normalize alike. |
| Dictionary.NormalizePosIdempotent | server/services/dictionary.py:260-274 | No full name is an abbreviation, so normalizing twice is normalizing once. |
| Dictionary.MatchTag | server/services/dictionary.py:198 | A match has a non-empty letters-only tag and a non-empty body starting with a non-space character, and the two together are at least two characters shorter than the line. That the dot and the whitespace lie between them is stated by `MatchTagSound`. |
| Dictionary.MatchTagSound | server/services/dictionary.py:198 | A tag the matcher reports makes the line read `tag . whitespace body`, with a letters-only tag and a body that starts with a non-space character. |
| Dictionary.MatchTagComplete | server/services/dictionary.py:198 | Every line of that shape is matched, with exactly that tag and that body. |
| Dictionary.KeepSenses | server/services/dictionary.py:216-224 | At most one sense per piece. Every sense is a stripped, non-empty plain source sense. Which pieces are kept is stated by `KeepSensesCons`. |
| Dictionary.KeepSensesCons | server/services/dictionary.py:216-224 | The first piece is kept, as the sense of its stripped text, exactly when it is not blank, and the rest of the pieces follow. |
| Dictionary.KeepSensesAppend | server/services/dictionary.py:216-224 | The filter works piece by piece, so the kept senses stay in piece order. |
| Dictionary.SenseList | server/services/dictionary.py:214-224 | Every sense is a plain source sense (its Chinese text is itself), stripped, non-empty and free of `; ； , ，`. |
| Dictionary.SenseListAppend | server/services/dictionary.py:215 | A separator splits the senses into those before it followed by those after it. |
| Dictionary.SenseListSingle | server/services/dictionary.py:215-224 | Text without separators is one stripped sense, or none if it is blank. |
| Dictionary.Classify | server/services/dictionary.py:192-238 | A line is blank exactly when it is all whitespace. It is tagged exactly when it is not blank and the tag pattern matches its stripped text. A tagged line has a non-empty part of speech and plain senses. An untagged line is one sense holding the stripped line. |
| Dictionary.ClassifyTagLine | server/services/dictionary.py:198-224 | A line whose stripped text reads `tag . whitespace body` is classified as the normalized tag with the senses of the body. |
| Dictionary.StepEffect | server/services/dictionary.py:192-238 | One pass of the loop. A blank line changes nothing. A tagged line closes the current group and opens its own with its senses. An untagged line leaves the finished groups unchanged and appends its sense to the open group. When no group is open, it opens a `general` group holding only its sense. No step revises a finished group. |
| Dictionary.CloseKeepsFinished | server/services/dictionary.py:202-208 | Closing keeps the finished groups. It appends the current group exactly when that group has a part of speech and a sense, and adds nothing else. |
| Dictionary.FoldKeepsFinished | server/services/dictionary.py:192-238 | The loop never revises a finished group. |
| Dictionary.FoldWellFormed | server/services/dictionary.py:183-247 | The loop keeps its invariant: finished groups are well formed, the current part of speech is non-empty, and the current senses are plain. |
| Dictionary.ParseDefinitions | server/services/dictionary.py:174-249 | Every group has a non-empty part of speech and at least one sense. |
| Dictionary.ParseIsGrouping | server/services/dictionary.py:174-249 | The loop computes exactly the declarative grouping `Grouped` of the classified lines. |
| Dictionary.ParseKeepsEverySense | server/services/dictionary.py:190-249 | Read group by group, the output lists every sense of every line, in line order. |
| Dictionary.ParseEmptyIffNoSense | server/services/dictionary.py:174-249 | Parsing finds no group exactly when no line carries a sense. |
| Dictionary.CombinedText | server/services/dictionary.py:121-130 | Absent exactly when both texts are empty or missing. Otherwise non-empty. Its lines are pinned by `CombinedLinesAll`. |
| Dictionary.CombinedLines | server/services/dictionary.py:123-130 | The lines of the combined text are the translation's lines followed by the definition's lines. |
| Dictionary.CombinedLinesAll | server/services/dictionary.py:121-130 | For any pair of sides, at least one present and non-empty, the lines are the translation's lines, when it is present and non-empty, followed by the definition's lines under the same condition. An absent or empty side adds nothing. |
| Dictionary.ParsedMeanings | server/services/dictionary.py:121-133 | The parsed groups of a row are well formed. |
| Dictionary.Fallback | server/services/dictionary.py:135-149 | One `general` group with one definition. Its text is the definition when present and non-empty, and the placeholder otherwise. Its Chinese rendering is the raw translation, and it has no example. |
| Dictionary.TransformResponse | server/services/dictionary.py:87-156 | Word kept, phonetic formatted, gloss extracted, at least one meaning. Parsed groups are used when there are any, and otherwise the single fallback group. |
| Dictionary.TransformEmptyRecord | server/services/dictionary.py:135-149 | A row without text gives one `general` group with the placeholder definition. |
| Dictionary.GetDefinition | server/services/dictionary.py:44-85 | The key is the word lower-cased and stripped. The result is an error exactly when no row is found, with the message `Word not found: <word>`. |
| DictionaryExamples.ExtractChineseOnlyExample | server/services/dictionary.py:158-172 | `"interj. 喂, 嘿"` gives `"喂, 嘿"`. |
| DictionaryExamples.TaggedLine | server/services/dictionary.py:192-224 | A line `tag. a; b` is classified as the normalized tag with the two senses `a` and `b`. |
| DictionaryExamples.ParseDefinitionsExample | server/services/dictionary.py:174-182 | `"n. 测试; 考验\nv. 测试; 检验"` parses to a `noun` group and a `verb` group with their two senses each. |
| Translation.ContainsInRange | server/services/translation.py:25-33 | True exactly when some character lies in the range. |
| Translation.DetectLanguage | server/services/translation.py:14-37 | `zh-CN` if and only if there is a Han character. `ja` if and only if there is none but some kana. `ko` if and only if there is neither but some Hangul. `en` otherwise. |
| Translation.ConvertLangCode | server/services/translation.py:68-85 | The table maps each code to itself and unknown codes pass through, so the conversion is the identity. |
| Translation.Attempt | server/services/translation.py:111-122 | One per-item call: the provider's result, or the original text when the call fails. |
| Translation.Translate | server/services/translation.py:39-66 | The provider's result, or the original text when the call fails. |
| Translation.Gather | server/services/translation.py:111-126 | One result per text, in order, each the per-item attempt. |
| Translation.TranslateBatch | server/services/translation.py:87-130 | One result per input. Item `i` is its translation, or `texts[i]` when that single call fails. |
| Translation.BatchSingleFailure | server/services/translation.py:111-126 | One failing item keeps its text while every other item is translated. |
| Translation.Offset | server/services/translation.py:164-174 | A definition's slots lie within the flattened texts. Where each definition starts is stated by `OffsetNext`. |
| Translation.OffsetNext | server/services/translation.py:164-174 | The first definition starts at slot 0. Each later one starts right after the slots of the one before it: one slot, or two when that one has an example. |
| Translation.Flatten | server/services/translation.py:146-156 | Each definition's text sits at its offset, and its example, when present, at the next slot. |
| Translation.Fill | server/services/translation.py:167-183 | A definition keeps its text and example. It gets the translation at its slot, and it gets the next slot's translation exactly when it has an example. |
| Translation.Scatter | server/services/translation.py:163-183 | Succeeds exactly when there are enough translations. Each definition gets the translation at its offset and, for an example, the next one. |
| Translation.ScatterFlatten | server/services/translation.py:146-183 | Scattering the flattened texts fills every translated field with the text it came from, so the scatter inverts the flatten. |
| Translation.TranslateMeaning | server/services/translation.py:132-192 | Same part of speech and number of definitions. Each definition and example gets its own translation or fallback, and definitions without an example get none. |
| Translation.TranslateMeaningRoundTrip | server/services/translation.py:176-188 | Discarding the translated fields gives back the input without them: structure, order, texts and examples are untouched. |
| Search.CandidateTerms | server/api/search.py:36-37 | One term per `,` or `、` plus one. Each term is stripped and contains neither separator. Which piece each term comes from is pinned by `CandidateTermsPieces`. |
| Search.CandidatePiecesJoin | server/api/search.py:37 | The unstripped pieces joined by commas are the translation with `、` read as `,`. |
| Search.CandidateTermsPieces | server/api/search.py:37 | The terms are the stripped comma pieces of the translation, with `、` read as `,`. The pieces are free of commas, one per term, and join back with commas into that text. |
| Search.CandidateTermsSingle | server/api/search.py:37 | A translation without separators is the single term it strips to. |
| Search.Glosses | server/api/search.py:53-56 | At most one gloss per definition, none of them empty. Their content and order are pinned by `GlossesAppend` and `GlossesOne`. |
| Search.GlossesAppend | server/api/search.py:53-56 | The glosses of a concatenation are the glosses of each part, in order. |
| Search.GlossesOne | server/api/search.py:54-56 | A definition contributes its Chinese rendering exactly when that is present and non-empty. |
| Search.Simplify | server/api/search.py:50-63 | At most one entry per meaning, and every collapsed meaning string is non-empty. |
| Search.SimplifyAppend | server/api/search.py:50-63 | The collapse works meaning by meaning, so kept meanings stay in order. |
| Search.SimplifyOne | server/api/search.py:52-63 | A meaning is kept exactly when it has a gloss, as its glosses joined by `"; "`. |
| Search.SimplifyKeepsParsedGroups | server/api/search.py:50-63 | Every parsed group survives the collapse, with its part of speech, in order. |
| Search.SearchWord | server/api/search.py:13-79 | The query is stripped. The Chinese path is taken exactly when the detector says `zh-CN`, and then yields the candidate terms of the translation. Otherwise the result is a 404 exactly when the lookup fails, and a success carries the row's word, formatted phonetic and collapsed meanings. |
| Search.SearchEnglishKeepsGroups | server/api/search.py:44-73 | An English hit reports one simplified meaning per parsed group, with its part of speech. |
| Search.TranslateAll | server/api/search.py:99-103 | Each meaning is translated, one for one, in order. |
| Search.GetDefinition | server/api/search.py:82-116 | A 404 exactly when the dictionary fails, carrying its message. Otherwise word and phonetic are kept, `chinese` is the word's translation, and each meaning is translated in order. |
| Favorites.SameWordEquivalence | server/services/favorites.py:64 | Comparing words by the ASCII `Text.Lower` is reflexive, symmetric and transitive, and only words of the same length compare equal. |
| Favorites.Check | server/services/favorites.py:93-99 | `None` exactly when no favourite has the word in any case. Otherwise the first such favourite. |
| Favorites.Add | server/services/favorites.py:58-79 | An existing favourite for the word is returned and the list is unchanged. Otherwise the new favourite built from the request goes to the front. |
| Favorites.WithoutId | server/services/favorites.py:86 | Keeps exactly the favourites with another id, and shortens the list exactly when some favourite has the id. |
| Favorites.Remove | server/services/favorites.py:81-91 | `true` exactly when some favourite had the id. Afterwards exactly the others remain, in their order: the stored list is the id filter, which keeps relative order by `WithoutIdAppend`. The list is unchanged on `false`. |
| Favorites.WithoutIdAppend | server/services/favorites.py:86 | The filter keeps relative order. |
| Favorites.AddThenCheck | server/services/favorites.py:58-99 | After `add`, `check` finds a favourite for the word. |
| Favorites.AddIdempotent | server/services/favorites.py:62-65 | Adding the same word again, in any case, returns the same favourite and leaves the list as it was. |
| Favorites.AddKeepsNoCaseDuplicates | server/services/favorites.py:58-79 | `add` keeps the list free of words equal up to case. |
| Favorites.RemoveKeepsNoCaseDuplicates | server/services/favorites.py:81-91 | So does `remove`. |
| Favorites.AddRemoveRoundTrip | server/services/favorites.py:58-91 | Adding a new word under an unused id, then removing that id, reports success and gives back the original list. |
| Favorites.RemoveTwice | server/services/favorites.py:81-91 | A second removal of the same id finds nothing and changes nothing. |

## Left out

- The SQLite query (`COLLATE NOCASE`, `LIMIT 1`) and the connection handling are not modelled. The row lookup is a parameter.
- `DictionaryService.search_words` (prefix autocompletion) is not part of this model.
- Dictionary.GetDefinition: a database exception becomes `Failed to fetch definition: …` in the source. The model folds it into the not-found case, because the lookup returns `None` for both. The HTTP handlers turn either into a 404.
- The network, `GoogleTranslator`, `run_in_executor` and the concurrency of `asyncio.gather` are not modelled. The provider is a function, and `gather` keeps input order, so the batch is a map.
- The outer `except` of `translate_batch` is not modelled. Nothing inside it can raise once the provider is a total function.
- `print` logging is not modelled.
- The favourites JSON file is not modelled. This covers creating it, `_load_favorites` returning `[]` on a read error, and `_save_favorites` re-raising a write error. `get_all` just returns the loaded list, so it is not modelled either.
- `uuid4()` and `datetime.now()` are parameters. Uniqueness of the id is stated as a precondition only where a lemma needs it.
- Text.Lower: only ASCII letters are lowered. Python's `lower()` lowers every cased Unicode letter, so case-insensitive word matching and the abbreviation table agree with the source on ASCII words only.
- Dictionary.LetterRun: `[a-z]` with IGNORECASE is taken as the ASCII letters. Python also matches U+0130, U+0131, U+017F and U+212A there.
- Dictionary.MatchTag: modelled on the lines the parser hands it, which are split on `\n` and stripped. On such lines the regex never backtracks. It is not a model of the regex on arbitrary strings.
- The `pos` and `detail` columns of a row are read but never used, so they carry no behaviour.
- The following are not part of this model:
  - the FastAPI routing and pydantic validation;
  - the favourites router;
  - the LLM service and its router;
  - `main.py`;
  - the test scripts.
