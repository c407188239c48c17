/** The server's records: the word models, the favourite models, the search
    response shapes, and the stardict row the dictionary lookup returns.
    Python's snake_case fields become camelCase; `Optional[str]` becomes
    `Option<string>`. */
module Models {
  import opened Optional

  /** One sense of a word, with its Chinese rendering and an optional example. */
  datatype Definition = Definition(
    definition: string,
    definitionChinese: Option<string>,
    example: Option<string>,
    exampleChinese: Option<string>)

  /** The senses that share one part of speech, in source order. */
  datatype Meaning = Meaning(partOfSpeech: string, definitions: seq<Definition>)

  /** A full lookup result. */
  datatype WordDefinition = WordDefinition(
    word: string,
    phonetic: Option<string>,
    chinese: Option<string>,
    meanings: seq<Meaning>)

  /** One row of the `stardict` table: word, phonetic, pos, translation,
      definition, detail. `pos` and `detail` are read but never used. */
  datatype Record = Record(
    word: string,
    phonetic: Option<string>,
    pos: Option<string>,
    translation: Option<string>,
    definition: Option<string>,
    detail: Option<string>)

  /** The body of an add-favourite request. */
  datatype FavoriteCreate = FavoriteCreate(word: string, phonetic: Option<string>, chinese: Option<string>)

  /** A stored favourite. The id and the creation instant are supplied by the
      caller (they come from `uuid4()` and `datetime.now()` in the server). */
  datatype Favorite = Favorite(
    id: string,
    word: string,
    phonetic: Option<string>,
    chinese: Option<string>,
    createdAt: int)

  /** One part of speech with its senses collapsed into a single string. */
  datatype SimpleMeaning = SimpleMeaning(pos: string, meaning: string)

  datatype EnglishResult = EnglishResult(word: string, phonetic: Option<string>, meanings: seq<SimpleMeaning>)

  datatype ChineseResult = ChineseResult(translations: seq<string>)

  datatype SearchResponse = SearchResponse(
    query: string,
    isChinese: bool,
    englishResult: Option<EnglishResult>,
    chineseResult: Option<ChineseResult>)

  /** The `HTTPException` a request handler raises. */
  datatype HttpError = HttpError(status: int, detail: string)
}
