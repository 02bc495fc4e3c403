/**
 * The records of go/pkg/models/models.go. Timestamps are whole numbers
 * (seconds); the clock that produces them is a parameter of the operations
 * that write them.
 */
module Models {

  /** The response body: text key to translated value. */
  type Texts = map<string, string>

  /** A supported language; identity is `id`. */
  datatype Language = Language(id: string, createdAt: int)

  /** A translated text; the natural key is (`key`, `language`). */
  datatype TranslatedText = TranslatedText(
    id: int,
    key: string,
    language: string,
    value: string,
    createdAt: int,
    updatedAt: int)

  /** A named group of text keys. */
  datatype TextGroup = TextGroup(id: string, createdAt: int)
}
