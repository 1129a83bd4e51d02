/**
 * The settings the card renderer reads from the template's `data-cloze-*` attributes,
 * after each missing or empty attribute has fallen back to its default.
 */
module CardConfig {
  /**
   * `htmlToText` stands for the browser's HTML parser (the text content of a parsed
   * document) and `stripMarks` for NFD normalisation followed by removal of the combining
   * marks U+0300..U+036F; both are outside the model and are taken as given functions.
   */
  datatype Config = Config(
    showBefore: string,
    showAfter: string,
    replaceChar: string,
    replaceSameLength: bool,
    alwaysShowBlanks: bool,
    blanksFormat: string,
    hintFormat: string,
    blanksAndHintFormat: string,
    htmlToText: string -> string,
    stripMarks: string -> string)

  /** The defaults the renderer starts from. */
  function Defaults(htmlToText: string -> string, stripMarks: string -> string): Config
  {
    Config("all", "all", ".", false, false, "[{blanks}]", "[{hint}]", "[{blanks}|{hint}]",
           htmlToText, stripMarks)
  }
}
