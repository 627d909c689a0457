/** The word records the collectors pass between each other: Python
    dictionaries whose keys may be missing, so every field read with `.get`
    is an `Option`. */
module Records {
  import opened Optional
  import opened Text
  import Seqs

  /** A definition dictionary: `definition`, `definition_vi`, `pos`,
      `source`, each possibly absent. */
  datatype Def = Def(definition: Option<String>, definitionVi: Option<String>, pos: Option<String>, source: Option<String>)

  /** An example dictionary: `text`, `text_vi`, `pos`, `source`. */
  datatype Ex = Ex(text: Option<String>, textVi: Option<String>, pos: Option<String>, source: Option<String>)

  /** The word data one collector returns: its lists (an absent list and an
      empty one are read alike), with synonyms and antonyms. */
  datatype Data = Data(
    pronunciations: seq<String>,
    definitions: seq<Def>,
    examples: seq<Ex>,
    synonyms: seq<String>,
    antonyms: seq<String>)

  /** `x.get('text', '')`. */
  function TextOf(e: Ex): String {
    e.text.GetOr("")
  }

  /** `x.get('text', '')` is non-empty. */
  predicate HasText(e: Ex) {
    TextOf(e) != []
  }
}
