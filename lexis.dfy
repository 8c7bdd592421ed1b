/** The lexical entry of the revision that spells words as `Lemma`s: the
    `Lexis` that libkirum/src/matching.rs and libkirum/src/transforms.rs
    read and write. */
module Lexes {
  import opened Wrappers
  import opened Lemmas
  import Words

  /** A lexical entry: an id, an optional word, and the descriptive fields a
      transform never touches. */
  datatype Lexis = Lexis(
    id: string,
    word: Option<Lemma>,
    language: string,
    pos: Option<Words.PartOfSpeech>,
    lexisType: string,
    definition: string,
    archaic: bool,
    tags: seq<string>,
    wordCreate: Option<string>)

  /** `Lexis::default()`: every field empty, no word, not archaic. */
  const DefaultLexis := Lexis([], None, [], None, [], [], false, [], None)
}
