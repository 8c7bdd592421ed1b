/** The raw entries the command-line tool reads from its tree files
    (kirum/src/entries.rs), in the revision the tool's ingest code writes:
    the word is a `Lemma`, an etymon edge lists transform names, and an entry
    may name a phonetic pattern to generate its word from (`generate`) and
    carry derivative entries. */
module Entries {
  import opened Wrappers
  import opened Letters
  import opened Lemmas
  import Words
  import opened Lexes

  /** An etymon link of a raw entry: the key of the etymon, the names of the
      transforms leading from it (none: a loanword) and the agglutination
      order. */
  datatype Edge = Edge(etymon: string, transforms: Option<seq<string>>, agglutinationOrder: Option<I32>)

  datatype Etymology = Etymology(etymons: seq<Edge>)

  /** A derived word written inside its parent's entry, with the transforms
      that lead from the parent to it. */
  datatype Derivative = Derivative(lexis: RawLexicalEntry, transforms: Option<seq<string>>)

  /** `RawLexicalEntry`, as deserialised from a tree file. */
  datatype RawLexicalEntry = RawLexicalEntry(
    word: Option<Lemma>,
    wordType: Option<string>,
    language: Option<string>,
    definition: string,
    partOfSpeech: Option<Words.PartOfSpeech>,
    etymology: Option<Etymology>,
    archaic: bool,
    tags: Option<seq<string>>,
    generate: Option<string>,
    derivatives: Option<seq<Derivative>>)

  /** `default_archaic`: the flag an entry without an `archaic` key gets. */
  const DefaultArchaic: bool := false

  /** `RawLexicalEntry::default()`: nothing set, not archaic. */
  const DefaultRaw := RawLexicalEntry(None, None, None, [], None, None, DefaultArchaic, None, None, None)

  /** `WordGraph`: the entries of a tree file by key. */
  type WordGraph = map<string, RawLexicalEntry>

  /** `From<RawLexicalEntry> for Lexis`: the id is left empty for the caller
      to fill in, an absent language, type or tag list becomes empty, the
      word, part of speech, definition and archaic flag are copied, and the
      phonetic pattern to generate from becomes the lexis' `wordCreate`. */
  function ToLexis(source: RawLexicalEntry): (r: Lexis)
    ensures r.id == []
    ensures r.language == (if source.language.Some? then source.language.value else [])
    ensures r.lexisType == (if source.wordType.Some? then source.wordType.value else [])
    ensures r.tags == (if source.tags.Some? then source.tags.value else [])
    ensures r.word == source.word && r.pos == source.partOfSpeech
    ensures r.definition == source.definition && r.archaic == source.archaic
    ensures r.wordCreate == source.generate
  {
    Lexis([], source.word, source.language.UnwrapOr([]), source.partOfSpeech,
          source.wordType.UnwrapOr([]), source.definition, source.archaic,
          source.tags.UnwrapOr([]), source.generate)
  }

  /** The raw entry a lexis is written back as: every optional field set,
      no etymology and no derivatives. */
  function FromLexis(l: Lexis): RawLexicalEntry
  {
    RawLexicalEntry(l.word, Some(l.lexisType), Some(l.language), l.definition, l.pos,
                    None, l.archaic, Some(l.tags), l.wordCreate, None)
  }

  /** Converting loses only the id: a lexis written back as a raw entry
      converts to itself with an empty id. */
  lemma ToLexisRoundTrip(l: Lexis)
    ensures ToLexis(FromLexis(l)) == l.(id := [])
  {
  }

  /** The etymology and derivatives of a raw entry do not reach its lexis,
      and an absent optional field converts like an empty one. */
  lemma ToLexisIgnores(source: RawLexicalEntry, ety: Option<Etymology>, ders: Option<seq<Derivative>>)
    ensures ToLexis(source.(etymology := ety, derivatives := ders)) == ToLexis(source)
    ensures ToLexis(source.(language := None)) == ToLexis(source.(language := Some([])))
    ensures ToLexis(source.(wordType := None)) == ToLexis(source.(wordType := Some([])))
    ensures ToLexis(source.(tags := None)) == ToLexis(source.(tags := Some([])))
  {
  }

  /** The default raw entry converts to the default lexis. */
  lemma ToLexisDefault()
    ensures ToLexis(DefaultRaw) == DefaultLexis
    ensures !DefaultRaw.archaic
  {
  }
}
