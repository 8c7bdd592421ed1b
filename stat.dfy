/** The counting loop of `gen_stats` (kirum/src/stat.rs): counts of nouns,
    verbs and adjectives, and per-language and per-type entry counts.  The
    table rendering is left out.  The tree is given as its lexis in
    iteration order, one per node, so `tree.len()` is their number. */
module Stat {
  import opened Wrappers
  import opened Strings
  import opened Lexes
  import Words

  /** `Stats`. */
  datatype Stats = Stats(nouns: int, verbs: int, adjectives: int, total: nat)

  /** What the loop leaves behind: the stats and the two count maps. */
  datatype Tally = Tally(stats: Stats, languages: map<string, int>, types: map<string, int>)

  /** The language a lexis is counted under: an empty one is "None Set". */
  function LangName(l: Lexis): string
  {
    if l.language == [] then "None Set" else l.language
  }

  /** `map.get(key).unwrap_or(&0)`. */
  function CountAt(m: map<string, int>, key: string): int
  {
    if key in m then m[key] else 0
  }

  /** One turn of the loop: `lex` is counted into `t`. */
  function Visit(t: Tally, lex: Lexis): Tally
  {
    var s := t.stats;
    var s' :=
      if lex.pos == Some(Words.Adjective) then s.(adjectives := s.adjectives + 1)
      else if lex.pos == Some(Words.Verb) then s.(verbs := s.verbs + 1)
      else if lex.pos == Some(Words.Noun) then s.(nouns := s.nouns + 1)
      else s;
    var name := LangName(lex);
    Tally(s', t.languages[name := CountAt(t.languages, name) + 1],
          t.types[lex.lexisType := CountAt(t.types, lex.lexisType) + 1])
  }

  /** The tally after visiting `lexes` in order, starting from `total`. */
  function Counted(lexes: seq<Lexis>, total: nat): Tally
  {
    if lexes == [] then Tally(Stats(0, 0, 0, total), map[], map[])
    else Visit(Counted(lexes[..|lexes| - 1], total), lexes[|lexes| - 1])
  }

  /** The loop of `gen_stats`. */
  method GenStats(tree: seq<Lexis>) returns (t: Tally)
    ensures t == Counted(tree, |tree|)
  {
    var languages: map<string, int> := map[];
    var types: map<string, int> := map[];
    var stats := Stats(0, 0, 0, |tree|);
    for i := 0 to |tree|
      invariant Tally(stats, languages, types) == Counted(tree[..i], |tree|)
    {
      var lex := tree[i];
      assert tree[..i + 1][..i] == tree[..i];
      ghost var before := Tally(stats, languages, types);
      if lex.pos.Some? {
        match lex.pos.value {
          case Adjective => stats := stats.(adjectives := stats.adjectives + 1);
          case Verb => stats := stats.(verbs := stats.verbs + 1);
          case Noun => stats := stats.(nouns := stats.nouns + 1);
        }
      }
      var langName := if lex.language == [] then "None Set" else lex.language;
      var newLangCount := CountAt(languages, langName) + 1;
      languages := languages[langName := newLangCount];
      var newTypeCount := CountAt(types, lex.lexisType) + 1;
      types := types[lex.lexisType := newTypeCount];
      assert stats == Visit(before, lex).stats;
      assert Tally(stats, languages, types) == Visit(before, lex);
    }
    assert tree[..|tree|] == tree;
    t := Tally(stats, languages, types);
  }

  function HasPos(p: Words.PartOfSpeech): Lexis -> bool
  {
    (l: Lexis) => l.pos == Some(p)
  }

  function InLanguage(name: string): Lexis -> bool
  {
    (l: Lexis) => LangName(l) == name
  }

  function OfType(lexisType: string): Lexis -> bool
  {
    (l: Lexis) => l.lexisType == lexisType
  }

  /** Each part-of-speech counter is the number of lexis with that part of
      speech (a lexis without one counts nowhere), and the total is left as
      given. */
  lemma {:induction false} CountedPos(lexes: seq<Lexis>, total: nat)
    ensures Counted(lexes, total).stats.nouns == CountIf(lexes, HasPos(Words.Noun))
    ensures Counted(lexes, total).stats.verbs == CountIf(lexes, HasPos(Words.Verb))
    ensures Counted(lexes, total).stats.adjectives == CountIf(lexes, HasPos(Words.Adjective))
    ensures Counted(lexes, total).stats.total == total
  {
    if lexes != [] {
      CountedPos(lexes[..|lexes| - 1], total);
    }
  }

  /** The language counts: a name is present exactly when some lexis is
      counted under it, and its count is the number of such lexis. */
  lemma {:induction false} CountedLanguages(lexes: seq<Lexis>, total: nat, name: string)
    ensures name in Counted(lexes, total).languages <==> CountIf(lexes, InLanguage(name)) > 0
    ensures CountAt(Counted(lexes, total).languages, name) == CountIf(lexes, InLanguage(name))
  {
    if lexes != [] {
      CountedLanguages(lexes[..|lexes| - 1], total, name);
    }
  }

  /** The type counts, likewise. */
  lemma {:induction false} CountedTypes(lexes: seq<Lexis>, total: nat, lexisType: string)
    ensures lexisType in Counted(lexes, total).types <==> CountIf(lexes, OfType(lexisType)) > 0
    ensures CountAt(Counted(lexes, total).types, lexisType) == CountIf(lexes, OfType(lexisType))
  {
    if lexes != [] {
      CountedTypes(lexes[..|lexes| - 1], total, lexisType);
    }
  }

  /** A lexis with an empty language is counted under "None Set". */
  lemma EmptyLanguage(lexes: seq<Lexis>, total: nat, i: nat)
    requires i < |lexes| && lexes[i].language == []
    ensures CountAt(Counted(lexes, total).languages, "None Set") > 0
  {
    CountedLanguages(lexes, total, "None Set");
    FilterKeeps(lexes, InLanguage("None Set"));
    assert lexes[i] in lexes;
  }
}
