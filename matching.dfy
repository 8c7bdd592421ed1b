/** The match predicates of libkirum/src/matching.rs: conditions over the
    fields of a `Lexis` that decide whether a transform applies. */
module Matching {
  import opened Wrappers
  import opened Lemmas
  import Words
  import opened Lexes

  /** `EqualValue`: a single string or a list of strings. */
  datatype EqualValue = String(text: string) | Vector(items: seq<string>)

  /** `ValueMatch`: equality, or membership in a list. */
  datatype ValueMatch = Equals(value: EqualValue) | OneOf(options: seq<string>)

  /** `Value`: a match or its negation. */
  datatype Value = Not(not: ValueMatch) | Match(matched: ValueMatch)

  /** `From<String> for Value`. */
  function FromString(s: string): (r: Value)
    ensures r.Match? && r.matched == Equals(String(s))
  {
    Match(Equals(String(s)))
  }

  // ---------------------------------------------------------------------------
  // `ValueMatch` equality against each field type
  // ---------------------------------------------------------------------------

  /** `PartialEq<String> for ValueMatch`. */
  predicate MatchesString(m: ValueMatch, other: string)
  {
    match m
    case Equals(String(s)) => s == other
    case Equals(Vector(_)) => false
    case OneOf(a) => other in a
  }

  /** `PartialEq<Lemma> for ValueMatch`: the lemma's letters without
      separators. */
  predicate MatchesLemma(m: ValueMatch, other: Lemma)
  {
    MatchesString(m, other.StringWithoutSep())
  }

  /** `PartialEq<PartOfSpeech> for ValueMatch`: the lowercase name. */
  predicate MatchesPos(m: ValueMatch, other: Words.PartOfSpeech)
  {
    MatchesString(m, other.Name())
  }

  /** `PartialEq<Vec<String>> for ValueMatch`: OneOf asks for any listed
      string, Equals(Vector) for all of them, Equals(String) never holds. */
  predicate MatchesList(m: ValueMatch, other: seq<string>)
  {
    match m
    case OneOf(lst) => exists i :: 0 <= i < |lst| && lst[i] in other
    case Equals(Vector(v)) => forall i :: 0 <= i < |v| ==> v[i] in other
    case Equals(String(_)) => false
  }

  /** `Value::is_true`, for any field type with its equality `eq`. */
  predicate IsTrue<T>(v: Value, val: T, eq: (ValueMatch, T) -> bool)
  {
    match v
    case Match(m) => eq(m, val)
    case Not(m) => !eq(m, val)
  }

  /** `value_matches`: an absent predicate holds for every value. */
  predicate ValueMatches<T>(val: Option<Value>, toMatch: T, eq: (ValueMatch, T) -> bool)
  {
    val.None? || IsTrue(val.value, toMatch, eq)
  }

  /** The string equality on its own: `Equals(String s)` is exact equality,
      `Equals(Vector)` never holds and `OneOf` is membership. */
  lemma MatchesStringSpec(m: ValueMatch, other: string)
    ensures m.Equals? && m.value.String? ==> (MatchesString(m, other) <==> m.value.text == other)
    ensures m.Equals? && m.value.Vector? ==> !MatchesString(m, other)
    ensures m.OneOf? ==> (MatchesString(m, other) <==> exists i :: 0 <= i < |m.options| && m.options[i] == other)
  {
  }

  /** The list equality as set relations: `OneOf` holds iff the two lists
      share a string, `Equals(Vector)` iff every listed string is present. */
  lemma MatchesListSpec(m: ValueMatch, other: seq<string>)
    ensures m.OneOf? ==> (MatchesList(m, other) <==> exists t :: t in m.options && t in other)
    ensures m.Equals? && m.value.Vector? ==>
      (MatchesList(m, other) <==> forall t :: t in m.value.items ==> t in other)
    ensures m.Equals? && m.value.String? ==> !MatchesList(m, other)
  {
    if m.OneOf? && (exists t :: t in m.options && t in other) {
      var t :| t in m.options && t in other;
      var i :| 0 <= i < |m.options| && m.options[i] == t;
    }
  }

  /** `Not(v)` holds exactly when `Match(v)` does not. */
  lemma NotNegatesMatch<T>(m: ValueMatch, val: T, eq: (ValueMatch, T) -> bool)
    ensures IsTrue(Not(m), val, eq) <==> !IsTrue(Match(m), val, eq)
  {
  }

  /** Only a list of strings can satisfy every list: `Equals(Vector [])` holds
      for every tag list, `OneOf []` for none. */
  lemma EmptyListMatches(other: seq<string>)
    ensures MatchesList(Equals(Vector([])), other)
    ensures !MatchesList(OneOf([]), other)
  {
  }

  // ---------------------------------------------------------------------------
  // `LexisMatch` and `EtymonMatch`
  // ---------------------------------------------------------------------------

  /** `LexisMatch`: one optional predicate per field. */
  datatype LexisMatch = LexisMatch(
    id: Option<Value>,
    word: Option<Value>,
    language: Option<Value>,
    pos: Option<Value>,
    lexisType: Option<Value>,
    archaic: Option<bool>,
    tags: Option<Value>)

  /** `LexisMatch::default()`: no predicate at all. */
  const AnyLexis := LexisMatch(None, None, None, None, None, None, None)

  /** `LexisMatch == Lexis` (and `matches`): the tags, word, language, part
      of speech, type and archaic predicates all hold; the word and part of
      speech predicates are skipped when the lexis has none, and `id` is never
      read. */
  predicate Matches(lm: LexisMatch, lex: Lexis)
  {
    ValueMatches(lm.tags, lex.tags, MatchesList)
    && (lex.word.Some? ==> ValueMatches(lm.word, lex.word.value, MatchesLemma))
    && ValueMatches(lm.language, lex.language, MatchesString)
    && (lex.pos.Some? ==> ValueMatches(lm.pos, lex.pos.value, MatchesPos))
    && ValueMatches(lm.lexisType, lex.lexisType, MatchesString)
    && (lm.archaic.Some? ==> lm.archaic.value == lex.archaic)
  }

  /** A `LexisMatch` holds iff every predicate it carries holds of its
      field; the `id` predicate and the lexis id play no part. */
  lemma MatchesSpec(lm: LexisMatch, lex: Lexis, anyId: Option<Value>, otherId: string)
    ensures Matches(lm, lex) == Matches(lm.(id := anyId), lex.(id := otherId))
    ensures Matches(AnyLexis, lex)
    ensures lm.archaic.Some? && lm.archaic.value != lex.archaic ==> !Matches(lm, lex)
    ensures lex.word.None? && lex.pos.None? ==>
      Matches(lm, lex) == Matches(lm.(word := None, pos := None), lex)
    ensures lm.language.Some? && !IsTrue(lm.language.value, lex.language, MatchesString) ==> !Matches(lm, lex)
    ensures lm.tags.Some? && !IsTrue(lm.tags.value, lex.tags, MatchesList) ==> !Matches(lm, lex)
  {
  }

  /** `EtymonMatch`: every etymon, or at least one, must match. */
  datatype EtymonMatch = All(all: LexisMatch) | One(one: LexisMatch)

  /** `EtymonMatch == Vec<Lexis>`. */
  predicate EtymonMatches(em: EtymonMatch, others: seq<Lexis>)
  {
    match em
    case All(lm) => forall i :: 0 <= i < |others| ==> Matches(lm, others[i])
    case One(lm) => exists i :: 0 <= i < |others| && Matches(lm, others[i])
  }

  /** `All` holds of no etymons and `One` fails on them; over a non-empty
      list `All` implies `One`; both split over concatenation. */
  lemma EtymonMatchesSpec(lm: LexisMatch, xs: seq<Lexis>, ys: seq<Lexis>)
    ensures EtymonMatches(All(lm), []) && !EtymonMatches(One(lm), [])
    ensures xs != [] && EtymonMatches(All(lm), xs) ==> EtymonMatches(One(lm), xs)
    ensures EtymonMatches(All(lm), xs + ys) <==> EtymonMatches(All(lm), xs) && EtymonMatches(All(lm), ys)
    ensures EtymonMatches(One(lm), xs + ys) <==> EtymonMatches(One(lm), xs) || EtymonMatches(One(lm), ys)
  {
    if xs != [] && EtymonMatches(All(lm), xs) {
      assert Matches(lm, xs[0]);
    }
    if EtymonMatches(All(lm), xs) && EtymonMatches(All(lm), ys) {
      forall i | 0 <= i < |xs + ys| ensures Matches(lm, (xs + ys)[i]) {
        if i >= |xs| {
          assert (xs + ys)[i] == ys[i - |xs|];
        }
      }
    }
    if EtymonMatches(All(lm), xs + ys) {
      forall i | 0 <= i < |ys| ensures Matches(lm, ys[i]) {
        assert (xs + ys)[|xs| + i] == ys[i];
      }
      forall i | 0 <= i < |xs| ensures Matches(lm, xs[i]) {
        assert (xs + ys)[i] == xs[i];
      }
    }
    if EtymonMatches(One(lm), xs + ys) {
      var i :| 0 <= i < |xs + ys| && Matches(lm, (xs + ys)[i]);
      if i >= |xs| {
        assert (xs + ys)[i] == ys[i - |xs|];
      } else {
        assert (xs + ys)[i] == xs[i];
      }
    }
    if EtymonMatches(One(lm), ys) {
      var i :| 0 <= i < |ys| && Matches(lm, ys[i]);
      assert (xs + ys)[|xs| + i] == ys[i];
    }
    if EtymonMatches(One(lm), xs) {
      var i :| 0 <= i < |xs| && Matches(lm, xs[i]);
      assert (xs + ys)[i] == xs[i];
    }
  }

  // ---------------------------------------------------------------------------
  // The worked examples of the tests
  // ---------------------------------------------------------------------------

  /** `test_lexis_match`: language equals "Old Babylonian", archaic false and
      one of tag1/tag3 present. */
  lemma LexisMatchExample(lex: Lexis, lm: LexisMatch)
    requires lex.language == "Old Babylonian" && lex.pos.None? && !lex.archaic
    requires lex.tags == ["tag1", "tag2"] && lex.lexisType == []
    requires lm == AnyLexis.(language := Some(Match(Equals(String("Old Babylonian")))),
      archaic := Some(false), tags := Some(Match(OneOf(["tag1", "tag3"]))))
    ensures Matches(lm, lex)
  {
    assert MatchesList(OneOf(["tag1", "tag3"]), lex.tags) by {
      assert ["tag1", "tag3"][0] in lex.tags;
    }
  }

  /** `test_lexis_tags`: all of tag1/tag2 present, not all of tag3/tag4, not
      one of tag3/tag4. */
  lemma LexisTagsExample(lex: Lexis)
    requires lex == DefaultLexis.(tags := ["tag1", "tag2"])
    ensures Matches(AnyLexis.(tags := Some(Match(Equals(Vector(["tag1", "tag2"]))))), lex)
    ensures Matches(AnyLexis.(tags := Some(Not(Equals(Vector(["tag3", "tag4"]))))), lex)
    ensures Matches(AnyLexis.(tags := Some(Not(OneOf(["tag3", "tag4"])))), lex)
  {
    assert "tag3" != "tag1" && "tag3" != "tag2";
    assert "tag4" != "tag1" && "tag4" != "tag2";
    assert !MatchesList(Equals(Vector(["tag3", "tag4"])), lex.tags) by {
      assert ["tag3", "tag4"][0] !in lex.tags;
    }
  }
}
