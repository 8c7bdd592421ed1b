/** The worked examples of the tests in libkirum/src/transforms.rs, stated on
    `Transforms.Apply`.  As in the lemma examples, the sample words are
    parameters equal to their literals. */
module TransformsExamples {
  import opened Wrappers
  import opened Strings
  import opened Letters
  import opened Lemmas
  import opened Lexes
  import opened Transforms
  import LemmaExamples

  /** A word built from a separator-free string reads back as that string. */
  lemma PlainReadBack(s: string)
    requires WORD_SEP !in s
    ensures Lemma.FromString(s).StringWithoutSep() == s
  {
    FromStringParts(s);
  }

  /** Read without separators, a word with a prefix or postfix is the two
      readings concatenated. */
  lemma AffixReadBack(w: Lemma, v: Lemma)
    ensures w.AddPostfix(v).StringWithoutSep() == w.StringWithoutSep() + v.StringWithoutSep()
    ensures w.AddPrefix(v).StringWithoutSep() == v.StringWithoutSep() + w.StringWithoutSep()
  {
    RemoveAllCharAppend(w.value, v.value, WORD_SEP);
    RemoveAllCharAppend(v.value, w.value, WORD_SEP);
  }

  /** A prefix or postfix on separator-free words reads as the two strings
      concatenated. */
  lemma AffixPlain(lex: Lexis, w: string, v: string, regex: RegexReplace)
    requires WORD_SEP !in w && WORD_SEP !in v
    requires lex.word == Some(Lemma.FromString(w))
    ensures Apply(Postfix(Lemma.FromString(v)), lex, regex).word.value.StringWithoutSep() == w + v
    ensures Apply(Prefix(Lemma.FromString(v)), lex, regex).word.value.StringWithoutSep() == v + w
  {
    PlainReadBack(w);
    PlainReadBack(v);
    AffixReadBack(Lemma.FromString(w), Lemma.FromString(v));
  }

  /** `test_postfix`: "kurum" with postfix "uh" reads "kurumuh". */
  lemma PostfixExample(lex: Lexis, w: string, v: string, regex: RegexReplace)
    requires w == "kurum" && v == "uh"
    requires lex.word == Some(Lemma.FromString(w))
    ensures Apply(Postfix(Lemma.FromString(v)), lex, regex).word.value.StringWithoutSep() == "kurumuh"
  {
    AffixPlain(lex, w, v, regex);
  }

  /** `test_prefix`: "kurum" with prefix "tur" reads "turkurum". */
  lemma PrefixExample(lex: Lexis, w: string, v: string, regex: RegexReplace)
    requires w == "kurum" && v == "tur"
    requires lex.word == Some(Lemma.FromString(w))
    ensures Apply(Prefix(Lemma.FromString(v)), lex, regex).word.value.StringWithoutSep() == "turkurum"
  {
    AffixPlain(lex, w, v, regex);
  }

  lemma KurumChars(w: string, ps: seq<string>)
    requires w == "kurum" && ps == ["k", "u", "r", "u", "m"]
    ensures Chars(w) == ps && WORD_SEP !in w && AllLetters(ps)
  {
  }

  lemma KurumMapped(ps: seq<string>)
    requires ps == ["k", "u", "r", "u", "m"]
    ensures MapReplace(ps, "u", "a") == ["k", "a", "r", "a", "m"]
  {
  }

  lemma JoinLiteral(s: string, ps: seq<string>)
    requires Chars(s) == ps
    ensures Join(ps) == s
  {
    JoinChars(s);
  }

  /** `test_letter_replace`: "kurum" with u → a at every place reads
      "karam". */
  lemma LetterReplaceExample(lex: Lexis, w: string, ps: seq<string>, regex: RegexReplace)
    requires w == "kurum" && ps == ["k", "u", "r", "u", "m"]
    requires lex.word == Some(Lemma.FromString(w))
    ensures Apply(LetterReplace(LetterValues("u", "a"), All), lex, regex).word.value.StringWithoutSep() == "karam"
  {
    KurumChars(w, ps);
    assert forall p :: p in ps && p != "u" ==> 'u' !in p;
    LemmaExamples.SingleCharWhole(ps, 'u');
    ReplaceLetterParts(ps, "u", "a", All);
    KurumMapped(ps);
    var karam := "karam";
    assert Chars(karam) == ["k", "a", "r", "a", "m"];
    JoinLiteral(karam, ["k", "a", "r", "a", "m"]);
    StringWithoutSepParts(Lemma.FromParts(ps).Replace("u", "a", All));
  }

  lemma SelectKrm(ps: seq<string>, arr: seq<LetterArrayValues>)
    requires ps == ["k", "r", "m"]
    requires arr == [Place(0), Place(1), Char("u")]
    ensures ArraySelect(ps, arr) == ["k", "r", "u"]
    ensures SepFree(["k", "r", "u"])
  {
    var a1 := [Place(0)];
    var a2 := a1 + [Place(1)];
    assert a2 + [Char("u")] == arr;
    assert ArraySelect(ps, a1) == ["k"] by {
      assert a1[..0] == [];
    }
    assert a2[..1] == a1;
    assert ArraySelect(ps, a2) == ["k", "r"];
    assert arr[..2] == a2;
  }

  /** `test_letter_array`: "krm" with [0, 1, u] reads "kru". */
  lemma LetterArrayExample(lex: Lexis, w: string, ps: seq<string>, arr: seq<LetterArrayValues>, regex: RegexReplace)
    requires w == "krm" && ps == ["k", "r", "m"]
    requires arr == [Place(0), Place(1), Char("u")]
    requires lex.word == Some(Lemma.FromString(w))
    ensures Apply(LetterArray(arr), lex, regex).word.value.StringWithoutSep() == "kru"
  {
    assert Chars(w) == ps && WORD_SEP !in w;
    FromStringParts(w);
    SelectKrm(ps, arr);
    KruWithoutSep(["k", "r", "u"]);
  }

  /** "k", "r", "u" written out and read back without separators is "kru". */
  lemma KruWithoutSep(kru: seq<string>)
    requires kru == ["k", "r", "u"]
    ensures RemoveAllChar(Terminated(kru), WORD_SEP) == "kru"
  {
    assert SepFree(kru);
    JoinWithoutSep(kru);
    assert Chars("kru") == kru;
    JoinLiteral("kru", kru);
  }
}
