/** The worked examples of the tests in libkirum/src/lemma.rs, stated on the
    model.  Each takes its sample word as a parameter equal to the literal so
    that the verifier reasons from the general lemmas rather than by unfolding
    the definitions on constants. */
module LemmaExamples {
  import opened Wrappers
  import opened Strings
  import opened Letters
  import opened Lemmas

  /** A letter of `ps` that is a single character not in any other letter is
      matched whole. */
  lemma SingleCharWhole(ps: seq<string>, c: char)
    requires AllLetters(ps) && c != WORD_SEP
    requires forall p :: p in ps && p != [c] ==> c !in p
    ensures WholeLetter(ps, [c])
  {
    forall p | p in ps && p != [c] ensures NotInside([c], p) {
      forall k | 0 <= k < |p| ensures !IsPrefix([c], p[k..]) {
        assert p[k] in p;
      }
    }
  }

  /** The replace tests, letter by letter: "kirum" with i → e at All is
      "kerum", "kiruu" with u → h at First is "kirhu", and "uiru" with
      u → h at Last is "uirh". */
  lemma ReplaceAllExample(ps: seq<string>)
    requires ps == ["k", "i", "r", "u", "m"]
    ensures Lemma.FromParts(ps).Replace("i", "e", All).Parts() == ["k", "e", "r", "u", "m"]
  {
    SingleCharWhole(ps, 'i');
    ReplaceLetterParts(ps, "i", "e", All);
    KirumMapped(ps);
  }

  lemma KirumMapped(ps: seq<string>)
    requires ps == ["k", "i", "r", "u", "m"]
    ensures MapReplace(ps, "i", "e") == ["k", "e", "r", "u", "m"]
  {
  }

  lemma ReplaceFirstExample(ps: seq<string>)
    requires ps == ["k", "i", "r", "u", "u"]
    ensures Lemma.FromParts(ps).Replace("u", "h", First).Parts() == ["k", "i", "r", "h", "u"]
  {
    SingleCharWhole(ps, 'u');
    ReplaceLetterParts(ps, "u", "h", First);
    ReplaceFirstLetterAt(ps, "u", "h");
    assert IndexOf(ps, "u") == Some(3);
  }

  lemma ReplaceLastExample(ps: seq<string>)
    requires ps == ["u", "i", "r", "u"]
    ensures Lemma.FromParts(ps).Replace("u", "h", Last).Parts() == ["u", "i", "r", "h"]
  {
    SingleCharWhole(ps, 'u');
    ReplaceLetterParts(ps, "u", "h", Last);
    ReplaceLastLetterAt(ps, "u", "h");
    assert LastIndexOf(ps, "u") == Some(3);
  }

  /** The same test against `replace` as written, which re-splits the result into characters. */
  lemma ReplaceLastAsWrittenExample(ps: seq<string>)
    requires ps == ["u", "i", "r", "u"]
    ensures Lemma.FromParts(ps).ReplaceAsWritten("u", "h", Last).Parts() == ["u", "i", "r", "h"]
  {
    SingleCharWhole(ps, 'u');
    assert Short(ps);
    ReplaceLastAgrees(ps, "u", "h");
    ReplaceLastExample(ps);
  }

  lemma TestChars(s: string)
    requires s == "test"
    ensures Chars(s) == ["t", "e", "s", "t"]
  {
  }

  lemma TestLetters(s: string)
    requires s == "test"
    ensures AllLetters(Chars(s)) && Lemma.FromString(s).Parts() == Chars(s)
  {
    FromStringParts(s);
    TestChars(s);
  }

  lemma MapDoubleTest(ps: seq<string>)
    requires ps == ["t", "e", "s", "t"]
    ensures MapDouble(ps, "t") == ["tt", "e", "s", "tt"]
  {
    assert "t" + "t" == "tt";
  }

  /** `double("t")` on "test": "ttestt" at All (each t written twice as one
      letter), "ttest" at First, "testt" at Last. */
  lemma DoubleAllExample(s: string)
    requires s == "test"
    ensures Lemma.FromString(s).Double("t", All).Parts() == ["tt", "e", "s", "tt"]
  {
    TestLetters(s);
    TestChars(s);
    DoubleParts(Chars(s), "t", All);
    MapDoubleTest(Chars(s));
  }

  lemma DoubleFirstExample(s: string)
    requires s == "test"
    ensures Lemma.FromString(s).Double("t", First).Parts() == ["t", "t", "e", "s", "t"]
  {
    TestLetters(s);
    TestChars(s);
    var ps := Chars(s);
    DoubleParts(ps, "t", First);
    DoubleAt(ps, "t", First);
    assert IndexOf(ps, "t") == Some(0);
  }

  lemma DoubleLastExample(s: string)
    requires s == "test"
    ensures Lemma.FromString(s).Double("t", Last).Parts() == ["t", "e", "s", "t", "t"]
  {
    TestLetters(s);
    TestChars(s);
    var ps := Chars(s);
    DoubleParts(ps, "t", Last);
    DoubleAt(ps, "t", Last);
    assert LastIndexOf(ps, "t") == Some(3);
  }

  lemma TtesttLetters(s: string)
    requires s == "ttestt"
    ensures Lemma.FromString(s).Parts() == ["t", "t", "e", "s", "t", "t"]
    ensures AllLetters(["t", "t", "e", "s", "t", "t"])
  {
    FromStringParts(s);
    assert Chars(s) == ["t", "t", "e", "s", "t", "t"];
  }

  lemma DedoubleAllSnoc(s: seq<string>, x: string, letter: string)
    requires letter != []
    ensures DedoubleAll(s + [x], letter) ==
      DedoubleAll(s, letter) + (if x == letter && s != [] && s[|s| - 1] == letter then [] else [x])
  {
    assert (s + [x])[..|s|] == s;
  }

  /** `DedoubleAllSnoc` on the prefixes of one sequence. */
  lemma DedoublePrefixStep(ps: seq<string>, k: nat)
    requires k < |ps|
    ensures DedoubleAll(ps[..k + 1], "t") ==
      DedoubleAll(ps[..k], "t") + (if ps[k] == "t" && k > 0 && ps[k - 1] == "t" then [] else [ps[k]])
  {
    assert ps[..k + 1] == ps[..k] + [ps[k]];
    DedoubleAllSnoc(ps[..k], ps[k], "t");
  }

  lemma DedoubleAllTtestt(ps: seq<string>)
    requires ps == ["t", "t", "e", "s", "t", "t"]
    ensures DedoubleAll(ps, "t") == ["t", "e", "s", "t"]
  {
    DedoubleTtesttAt(ps);
  }

  /** The same, with "ttestt" given letter by letter. */
  lemma DedoubleTtesttAt(ps: seq<string>)
    requires |ps| == 6 && ps[0] == "t" && ps[1] == "t" && ps[2] == "e"
    requires ps[3] == "s" && ps[4] == "t" && ps[5] == "t"
    ensures DedoubleAll(ps, "t") == ["t", "e", "s", "t"]
  {
    var d1 := DedoubleAll(ps[..1], "t");
    assert d1 == ["t"] by { DedoublePrefixStep(ps, 0); }
    var d2 := DedoubleAll(ps[..2], "t");
    assert d2 == ["t"] by { DedoublePrefixStep(ps, 1); }
    var d3 := DedoubleAll(ps[..3], "t");
    assert d3 == d2 + ["e"] by { DedoublePrefixStep(ps, 2); }
    var d4 := DedoubleAll(ps[..4], "t");
    assert d4 == d3 + ["s"] by { DedoublePrefixStep(ps, 3); }
    var d5 := DedoubleAll(ps[..5], "t");
    assert d5 == d4 + ["t"] by { DedoublePrefixStep(ps, 4); }
    DedoublePrefixStep(ps, 5);
    assert ps[..6] == ps;
  }

  /** `dedouble("t")` on "ttestt": "test" at All, "testt" at First, "ttest"
      at Last. */
  lemma DedoubleAllExample(s: string)
    requires s == "ttestt"
    ensures Lemma.FromParts(DedoubleSpec(Lemma.FromString(s).Parts(), "t", All)).Parts() == ["t", "e", "s", "t"]
  {
    TtesttLetters(s);
    var ps := Lemma.FromString(s).Parts();
    DedoubleParts(ps, "t", All);
    DedoubleAllTtestt(ps);
  }

  lemma DedoubleFirstExample(s: string)
    requires s == "ttestt"
    ensures Lemma.FromParts(DedoubleSpec(Lemma.FromString(s).Parts(), "t", First)).Parts() == ["t", "e", "s", "t", "t"]
  {
    TtesttLetters(s);
    var ps := Lemma.FromString(s).Parts();
    DedoubleParts(ps, "t", First);
    DedoubleFirstTtestt(ps);
  }

  lemma DedoubleFirstTtestt(ps: seq<string>)
    requires ps == ["t", "t", "e", "s", "t", "t"]
    ensures DedoubleSpec(ps, "t", First) == ["t", "e", "s", "t", "t"]
  {
    assert !DoubledAt(ps, "t", 0) && DoubledAt(ps, "t", 1);
    assert FirstDoubled(ps, "t") == Some(1);
  }

  lemma DedoubleLastExample(s: string)
    requires s == "ttestt"
    ensures Lemma.FromParts(DedoubleSpec(Lemma.FromString(s).Parts(), "t", Last)).Parts() == ["t", "t", "e", "s", "t"]
  {
    TtesttLetters(s);
    var ps := Lemma.FromString(s).Parts();
    DedoubleParts(ps, "t", Last);
    DedoubleLastTtestt(ps);
  }

  lemma DedoubleLastTtestt(ps: seq<string>)
    requires ps == ["t", "t", "e", "s", "t", "t"]
    ensures DedoubleSpec(ps, "t", Last) == ["t", "t", "e", "s", "t"]
  {
    assert !DoubledBackAt(ps, "t", 5) && DoubledBackAt(ps, "t", 4);
    assert LastDoubledBack(ps, "t") == Some(4);
  }

  lemma SelectKirum(ps: seq<string>, arr: seq<LetterArrayValues>)
    requires ps == ["k", "i", "r", "u", "m"]
    requires arr == [Place(0), Char("t"), Char("q"), Place(1)]
    ensures ArraySelect(ps, arr) == ["k", "t", "q", "i"]
  {
    var a1 := [Place(0)];
    var a2 := a1 + [Char("t")];
    var a3 := a2 + [Char("q")];
    assert a3 + [Place(1)] == arr;
    assert ArraySelect(ps, a1) == ["k"] by {
      assert a1[..0] == [];
    }
    assert a2[..1] == a1;
    assert ArraySelect(ps, a2) == ["k", "t"];
    assert a3[..2] == a2;
    assert ArraySelect(ps, a3) == ["k", "t", "q"];
    assert arr[..3] == a3;
  }

  /** `modify_with_array([0, t, q, 1])` on "kirum" writes the same value as
      the lemma built from k, t, q, i. */
  lemma ModifyWithArrayExample(ps: seq<string>, arr: seq<LetterArrayValues>, golden: seq<string>)
    requires ps == ["k", "i", "r", "u", "m"]
    requires arr == [Place(0), Char("t"), Char("q"), Place(1)]
    requires golden == ["k", "t", "q", "i"]
    ensures Terminated(ArraySelect(Lemma.FromParts(ps).Parts(), arr)) == Lemma.FromParts(golden).value
  {
    FromPartsRoundTrip(ps);
    SelectKirum(ps, arr);
    FilterLetters(golden);
  }

  // ---------------------------------------------------------------------------
  // replace at Last on a multi-character letter
  // ---------------------------------------------------------------------------

  /** `replace("u", "o", Last)` on the letters ch, u.  As written, the Last arm
      re-reads the replaced text one character per letter, so the letter "ch"
      comes back split and reversed: h, c, o. */
  lemma ReplaceLastAsWrittenSplits(ps: seq<string>)
    requires ps == ["ch", "u"]
    ensures Lemma.FromParts(ps).ReplaceAsWritten("u", "o", Last).Parts() == ["h", "c", "o"]
  {
    var revd := Lemma.FromParts(Reverse(Lemma.FromParts(ps).Parts()));
    ReversedChU(ps, revd);
    var replaced := ReplaceFirst(revd.value, "u", "o");
    ReplacedOCh(["u", "ch"], replaced);
    ReadBackOCh(replaced);
  }

  lemma ReversedChU(ps: seq<string>, revd: Lemma)
    requires |ps| == 2 && ps[0] == "ch" && ps[1] == "u"
    requires revd == Lemma.FromParts(Reverse(Lemma.FromParts(ps).Parts()))
    ensures revd.value == Terminated(["u", "ch"])
  {
    ChULetters(ps);
    ReversedValue(ps);
    ReverseChU(ps, Reverse(ps));
  }

  lemma ChULetters(ps: seq<string>)
    requires |ps| == 2 && ps[0] == "ch" && ps[1] == "u"
    ensures AllLetters(ps)
  {
    assert IsLetter(ps[0]) && IsLetter(ps[1]);
    forall p | p in ps ensures IsLetter(p) {
      var i :| 0 <= i < 2 && ps[i] == p;
    }
  }

  /** Reversing the letters of a lemma writes them back reversed. */
  lemma ReversedValue(ps: seq<string>)
    requires AllLetters(ps)
    ensures Lemma.FromParts(Reverse(Lemma.FromParts(ps).Parts())).value == Terminated(Reverse(ps))
  {
    FromPartsRoundTrip(ps);
    ReverseMembers(ps);
    FilterLetters(Reverse(ps));
  }

  lemma ReadBackOCh(replaced: string)
    requires replaced == ['o', WORD_SEP, 'c', 'h', WORD_SEP]
    ensures Lemma.FromParts(Reverse(Lemma.FromString(replaced).Parts())).Parts() == ["h", "c", "o"]
  {
    var kept := Filter(Chars(replaced), Keep);
    FromStringKeeps(replaced);
    CharsOCh(replaced, Chars(replaced));
    KeepOCh(Chars(replaced));
    ReverseMembers(kept);
    FromPartsRoundTrip(Reverse(kept));
    ReverseOCh(kept);
  }

  lemma ReverseChU(ps: seq<string>, rps: seq<string>)
    requires |ps| == 2 && ps[0] == "ch" && ps[1] == "u" && rps == Reverse(ps)
    ensures rps == ["u", "ch"]
  {
    assert rps[0] == "u" && rps[1] == "ch";
  }

  lemma ReplacedOCh(rps: seq<string>, replaced: string)
    requires rps == ["u", "ch"]
    requires replaced == ReplaceFirst(Terminated(rps), "u", "o")
    ensures replaced == ['o', WORD_SEP, 'c', 'h', WORD_SEP]
  {
    SingleCharWhole(rps, 'u');
    ReplaceFirstTerminated(rps, "u", "o");
    assert ReplaceFirstLetter(rps, "u", "o") == ["o", "ch"];
    TerminatedCons("o", ["ch"]);
    TerminatedSingle("ch");
  }

  lemma CharsOCh(replaced: string, chars: seq<string>)
    requires replaced == ['o', WORD_SEP, 'c', 'h', WORD_SEP] && chars == Chars(replaced)
    ensures chars == ["o", [WORD_SEP], "c", "h", [WORD_SEP]]
  {
  }

  lemma KeepOCh(chars: seq<string>)
    requires chars == ["o", [WORD_SEP], "c", "h", [WORD_SEP]]
    ensures Filter(chars, Keep) == ["o", "c", "h"]
  {
    var sep: string := [WORD_SEP];
    var c1: seq<string> := ["o"];
    var c2 := c1 + [sep];
    var c3 := c2 + ["c"];
    var c4 := c3 + ["h"];
    assert c4 + [sep] == chars;
    assert Filter(c1, Keep) == ["o"] by {
      assert c1[..0] == [];
    }
    assert c2[..1] == c1;
    assert Filter(c2, Keep) == ["o"];
    assert c3[..2] == c2;
    assert Filter(c3, Keep) == ["o", "c"];
    assert c4[..3] == c3;
    assert Filter(c4, Keep) == ["o", "c", "h"];
    assert chars[..4] == c4;
  }

  lemma ReverseOCh(hco: seq<string>)
    requires hco == ["o", "c", "h"]
    ensures Reverse(hco) == ["h", "c", "o"]
  {
  }

  /** The corrected Last arm keeps "ch" whole and replaces the last "u":
      ch, o. */
  lemma ReplaceLastKeepsLetters(ps: seq<string>)
    requires ps == ["ch", "u"]
    ensures Lemma.FromParts(ps).Replace("u", "o", Last).Parts() == ["ch", "o"]
  {
    assert AllLetters(ps) && WholeLetter(ps, "u") by {
      SingleCharWhole(ps, 'u');
    }
    ReplaceLetterParts(ps, "u", "o", Last);
    assert ReplaceLetters(ps, "u", "o", Last) == ps[1 := "o"] by {
      ReplaceLastLetterAt(ps, "u", "o");
      assert LastIndexOf(ps, "u") == Some(1);
    }
  }
}
