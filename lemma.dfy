/** `Lemma` (libkirum/src/lemma.rs): a word stored as one string in which
    every letter is followed by the separator U+200B, so that a letter may be
    spelled with several characters.  `Parts` reads the letters back by
    splitting on the separator and dropping empty pieces.

    The source mutates `self.value` through `&mut self`; a `Lemma` is a plain
    value (it derives `Clone` and `Eq`), so each mutator here returns the
    updated lemma instead. */
module Lemmas {
  import opened Wrappers
  import opened Strings
  import opened Letters

  /** The separator written after every letter (ZERO WIDTH SPACE). */
  const WORD_SEP: char := '\U{200B}'

  /** A letter as a lemma stores it: non-empty and free of the separator. */
  predicate IsLetter(p: string)
  {
    p != [] && WORD_SEP !in p
  }

  predicate AllLetters(ps: seq<string>)
  {
    forall p :: p in ps ==> IsLetter(p)
  }

  predicate SepFree(ps: seq<string>)
  {
    forall p :: p in ps ==> WORD_SEP !in p
  }

  /** A part that `From<Vec<String>>` keeps: neither empty nor the separator
      on its own. */
  predicate Keep(part: string)
  {
    part != [WORD_SEP] && part != []
  }

  /** The parts, each followed by the separator. */
  function Terminated(ps: seq<string>): string
  {
    if ps == [] then [] else Terminated(ps[..|ps| - 1]) + ps[|ps| - 1] + [WORD_SEP]
  }

  lemma {:induction false} TerminatedAppend(a: seq<string>, b: seq<string>)
    ensures Terminated(a + b) == Terminated(a) + Terminated(b)
  {
    if b == [] {
      assert a + b == a;
    } else {
      var init, x := b[..|b| - 1], b[|b| - 1];
      var ab := a + b;
      assert ab[..|ab| - 1] == a + init && ab[|ab| - 1] == x;
      TerminatedAppend(a, init);
      calc {
        Terminated(ab);
        Terminated(a + init) + x + [WORD_SEP];
        Terminated(a) + Terminated(init) + x + [WORD_SEP];
        Terminated(a) + (Terminated(init) + x + [WORD_SEP]);
        Terminated(a) + Terminated(b);
      }
    }
  }

  lemma TerminatedSingle(p: string)
    ensures Terminated([p]) == p + [WORD_SEP]
  {
    assert [p][..0] == [];
  }

  lemma TerminatedCons(p: string, rest: seq<string>)
    ensures Terminated([p] + rest) == p + [WORD_SEP] + Terminated(rest)
  {
    TerminatedAppend([p], rest);
    assert [p][..0] == [];
  }

  /** The pieces of a terminated sequence of separator-free parts are those
      parts followed by one empty piece. */
  lemma {:induction false} SplitTerminated(ps: seq<string>)
    requires SepFree(ps)
    ensures SplitOn(Terminated(ps), WORD_SEP) == ps + [[]]
  {
    if ps != [] {
      var rest := ps[1..];
      assert ps == [ps[0]] + rest;
      assert SepFree(rest) by {
        forall p | p in rest ensures WORD_SEP !in p { assert p in ps; }
      }
      SplitTerminated(rest);
      TerminatedCons(ps[0], rest);
      SplitOnAppend(ps[0], WORD_SEP, Terminated(rest));
      SplitOnFree(ps[0], WORD_SEP);
    }
  }

  /** The non-empty pieces of `v` between separators: the letters. */
  function Pieces(v: string): (r: seq<string>)
    ensures AllLetters(r)
  {
    SplitOnJoinWith(v, WORD_SEP);
    FilterMember(SplitOn(v, WORD_SEP), NonEmpty);
    Filter(SplitOn(v, WORD_SEP), NonEmpty)
  }

  /** Pieces split at a separator independently. */
  lemma PiecesAppend(x: string, y: string)
    ensures Pieces(x + [WORD_SEP] + y) == Pieces(x) + Pieces(y)
  {
    SplitOnAppend(x, WORD_SEP, y);
    FilterAppend(SplitOn(x, WORD_SEP), SplitOn(y, WORD_SEP), NonEmpty);
  }

  lemma ModifyStep(working: seq<string>, arr: seq<LetterArrayValues>)
    requires arr != []
    ensures Terminated(ArraySelect(working, arr)) ==
      Terminated(ArraySelect(working, arr[..|arr| - 1])) + Terminated(Pick(working, arr[|arr| - 1]))
    ensures arr[|arr| - 1].Char? ==> Terminated(Pick(working, arr[|arr| - 1])) == arr[|arr| - 1].letter + [WORD_SEP]
    ensures arr[|arr| - 1].Place? && 0 <= arr[|arr| - 1].pos < |working| ==>
      Terminated(Pick(working, arr[|arr| - 1])) == working[arr[|arr| - 1].pos] + [WORD_SEP]
  {
    var pick := Pick(working, arr[|arr| - 1]);
    assert ArraySelect(working, arr) == ArraySelect(working, arr[..|arr| - 1]) + pick;
    TerminatedAppend(ArraySelect(working, arr[..|arr| - 1]), pick);
    if pick != [] {
      TerminatedSingle(pick[0]);
    }
  }

  /** The pieces of terminated separator-free parts are the non-empty parts. */
  lemma PiecesTerminated(ps: seq<string>)
    requires SepFree(ps)
    ensures Pieces(Terminated(ps)) == Filter(ps, NonEmpty)
  {
    SplitTerminated(ps);
    FilterAppend(ps, [[]], NonEmpty);
    assert Filter([[]], NonEmpty) == [];
  }

  lemma FilterLetters(ps: seq<string>)
    requires AllLetters(ps)
    ensures Filter(ps, NonEmpty) == ps && Filter(ps, Keep) == ps
  {
    assert forall i :: 0 <= i < |ps| ==> ps[i] in ps;
    FilterAll(ps, NonEmpty);
    FilterAll(ps, Keep);
  }

  lemma FilterKeepLetters(ps: seq<string>)
    requires SepFree(ps)
    ensures AllLetters(Filter(ps, Keep))
  {
  }

  /** Dropping the last part: it adds itself and a separator exactly when it is kept. */
  lemma TerminatedKeepLast(parts: seq<string>)
    requires parts != []
    ensures Terminated(Filter(parts, Keep)) ==
      Terminated(Filter(parts[..|parts| - 1], Keep)) +
      (if Keep(parts[|parts| - 1]) then parts[|parts| - 1] + [WORD_SEP] else [])
  {
    var last := parts[|parts| - 1];
    var kept := Filter(parts[..|parts| - 1], Keep);
    if Keep(last) {
      assert Filter(parts, Keep) == kept + [last];
      TerminatedAppend(kept, [last]);
      TerminatedSingle(last);
    } else {
      assert Filter(parts, Keep) == kept;
    }
  }

  datatype Lemma = Lemma(value: string)
  {
    /** `From<Vec<String>>`: each part that is neither empty nor the
        separator alone is written out followed by the separator. */
    static function FromParts(parts: seq<string>): (r: Lemma)
      ensures r.value == Terminated(Filter(parts, Keep))
    {
      if parts == [] then Lemma([])
      else
        var init := FromParts(parts[..|parts| - 1]);
        TerminatedKeepLast(parts);
        var last := parts[|parts| - 1];
        Lemma(init.value + (if Keep(last) then last + [WORD_SEP] else []))
    }

    /** `From<String>`: one letter per character (a character stands for one
        grapheme here). */
    static function FromString(s: string): (r: Lemma)
    {
      FromParts(Chars(s))
    }

    /** `From<Lemma> for Vec<String>` (also `chars` and `into_iter`). */
    function Parts(): (r: seq<string>)
      ensures AllLetters(r)
    {
      Pieces(value)
    }

    /** `to_string`: the raw value, separators included. */
    function ToString(): string
    {
      value
    }

    /** `len`: the number of letters. */
    function Len(): nat
    {
      |Parts()|
    }

    /** `is_empty`: the raw value is empty. */
    predicate IsEmpty()
    {
      value == []
    }

    /** `push`: the letters of `pushed` appended; an empty lemma takes the
        pushed value as it is. */
    function Push(pushed: Lemma): (r: Lemma)
      ensures r.Parts() == Parts() + pushed.Parts()
      ensures IsEmpty() ==> r == pushed
    {
      if !IsEmpty() then
        var joined := Parts() + pushed.Parts();
        FromPartsRoundTrip(joined);
        FromParts(joined)
      else
        assert Parts() == [] by { assert SplitOn(value, WORD_SEP) == [[]]; }
        Lemma(pushed.value)
    }

    /** `push_char`: one more letter; an empty lemma becomes the pushed
        string verbatim. */
    function PushChar(pushed: string): (r: Lemma)
      ensures IsEmpty() ==> r.value == pushed
      ensures !IsEmpty() && IsLetter(pushed) ==> r.Parts() == Parts() + [pushed]
      ensures !IsEmpty() && !Keep(pushed) ==> r.Parts() == Parts()
    {
      if !IsEmpty() then
        PushCharParts(Parts(), pushed);
        FromParts(Parts() + [pushed])
      else
        Lemma(pushed)
    }

    /** `string_without_sep`: the value with every separator removed. */
    function StringWithoutSep(): (r: string)
      ensures WORD_SEP !in r
    {
      RemoveAllChar(value, WORD_SEP)
    }

    /** `add_prefix`: the prefix's raw value in front. */
    function AddPrefix(prefix: Lemma): (r: Lemma)
    {
      Lemma(prefix.value + value)
    }

    /** `add_postfix`: the postfix's raw value behind. */
    function AddPostfix(postfix: Lemma): (r: Lemma)
    {
      Lemma(value + postfix.value)
    }

    /** `dedouble_sep`: the walk over the characters of the value, skipping a
        separator equal to the previous character `cur`. */
    method DedoubleSep() returns (r: Lemma)
      ensures r.value == CollapseSeps([], value)
    {
      var acc: string := [];
      var cur: string := [];
      var s := value;
      for i := 0 to |s|
        invariant cur == (if i == 0 then [] else [s[i - 1]])
        invariant acc + CollapseSeps(cur, s[i..]) == CollapseSeps([], s)
      {
        var c := s[i];
        CollapseLoopStep(acc, cur, s, i);
        if [c] == cur && c == WORD_SEP {
          continue;
        }
        acc := acc + [c];
        cur := [c];
      }
      r := Lemma(acc);
    }

    /** `replace` (through `replace_str`) with the Last arm as the type means
        it: the letters reversed, the first match in their text replaced, and
        the resulting pieces reversed back, multi-character letters whole. */
    function Replace(old_: string, new_: string, kind: LetterPlaceType): Lemma
    {
      match kind
      case All => Lemma(ReplaceAll(value, old_, new_))
      case First => Lemma(ReplaceFirst(value, old_, new_))
      case Last =>
        var revd := FromParts(Reverse(Parts()));
        FromParts(Reverse(Lemma(ReplaceFirst(revd.value, old_, new_)).Parts()))
    }

    /** `replace_str` as written: the Last arm turns the replaced reversed
        text back into a lemma with `From<String>`, which makes every
        character a letter of its own before the letters are reversed. */
    function ReplaceAsWritten(old_: string, new_: string, kind: LetterPlaceType): Lemma
    {
      match kind
      case Last =>
        var revd := FromParts(Reverse(Parts()));
        FromParts(Reverse(FromString(ReplaceFirst(revd.value, old_, new_)).Parts()))
      case _ => Replace(old_, new_, kind)
    }

    /** `remove_char`: the text of `c` replaced by nothing, then doubled
        separators collapsed. */
    method RemoveChar(c: string, kind: LetterPlaceType) returns (r: Lemma)
      ensures r.value == CollapseSeps([], Replace(c, [], kind).value)
    {
      var replaced := Replace(c, [], kind);
      r := replaced.DedoubleSep();
    }

    /** `dedouble`: the letters walked with the `found`/`cur` flags, and the
        kept ones rebuilt into a lemma. */
    method Dedouble(letter: string, position: LetterPlaceType) returns (r: Lemma)
      ensures r == FromParts(DedoubleSpec(Parts(), letter, position))
    {
      var acc := Letters.Dedouble(Parts(), letter, position);
      r := FromParts(acc);
    }

    /** `double` with `double_vec`. */
    function Double(letter: string, position: LetterPlaceType): Lemma
    {
      FromParts(DoubleLetters(Parts(), letter, position))
    }

    /** `modify_with_array`: for each entry, the literal letter or the letter
        at that place followed by the separator; places out of range are
        skipped. */
    method ModifyWithArray(arr: seq<LetterArrayValues>) returns (r: Lemma)
      ensures r.value == Terminated(ArraySelect(Parts(), arr))
    {
      var working := Parts();
      var newLetters: string := [];
      for i := 0 to |arr|
        invariant newLetters == Terminated(ArraySelect(working, arr[..i]))
      {
        var entry := arr[i];
        ModifyStep(working, arr[..i + 1]);
        assert arr[..i + 1][..i] == arr[..i] && arr[..i + 1][i] == entry;
        ghost var emitted := Terminated(Pick(working, entry));
        if entry.Place? {
          if !(0 <= entry.pos < |working|) {
            assert emitted == [];
            continue;
          }
          newLetters := newLetters + working[entry.pos] + [WORD_SEP];
        } else {
          newLetters := newLetters + entry.letter + [WORD_SEP];
        }
      }
      assert arr[..|arr|] == arr;
      r := Lemma(newLetters);
    }
  }

  lemma PushCharParts(ps: seq<string>, pushed: string)
    requires AllLetters(ps)
    ensures IsLetter(pushed) ==> Lemma.FromParts(ps + [pushed]).Parts() == ps + [pushed]
    ensures !Keep(pushed) ==> Lemma.FromParts(ps + [pushed]).Parts() == ps
  {
    if IsLetter(pushed) {
      assert AllLetters(ps + [pushed]) by {
        forall p | p in ps + [pushed] ensures IsLetter(p) {
          if p != pushed { assert p in ps; }
        }
      }
      FromPartsRoundTrip(ps + [pushed]);
    } else if !Keep(pushed) {
      assert Filter(ps + [pushed], Keep) == Filter(ps, Keep);
      assert Lemma.FromParts(ps + [pushed]) == Lemma.FromParts(ps);
      FromPartsRoundTrip(ps);
    }
  }

  /** A list of letters survives the trip to a lemma and back unchanged. */
  lemma FromPartsRoundTrip(ps: seq<string>)
    requires AllLetters(ps)
    ensures Lemma.FromParts(ps).Parts() == ps
  {
    FilterLetters(ps);
    PiecesTerminated(ps);
  }

  /** In general the trip drops exactly the parts `From<Vec<String>>` skips:
      empty parts and lone separators. */
  lemma FromPartsParts(ps: seq<string>)
    requires SepFree(ps)
    ensures Lemma.FromParts(ps).Parts() == Filter(ps, Keep)
  {
    var kept := Filter(ps, Keep);
    FilterKeepLetters(ps);
    FromPartsRoundTrip(kept);
    FilterLetters(kept);
    PiecesTerminated(kept);
  }

  /** `len` counts the letters a lemma was built from. */
  lemma LenFromParts(ps: seq<string>)
    requires AllLetters(ps)
    ensures Lemma.FromParts(ps).Len() == |ps|
    ensures Lemma.FromParts(ps).IsEmpty() <==> ps == []
  {
    FromPartsRoundTrip(ps);
    FilterLetters(ps);
    if ps != [] {
      TerminatedAppend(ps[..|ps| - 1], [ps[|ps| - 1]]);
      assert ps == ps[..|ps| - 1] + [ps[|ps| - 1]];
    }
  }

  /** `to_string` of a lemma built from letters writes each letter followed
      by the separator, and reading that text back gives the letters. */
  lemma ToStringParts(ps: seq<string>)
    requires AllLetters(ps)
    ensures Lemma.FromParts(ps).ToString() == Terminated(ps)
    ensures Lemma(Lemma.FromParts(ps).ToString()).Parts() == ps
  {
    FilterLetters(ps);
    FromPartsRoundTrip(ps);
  }

  lemma {:induction false} JoinWithoutSep(ps: seq<string>)
    requires SepFree(ps)
    ensures RemoveAllChar(Terminated(ps), WORD_SEP) == Join(ps)
  {
    if ps != [] {
      var init := ps[..|ps| - 1];
      var last := ps[|ps| - 1];
      assert SepFree(init) by {
        forall p | p in init ensures WORD_SEP !in p { assert p in ps; }
      }
      JoinWithoutSep(init);
      RemoveAllCharAppend(Terminated(init) + last, [WORD_SEP], WORD_SEP);
      RemoveAllCharAppend(Terminated(init), last, WORD_SEP);
      RemoveAllCharFree(last, WORD_SEP);
    }
  }

  lemma {:induction false} JoinKeep(ps: seq<string>)
    requires SepFree(ps)
    ensures Join(Filter(ps, Keep)) == Join(ps)
  {
    if ps != [] {
      var init := ps[..|ps| - 1];
      assert SepFree(init) by {
        forall p | p in init ensures WORD_SEP !in p { assert p in ps; }
      }
      JoinKeep(init);
      var last := ps[|ps| - 1];
      assert last in ps;
      assert WORD_SEP !in last;
      assert WORD_SEP in [WORD_SEP];
      assert ps[..|ps| - 1] == init;
      if Keep(last) {
        JoinAppend(Filter(init, Keep), [last]);
      } else {
        assert last == [];
        assert Filter(ps, Keep) == Filter(init, Keep);
        assert Join(ps) == Join(init) + last;
      }
    }
  }

  /** `string_without_sep` of a lemma built from letters is their
      concatenation. */
  lemma StringWithoutSepFromParts(ps: seq<string>)
    requires SepFree(ps)
    ensures Lemma.FromParts(ps).StringWithoutSep() == Join(ps)
  {
    FilterKeepLetters(ps);
    JoinWithoutSep(Filter(ps, Keep));
    JoinKeep(ps);
  }

  /** Prefixing and postfixing a lemma with another concatenates their
      letters in that order, and their separator-free strings likewise. */
  lemma PrefixPostfixParts(word: seq<string>, affix: seq<string>)
    requires AllLetters(word) && AllLetters(affix)
    ensures Lemma.FromParts(word).AddPrefix(Lemma.FromParts(affix)).Parts() == affix + word
    ensures Lemma.FromParts(word).AddPostfix(Lemma.FromParts(affix)).Parts() == word + affix
    ensures Lemma.FromParts(word).AddPrefix(Lemma.FromParts(affix)).StringWithoutSep() == Join(affix) + Join(word)
    ensures Lemma.FromParts(word).AddPostfix(Lemma.FromParts(affix)).StringWithoutSep() == Join(word) + Join(affix)
  {
    FilterLetters(word);
    FilterLetters(affix);
    TerminatedAppend(affix, word);
    TerminatedAppend(word, affix);
    FromPartsRoundTrip(affix + word);
    FromPartsRoundTrip(word + affix);
    StringWithoutSepFromParts(affix + word);
    StringWithoutSepFromParts(word + affix);
    JoinAppend(affix, word);
    JoinAppend(word, affix);
    FilterLetters(affix + word);
    FilterLetters(word + affix);
  }

  // ---------------------------------------------------------------------------
  // dedouble_sep
  // ---------------------------------------------------------------------------

  /** What the `dedouble_sep` walk keeps of `s` when the character before it
      was `prev` (the empty string at the start): a separator right after a
      separator is dropped. */
  function CollapseSeps(prev: string, s: string): (r: string)
    ensures |r| <= |s|
    decreases |s|
  {
    if s == [] then []
    else (if [s[0]] == prev && s[0] == WORD_SEP then [] else [s[0]]) + CollapseSeps([s[0]], s[1..])
  }

  /** One step of `CollapseSeps` at position `i`. */
  lemma CollapseSepsAt(prev: string, s: string, i: nat)
    requires i < |s|
    ensures CollapseSeps(prev, s[i..]) ==
      (if [s[i]] == prev && s[i] == WORD_SEP then [] else [s[i]]) + CollapseSeps([s[i]], s[i + 1..])
  {
    assert s[i..][1..] == s[i + 1..];
  }

  /** The invariant of the loop of `dedouble_sep` survives one character. */
  lemma CollapseLoopStep(acc: string, cur: string, s: string, i: nat)
    requires i < |s|
    ensures var skip := [s[i]] == cur && s[i] == WORD_SEP;
      acc + CollapseSeps(cur, s[i..]) ==
      (if skip then acc else acc + [s[i]]) + CollapseSeps([s[i]], s[i + 1..])
  {
    CollapseSepsAt(cur, s, i);
  }

  predicate NoDoubleSep(s: string)
  {
    forall i :: 0 < i < |s| ==> !(s[i] == WORD_SEP && s[i - 1] == WORD_SEP)
  }

  /** No two separators in a row remain after collapsing, and if the walk
      started right after a separator, it does not start with one. */
  lemma {:induction false} CollapseSepsNoDouble(prev: string, s: string)
    ensures NoDoubleSep(CollapseSeps(prev, s))
    ensures prev == [WORD_SEP] && CollapseSeps(prev, s) != [] ==> CollapseSeps(prev, s)[0] != WORD_SEP
    decreases |s|
  {
    if s != [] {
      CollapseSepsNoDouble([s[0]], s[1..]);
      var rest := CollapseSeps([s[0]], s[1..]);
      if !([s[0]] == prev && s[0] == WORD_SEP) {
        var r := [s[0]] + rest;
        forall i | 0 < i < |r| ensures !(r[i] == WORD_SEP && r[i - 1] == WORD_SEP) {
          if i > 1 {
            assert r[i] == rest[i - 1] && r[i - 1] == rest[i - 2];
          }
        }
      }
    }
  }

  /** Collapsing separators keeps the letters: with `x` the text already
      written (ending in a separator whenever `prev` is one), the pieces of
      `x` followed by the collapsed rest are those of `x` followed by `s`. */
  lemma {:induction false} CollapseSepsPieces(x: string, prev: string, s: string)
    requires prev == [WORD_SEP] ==> x != [] && x[|x| - 1] == WORD_SEP
    ensures Pieces(x + CollapseSeps(prev, s)) == Pieces(x + s)
    decreases |s|
  {
    if s != [] {
      var c := s[0];
      assert s == [c] + s[1..];
      if [c] == prev && c == WORD_SEP {
        CollapseSepsPieces(x, [c], s[1..]);
        var x' := x[..|x| - 1];
        assert x == x' + [WORD_SEP];
        assert x + s[1..] == x' + [WORD_SEP] + s[1..];
        assert x + s == x' + [WORD_SEP] + ([WORD_SEP] + s[1..]);
        assert [WORD_SEP] + s[1..] == [] + [WORD_SEP] + s[1..];
        assert CollapseSeps(prev, s) == CollapseSeps([c], s[1..]);
        PiecesAppend(x', s[1..]);
        PiecesAppend(x', [WORD_SEP] + s[1..]);
        PiecesAppend([], s[1..]);
        assert Pieces([]) == [] by {
          assert SplitOn([], WORD_SEP) == [[]];
          assert Filter([[]], NonEmpty) == Filter([], NonEmpty) + [];
        }
      } else {
        CollapseSepsPieces(x + [c], [c], s[1..]);
        assert x + CollapseSeps(prev, s) == (x + [c]) + CollapseSeps([c], s[1..]);
        assert x + s == (x + [c]) + s[1..];
      }
    }
  }

  /** `dedouble_sep` keeps every letter and leaves no two separators in a
      row. */
  lemma DedoubleSepSpec(l: Lemma)
    ensures NoDoubleSep(CollapseSeps([], l.value))
    ensures Lemma(CollapseSeps([], l.value)).Parts() == l.Parts()
  {
    CollapseSepsNoDouble([], l.value);
    CollapseSepsPieces([], [], l.value);
    assert [] + l.value == l.value;
    assert [] + CollapseSeps([], l.value) == CollapseSeps([], l.value);
  }

  // ---------------------------------------------------------------------------
  // replace / replace_str
  // ---------------------------------------------------------------------------

  /** No match of `pat` starts inside `p`. */
  predicate NotInside(pat: string, p: string)
  {
    forall k :: 0 <= k < |p| ==> !IsPrefix(pat, p[k..])
  }

  /** `pat` can only match whole letters of `ps`: it is a letter itself, and
      every letter of `ps` is either `pat` or free of it. */
  predicate WholeLetter(ps: seq<string>, pat: string)
  {
    IsLetter(pat) && forall p :: p in ps ==> p == pat || NotInside(pat, p)
  }

  /** A letter free of `pat`, with its separator, holds no start of a match,
      whatever follows it. */
  lemma NoMatchInPart(p: string, v: string, pat: string)
    requires IsLetter(pat) && NotInside(pat, p)
    ensures forall k :: 0 <= k < |p + [WORD_SEP]| ==> !IsPrefix(pat, (p + [WORD_SEP] + v)[k..])
  {
    var w := p + [WORD_SEP] + v;
    forall k | 0 <= k < |p + [WORD_SEP]| ensures !IsPrefix(pat, w[k..]) {
      if |pat| <= |w[k..]| {
        if k + |pat| <= |p| {
          assert !IsPrefix(pat, p[k..]);
          assert p[k..][..|pat|] == w[k..][..|pat|];
        } else {
          assert w[k..][|p| - k] == WORD_SEP;
          assert pat[|p| - k] != WORD_SEP;
          assert w[k..][..|pat|][|p| - k] != pat[|p| - k];
        }
      }
    }
  }

  lemma WholeLetterTail(p: string, rest: seq<string>, pat: string)
    requires WholeLetter([p] + rest, pat)
    ensures WholeLetter(rest, pat) && (p == pat || NotInside(pat, p))
  {
    assert p in [p] + rest;
    forall q | q in rest ensures q == pat || NotInside(pat, q) { assert q in [p] + rest; }
  }

  /** One letter and its separator, then text `v`: replacing every match
      handles the letter on its own. */
  lemma ReplaceAllStep(p: string, v: string, pat: string, rep: string)
    requires IsLetter(pat) && (p == pat || NotInside(pat, p))
    ensures ReplaceAll(p + [WORD_SEP] + v, pat, rep) == (if p == pat then rep else p) + [WORD_SEP] + ReplaceAll(v, pat, rep)
  {
    assert pat[0] in pat;
    assert ([WORD_SEP] + v)[0..][0] == WORD_SEP;
    ReplaceAllSkip([WORD_SEP], v, pat, rep);
    var w := p + [WORD_SEP] + v;
    if p == pat {
      assert IsPrefix(pat, w);
      assert w[|pat|..] == [WORD_SEP] + v;
    } else {
      NoMatchInPart(p, v, pat);
      ReplaceAllSkip(p + [WORD_SEP], v, pat, rep);
    }
  }

  lemma ReplaceFirstStep(p: string, v: string, pat: string, rep: string)
    requires IsLetter(pat) && (p == pat || NotInside(pat, p))
    ensures p == pat ==> ReplaceFirst(p + [WORD_SEP] + v, pat, rep) == rep + [WORD_SEP] + v
    ensures p != pat ==> ReplaceFirst(p + [WORD_SEP] + v, pat, rep) == p + [WORD_SEP] + ReplaceFirst(v, pat, rep)
  {
    var w := p + [WORD_SEP] + v;
    if p == pat {
      assert IsPrefix(pat, w);
      assert w[|pat|..] == [WORD_SEP] + v;
    } else {
      NoMatchInPart(p, v, pat);
      ReplaceFirstSkip(p + [WORD_SEP], v, pat, rep);
    }
  }

  /** On a lemma whose letters `pat` only matches whole, `str::replace` of the
      text replaces exactly the equal letters. */
  lemma {:induction false} ReplaceAllTerminated(ps: seq<string>, pat: string, rep: string)
    requires WholeLetter(ps, pat)
    ensures ReplaceAll(Terminated(ps), pat, rep) == Terminated(MapReplace(ps, pat, rep))
  {
    if ps != [] {
      var p, rest := ps[0], ps[1..];
      assert ps == [p] + rest;
      WholeLetterTail(p, rest, pat);
      ReplaceAllTerminated(rest, pat, rep);
      var q := if p == pat then rep else p;
      var mapped := MapReplace(rest, pat, rep);
      calc {
        ReplaceAll(Terminated(ps), pat, rep);
        { TerminatedCons(p, rest); }
        ReplaceAll(p + [WORD_SEP] + Terminated(rest), pat, rep);
        { ReplaceAllStep(p, Terminated(rest), pat, rep); }
        q + [WORD_SEP] + Terminated(mapped);
        { TerminatedCons(q, mapped); }
        Terminated([q] + mapped);
        { MapReplaceCons(p, rest, pat, rep); }
        Terminated(MapReplace(ps, pat, rep));
      }
    } else {
      assert ReplaceAll([], pat, rep) == [];
    }
  }

  lemma MapReplaceCons(p: string, rest: seq<string>, pat: string, rep: string)
    ensures MapReplace([p] + rest, pat, rep) == [if p == pat then rep else p] + MapReplace(rest, pat, rep)
  {
    var l, r := MapReplace([p] + rest, pat, rep), [if p == pat then rep else p] + MapReplace(rest, pat, rep);
    assert forall i :: 0 <= i < |l| ==> l[i] == r[i];
  }

  /** Likewise `replacen(.., 1)` replaces exactly the first equal letter. */
  lemma {:induction false} ReplaceFirstTerminated(ps: seq<string>, pat: string, rep: string)
    requires WholeLetter(ps, pat)
    ensures ReplaceFirst(Terminated(ps), pat, rep) == Terminated(ReplaceFirstLetter(ps, pat, rep))
  {
    if ps != [] {
      var p, rest := ps[0], ps[1..];
      assert ps == [p] + rest;
      WholeLetterTail(p, rest, pat);
      TerminatedCons(p, rest);
      ReplaceFirstStep(p, Terminated(rest), pat, rep);
      if p == pat {
        TerminatedCons(rep, rest);
      } else {
        ReplaceFirstTerminated(rest, pat, rep);
        TerminatedCons(p, ReplaceFirstLetter(rest, pat, rep));
      }
    }
  }

  lemma SepFreeReplace(ps: seq<string>, pat: string, rep: string)
    requires SepFree(ps) && WORD_SEP !in rep
    ensures SepFree(MapReplace(ps, pat, rep))
    ensures SepFree(ReplaceFirstLetter(ps, pat, rep))
    ensures SepFree(Reverse(ps))
  {
    ReplaceFirstLetterAt(ps, pat, rep);
    ReverseMembers(ps);
    var m := MapReplace(ps, pat, rep);
    forall x | x in m ensures WORD_SEP !in x {
      var i :| 0 <= i < |m| && m[i] == x;
      assert ps[i] in ps;
    }
    if IndexOf(ps, pat).Some? {
      var f := ps[IndexOf(ps, pat).value := rep];
      forall x | x in f ensures WORD_SEP !in x {
        var i :| 0 <= i < |f| && f[i] == x;
        assert ps[i] in ps;
      }
    }
  }

  lemma WholeLetterReverse(ps: seq<string>, pat: string)
    requires WholeLetter(ps, pat)
    ensures WholeLetter(Reverse(ps), pat)
  {
    ReverseMembers(ps);
  }

  /** `replace` of a whole letter by a separator-free text: the letters
      become those of `ReplaceLetters`, less any that became empty. */
  lemma ReplaceParts(ps: seq<string>, pat: string, rep: string, kind: LetterPlaceType)
    requires AllLetters(ps) && WholeLetter(ps, pat) && WORD_SEP !in rep
    ensures Lemma.FromParts(ps).Replace(pat, rep, kind).Parts() == Filter(ReplaceLetters(ps, pat, rep, kind), NonEmpty)
  {
    FilterLetters(ps);
    FromPartsRoundTrip(ps);
    SepFreeReplace(ps, pat, rep);
    match kind {
      case All =>
        ReplaceAllTerminated(ps, pat, rep);
        PiecesTerminated(MapReplace(ps, pat, rep));
      case First =>
        ReplaceFirstTerminated(ps, pat, rep);
        PiecesTerminated(ReplaceFirstLetter(ps, pat, rep));
      case Last =>
        var rps := Reverse(ps);
        ReverseMembers(ps);
        assert AllLetters(rps);
        FilterLetters(rps);
        WholeLetterReverse(ps, pat);
        ReplaceFirstTerminated(rps, pat, rep);
        var q := ReplaceFirstLetter(rps, pat, rep);
        SepFreeReplace(rps, pat, rep);
        PiecesTerminated(q);
        var kept := Filter(q, NonEmpty);
        ReverseMembers(kept);
        assert AllLetters(Reverse(kept));
        FromPartsRoundTrip(Reverse(kept));
        FilterReverse(q, NonEmpty);
    }
  }

  lemma AllLettersReplace(ps: seq<string>, pat: string, rep: string, kind: LetterPlaceType)
    requires AllLetters(ps) && IsLetter(rep)
    ensures AllLetters(ReplaceLetters(ps, pat, rep, kind))
  {
    var r := ReplaceLetters(ps, pat, rep, kind);
    match kind {
      case All =>
        forall x | x in r ensures IsLetter(x) {
          var i :| 0 <= i < |r| && r[i] == x;
          assert ps[i] in ps;
        }
      case First =>
        ReplaceFirstLetterAt(ps, pat, rep);
        forall x | x in r ensures IsLetter(x) {
          var i :| 0 <= i < |r| && r[i] == x;
          assert ps[i] in ps;
        }
      case Last =>
        ReplaceLastLetterAt(ps, pat, rep);
        forall x | x in r ensures IsLetter(x) {
          var i :| 0 <= i < |r| && r[i] == x;
          assert ps[i] in ps;
        }
    }
  }

  /** With a letter for `new`, `replace` at First/Last/All replaces the
      first, the last or every equal letter (`ReplaceLetters`). */
  lemma ReplaceLetterParts(ps: seq<string>, pat: string, rep: string, kind: LetterPlaceType)
    requires AllLetters(ps) && WholeLetter(ps, pat) && IsLetter(rep)
    ensures Lemma.FromParts(ps).Replace(pat, rep, kind).Parts() == ReplaceLetters(ps, pat, rep, kind)
  {
    ReplaceParts(ps, pat, rep, kind);
    AllLettersReplace(ps, pat, rep, kind);
    FilterLetters(ReplaceLetters(ps, pat, rep, kind));
  }

  /** Letters of at most one character each, none of them a separator. */
  predicate Short(ps: seq<string>)
  {
    forall p :: p in ps ==> |p| <= 1 && WORD_SEP !in p
  }

  lemma CharsAppend(a: string, b: string)
    ensures Chars(a + b) == Chars(a) + Chars(b)
  {
  }

  /** The last short part, with its separator, contributes the same to the
      characters kept by `From<String>` as to the non-empty parts. */
  lemma ShortPartChars(last: string)
    requires |last| <= 1 && WORD_SEP !in last
    ensures Filter(Chars(last + [WORD_SEP]), Keep) == Filter([last], NonEmpty)
  {
    var cs := Chars(last + [WORD_SEP]);
    if last == [] {
      assert cs == [[WORD_SEP]];
      assert Filter(cs, Keep) == Filter(cs[..0], Keep) == [];
      assert Filter([last], NonEmpty) == Filter([last][..0], NonEmpty) == [];
    } else {
      var c := last[0];
      assert last == [c];
      assert last + [WORD_SEP] == [c, WORD_SEP];
      assert cs == [last, [WORD_SEP]];
      assert cs[..1] == [last];
      assert [last][..0] == [];
      assert Filter(cs, Keep) == Filter(cs[..1], Keep) == [last];
      assert Filter([last], NonEmpty) == [last];
    }
  }

  /** For short parts, splitting the written-out text into characters and
      keeping the non-separators gives the non-empty parts back. */
  lemma {:induction false} CharsTerminatedShort(q: seq<string>)
    requires Short(q)
    ensures Filter(Chars(Terminated(q)), Keep) == Filter(q, NonEmpty)
  {
    if q != [] {
      var init, last := q[..|q| - 1], q[|q| - 1];
      assert Short(init) by {
        forall p | p in init ensures |p| <= 1 && WORD_SEP !in p {
          assert p in q;
        }
      }
      assert last in q;
      assert q == init + [last];
      calc {
        Filter(Chars(Terminated(q)), Keep);
      == { TerminatedSnoc(q); }
        Filter(Chars(Terminated(init) + (last + [WORD_SEP])), Keep);
      == { CharsAppend(Terminated(init), last + [WORD_SEP]); }
        Filter(Chars(Terminated(init)) + Chars(last + [WORD_SEP]), Keep);
      == { FilterAppend(Chars(Terminated(init)), Chars(last + [WORD_SEP]), Keep); }
        Filter(Chars(Terminated(init)), Keep) + Filter(Chars(last + [WORD_SEP]), Keep);
      == { CharsTerminatedShort(init); ShortPartChars(last); }
        Filter(init, NonEmpty) + Filter([last], NonEmpty);
      == { FilterAppend(init, [last], NonEmpty); }
        Filter(q, NonEmpty);
      }
    }
  }

  lemma TerminatedSnoc(q: seq<string>)
    requires q != []
    ensures Terminated(q) == Terminated(q[..|q| - 1]) + (q[|q| - 1] + [WORD_SEP])
  {
    var a, b := Terminated(q[..|q| - 1]), q[|q| - 1];
    assert a + b + [WORD_SEP] == a + (b + [WORD_SEP]);
  }

  /** Replacing one letter by a short text keeps the letters short. */
  lemma ShortReplaceFirst(ps: seq<string>, pat: string, rep: string)
    requires Short(ps) && |rep| <= 1 && WORD_SEP !in rep
    ensures Short(ReplaceFirstLetter(ps, pat, rep))
  {
    ReplaceFirstLetterAt(ps, pat, rep);
    if IndexOf(ps, pat).Some? {
      var i := IndexOf(ps, pat).value;
      var r := ps[i := rep];
      forall x | x in r ensures |x| <= 1 && WORD_SEP !in x {
        var j :| 0 <= j < |r| && r[j] == x;
        if j != i {
          assert ps[j] in ps;
        }
      }
    }
  }

  /** On single-character letters, and a replacement of at most one
      character, the `Last` arm as written (re-splitting with `From<String>`)
      and the corrected arm give the same lemma. */
  lemma ReplaceLastAgrees(ps: seq<string>, pat: string, rep: string)
    requires AllLetters(ps) && Short(ps) && WholeLetter(ps, pat)
    requires |rep| <= 1 && WORD_SEP !in rep
    ensures Lemma.FromParts(ps).ReplaceAsWritten(pat, rep, Last) == Lemma.FromParts(ps).Replace(pat, rep, Last)
  {
    FromPartsRoundTrip(ps);
    var rps := Reverse(ps);
    ReverseMembers(ps);
    assert AllLetters(rps) && Short(rps);
    FilterLetters(rps);
    WholeLetterReverse(ps, pat);
    ReplaceFirstTerminated(rps, pat, rep);
    var q := ReplaceFirstLetter(rps, pat, rep);
    SepFreeReplace(rps, pat, rep);
    PiecesTerminated(q);
    ShortReplaceFirst(rps, pat, rep);
    FromStringKeeps(Terminated(q));
    CharsTerminatedShort(q);
  }

  /** Hence `replace` and `remove_char` agree with the source at every
      position for such letters. */
  lemma ReplaceAgrees(ps: seq<string>, pat: string, rep: string, kind: LetterPlaceType)
    requires AllLetters(ps) && Short(ps) && WholeLetter(ps, pat)
    requires |rep| <= 1 && WORD_SEP !in rep
    ensures Lemma.FromParts(ps).ReplaceAsWritten(pat, rep, kind) == Lemma.FromParts(ps).Replace(pat, rep, kind)
  {
    if kind == Last {
      ReplaceLastAgrees(ps, pat, rep);
    }
  }

  // ---------------------------------------------------------------------------
  // remove_char
  // ---------------------------------------------------------------------------

  lemma FilterUpdateEmpty(ps: seq<string>, i: nat)
    requires AllLetters(ps) && i < |ps|
    ensures Filter(ps[i := []], NonEmpty) == RemoveAt(ps, i)
  {
    var a, b := ps[..i], ps[i + 1..];
    AllLettersAround(ps, i);
    assert ps[i := []] == (a + [[]]) + b;
    FilterAppend(a + [[]], b, NonEmpty);
    FilterAppend(a, [[]], NonEmpty);
    FilterEmptyPiece();
    FilterLetters(a);
    FilterLetters(b);
    calc {
      Filter(ps[i := []], NonEmpty);
      Filter(a, NonEmpty) + Filter([[]], NonEmpty) + Filter(b, NonEmpty);
      a + [] + b;
      { assert a + [] == a; }
      RemoveAt(ps, i);
    }
  }

  /** The letters before and after position `i` are letters too. */
  lemma AllLettersAround(ps: seq<string>, i: nat)
    requires AllLetters(ps) && i < |ps|
    ensures AllLetters(ps[..i]) && AllLetters(ps[i + 1..])
  {
    assert forall x :: x in ps[..i] ==> x in ps;
    assert forall x :: x in ps[i + 1..] ==> x in ps;
  }

  /** The empty piece is filtered out. */
  lemma FilterEmptyPiece()
    ensures Filter([[]], NonEmpty) == []
  {
    var e: seq<string> := [[]];
    assert e[..0] == [];
  }

  /** Replacing a letter by nothing and dropping the empty piece is removing
      it. */
  lemma {:induction false} FilterMapRemove(ps: seq<string>, c: string)
    requires AllLetters(ps)
    ensures Filter(MapReplace(ps, c, []), NonEmpty) == FilterOut(ps, c)
  {
    if ps != [] {
      var init, last := ps[..|ps| - 1], ps[|ps| - 1];
      assert AllLetters(init) by { forall x | x in init ensures IsLetter(x) { assert x in ps; } }
      FilterMapRemove(init, c);
      assert last in ps;
      assert MapReplace(ps, c, [])[..|ps| - 1] == MapReplace(init, c, []);
    }
  }

  lemma RemoveByReplace(ps: seq<string>, c: string, kind: LetterPlaceType)
    requires AllLetters(ps)
    ensures Filter(ReplaceLetters(ps, c, [], kind), NonEmpty) == RemoveLetter(ps, c, kind)
  {
    match kind {
      case All =>
        FilterMapRemove(ps, c);
      case First =>
        ReplaceFirstLetterAt(ps, c, []);
        if IndexOf(ps, c).Some? {
          FilterUpdateEmpty(ps, IndexOf(ps, c).value);
        } else {
          FilterLetters(ps);
        }
      case Last =>
        ReplaceLastLetterAt(ps, c, []);
        if LastIndexOf(ps, c).Some? {
          FilterUpdateEmpty(ps, LastIndexOf(ps, c).value);
        } else {
          FilterLetters(ps);
        }
    }
  }

  /** `remove_char` of a whole letter removes the first, the last or every
      copy of it, like `Word::remove_char`, and leaves no two separators in
      a row. */
  lemma RemoveCharParts(ps: seq<string>, c: string, kind: LetterPlaceType)
    requires AllLetters(ps) && WholeLetter(ps, c)
    ensures Lemma(CollapseSeps([], Lemma.FromParts(ps).Replace(c, [], kind).value)).Parts() == RemoveLetter(ps, c, kind)
    ensures NoDoubleSep(CollapseSeps([], Lemma.FromParts(ps).Replace(c, [], kind).value))
  {
    DedoubleSepSpec(Lemma.FromParts(ps).Replace(c, [], kind));
    ReplaceParts(ps, c, [], kind);
    RemoveByReplace(ps, c, kind);
  }

  // ---------------------------------------------------------------------------
  // double / dedouble
  // ---------------------------------------------------------------------------

  lemma AllLettersInsert(ps: seq<string>, i: nat, letter: string)
    requires AllLetters(ps) && IsLetter(letter) && i <= |ps|
    ensures AllLetters(InsertAt(ps, i, letter))
  {
    var r := InsertAt(ps, i, letter);
    forall x | x in r ensures IsLetter(x) {
      if x != letter {
        assert x in ps[..i] || x in ps[i..];
      }
    }
  }

  lemma AllLettersDouble(ps: seq<string>, letter: string, position: LetterPlaceType)
    requires AllLetters(ps) && IsLetter(letter)
    ensures AllLetters(DoubleLetters(ps, letter, position))
  {
    if position == All {
      var r := MapDouble(ps, letter);
      assert IsLetter(letter + letter);
      forall x | x in r ensures IsLetter(x) {
        var i :| 0 <= i < |r| && r[i] == x;
        assert ps[i] in ps;
      }
    } else {
      AllLettersDoubleOne(ps, letter, position);
    }
  }

  lemma AllLettersDoubleOne(ps: seq<string>, letter: string, position: LetterPlaceType)
    requires AllLetters(ps) && IsLetter(letter) && position != All
    ensures AllLetters(DoubleLetters(ps, letter, position))
  {
    var r := DoubleLetters(ps, letter, position);
    DoubleAt(ps, letter, position);
    if letter in ps {
      var i := if position == First then IndexOf(ps, letter).value else LastIndexOf(ps, letter).value + 1;
      AllLettersInsert(ps, i, letter);
    }
  }

  lemma DoubleAt(ps: seq<string>, letter: string, position: LetterPlaceType)
    requires position != All
    ensures letter !in ps ==> DoubleLetters(ps, letter, position) == ps
    ensures letter in ps && position == First ==>
      DoubleLetters(ps, letter, position) == InsertAt(ps, IndexOf(ps, letter).value, letter)
    ensures letter in ps && position == Last ==>
      DoubleLetters(ps, letter, position) == InsertAt(ps, LastIndexOf(ps, letter).value + 1, letter)
  {
    DoubleLettersSpec(ps, letter);
  }

  /** `double` of a letter inserts a copy next to its first (First) or last
      (Last) occurrence, or writes every occurrence twice as one letter
      (All). */
  lemma DoubleParts(ps: seq<string>, letter: string, position: LetterPlaceType)
    requires AllLetters(ps) && IsLetter(letter)
    ensures Lemma.FromParts(ps).Double(letter, position).Parts() == DoubleLetters(ps, letter, position)
  {
    FromPartsRoundTrip(ps);
    AllLettersDouble(ps, letter, position);
    FromPartsRoundTrip(DoubleLetters(ps, letter, position));
  }

  lemma AllLettersDedouble(ps: seq<string>, letter: string, position: LetterPlaceType)
    requires AllLetters(ps)
    ensures AllLetters(DedoubleSpec(ps, letter, position))
  {
    var r := DedoubleSpec(ps, letter, position);
    forall x | x in r ensures IsLetter(x) {
      if position != All {
        var i :| 0 <= i < |r| && r[i] == x;
        assert x in ps;
      }
    }
  }

  /** `dedouble` keeps its result's letters intact in the rebuilt lemma. */
  lemma DedoubleParts(ps: seq<string>, letter: string, position: LetterPlaceType)
    requires AllLetters(ps)
    ensures Lemma.FromParts(DedoubleSpec(ps, letter, position)).Parts() == DedoubleSpec(ps, letter, position)
  {
    AllLettersDedouble(ps, letter, position);
    FromPartsRoundTrip(DedoubleSpec(ps, letter, position));
  }

  /** `dedouble` at First or Last undoes `double` at the same position. */
  lemma DoubleThenDedoubleLemma(ps: seq<string>, letter: string, position: LetterPlaceType)
    requires AllLetters(ps) && IsLetter(letter) && position != All
    ensures Lemma.FromParts(DedoubleSpec(Lemma.FromParts(ps).Double(letter, position).Parts(), letter, position))
         == Lemma.FromParts(ps)
  {
    DoubleParts(ps, letter, position);
    DoubleThenDedouble(ps, letter, position);
  }

  // ---------------------------------------------------------------------------
  // modify_with_array and From<String>
  // ---------------------------------------------------------------------------

  /** The rewritten lemma holds the selected letters; picking every place in
      order gives the lemma back. */
  lemma ModifyWithArrayParts(ps: seq<string>, arr: seq<LetterArrayValues>)
    requires AllLetters(ps)
    requires forall i :: 0 <= i < |arr| && arr[i].Char? ==> IsLetter(arr[i].letter)
    ensures Lemma(Terminated(ArraySelect(ps, arr))).Parts() == ArraySelect(ps, arr)
    ensures |ps| < 0x8000_0000 ==> Terminated(ArraySelect(ps, Places(|ps|))) == Lemma.FromParts(ps).value
  {
    AllLettersSelect(ps, arr);
    var sel := ArraySelect(ps, arr);
    FilterLetters(sel);
    PiecesTerminated(sel);
    if |ps| < 0x8000_0000 {
      ArraySelectIdentity(ps, |ps|);
      assert ps[..|ps|] == ps;
      FilterLetters(ps);
    }
  }

  lemma {:induction false} AllLettersSelect(ps: seq<string>, arr: seq<LetterArrayValues>)
    requires AllLetters(ps)
    requires forall i :: 0 <= i < |arr| && arr[i].Char? ==> IsLetter(arr[i].letter)
    ensures AllLetters(ArraySelect(ps, arr))
  {
    if arr != [] {
      var init := arr[..|arr| - 1];
      assert forall i :: 0 <= i < |init| && init[i].Char? ==> IsLetter(init[i].letter) by {
        forall i | 0 <= i < |init| && init[i].Char? ensures IsLetter(init[i].letter) { assert init[i] == arr[i]; }
      }
      AllLettersSelect(ps, init);
      var pick := Pick(ps, arr[|arr| - 1]);
      if pick != [] && arr[|arr| - 1].Place? {
        assert pick[0] in ps;
      }
    }
  }

  /** A separator-free string becomes one letter per character, and its
      separator-free rendering is the string itself. */
  lemma FromStringParts(s: string)
    requires WORD_SEP !in s
    ensures Lemma.FromString(s).Parts() == Chars(s)
    ensures Lemma.FromString(s).StringWithoutSep() == s
  {
    var cs := Chars(s);
    assert AllLetters(cs) by {
      forall x | x in cs ensures IsLetter(x) {
        var i :| 0 <= i < |cs| && cs[i] == x;
        assert s[i] in s;
      }
    }
    FromPartsRoundTrip(cs);
    StringWithoutSepFromParts(cs);
    JoinChars(s);
  }

  /** `From<String>` makes a letter of every character except the
      separator, which it drops. */
  lemma FromStringKeeps(s: string)
    ensures Lemma.FromString(s).Parts() == Filter(Chars(s), Keep)
  {
    var cs := Chars(s);
    var kept := Filter(cs, Keep);
    FilterMember(cs, Keep);
    assert AllLetters(kept) by {
      forall x | x in kept ensures IsLetter(x) {
        assert x in cs && Keep(x);
        var i :| 0 <= i < |cs| && cs[i] == x;
        assert x == [s[i]];
      }
    }
    FilterLetters(kept);
    PiecesTerminated(kept);
  }

  /** The separator-free rendering of any lemma is the concatenation of its
      letters. */
  lemma StringWithoutSepParts(l: Lemma)
    ensures l.StringWithoutSep() == Join(l.Parts())
  {
    RemoveAllCharSplit(l.value, WORD_SEP);
    JoinNonEmpty(SplitOn(l.value, WORD_SEP));
  }
}
