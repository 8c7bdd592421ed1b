/** `Word` and `PartOfSpeech` (libkirum/src/word.rs, and the same operations
    in src/word.rs): a word is either a list of letters or a plain string,
    and every edit turns it into a list of letters.  The Rust methods take
    `self` by value; here they are members returning the new word. */
module Words {
  import opened Wrappers
  import opened Strings
  import opened Letters

  datatype PartOfSpeech = Noun | Verb | Adjective {
    /** `to_string`: the lowercase name. */
    function Name(): string
    {
      match this
      case Noun => "noun"
      case Verb => "verb"
      case Adjective => "adjective"
    }
  }

  /** Distinct parts of speech have distinct names, so comparing names is
      comparing parts of speech. */
  lemma NameInjective(a: PartOfSpeech, b: PartOfSpeech)
    ensures a.Name() == b.Name() <==> a == b
  {
    if a != b {
      assert a.Name()[0] != b.Name()[0];
    }
  }

  datatype Word = Letters(letters: seq<string>) | String(text: string) {
    /** `chars` (and `into_iter`): the letters as stored, or one letter per
        character of the string. */
    function Chars(): (r: seq<string>)
      ensures Letters? ==> r == letters
      ensures String? ==> |r| == |text| && forall i :: 0 <= i < |text| ==> r[i] == [text[i]]
    {
      match this
      case Letters(ls) => ls
      case String(s) => Strings.Chars(s)
    }

    /** `to_string`: the letters joined, or the string itself. */
    function ToString(): string
    {
      match this
      case Letters(ls) => Join(ls)
      case String(s) => s
    }

    /** `remove_char`: `retain` for All, `position`/`rposition` and `remove`
        for First/Last. */
    function RemoveChar(c: string, kind: LetterPlaceType): (r: Word)
      ensures r.Letters?
      ensures c !in Chars() ==> r.letters == Chars()
      ensures kind == All ==> c !in r.letters
      ensures kind != All && c in Chars() ==> |r.letters| == |Chars()| - 1
    {
      Letters(RemoveLetter(Chars(), c, kind))
    }

    /** `replace`: every, the first or the last letter equal to `old_`
        becomes `new_`. */
    function Replace(old_: string, new_: string, kind: LetterPlaceType): (r: Word)
      ensures r.Letters? && |r.letters| == |Chars()|
      ensures old_ !in Chars() ==> r.letters == Chars()
    {
      ReplaceLettersAbsent(Chars(), old_, new_, kind);
      Letters(ReplaceLetters(Chars(), old_, new_, kind))
    }

    /** `add_prefix`: a list of letters gets the prefix's letters in front, a
        string gets the prefix's text in front. */
    function AddPrefix(prefix: Word): (r: Word)
      ensures r.Letters? == Letters?
      ensures r.ToString() == prefix.ToString() + ToString()
    {
      match this
      case Letters(ls) =>
        JoinAppend(prefix.Chars(), ls);
        JoinWordChars(prefix);
        Letters(prefix.Chars() + ls)
      case String(s) => String(prefix.ToString() + s)
    }

    /** `add_postfix`: the postfix's letters or text behind. */
    function AddPostfix(postfix: Word): (r: Word)
      ensures r.Letters? == Letters?
      ensures r.ToString() == ToString() + postfix.ToString()
    {
      match this
      case Letters(ls) =>
        JoinAppend(ls, postfix.Chars());
        JoinWordChars(postfix);
        Letters(ls + postfix.Chars())
      case String(s) => String(s + postfix.ToString())
    }

    /** `dedouble`: the walk with the `found`/`cur` flags over the letters. */
    method Dedouble(letter: string, position: LetterPlaceType) returns (r: Word)
      ensures r == Letters(DedoubleSpec(Chars(), letter, position))
    {
      var kept := Letters.Dedouble(Chars(), letter, position);
      r := Letters(kept);
    }

    /** `double` with `double_vec`: All writes each equal letter twice as
        one letter; First/Last insert one more copy next to the first or
        last equal letter. */
    function Double(letter: string, position: LetterPlaceType): (r: Word)
      ensures r.Letters?
      ensures position != All && letter !in Chars() ==> r.letters == Chars()
      ensures position != All && letter in Chars() ==> |r.letters| == |Chars()| + 1
      ensures position == All ==> |r.letters| == |Chars()|
    {
      var cs := Chars();
      DoubleLettersSize(cs, letter, position);
      Letters(DoubleLetters(cs, letter, position))
    }

    /** `modify_with_array`: the literal letters and the letters at the given
        places, out-of-range places skipped. */
    method ModifyWithArray(arr: seq<LetterArrayValues>) returns (r: Word)
      ensures r == Letters(ArraySelect(Chars(), arr))
      ensures |r.letters| <= |arr|
    {
      var selected := Letters.ModifyWithArray(Chars(), arr);
      r := Letters(selected);
    }
  }

  /** Replacing a letter that does not occur changes nothing. */
  lemma ReplaceLettersAbsent(s: seq<string>, old_: string, new_: string, kind: LetterPlaceType)
    ensures old_ !in s ==> ReplaceLetters(s, old_, new_, kind) == s
  {
    ReplaceLettersSpec(s, old_, new_);
    ReplaceLastLetterAt(s, old_, new_);
    if kind == All && old_ !in s {
      var r := ReplaceLetters(s, old_, new_, kind);
      forall i | 0 <= i < |s| ensures r[i] == s[i] {
        assert s[i] in s;
      }
    }
  }

  /** Rendering a word's letters gives its string. */
  lemma JoinWordChars(w: Word)
    ensures Join(w.Chars()) == w.ToString()
  {
    if w.String? {
      JoinChars(w.text);
    }
  }

  /** `replace` letter by letter: All maps every equal letter, First and
      Last change only the first or last equal letter. */
  lemma ReplaceSpec(w: Word, old_: string, new_: string)
    ensures forall i :: 0 <= i < |w.Chars()| ==>
      w.Replace(old_, new_, All).letters[i] == (if w.Chars()[i] == old_ then new_ else w.Chars()[i])
    ensures IndexOf(w.Chars(), old_).Some? ==>
      w.Replace(old_, new_, First).letters == w.Chars()[IndexOf(w.Chars(), old_).value := new_]
    ensures LastIndexOf(w.Chars(), old_).Some? ==>
      w.Replace(old_, new_, Last).letters == w.Chars()[LastIndexOf(w.Chars(), old_).value := new_]
  {
    ReplaceLettersSpec(w.Chars(), old_, new_);
    ReplaceLastLetterAt(w.Chars(), old_, new_);
  }

  /** `remove_char` at First/Last takes out exactly the first/last equal
      letter, at All every equal letter and nothing else. */
  lemma RemoveCharSpec(w: Word, c: string)
    ensures c in w.Chars() ==>
      exists i :: (0 <= i < |w.Chars()| && w.Chars()[i] == c && c !in w.Chars()[..i]
        && w.RemoveChar(c, First).letters == w.Chars()[..i] + w.Chars()[i + 1..])
    ensures c in w.Chars() ==>
      exists i :: (0 <= i < |w.Chars()| && w.Chars()[i] == c && c !in w.Chars()[i + 1..]
        && w.RemoveChar(c, Last).letters == w.Chars()[..i] + w.Chars()[i + 1..])
    ensures Filter(w.RemoveChar(c, All).letters, (x: string) => x != c) == Filter(w.Chars(), (x: string) => x != c)
  {
    if c in w.Chars() {
      RemoveFirstLast(w.Chars(), c);
    }
  }

  /** `dedouble` at First/Last undoes `double` at the same position. */
  lemma DoubleThenDedouble(w: Word, letter: string, position: LetterPlaceType)
    requires position != All
    ensures DedoubleSpec(w.Double(letter, position).Chars(), letter, position) == w.Chars()
  {
    Letters.DoubleThenDedouble(w.Chars(), letter, position);
  }

  /** `dedouble` at All leaves no doubled letter and is idempotent. */
  lemma DedoubleAllSpec(w: Word, letter: string)
    ensures forall i :: 0 <= i < |DedoubleSpec(w.Chars(), letter, All)| ==>
      !DoubledAt(DedoubleSpec(w.Chars(), letter, All), letter, i)
    ensures DedoubleSpec(DedoubleSpec(w.Chars(), letter, All), letter, All) == DedoubleSpec(w.Chars(), letter, All)
  {
    DedoubleAllNoDoubles(w.Chars(), letter);
    DedoubleAllIdempotent(w.Chars(), letter);
  }

  /** Picking every place in order gives a list of letters equal to the
      word's letters. */
  lemma ModifyWithArrayIdentity(w: Word)
    requires |w.Chars()| < 0x8000_0000
    ensures ArraySelect(w.Chars(), Places(|w.Chars()|)) == w.Chars()
  {
    ArraySelectIdentity(w.Chars(), |w.Chars()|);
  }
}
