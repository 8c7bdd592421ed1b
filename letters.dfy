/** Operations on a word taken as a sequence of letters, where a letter is any
    string (a language may spell one letter with several characters).  Both
    word representations of the source, `Lemma` (libkirum/src/lemma.rs) and
    `Word` (libkirum/src/word.rs, src/word.rs), edit their letters with these
    same steps: find, replace, remove, double and dedouble a letter at its
    first, last or every position, and rebuild a word from an index array. */
module Letters {
  import opened Wrappers
  import opened Strings

  /** Where a letter edit applies (`LetterPlaceType`). */
  datatype LetterPlaceType = First | All | Last

  /** Rust's `i32`. */
  type I32 = x: int | -0x8000_0000 <= x < 0x8000_0000

  /** One entry of a letter array: a literal letter, or the index of a letter of
      the word being rewritten (`LetterArrayValues`). */
  datatype LetterArrayValues = Char(letter: string) | Place(pos: I32)

  // ---------------------------------------------------------------------------
  // Finding a letter (`Iterator::position` / `rposition`)
  // ---------------------------------------------------------------------------

  /** The index of the first occurrence of `x`, if any. */
  function IndexOf(s: seq<string>, x: string): (r: Option<nat>)
    ensures r.Some? ==> r.value < |s| && s[r.value] == x && (forall j :: 0 <= j < r.value ==> s[j] != x)
    ensures r.None? <==> x !in s
  {
    if s == [] then None
    else if s[0] == x then Some(0)
    else
      var rest := IndexOf(s[1..], x);
      assert s == [s[0]] + s[1..];
      if rest.Some? then Some(rest.value + 1) else None
  }

  /** The index of the last occurrence of `x`, if any. */
  function LastIndexOf(s: seq<string>, x: string): (r: Option<nat>)
    ensures r.Some? ==> r.value < |s| && s[r.value] == x && (forall j :: r.value < j < |s| ==> s[j] != x)
    ensures r.None? <==> x !in s
  {
    if s == [] then None
    else if s[|s| - 1] == x then Some(|s| - 1)
    else
      var rest := LastIndexOf(s[..|s| - 1], x);
      assert s == s[..|s| - 1] + [s[|s| - 1]];
      rest
  }

  /** In the reversed sequence, the first occurrence is the last one of the
      original. */
  lemma IndexOfReverse(s: seq<string>, x: string)
    ensures IndexOf(Reverse(s), x).None? <==> LastIndexOf(s, x).None?
    ensures LastIndexOf(s, x).Some? ==>
      IndexOf(Reverse(s), x).value == |s| - 1 - LastIndexOf(s, x).value
  {
    var rs := Reverse(s);
    assert forall y :: y in rs <==> y in s by {
      forall y | y in rs ensures y in s { var i :| 0 <= i < |rs| && rs[i] == y; assert s[|s| - 1 - i] == y; }
      forall y | y in s ensures y in rs { var i :| 0 <= i < |s| && s[i] == y; assert rs[|s| - 1 - i] == y; }
    }
    var q := LastIndexOf(s, x);
    if q.Some? {
      var p := IndexOf(rs, x);
      assert rs[|s| - 1 - q.value] == x;
      assert s[|s| - 1 - p.value] == x;
    }
  }

  /** `s` without its element at `i` (`Vec::remove`). */
  function RemoveAt<T>(s: seq<T>, i: nat): (r: seq<T>)
    requires i < |s|
    ensures |r| == |s| - 1
  {
    s[..i] + s[i + 1..]
  }

  /** `s` with `x` inserted before position `i` (`Vec::insert`). */
  function InsertAt<T>(s: seq<T>, i: nat, x: T): (r: seq<T>)
    requires i <= |s|
    ensures |r| == |s| + 1
  {
    s[..i] + [x] + s[i..]
  }

  // ---------------------------------------------------------------------------
  // remove_char (libkirum/src/word.rs, src/word.rs)
  // ---------------------------------------------------------------------------

  /** `Word::remove_char` on the letters: `retain` for All, `remove` at the
      `position` / `rposition` of the letter for First / Last. */
  function RemoveLetter(s: seq<string>, c: string, position: LetterPlaceType): (r: seq<string>)
    ensures c !in s ==> r == s
    ensures position == All ==> c !in r && Filter(r, (x: string) => x != c) == Filter(s, (x: string) => x != c)
    ensures position != All && c in s ==> |r| == |s| - 1
  {
    match position
    case All => FilterOut(s, c)
    case First => if IndexOf(s, c).Some? then RemoveAt(s, IndexOf(s, c).value) else s
    case Last => if LastIndexOf(s, c).Some? then RemoveAt(s, LastIndexOf(s, c).value) else s
  }

  /** `retain(|l| l != c)`. */
  function FilterOut(s: seq<string>, c: string): (r: seq<string>)
    ensures c !in r
    ensures c !in s ==> r == s
    ensures Filter(r, (x: string) => x != c) == Filter(s, (x: string) => x != c)
  {
    if s == [] then []
    else
      var init := FilterOut(s[..|s| - 1], c);
      assert s == s[..|s| - 1] + [s[|s| - 1]];
      FilterAppend(init, if s[|s| - 1] == c then [] else [s[|s| - 1]], (x: string) => x != c);
      init + (if s[|s| - 1] == c then [] else [s[|s| - 1]])
  }

  /** First and Last removal take out exactly the first / last occurrence: the
      letters before (after) it are kept and contain no other copy. */
  lemma RemoveFirstLast(s: seq<string>, c: string)
    requires c in s
    ensures exists i :: 0 <= i < |s| && s[i] == c && c !in s[..i] && RemoveLetter(s, c, First) == s[..i] + s[i + 1..]
    ensures exists i :: 0 <= i < |s| && s[i] == c && c !in s[i + 1..] && RemoveLetter(s, c, Last) == s[..i] + s[i + 1..]
  {
    var i := IndexOf(s, c).value;
    var j := LastIndexOf(s, c).value;
    assert RemoveLetter(s, c, First) == s[..i] + s[i + 1..];
    assert RemoveLetter(s, c, Last) == s[..j] + s[j + 1..];
  }

  // ---------------------------------------------------------------------------
  // replace (libkirum/src/word.rs)
  // ---------------------------------------------------------------------------

  /** Every letter equal to `old` becomes `new` (the `map` of the All arm). */
  function MapReplace(s: seq<string>, old_: string, new_: string): (r: seq<string>)
  {
    seq(|s|, i requires 0 <= i < |s| => if s[i] == old_ then new_ else s[i])
  }

  /** The first letter equal to `old` becomes `new`: the `map` with a `found`
      flag of the First arm. */
  function ReplaceFirstLetter(s: seq<string>, old_: string, new_: string): (r: seq<string>)
    ensures |r| == |s|
  {
    if s == [] then []
    else if s[0] == old_ then [new_] + s[1..]
    else [s[0]] + ReplaceFirstLetter(s[1..], old_, new_)
  }

  /** `Word::replace`: All maps every equal letter, First the first one, Last
      runs the First map over the reversed letters and reverses back. */
  function ReplaceLetters(s: seq<string>, old_: string, new_: string, kind: LetterPlaceType): (r: seq<string>)
    ensures |r| == |s|
  {
    match kind
    case All => MapReplace(s, old_, new_)
    case First => ReplaceFirstLetter(s, old_, new_)
    case Last => Reverse(ReplaceFirstLetter(Reverse(s), old_, new_))
  }

  lemma {:induction false} ReplaceFirstLetterAt(s: seq<string>, old_: string, new_: string)
    ensures ReplaceFirstLetter(s, old_, new_) ==
      (if IndexOf(s, old_).Some? then s[IndexOf(s, old_).value := new_] else s)
  {
    if s != [] && s[0] != old_ {
      var t := s[1..];
      ReplaceFirstLetterAt(t, old_, new_);
      assert s == [s[0]] + t;
      var k := IndexOf(t, old_);
      if k.Some? {
        ConsUpdate(s[0], t, k.value, new_);
      }
    }
  }

  /** Updating the tail of `[x] + t` at `k` updates the whole at `k + 1`. */
  lemma ConsUpdate<T>(x: T, t: seq<T>, k: nat, v: T)
    requires k < |t|
    ensures [x] + t[k := v] == ([x] + t)[k + 1 := v]
  {
  }

  /** The Last arm replaces exactly the last occurrence. */
  lemma ReplaceLastLetterAt(s: seq<string>, old_: string, new_: string)
    ensures ReplaceLetters(s, old_, new_, Last) ==
      (if LastIndexOf(s, old_).Some? then s[LastIndexOf(s, old_).value := new_] else s)
  {
    var rs := Reverse(s);
    ReplaceFirstLetterAt(rs, old_, new_);
    IndexOfReverse(s, old_);
    var q := LastIndexOf(s, old_);
    if q.Some? {
      var p := |s| - 1 - q.value;
      var t := Reverse(rs[p := new_]);
      assert forall i :: 0 <= i < |s| ==> t[i] == s[q.value := new_][i];
    } else {
      ReverseReverse(s);
    }
  }

  /** What `Word::replace` does, position by position: All replaces every
      occurrence, First only the first and Last only the last; every other
      letter is kept, and a word without `old` is unchanged. */
  lemma ReplaceLettersSpec(s: seq<string>, old_: string, new_: string)
    ensures forall i :: 0 <= i < |s| ==>
      ReplaceLetters(s, old_, new_, All)[i] == (if s[i] == old_ then new_ else s[i])
    ensures ReplaceLetters(s, old_, new_, First) ==
      (if IndexOf(s, old_).Some? then s[IndexOf(s, old_).value := new_] else s)
    ensures ReplaceLetters(s, old_, new_, Last) ==
      (if LastIndexOf(s, old_).Some? then s[LastIndexOf(s, old_).value := new_] else s)
  {
    ReplaceFirstLetterAt(s, old_, new_);
    ReplaceLastLetterAt(s, old_, new_);
  }

  /** Replacing back undoes a replacement when `new` did not occur before. */
  lemma ReplaceLettersRoundTrip(s: seq<string>, old_: string, new_: string, kind: LetterPlaceType)
    requires new_ !in s
    ensures ReplaceLetters(ReplaceLetters(s, old_, new_, kind), new_, old_, kind) == s
  {
    match kind {
      case All => RoundTripAll(s, old_, new_);
      case First => RoundTripFirst(s, old_, new_);
      case Last => RoundTripLast(s, old_, new_);
    }
  }

  lemma RoundTripAll(s: seq<string>, old_: string, new_: string)
    requires new_ !in s
    ensures ReplaceLetters(ReplaceLetters(s, old_, new_, All), new_, old_, All) == s
  {
    var r := ReplaceLetters(s, old_, new_, All);
    var t := ReplaceLetters(r, new_, old_, All);
    assert forall i :: 0 <= i < |s| ==> t[i] == s[i];
  }

  lemma RoundTripFirst(s: seq<string>, old_: string, new_: string)
    requires new_ !in s
    ensures ReplaceLetters(ReplaceLetters(s, old_, new_, First), new_, old_, First) == s
  {
    var r := ReplaceLetters(s, old_, new_, First);
    ReplaceFirstLetterAt(s, old_, new_);
    ReplaceFirstLetterAt(r, new_, old_);
    if IndexOf(s, old_).Some? {
      var i := IndexOf(s, old_).value;
      assert r[i] == new_;
      assert forall j :: 0 <= j < i ==> r[j] == s[j];
    }
  }

  lemma RoundTripLast(s: seq<string>, old_: string, new_: string)
    requires new_ !in s
    ensures ReplaceLetters(ReplaceLetters(s, old_, new_, Last), new_, old_, Last) == s
  {
    var r := ReplaceLetters(s, old_, new_, Last);
    ReplaceLastLetterAt(s, old_, new_);
    ReplaceLastLetterAt(r, new_, old_);
    SwapLastBack(s, old_, new_, r);
  }

  /** Writing `new_` over the last `old_` and then `old_` over the last
      `new_` restores `s` when `new_` did not occur in it. */
  lemma SwapLastBack(s: seq<string>, old_: string, new_: string, r: seq<string>)
    requires new_ !in s
    requires r == if LastIndexOf(s, old_).Some? then s[LastIndexOf(s, old_).value := new_] else s
    ensures (if LastIndexOf(r, new_).Some? then r[LastIndexOf(r, new_).value := old_] else r) == s
  {
    var q := LastIndexOf(s, old_);
    if q.Some? {
      var i := q.value;
      assert LastIndexOf(r, new_) == Some(i) by {
        forall j | i < j < |r| ensures r[j] != new_ {
          assert r[j] == s[j];
        }
        LastIndexOfAt(r, new_, i);
      }
      assert r[i := old_] == s;
    } else {
      assert LastIndexOf(r, new_).None?;
    }
  }

  /** The only occurrence of `x` from `i` on is the last one. */
  lemma LastIndexOfAt(s: seq<string>, x: string, i: nat)
    requires i < |s| && s[i] == x && forall j :: i < j < |s| ==> s[j] != x
    ensures LastIndexOf(s, x) == Some(i)
  {
    assert x in s;
  }

  // ---------------------------------------------------------------------------
  // double / double_vec
  // ---------------------------------------------------------------------------

  /** `double_vec`: insert `letter` at the found position (if any), then
      optionally reverse. */
  function DoubleVec(current: seq<string>, letter: string, found: Option<nat>, reverse: bool): (r: seq<string>)
    requires found.Some? ==> found.value <= |current|
    ensures |r| == |current| + (if found.Some? then 1 else 0)
  {
    var updated := if found.Some? then InsertAt(current, found.value, letter) else current;
    if reverse then Reverse(updated) else updated
  }

  /** Every equal letter mapped to itself written twice, as one letter (the All
      arm of `double`). */
  function MapDouble(s: seq<string>, letter: string): (r: seq<string>)
  {
    seq(|s|, i requires 0 <= i < |s| => if s[i] == letter then letter + letter else s[i])
  }

  /** `double`: All maps each occurrence to the letter written twice; First
      inserts a copy at the first occurrence; Last does so on the reversed
      letters and reverses back. */
  function DoubleLetters(s: seq<string>, letter: string, position: LetterPlaceType): (r: seq<string>)
  {
    match position
    case All => MapDouble(s, letter)
    case First => DoubleVec(s, letter, IndexOf(s, letter), false)
    case Last => DoubleVec(Reverse(s), letter, IndexOf(Reverse(s), letter), true)
  }

  /** The letters of `s` with `x` inserted at `i`, index by index. */
  lemma InsertAtIndex<T>(s: seq<T>, i: nat, x: T, j: nat)
    requires i <= |s| && j <= |s|
    ensures InsertAt(s, i, x)[j] == if j < i then s[j] else if j == i then x else s[j - 1]
  {
  }

  /** Inserting into the reversed letters and reversing back is inserting at
      the mirrored position. */
  lemma ReverseInsertAt<T>(s: seq<T>, q: nat, x: T)
    requires q < |s|
    ensures Reverse(InsertAt(Reverse(s), |s| - 1 - q, x)) == InsertAt(s, q + 1, x)
  {
    var rs := Reverse(s);
    var ins := InsertAt(rs, |s| - 1 - q, x);
    var t := Reverse(ins);
    var u := InsertAt(s, q + 1, x);
    forall i | 0 <= i < |u| ensures t[i] == u[i] {
      assert t[i] == ins[|s| - i];
      InsertAtIndex(rs, |s| - 1 - q, x, |s| - i);
      InsertAtIndex(s, q + 1, x, i);
      if i > q + 1 {
        assert rs[|s| - i] == s[i - 1];
      } else if i < q + 1 {
        assert rs[|s| - i - 1] == s[i];
      }
    }
  }

  /** `double` at Last, done on the reversed letters, puts the copy right
      after the last occurrence. */
  lemma DoubleLastAt(s: seq<string>, letter: string, q: nat)
    requires LastIndexOf(s, letter) == Some(q)
    ensures DoubleLetters(s, letter, Last) == InsertAt(s, q + 1, letter)
  {
    var rs := Reverse(s);
    var k := |s| - 1 - q;
    assert IndexOf(rs, letter) == Some(k) by {
      IndexOfReverse(s, letter);
    }
    calc {
      DoubleLetters(s, letter, Last);
    ==
      DoubleVec(rs, letter, Some(k), true);
    ==
      Reverse(InsertAt(rs, k, letter));
    == { ReverseInsertAt(s, q, letter); }
      InsertAt(s, q + 1, letter);
    }
  }

  /** `double` at First or Last adds one letter when the letter occurs and
      changes nothing otherwise; All keeps the number of letters. */
  lemma DoubleLettersSize(s: seq<string>, letter: string, position: LetterPlaceType)
    ensures position != All && letter !in s ==> DoubleLetters(s, letter, position) == s
    ensures position != All && letter in s ==> |DoubleLetters(s, letter, position)| == |s| + 1
    ensures position == All ==> |DoubleLetters(s, letter, position)| == |s|
  {
    IndexOfReverse(s, letter);
    if letter !in s {
      ReverseReverse(s);
    }
  }

  /** `double` at First puts a second copy of the letter next to its first
      occurrence, at Last next to its last occurrence, and All doubles every
      occurrence in place; a word without the letter is unchanged. */
  lemma DoubleLettersSpec(s: seq<string>, letter: string)
    ensures letter !in s ==> DoubleLetters(s, letter, First) == s && DoubleLetters(s, letter, Last) == s
    ensures IndexOf(s, letter).Some? ==>
      DoubleLetters(s, letter, First) == InsertAt(s, IndexOf(s, letter).value, letter)
    ensures LastIndexOf(s, letter).Some? ==>
      DoubleLetters(s, letter, Last) == InsertAt(s, LastIndexOf(s, letter).value + 1, letter)
    ensures |DoubleLetters(s, letter, All)| == |s|
    ensures forall i :: 0 <= i < |s| ==>
      DoubleLetters(s, letter, All)[i] == (if s[i] == letter then letter + letter else s[i])
  {
    if letter !in s {
      DoubleWithoutLetter(s, letter);
    }
    if IndexOf(s, letter).Some? {
      DoubleFirstAt(s, letter, IndexOf(s, letter).value);
    }
    DoubleLastSpec(s, letter);
    DoubleAllAt(s, letter);
  }

  lemma DoubleLastSpec(s: seq<string>, letter: string)
    ensures LastIndexOf(s, letter).Some? ==>
      DoubleLetters(s, letter, Last) == InsertAt(s, LastIndexOf(s, letter).value + 1, letter)
  {
    var q := LastIndexOf(s, letter);
    if q.Some? {
      DoubleLastAt(s, letter, q.value);
    }
  }

  /** `double` at First or Last of a letter that does not occur changes nothing. */
  lemma DoubleWithoutLetter(s: seq<string>, letter: string)
    requires letter !in s
    ensures DoubleLetters(s, letter, First) == s && DoubleLetters(s, letter, Last) == s
  {
    DoubleLettersSize(s, letter, First);
    DoubleLettersSize(s, letter, Last);
  }

  /** `double` at First puts the copy at the first occurrence. */
  lemma DoubleFirstAt(s: seq<string>, letter: string, i: nat)
    requires IndexOf(s, letter) == Some(i)
    ensures DoubleLetters(s, letter, First) == InsertAt(s, i, letter)
  {
  }

  /** `double` at All maps every occurrence to the letter written twice. */
  lemma DoubleAllAt(s: seq<string>, letter: string)
    ensures |DoubleLetters(s, letter, All)| == |s|
    ensures forall i :: 0 <= i < |s| ==>
      DoubleLetters(s, letter, All)[i] == (if s[i] == letter then letter + letter else s[i])
  {
  }

  // ---------------------------------------------------------------------------
  // dedouble
  // ---------------------------------------------------------------------------

  /** The letter the dedouble loop saw just before position `i` (its `cur`),
      or the empty string at the start. */
  function Prev(s: seq<string>, i: nat): string
    requires i <= |s|
  {
    if i == 0 then "" else s[i - 1]
  }

  /** The letter just after position `i`, or the empty string at the end: the
      `cur` of the reversed walk. */
  function Next(s: seq<string>, i: nat): string
    requires i < |s|
  {
    if i + 1 == |s| then "" else s[i + 1]
  }

  /** Position `i` is the second of a doubled `letter` in a left-to-right walk. */
  predicate DoubledAt(s: seq<string>, letter: string, i: nat)
    requires i < |s|
  {
    s[i] == letter && Prev(s, i) == letter
  }

  /** Position `i` is the second of a doubled `letter` in a right-to-left walk. */
  predicate DoubledBackAt(s: seq<string>, letter: string, i: nat)
    requires i < |s|
  {
    s[i] == letter && Next(s, i) == letter
  }

  /** All letters that are not the second of a doubled `letter`. */
  function DedoubleAll(s: seq<string>, letter: string): (r: seq<string>)
    ensures |r| <= |s|
    ensures forall x :: x in r ==> x in s
  {
    if s == [] then []
    else
      DedoubleAll(s[..|s| - 1], letter)
      + (if DoubledAt(s, letter, |s| - 1) then [] else [s[|s| - 1]])
  }

  function FirstDoubledFrom(s: seq<string>, letter: string, i: nat): (r: Option<nat>)
    requires i <= |s|
    ensures r.Some? ==> (i <= r.value < |s| && DoubledAt(s, letter, r.value)
      && forall j :: i <= j < r.value ==> !DoubledAt(s, letter, j))
    ensures r.None? ==> forall j :: i <= j < |s| ==> !DoubledAt(s, letter, j)
    decreases |s| - i
  {
    if i == |s| then None
    else if DoubledAt(s, letter, i) then Some(i)
    else FirstDoubledFrom(s, letter, i + 1)
  }

  /** The first position holding the second of a doubled `letter`. */
  function FirstDoubled(s: seq<string>, letter: string): (r: Option<nat>)
    ensures r.Some? ==> (r.value < |s| && DoubledAt(s, letter, r.value)
      && forall j :: 0 <= j < r.value ==> !DoubledAt(s, letter, j))
    ensures r.None? ==> forall j :: 0 <= j < |s| ==> !DoubledAt(s, letter, j)
  {
    FirstDoubledFrom(s, letter, 0)
  }

  function LastDoubledBackBelow(s: seq<string>, letter: string, k: nat): (r: Option<nat>)
    requires k <= |s|
    ensures r.Some? ==> (r.value < k && DoubledBackAt(s, letter, r.value)
      && forall j :: r.value < j < k ==> !DoubledBackAt(s, letter, j))
    ensures r.None? ==> forall j :: 0 <= j < k ==> !DoubledBackAt(s, letter, j)
  {
    if k == 0 then None
    else if DoubledBackAt(s, letter, k - 1) then Some(k - 1)
    else LastDoubledBackBelow(s, letter, k - 1)
  }

  /** The last position that, walking right to left, is the second of a
      doubled `letter`. */
  function LastDoubledBack(s: seq<string>, letter: string): (r: Option<nat>)
    ensures r.Some? ==> (r.value < |s| && DoubledBackAt(s, letter, r.value)
      && forall j :: r.value < j < |s| ==> !DoubledBackAt(s, letter, j))
    ensures r.None? ==> forall j :: 0 <= j < |s| ==> !DoubledBackAt(s, letter, j)
  {
    LastDoubledBackBelow(s, letter, |s|)
  }

  /** What `dedouble` computes: All drops the second letter of every doubled
      pair (of a run, all but its first), First only of the first pair, Last
      drops one letter of the last pair. */
  function DedoubleSpec(s: seq<string>, letter: string, position: LetterPlaceType): seq<string>
  {
    match position
    case All => DedoubleAll(s, letter)
    case First => if FirstDoubled(s, letter).Some? then RemoveAt(s, FirstDoubled(s, letter).value) else s
    case Last => if LastDoubledBack(s, letter).Some? then RemoveAt(s, LastDoubledBack(s, letter).value) else s
  }

  /** `dedouble`: one of its three loops, by position. */
  method Dedouble(s: seq<string>, letter: string, position: LetterPlaceType) returns (acc: seq<string>)
    ensures acc == DedoubleSpec(s, letter, position)
  {
    match position {
      case All => acc := DedoubleAllLoop(s, letter);
      case First => acc := DedoubleFirstLoop(s, letter);
      case Last => acc := DedoubleLastLoop(s, letter);
    }
  }

  /** The All loop: walk the letters, skipping a letter equal both to
      `letter` and to the letter kept just before it (`cur`). */
  method DedoubleAllLoop(s: seq<string>, letter: string) returns (acc: seq<string>)
    ensures acc == DedoubleAll(s, letter)
  {
    acc := [];
    var cur := "";
    for i := 0 to |s|
      invariant cur == Prev(s, i)
      invariant acc == DedoubleAll(s[..i], letter)
    {
      assert s[..i + 1][..i] == s[..i];
      var c := s[i];
      if c == cur && c == letter {
        continue;
      }
      acc := acc + [c];
      cur := c;
    }
    assert s[..|s|] == s;
  }

  /** The First loop: as All, but only the first such letter is skipped
      (`found`). */
  method DedoubleFirstLoop(s: seq<string>, letter: string) returns (acc: seq<string>)
    ensures acc == DedoubleSpec(s, letter, First)
  {
    acc := [];
    var found := false;
    var cur := "";
    ghost var k: nat := 0;
    for i := 0 to |s|
      invariant cur == Prev(s, i)
      invariant !found ==> acc == s[..i] && forall j :: 0 <= j < i ==> !DoubledAt(s, letter, j)
      invariant found ==> (k < i && DoubledAt(s, letter, k) && acc == s[..k] + s[k + 1..i]
        && forall j :: 0 <= j < k ==> !DoubledAt(s, letter, j))
    {
      var c := s[i];
      if c == cur && !found && c == letter {
        found := true;
        k := i;
        continue;
      }
      acc := acc + [c];
      cur := c;
    }
    assert s[..|s|] == s;
  }

  /** The Last loop: walk the letters backwards and skip only the first
      such letter met. */
  method DedoubleLastLoop(s: seq<string>, letter: string) returns (acc: seq<string>)
    ensures acc == DedoubleSpec(s, letter, Last)
  {
    acc := [];
    var found := false;
    var cur := "";
    ghost var k: nat := 0;
    var i := |s|;
    while i > 0
      invariant 0 <= i <= |s|
      invariant cur == (if i == |s| then "" else s[i])
      invariant !found ==> acc == s[i..] && forall j :: i <= j < |s| ==> !DoubledBackAt(s, letter, j)
      invariant found ==> (i <= k < |s| && DoubledBackAt(s, letter, k) && acc == s[i..k] + s[k + 1..]
        && forall j :: k < j < |s| ==> !DoubledBackAt(s, letter, j))
    {
      i := i - 1;
      var c := s[i];
      if c == cur && !found && c == letter {
        found := true;
        k := i;
        continue;
      }
      acc := [c] + acc;
      cur := c;
    }
  }

  /** The letter that ends a sequence, or the empty string: the `cur` of the
      All walk once it is done. */
  function LastOr(s: seq<string>): string
  {
    if s == [] then "" else s[|s| - 1]
  }

  /** Dedoubling keeps the last letter seen: a dropped letter equals the one
      before it. */
  lemma {:induction false} DedoubleAllLast(s: seq<string>, letter: string)
    ensures LastOr(DedoubleAll(s, letter)) == LastOr(s)
  {
    if s != [] {
      var init := s[..|s| - 1];
      DedoubleAllLast(init, letter);
      if DoubledAt(s, letter, |s| - 1) {
        assert Prev(s, |s| - 1) == LastOr(init);
      }
    }
  }

  /** After dedoubling every position, no doubled `letter` remains. */
  lemma {:induction false} DedoubleAllNoDoubles(s: seq<string>, letter: string)
    ensures forall i :: 0 <= i < |DedoubleAll(s, letter)| ==> !DoubledAt(DedoubleAll(s, letter), letter, i)
  {
    if s != [] {
      var init := s[..|s| - 1];
      DedoubleAllNoDoubles(init, letter);
      DedoubleAllLast(init, letter);
      var a := DedoubleAll(init, letter);
      var r := DedoubleAll(s, letter);
      if !DoubledAt(s, letter, |s| - 1) {
        assert r == a + [s[|s| - 1]];
        forall i | 0 <= i < |r| ensures !DoubledAt(r, letter, i) {
          if i < |a| {
            assert Prev(r, i) == Prev(a, i);
            assert !DoubledAt(a, letter, i);
          } else {
            assert Prev(r, i) == LastOr(a);
            assert Prev(s, |s| - 1) == LastOr(init);
          }
        }
      } else {
        assert r == a;
      }
    }
  }

  /** Dedoubling only drops copies of `letter`: every other letter stays, in
      order. */
  lemma {:induction false} DedoubleAllKeepsOthers(s: seq<string>, letter: string)
    ensures Filter(DedoubleAll(s, letter), (x: string) => x != letter) == Filter(s, (x: string) => x != letter)
  {
    if s != [] {
      var other := (x: string) => x != letter;
      var init := s[..|s| - 1];
      var last := s[|s| - 1];
      var tail := if DoubledAt(s, letter, |s| - 1) then [] else [last];
      var kept := if other(last) then [last] else [];
      DedoubleAllKeepsOthers(init, letter);
      calc {
        Filter(DedoubleAll(s, letter), other);
        Filter(DedoubleAll(init, letter) + tail, other);
        { FilterAppend(DedoubleAll(init, letter), tail, other); }
        Filter(DedoubleAll(init, letter), other) + Filter(tail, other);
        { FilterLast(tail, last, other); }
        Filter(init, other) + kept;
        Filter(s, other);
      }
    }
  }

  /** Filtering nothing or the one element `x`, when `x` is dropped anyway. */
  lemma FilterLast(tail: seq<string>, x: string, p: string -> bool)
    requires tail == [] || tail == [x]
    requires tail == [] ==> !p(x)
    ensures Filter(tail, p) == if p(x) then [x] else []
  {
    if tail == [x] {
      assert tail[..0] == [];
    }
  }

  /** Dedoubling at every position is idempotent. */
  lemma DedoubleAllIdempotent(s: seq<string>, letter: string)
    ensures DedoubleAll(DedoubleAll(s, letter), letter) == DedoubleAll(s, letter)
  {
    DedoubleAllNoDoubles(s, letter);
    DedoubleAllUnchanged(DedoubleAll(s, letter), letter);
  }

  /** A word without doubled `letter` is left as it is. */
  lemma {:induction false} DedoubleAllUnchanged(s: seq<string>, letter: string)
    requires forall i :: 0 <= i < |s| ==> !DoubledAt(s, letter, i)
    ensures DedoubleAll(s, letter) == s
  {
    if s != [] {
      var init := s[..|s| - 1];
      forall i | 0 <= i < |init| ensures !DoubledAt(init, letter, i) {
        assert !DoubledAt(s, letter, i);
      }
      DedoubleAllUnchanged(init, letter);
      assert s == init + [s[|s| - 1]];
    }
  }

  /** Doubling a letter at First or Last and dedoubling it at the same place
      gives the word back. */
  lemma DoubleThenDedouble(s: seq<string>, letter: string, position: LetterPlaceType)
    requires position != All
    ensures DedoubleSpec(DoubleLetters(s, letter, position), letter, position) == s
  {
    DoubleLettersSpec(s, letter);
    if position == First {
      DoubleThenDedoubleFirst(s, letter, DoubleLetters(s, letter, First));
    } else {
      DoubleThenDedoubleLast(s, letter, DoubleLetters(s, letter, Last));
    }
  }

  /** `d` is `s` doubled at First: dedoubling it at First gives `s` back. */
  lemma DoubleThenDedoubleFirst(s: seq<string>, letter: string, d: seq<string>)
    requires IndexOf(s, letter).Some? ==> d == InsertAt(s, IndexOf(s, letter).value, letter)
    requires letter !in s ==> d == s
    ensures DedoubleSpec(d, letter, First) == s
  {
    if IndexOf(s, letter).Some? {
      DedoubleFirstOfInsert(s, letter, IndexOf(s, letter).value);
    } else {
      DedoubleAbsent(s, letter);
    }
  }

  /** With no `letter` in `s` there is no pair to undo, from either end. */
  lemma DedoubleAbsent(s: seq<string>, letter: string)
    requires letter !in s
    ensures DedoubleSpec(s, letter, First) == s
    ensures DedoubleSpec(s, letter, Last) == s
  {
    assert FirstDoubled(s, letter).None? by {
      forall j | 0 <= j < |s| ensures !DoubledAt(s, letter, j) {
        assert s[j] != letter;
      }
    }
    assert LastDoubledBack(s, letter).None? by {
      forall j | 0 <= j < |s| ensures !DoubledBackAt(s, letter, j) {
        assert s[j] != letter;
      }
    }
  }

  /** A copy inserted at the first occurrence is the first doubled pair. */
  lemma DedoubleFirstOfInsert(s: seq<string>, letter: string, i: nat)
    requires i < |s| && s[i] == letter && forall j :: 0 <= j < i ==> s[j] != letter
    ensures DedoubleSpec(InsertAt(s, i, letter), letter, First) == s
  {
    var t := InsertAt(s, i, letter);
    assert DoubledAt(t, letter, i + 1);
    var k := FirstDoubled(t, letter).value;
    assert forall j :: 0 <= j < i ==> !DoubledAt(t, letter, j) by {
      forall j | 0 <= j < i ensures !DoubledAt(t, letter, j) {
        assert t[j] == s[j];
      }
    }
    if k == i {
      assert RemoveAt(t, i) == s;
    } else {
      assert k == i + 1;
      assert RemoveAt(t, i + 1) == s;
    }
  }

  /** `d` is `s` doubled at Last: dedoubling it at Last gives `s` back. */
  lemma DoubleThenDedoubleLast(s: seq<string>, letter: string, d: seq<string>)
    requires LastIndexOf(s, letter).Some? ==> d == InsertAt(s, LastIndexOf(s, letter).value + 1, letter)
    requires letter !in s ==> d == s
    ensures DedoubleSpec(d, letter, Last) == s
  {
    var q := LastIndexOf(s, letter);
    if q.Some? {
      DedoubleLastOfInsert(s, letter, q.value);
    } else {
      DedoubleAbsent(s, letter);
    }
  }

  /** A copy inserted after the last occurrence is the last doubled pair. */
  lemma DedoubleLastOfInsert(s: seq<string>, letter: string, q: nat)
    requires q < |s| && s[q] == letter && forall j :: q < j < |s| ==> s[j] != letter
    ensures DedoubleSpec(InsertAt(s, q + 1, letter), letter, Last) == s
  {
    var t := InsertAt(s, q + 1, letter);
    assert DoubledBackAt(t, letter, q);
    var k := LastDoubledBack(t, letter).value;
    assert forall j :: q + 1 < j < |t| ==> !DoubledBackAt(t, letter, j) by {
      forall j | q + 1 < j < |t| ensures !DoubledBackAt(t, letter, j) {
        assert t[j] == s[j - 1];
      }
    }
    if k == q {
      assert RemoveAt(t, q) == s;
    } else {
      assert k == q + 1;
      assert RemoveAt(t, q + 1) == s;
    }
  }

  // ---------------------------------------------------------------------------
  // modify_with_array
  // ---------------------------------------------------------------------------

  /** The letters one array entry contributes: a literal letter, the letter at
      a place of `working`, or nothing for a place out of range (a negative
      `i32` cast to `usize` is out of range too). */
  function Pick(working: seq<string>, v: LetterArrayValues): seq<string>
  {
    match v
    case Char(l) => [l]
    case Place(p) => if 0 <= p < |working| then [working[p]] else []
  }

  /** The letters `modify_with_array` produces from `working`. */
  function ArraySelect(working: seq<string>, arr: seq<LetterArrayValues>): (r: seq<string>)
    ensures |r| <= |arr|
  {
    if arr == [] then [] else ArraySelect(working, arr[..|arr| - 1]) + Pick(working, arr[|arr| - 1])
  }

  predicate InRange(working: seq<string>, v: LetterArrayValues)
  {
    v.Place? ==> 0 <= v.pos < |working|
  }

  /** The result has one letter per array entry exactly when no place is out
      of range; each entry's letters appear in array order. */
  lemma {:induction false} ArraySelectLength(working: seq<string>, arr: seq<LetterArrayValues>)
    ensures |ArraySelect(working, arr)| == |arr| <==> forall i :: 0 <= i < |arr| ==> InRange(working, arr[i])
  {
    if arr != [] {
      var init := arr[..|arr| - 1];
      ArraySelectLength(working, init);
      if forall i :: 0 <= i < |arr| ==> InRange(working, arr[i]) {
        assert forall i :: 0 <= i < |init| ==> InRange(working, init[i]) by {
          forall i | 0 <= i < |init| ensures InRange(working, init[i]) { assert init[i] == arr[i]; }
        }
      } else {
        var i :| 0 <= i < |arr| && !InRange(working, arr[i]);
        if i < |init| {
          assert init[i] == arr[i];
          assert |ArraySelect(working, init)| < |init|;
        } else {
          assert Pick(working, arr[i]) == [];
        }
        assert |ArraySelect(working, arr)| < |arr|;
      }
    }
  }

  /** The places 0, 1, …, n-1 in order. */
  function Places(n: nat): (r: seq<LetterArrayValues>)
    requires n < 0x8000_0000
    ensures |r| == n && forall i :: 0 <= i < n ==> r[i] == Place(i)
  {
    if n == 0 then [] else Places(n - 1) + [Place(n - 1)]
  }

  /** Picking every place in order rebuilds the word. */
  lemma {:induction false} ArraySelectIdentity(working: seq<string>, n: nat)
    requires n <= |working| < 0x8000_0000
    ensures ArraySelect(working, Places(n)) == working[..n]
  {
    if n > 0 {
      ArraySelectIdentity(working, n - 1);
      var prev := Places(n - 1);
      var ps := prev + [Place(n - 1)];
      assert ps[..n - 1] == prev;
      calc {
        ArraySelect(working, Places(n));
        ArraySelect(working, ps);
        ArraySelect(working, prev) + Pick(working, Place(n - 1));
        working[..n - 1] + [working[n - 1]];
        { TakeSnoc(working, n); }
        working[..n];
      }
    }
  }

  /** The loop of `modify_with_array` in libkirum/src/word.rs and
      src/word.rs: one push per entry, `continue` on a place out of range. */
  method ModifyWithArray(working: seq<string>, arr: seq<LetterArrayValues>) returns (newLetters: seq<string>)
    ensures newLetters == ArraySelect(working, arr)
  {
    newLetters := [];
    for i := 0 to |arr|
      invariant newLetters == ArraySelect(working, arr[..i])
    {
      assert arr[..i + 1][..i] == arr[..i];
      match arr[i] {
        case Place(num) =>
          if !(0 <= num < |working|) {
            continue;
          }
          newLetters := newLetters + [working[num]];
        case Char(letter) =>
          newLetters := newLetters + [letter];
      }
    }
    assert arr[..|arr|] == arr;
  }
}
