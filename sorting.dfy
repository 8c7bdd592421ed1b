/** The stable sort behind Rust's `sort_by_key`, used by `join_string_vectors`
    and `reduce_to_dict` (libkirum/src/kirum.rs, src/kirum.rs): an
    insertion sort that puts each element after every earlier element whose
    key is not greater. */
module Sorting {
  import opened Strings

  ghost predicate Total<T(!new)>(le: (T, T) -> bool)
  {
    forall a, b :: le(a, b) || le(b, a)
  }

  ghost predicate Transitive<T(!new)>(le: (T, T) -> bool)
  {
    forall a, b, c :: le(a, b) && le(b, c) ==> le(a, c)
  }

  predicate Sorted<T>(s: seq<T>, le: (T, T) -> bool)
  {
    forall i :: 0 < i < |s| ==> le(s[i - 1], s[i])
  }

  /** The elements whose key equals that of `x`. */
  function SameKey<T>(le: (T, T) -> bool, x: T): T -> bool
  {
    y => le(x, y) && le(y, x)
  }

  /** `x` placed after the last element not greater than it. */
  function Insert<T>(s: seq<T>, x: T, le: (T, T) -> bool): (r: seq<T>)
    ensures |r| == |s| + 1
  {
    if s == [] then [x]
    else if le(s[|s| - 1], x) then s + [x]
    else
      var init := s[..|s| - 1];
      assert s == init + [s[|s| - 1]];
      Insert(init, x, le) + [s[|s| - 1]]
  }

  function StableSort<T>(s: seq<T>, le: (T, T) -> bool): (r: seq<T>)
    ensures |r| == |s|
  {
    if s == [] then []
    else
      var init := s[..|s| - 1];
      assert s == init + [s[|s| - 1]];
      Insert(StableSort(init, le), s[|s| - 1], le)
  }

  /** An insertion adds `x` and loses nothing. */
  lemma {:induction false} InsertPerm<T>(s: seq<T>, x: T, le: (T, T) -> bool)
    ensures multiset(Insert(s, x, le)) == multiset(s) + multiset{x}
  {
    if s != [] && !le(s[|s| - 1], x) {
      var init := s[..|s| - 1];
      InsertPerm(init, x, le);
      assert s == init + [s[|s| - 1]];
    }
  }

  /** The last element after an insertion is the inserted one or the old
      last one. */
  lemma {:induction false} InsertLast<T>(s: seq<T>, x: T, le: (T, T) -> bool)
    ensures var r := Insert(s, x, le); r[|r| - 1] == x || (s != [] && r[|r| - 1] == s[|s| - 1])
  {
  }

  lemma {:induction false} InsertSorted<T(!new)>(s: seq<T>, x: T, le: (T, T) -> bool)
    requires Total(le) && Sorted(s, le)
    ensures Sorted(Insert(s, x, le), le)
  {
    if s != [] && !le(s[|s| - 1], x) {
      var init, last := s[..|s| - 1], s[|s| - 1];
      assert Sorted(init, le) by {
        forall i | 0 < i < |init| ensures le(init[i - 1], init[i]) {
          assert init[i - 1] == s[i - 1] && init[i] == s[i];
        }
      }
      InsertSorted(init, x, le);
      var r := Insert(init, x, le);
      InsertLast(init, x, le);
      assert le(x, last);
      if init != [] {
        assert le(init[|init| - 1], last) by {
          assert init[|init| - 1] == s[|s| - 2];
        }
      }
      assert le(r[|r| - 1], last);
      var full := r + [last];
      forall i | 0 < i < |full| ensures le(full[i - 1], full[i]) {
        if i < |r| {
          assert full[i - 1] == r[i - 1] && full[i] == r[i];
        }
      }
    }
  }

  /** Filtering a list extended by one element. */
  lemma FilterSnoc<T>(s: seq<T>, x: T, p: T -> bool)
    ensures Filter(s + [x], p) == Filter(s, p) + (if p(x) then [x] else [])
  {
    assert (s + [x])[..|s + [x]| - 1] == s;
  }

  /** An element strictly greater than one of `y`'s key is not of that key. */
  lemma SameKeyAbove<T(!new)>(le: (T, T) -> bool, y: T, x: T, z: T)
    requires Transitive(le)
    requires SameKey(le, y)(x) && !le(z, x)
    ensures !SameKey(le, y)(z)
  {
  }

  /** Inserting `x` appends it behind the elements with the same key and
      leaves the elements of every other key in place. */
  lemma {:induction false} InsertStable<T(!new)>(s: seq<T>, x: T, y: T, le: (T, T) -> bool)
    requires Transitive(le)
    ensures Filter(Insert(s, x, le), SameKey(le, y)) ==
      Filter(s, SameKey(le, y)) + (if SameKey(le, y)(x) then [x] else [])
  {
    var p := SameKey(le, y);
    if s == [] {
      FilterSnoc([], x, p);
    } else if le(s[|s| - 1], x) {
      FilterSnoc(s, x, p);
    } else {
      var init, last := s[..|s| - 1], s[|s| - 1];
      var tail := if p(x) then [x] else [];
      var lastTail := if p(last) then [last] else [];
      assert Insert(s, x, le) == Insert(init, x, le) + [last];
      if p(x) {
        SameKeyAbove(le, y, x, last);
      }
      calc {
        Filter(Insert(s, x, le), p);
        Filter(Insert(init, x, le) + [last], p);
        { FilterSnoc(Insert(init, x, le), last, p); }
        Filter(Insert(init, x, le), p) + lastTail;
        { InsertStable(init, x, y, le); }
        Filter(init, p) + tail + lastTail;
        Filter(init, p) + lastTail + tail;
        { assert s == init + [last]; FilterSnoc(init, last, p); }
        Filter(s, p) + tail;
      }
    }
  }

  /** The sort is sorted, a permutation, and stable: the elements of each key
      keep their input order. */
  lemma {:induction false} StableSortSpec<T(!new)>(s: seq<T>, le: (T, T) -> bool, y: T)
    requires Total(le) && Transitive(le)
    ensures Sorted(StableSort(s, le), le)
    ensures multiset(StableSort(s, le)) == multiset(s)
    ensures Filter(StableSort(s, le), SameKey(le, y)) == Filter(s, SameKey(le, y))
  {
    if s != [] {
      var init, last := s[..|s| - 1], s[|s| - 1];
      StableSortSpec(init, le, y);
      InsertSorted(StableSort(init, le), last, le);
      InsertStable(StableSort(init, le), last, y, le);
      InsertPerm(StableSort(init, le), last, le);
      assert s == init + [last];
      FilterSnoc(init, last, SameKey(le, y));
    }
  }

  // ---------------------------------------------------------------------------
  // The order Rust derives for `Vec<String>`
  // ---------------------------------------------------------------------------

  predicate StrLt(a: string, b: string)
  {
    StrLe(a, b) && a != b
  }

  /** Lexicographic order on lists of strings. */
  predicate SeqLe(a: seq<string>, b: seq<string>)
  {
    a == [] || (b != [] && (StrLt(a[0], b[0]) || (a[0] == b[0] && SeqLe(a[1..], b[1..]))))
  }

  lemma {:induction false} SeqLeTotal(a: seq<string>, b: seq<string>)
    ensures SeqLe(a, b) || SeqLe(b, a)
  {
    if a != [] && b != [] {
      StrLeTotal(a[0], b[0]);
      if a[0] == b[0] {
        SeqLeTotal(a[1..], b[1..]);
      }
    }
  }

  lemma {:induction false} SeqLeTransitive(a: seq<string>, b: seq<string>, c: seq<string>)
    requires SeqLe(a, b) && SeqLe(b, c)
    ensures SeqLe(a, c)
  {
    if a != [] {
      if StrLt(a[0], b[0]) {
        if b[0] != c[0] {
          StrLeTransitive(a[0], b[0], c[0]);
          if a[0] == c[0] {
            StrLeAntisymmetric(a[0], b[0]);
          }
        }
      } else if !StrLt(b[0], c[0]) {
        SeqLeTransitive(a[1..], b[1..], c[1..]);
      }
    }
  }

  lemma {:induction false} SeqLeAntisymmetric(a: seq<string>, b: seq<string>)
    requires SeqLe(a, b) && SeqLe(b, a)
    ensures a == b
  {
    if a != [] {
      if StrLt(a[0], b[0]) || StrLt(b[0], a[0]) {
        StrLeAntisymmetric(a[0], b[0]);
      } else {
        SeqLeAntisymmetric(a[1..], b[1..]);
        assert a == [a[0]] + a[1..] && b == [b[0]] + b[1..];
      }
    }
  }
}
