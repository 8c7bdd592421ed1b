/** Text as the source's Rust standard library treats it: a string is a
    sequence of characters, each character standing for one grapheme.
    `SplitOn`, `ReplaceAll` and `ReplaceFirst` follow `str::split(char)`,
    `str::replace` and `str::replacen(.., 1)`; `StrLe` is `String`'s `Ord`. */
module Strings {

  /** Concatenation of all parts (`Vec<String>::join("")` / `concat`). */
  function Join(parts: seq<string>): string
  {
    if parts == [] then [] else Join(parts[..|parts| - 1]) + parts[|parts| - 1]
  }

  /** One single-character string per character (`chars().map(to_string)`). */
  function Chars(s: string): (r: seq<string>)
    ensures |r| == |s| && forall i :: 0 <= i < |s| ==> r[i] == [s[i]]
  {
    seq(|s|, i requires 0 <= i < |s| => [s[i]])
  }

  /** Joining the characters gives the text back. */
  lemma {:induction false} JoinChars(s: string)
    ensures Join(Chars(s)) == s
  {
    if s != [] {
      var init := s[..|s| - 1];
      JoinChars(init);
      assert Chars(s)[..|s| - 1] == Chars(init);
      assert s == init + [s[|s| - 1]];
    }
  }

  /** Concatenation of the parts with `c` between neighbours. */
  function JoinWith(parts: seq<string>, c: char): string
  {
    if |parts| <= 1 then (if parts == [] then [] else parts[0])
    else parts[0] + [c] + JoinWith(parts[1..], c)
  }

  lemma {:induction false} JoinAppend(a: seq<string>, b: seq<string>)
    ensures Join(a + b) == Join(a) + Join(b)
  {
    if b == [] {
      assert a + b == a;
    } else {
      JoinAppend(a, b[..|b| - 1]);
      assert (a + b)[..|a + b| - 1] == a + b[..|b| - 1];
    }
  }

  /** The pieces of `s` between occurrences of `c`, as `s.split(c)` yields them:
      always at least one piece, and a trailing `c` yields a trailing empty piece. */
  function SplitOn(s: string, c: char): (r: seq<string>)
    ensures |r| >= 1
  {
    if s == [] then [[]]
    else if s[0] == c then [[]] + SplitOn(s[1..], c)
    else
      var rest := SplitOn(s[1..], c);
      [[s[0]] + rest[0]] + rest[1..]
  }

  /** Splitting and re-joining on the same character gives the text back,
      and no piece contains the separator. */
  lemma {:induction false} SplitOnJoinWith(s: string, c: char)
    ensures JoinWith(SplitOn(s, c), c) == s
    ensures forall p :: p in SplitOn(s, c) ==> c !in p
  {
    if s != [] {
      SplitOnJoinWith(s[1..], c);
      var rest := SplitOn(s[1..], c);
      if s[0] == c {
        assert SplitOn(s, c) == [[]] + rest;
        assert s == [] + [c] + s[1..];
      } else {
        var r := SplitOn(s, c);
        assert r == [[s[0]] + rest[0]] + rest[1..];
        assert r[0] == [s[0]] + rest[0] && r[1..] == rest[1..];
        forall p | p in r ensures c !in p {
          if p != r[0] {
            assert p in rest;
          } else {
            assert rest[0] in rest;
          }
        }
        if |rest| == 1 {
          calc {
            JoinWith(r, c);
            [s[0]] + JoinWith(rest, c);
            s;
          }
        } else {
          calc {
            JoinWith(r, c);
            ([s[0]] + rest[0]) + [c] + JoinWith(rest[1..], c);
            [s[0]] + JoinWith(rest, c);
            s;
          }
        }
      }
    }
  }

  /** A text without `c` is a single piece. */
  lemma {:induction false} SplitOnFree(s: string, c: char)
    requires c !in s
    ensures SplitOn(s, c) == [s]
  {
    if s != [] {
      SplitOnFree(s[1..], c);
      assert s == [s[0]] + s[1..];
    }
  }

  /** Splitting at an occurrence of `c` splits the two sides independently. */
  lemma {:induction false} SplitOnAppend(x: string, c: char, y: string)
    ensures SplitOn(x + [c] + y, c) == SplitOn(x, c) + SplitOn(y, c)
  {
    if x == [] {
      assert x + [c] + y == [c] + y;
      SplitOnCons(c, y, c);
    } else {
      assert x == [x[0]] + x[1..];
      assert x + [c] + y == [x[0]] + (x[1..] + [c] + y);
      SplitOnAppend(x[1..], c, y);
      SplitOnAppendStep(x[0], x[1..], c, y);
    }
  }

  /** The induction step of `SplitOnAppend`: one more character in front. */
  lemma SplitOnAppendStep(h: char, t: string, c: char, y: string)
    requires SplitOn(t + [c] + y, c) == SplitOn(t, c) + SplitOn(y, c)
    ensures SplitOn([h] + (t + [c] + y), c) == SplitOn([h] + t, c) + SplitOn(y, c)
  {
    var tail := t + [c] + y;
    SplitOnCons(h, tail, c);
    SplitOnCons(h, t, c);
    PrependPiece(h, c, SplitOn(t, c), SplitOn(y, c));
  }

  /** Sequence algebra behind `SplitOnAppendStep`, kept apart from `SplitOn`. */
  lemma PrependPiece(h: char, c: char, a: seq<string>, b: seq<string>)
    requires |a| > 0
    ensures (if h == c then [[]] + (a + b) else [[h] + (a + b)[0]] + (a + b)[1..]) ==
            (if h == c then [[]] + a else [[h] + a[0]] + a[1..]) + b
  {
    assert (a + b)[0] == a[0] && (a + b)[1..] == a[1..] + b;
  }

  /** One step of `SplitOn` on a text that starts with `h`. */
  lemma SplitOnCons(h: char, t: string, c: char)
    ensures SplitOn([h] + t, c) ==
      if h == c then [[]] + SplitOn(t, c) else [[h] + SplitOn(t, c)[0]] + SplitOn(t, c)[1..]
  {
    assert ([h] + t)[1..] == t;
  }

  /** A prefix one longer is the shorter prefix and the next element. */
  lemma TakeSnoc<T>(s: seq<T>, n: nat)
    requires 0 < n <= |s|
    ensures s[..n] == s[..n - 1] + [s[n - 1]]
  {
  }

  function Reverse<T>(s: seq<T>): (r: seq<T>)
    ensures |r| == |s|
    ensures forall i :: 0 <= i < |s| ==> r[i] == s[|s| - 1 - i]
  {
    if s == [] then [] else Reverse(s[1..]) + [s[0]]
  }

  lemma ReverseReverse<T>(s: seq<T>)
    ensures Reverse(Reverse(s)) == s
  {
    assert forall i :: 0 <= i < |s| ==> Reverse(Reverse(s))[i] == s[i];
  }

  lemma ReverseAppend<T>(a: seq<T>, b: seq<T>)
    ensures Reverse(a + b) == Reverse(b) + Reverse(a)
  {
    assert forall i :: 0 <= i < |a + b| ==> Reverse(a + b)[i] == (Reverse(b) + Reverse(a))[i];
  }

  lemma ReverseMembers<T>(s: seq<T>)
    ensures forall x :: x in Reverse(s) <==> x in s
  {
    var rs := Reverse(s);
    forall x | x in rs ensures x in s {
      var i :| 0 <= i < |rs| && rs[i] == x;
      assert s[|s| - 1 - i] == x;
    }
    forall x | x in s ensures x in rs {
      var i :| 0 <= i < |s| && s[i] == x;
      assert rs[|s| - 1 - i] == x;
    }
  }

  /** Keeps the elements satisfying `p`, in order. */
  function Filter<T>(s: seq<T>, p: T -> bool): (r: seq<T>)
    ensures |r| <= |s|
  {
    if s == [] then [] else Filter(s[..|s| - 1], p) + (if p(s[|s| - 1]) then [s[|s| - 1]] else [])
  }

  /** What `Filter` keeps comes from `s` and satisfies `p`. */
  lemma {:induction false} FilterMember<T>(s: seq<T>, p: T -> bool)
    ensures forall x :: x in Filter(s, p) ==> x in s && p(x)
  {
    if s != [] {
      FilterMember(s[..|s| - 1], p);
      assert forall x :: x in s[..|s| - 1] ==> x in s;
    }
  }

  /** Every element that passes the filter is kept. */
  lemma {:induction false} FilterKeeps<T>(s: seq<T>, p: T -> bool)
    ensures forall x :: x in s && p(x) ==> x in Filter(s, p)
  {
    if s != [] {
      FilterKeeps(s[..|s| - 1], p);
      assert forall x :: x in s ==> x in s[..|s| - 1] || x == s[|s| - 1] by {
        assert s == s[..|s| - 1] + [s[|s| - 1]];
      }
    }
  }

  lemma {:induction false} FilterAppend<T>(a: seq<T>, b: seq<T>, p: T -> bool)
    ensures Filter(a + b, p) == Filter(a, p) + Filter(b, p)
  {
    if b != [] {
      FilterAppend(a, b[..|b| - 1], p);
      assert (a + b)[..|a + b| - 1] == a + b[..|b| - 1];
    } else {
      assert a + b == a;
    }
  }

  lemma {:induction false} FilterAll<T>(s: seq<T>, p: T -> bool)
    requires forall i :: 0 <= i < |s| ==> p(s[i])
    ensures Filter(s, p) == s
  {
    if s != [] {
      FilterAll(s[..|s| - 1], p);
      assert s == s[..|s| - 1] + [s[|s| - 1]];
    }
  }

  lemma {:induction false} FilterReverse<T>(s: seq<T>, p: T -> bool)
    ensures Reverse(Filter(s, p)) == Filter(Reverse(s), p)
  {
    if s != [] {
      var init := s[..|s| - 1];
      var last := s[|s| - 1];
      FilterReverse(init, p);
      assert s == init + [last];
      ReverseAppend(init, [last]);
      assert Reverse([last]) == [last];
      FilterAppend([last], Reverse(init), p);
      ReverseAppend(Filter(init, p), if p(last) then [last] else []);
      assert Reverse(if p(last) then [last] else []) == (if p(last) then [last] else []);
      assert Filter([last], p) == Filter([], p) + (if p(last) then [last] else []);
    }
  }

  /** Number of elements satisfying `p`. */
  function CountIf<T>(s: seq<T>, p: T -> bool): nat
  {
    |Filter(s, p)|
  }

  predicate IsPrefix(p: string, s: string)
  {
    |p| <= |s| && s[..|p|] == p
  }

  /** `s.replacen(pat, rep, 1)`: the leftmost occurrence of `pat` replaced; an
      empty `pat` matches at the very start. */
  function ReplaceFirst(s: string, pat: string, rep: string): string
    decreases |s|
  {
    if pat == [] then rep + s
    else if s == [] then []
    else if IsPrefix(pat, s) then rep + s[|pat|..]
    else [s[0]] + ReplaceFirst(s[1..], pat, rep)
  }

  /** `s.replace(pat, rep)`: every non-overlapping occurrence, left to right; an
      empty `pat` matches before every character and at the end. */
  function ReplaceAll(s: string, pat: string, rep: string): string
    decreases |s|
  {
    if s == [] then (if pat == [] then rep else [])
    else if pat == [] then rep + [s[0]] + ReplaceAll(s[1..], pat, rep)
    else if IsPrefix(pat, s) then rep + ReplaceAll(s[|pat|..], pat, rep)
    else [s[0]] + ReplaceAll(s[1..], pat, rep)
  }

  /** Where no match of `pat` starts inside `u`, replacing in `u + v` only
      touches `v`. */
  lemma {:induction false} ReplaceAllSkip(u: string, v: string, pat: string, rep: string)
    requires pat != []
    requires forall k :: 0 <= k < |u| ==> !IsPrefix(pat, (u + v)[k..])
    ensures ReplaceAll(u + v, pat, rep) == u + ReplaceAll(v, pat, rep)
  {
    if u == [] {
      assert u + v == v;
    } else {
      var w := u + v;
      assert w[0..] == w;
      assert w[1..] == u[1..] + v;
      assert forall k :: 0 <= k < |u[1..]| ==> !IsPrefix(pat, (u[1..] + v)[k..]) by {
        forall k | 0 <= k < |u[1..]| ensures !IsPrefix(pat, (u[1..] + v)[k..]) {
          assert (u[1..] + v)[k..] == w[k + 1..];
        }
      }
      ReplaceAllSkip(u[1..], v, pat, rep);
    }
  }

  lemma {:induction false} ReplaceFirstSkip(u: string, v: string, pat: string, rep: string)
    requires pat != []
    requires forall k :: 0 <= k < |u| ==> !IsPrefix(pat, (u + v)[k..])
    ensures ReplaceFirst(u + v, pat, rep) == u + ReplaceFirst(v, pat, rep)
  {
    if u == [] {
      assert u + v == v;
    } else {
      var w := u + v;
      assert w[0..] == w;
      assert w[1..] == u[1..] + v;
      assert forall k :: 0 <= k < |u[1..]| ==> !IsPrefix(pat, (u[1..] + v)[k..]) by {
        forall k | 0 <= k < |u[1..]| ensures !IsPrefix(pat, (u[1..] + v)[k..]) {
          assert (u[1..] + v)[k..] == w[k + 1..];
        }
      }
      ReplaceFirstSkip(u[1..], v, pat, rep);
      calc {
        ReplaceFirst(w, pat, rep);
        { assert !IsPrefix(pat, w); }
        [w[0]] + ReplaceFirst(w[1..], pat, rep);
        [u[0]] + (u[1..] + ReplaceFirst(v, pat, rep));
        { assert u == [u[0]] + u[1..]; }
        u + ReplaceFirst(v, pat, rep);
      }
    }
  }

  /** Removes every occurrence of the character `c` (`s.replace(c, "")`). */
  function RemoveAllChar(s: string, c: char): (r: string)
    ensures c !in r
    ensures |r| <= |s|
  {
    if s == [] then []
    else (if s[0] == c then [] else [s[0]]) + RemoveAllChar(s[1..], c)
  }

  /** Joining a part in front of more parts. */
  lemma JoinCons(a: string, rest: seq<string>)
    ensures Join([a] + rest) == a + Join(rest)
  {
    JoinAppend([a], rest);
    assert [a][..0] == [];
  }

  /** Removing `c` concatenates the pieces between its occurrences. */
  lemma {:induction false} RemoveAllCharSplit(s: string, c: char)
    ensures RemoveAllChar(s, c) == Join(SplitOn(s, c))
  {
    if s != [] {
      RemoveAllCharSplit(s[1..], c);
      var rest := SplitOn(s[1..], c);
      if s[0] == c {
        calc {
          Join(SplitOn(s, c));
          Join([[]] + rest);
          { JoinCons([], rest); }
          Join(rest);
        }
      } else {
        calc {
          Join(SplitOn(s, c));
          Join([[s[0]] + rest[0]] + rest[1..]);
          { JoinCons([s[0]] + rest[0], rest[1..]); }
          [s[0]] + (rest[0] + Join(rest[1..]));
          { JoinCons(rest[0], rest[1..]); assert rest == [rest[0]] + rest[1..]; }
          [s[0]] + Join(rest);
        }
      }
    }
  }

  predicate NonEmpty(part: string)
  {
    part != []
  }

  /** Empty parts add nothing to a concatenation. */
  lemma {:induction false} JoinNonEmpty(ps: seq<string>)
    ensures Join(Filter(ps, NonEmpty)) == Join(ps)
  {
    if ps != [] {
      var init := ps[..|ps| - 1];
      JoinNonEmpty(init);
      var last := ps[|ps| - 1];
      assert Filter(ps, NonEmpty) == Filter(init, NonEmpty) + (if last != [] then [last] else []);
      JoinAppend(Filter(init, NonEmpty), if last != [] then [last] else []);
      assert [last][..0] == [];
    }
  }

  lemma {:induction false} RemoveAllCharAppend(a: string, b: string, c: char)
    ensures RemoveAllChar(a + b, c) == RemoveAllChar(a, c) + RemoveAllChar(b, c)
  {
    if a != [] {
      RemoveAllCharAppend(a[1..], b, c);
      assert (a + b)[1..] == a[1..] + b;
    } else {
      assert a + b == b;
    }
  }

  lemma {:induction false} RemoveAllCharFree(s: string, c: char)
    requires c !in s
    ensures RemoveAllChar(s, c) == s
  {
    if s != [] {
      RemoveAllCharFree(s[1..], c);
      assert s == [s[0]] + s[1..];
    }
  }

  /** Lexicographic order on text, character code by character code, which is
      the byte order of UTF-8 that Rust's `String` compares by. */
  predicate StrLe(a: string, b: string)
  {
    a == [] || (b != [] && (a[0] < b[0] || (a[0] == b[0] && StrLe(a[1..], b[1..]))))
  }

  lemma {:induction false} StrLeTotal(a: string, b: string)
    ensures StrLe(a, b) || StrLe(b, a)
  {
    if a != [] && b != [] && a[0] == b[0] {
      StrLeTotal(a[1..], b[1..]);
    }
  }

  lemma {:induction false} StrLeTransitive(a: string, b: string, c: string)
    requires StrLe(a, b) && StrLe(b, c)
    ensures StrLe(a, c)
  {
    if a != [] && b != [] && c != [] && a[0] == b[0] && b[0] == c[0] {
      StrLeTransitive(a[1..], b[1..], c[1..]);
    }
  }

  lemma {:induction false} StrLeAntisymmetric(a: string, b: string)
    requires StrLe(a, b) && StrLe(b, a)
    ensures a == b
  {
    if a != [] && b != [] {
      StrLeAntisymmetric(a[1..], b[1..]);
      assert a == [a[0]] + a[1..];
      assert b == [b[0]] + b[1..];
    }
  }
}
