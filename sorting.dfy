/**
 * `sorted(lines, key=lambda s: s.lower())` over the panel roster: Python's
 * lexicographic string order on an ASCII lower-case key, and a stable sort.
 */
module Sorting {

  /** `c.lower()` for ASCII letters; every other character is its own key. */
  function LowerChar(c: char): (r: char)
    ensures !('A' <= r <= 'Z')
    ensures !('A' <= c <= 'Z') ==> r == c
  {
    if 'A' <= c <= 'Z' then c + ('a' - 'A') else c
  }

  /** `s.lower()`, restricted to ASCII. */
  function Lower(s: string): (r: string)
    ensures |r| == |s|
  {
    if s == [] then [] else [LowerChar(s[0])] + Lower(s[1..])
  }

  /** Each character of the key is the lower-case form of the character at that place. */
  lemma {:induction false} LowerAt(s: string, i: nat)
    requires i < |s|
    ensures Lower(s)[i] == LowerChar(s[i])
  {
    if i > 0 {
      LowerAt(s[1..], i - 1);
    }
  }

  /** Python's `a <= b` on strings: lexicographic by code point. */
  predicate LexLe(a: string, b: string)
    decreases |a|
  {
    a == [] || (b != [] && (a[0] < b[0] || (a[0] == b[0] && LexLe(a[1..], b[1..]))))
  }

  /** The lexicographic order is total. */
  lemma {:induction false} LexLeTotal(a: string, b: string)
    ensures LexLe(a, b) || LexLe(b, a)
    decreases |a|
  {
    if a != [] && b != [] && a[0] == b[0] {
      LexLeTotal(a[1..], b[1..]);
    }
  }

  /** The order `sorted(..., key=str.lower)` uses. */
  predicate KeyLe(a: string, b: string) {
    LexLe(Lower(a), Lower(b))
  }

  /** Every neighbouring pair is in key order. */
  predicate Sorted(s: seq<string>) {
    forall i :: 0 < i < |s| ==> KeyLe(s[i - 1], s[i])
  }

  /** Insert `x` before the first element of `t` whose key is strictly larger, so
      that it lands after every element of equal key (stability). */
  function InsertByKey(x: string, t: seq<string>): (r: seq<string>)
    ensures |r| == |t| + 1 && (r[0] == x || (t != [] && r[0] == t[0]))
  {
    if t == [] then [x]
    else if !KeyLe(t[0], x) then [x] + t
    else [t[0]] + InsertByKey(x, t[1..])
  }

  /** Inserting adds `x` and keeps every element. */
  lemma {:induction false} InsertByKeyPerm(x: string, t: seq<string>)
    ensures multiset(InsertByKey(x, t)) == multiset(t) + multiset{x}
  {
    if t != [] && KeyLe(t[0], x) {
      InsertByKeyPerm(x, t[1..]);
      assert t == [t[0]] + t[1..];
    }
  }

  /** Inserting into a sorted sequence keeps it sorted. */
  lemma {:induction false} InsertByKeySorted(x: string, t: seq<string>)
    requires Sorted(t)
    ensures Sorted(InsertByKey(x, t))
  {
    if t != [] {
      if !KeyLe(t[0], x) {
        LexLeTotal(Lower(t[0]), Lower(x));
      } else {
        assert Sorted(t[1..]);
        InsertByKeySorted(x, t[1..]);
        var r := InsertByKey(x, t);
        assert r == [t[0]] + InsertByKey(x, t[1..]);
        forall i | 0 < i < |r| ensures KeyLe(r[i - 1], r[i]) {
          if i > 1 {
            assert r[i - 1] == InsertByKey(x, t[1..])[i - 2];
          }
        }
      }
    }
  }

  /** A stable insertion sort by lower-cased key, Python's `sorted(s, key=lambda v: v.lower())`. */
  function SortByLower(s: seq<string>): (r: seq<string>)
    ensures |r| == |s|
  {
    if s == [] then []
    else InsertByKey(s[|s| - 1], SortByLower(s[..|s| - 1]))
  }

  /** The sort is a permutation. */
  lemma {:induction false} SortByLowerPerm(s: seq<string>)
    ensures multiset(SortByLower(s)) == multiset(s)
  {
    if s != [] {
      SortByLowerPerm(s[..|s| - 1]);
      InsertByKeyPerm(s[|s| - 1], SortByLower(s[..|s| - 1]));
      assert s == s[..|s| - 1] + [s[|s| - 1]];
    }
  }

  /** The result of the sort is in key order. */
  lemma {:induction false} SortByLowerSorted(s: seq<string>)
    ensures Sorted(SortByLower(s))
  {
    if s != [] {
      SortByLowerSorted(s[..|s| - 1]);
      InsertByKeySorted(s[|s| - 1], SortByLower(s[..|s| - 1]));
    }
  }

  /** The elements of `s` whose key is `k`, in their order in `s`. */
  function WithKey(s: seq<string>, k: string): seq<string>
  {
    if s == [] then [] else (if Lower(s[0]) == k then [s[0]] else []) + WithKey(s[1..], k)
  }

  lemma {:induction false} WithKeyAppend(a: seq<string>, b: seq<string>, k: string)
    ensures WithKey(a + b, k) == WithKey(a, k) + WithKey(b, k)
  {
    if a == [] {
      assert a + b == b;
    } else {
      var h := if Lower(a[0]) == k then [a[0]] else [];
      assert (a + b)[0] == a[0] && (a + b)[1..] == a[1..] + b;
      WithKeyAppend(a[1..], b, k);
      assert WithKey(a + b, k) == h + WithKey(a[1..] + b, k);
    }
  }

  lemma {:induction false} LexLeRefl(a: string)
    ensures LexLe(a, a)
    decreases |a|
  {
    if a != [] {
      LexLeRefl(a[1..]);
    }
  }

  lemma {:induction false} LexLeTrans(a: string, b: string, c: string)
    requires LexLe(a, b) && LexLe(b, c)
    ensures LexLe(a, c)
    decreases |a|
  {
    if a != [] && a[0] == b[0] && b[0] == c[0] {
      LexLeTrans(a[1..], b[1..], c[1..]);
    }
  }

  /** In a key-ordered sequence whose first key is above `k`, no element has key `k`. */
  lemma {:induction false} NoneWithKey(t: seq<string>, k: string)
    requires Sorted(t) && t != [] && !LexLe(Lower(t[0]), k)
    ensures WithKey(t, k) == []
  {
    if Lower(t[0]) == k {
      LexLeRefl(k);
    }
    if |t| > 1 {
      if LexLe(Lower(t[1]), k) {
        LexLeTrans(Lower(t[0]), Lower(t[1]), k);
      }
      assert Sorted(t[1..]);
      NoneWithKey(t[1..], k);
    }
  }

  /** `x` placed in front of elements of larger key comes after every equal-keyed one:
      there is none. */
  lemma StableInFront(x: string, t: seq<string>, k: string)
    requires Sorted(t) && t != [] && !KeyLe(t[0], x)
    ensures WithKey([x] + t, k) == WithKey(t, k) + WithKey([x], k)
  {
    WithKeyAppend([x], t, k);
    if Lower(x) == k {
      NoneWithKey(t, k);
    } else {
      assert [x][1..] == [];
    }
  }

  /** Putting an element in front of both sides keeps the equation of the step below. */
  lemma StableBehind(t0: string, rest: seq<string>, ins: seq<string>, x: string, k: string)
    requires WithKey(ins, k) == WithKey(rest, k) + WithKey([x], k)
    ensures WithKey([t0] + ins, k) == WithKey([t0] + rest, k) + WithKey([x], k)
  {
    WithKeyAppend([t0], ins, k);
    WithKeyAppend([t0], rest, k);
  }

  /** Inserting into a key-ordered sequence puts `x` after every element of equal key
      and moves none of them. */
  lemma {:induction false} InsertByKeyStable(x: string, t: seq<string>, k: string)
    requires Sorted(t)
    ensures WithKey(InsertByKey(x, t), k) == WithKey(t, k) + WithKey([x], k)
  {
    if t == [] {
      assert InsertByKey(x, t) == [x];
    } else if !KeyLe(t[0], x) {
      assert InsertByKey(x, t) == [x] + t;
      StableInFront(x, t, k);
    } else {
      var rest := t[1..];
      assert InsertByKey(x, t) == [t[0]] + InsertByKey(x, rest);
      assert Sorted(rest);
      InsertByKeyStable(x, rest, k);
      StableBehind(t[0], rest, InsertByKey(x, rest), x, k);
      assert [t[0]] + rest == t;
    }
  }

  /** The sort is stable, as Python's `sorted` is: for every key, the elements with that
      key come out in the order they went in. */
  lemma {:induction false} SortByLowerStable(s: seq<string>, k: string)
    ensures WithKey(SortByLower(s), k) == WithKey(s, k)
  {
    if s != [] {
      var init, last := s[..|s| - 1], s[|s| - 1];
      SortByLowerStable(init, k);
      SortByLowerSorted(init);
      InsertByKeyStable(last, SortByLower(init), k);
      WithKeyAppend(init, [last], k);
      assert init + [last] == s;
    }
  }
}
