/**
 Sequence utilities used by the solver model: filtering, the element-wise
 removal that Python's `list.remove` performs, and a stable sort by a
 natural-number key (the behaviour of Python's `sorted(xs, key=...)`).
 */
module Seqs {

  /** The set of elements of a sequence. */
  function Elems<T(==)>(s: seq<T>): set<T>
  {
    set x | x in s
  }

  /** No element occurs twice. */
  predicate Distinct<T(==)>(s: seq<T>)
  {
    forall i, j | 0 <= i < j < |s| :: s[i] != s[j]
  }

  lemma {:induction false} DistinctCard<T>(s: seq<T>)
    requires Distinct(s)
    ensures |Elems(s)| == |s|
  {
    if s != [] {
      DistinctCard(s[1..]);
      assert Elems(s) == {s[0]} + Elems(s[1..]);
      assert s[0] !in Elems(s[1..]);
    }
  }

  /** The elements of `s` that satisfy `keep`, in their original order. */
  function Filter<T>(s: seq<T>, keep: T -> bool): (r: seq<T>)
    ensures |r| <= |s|
    ensures forall x | x in r :: x in s && keep(x)
    ensures forall x | x in s && keep(x) :: x in r
  {
    if s == [] then []
    else if keep(s[0]) then [s[0]] + Filter(s[1..], keep)
    else Filter(s[1..], keep)
  }

  /** The complement of a predicate. */
  function Not<T>(f: T -> bool): T -> bool
  {
    x => !f(x)
  }

  /** A filter and its complement split the sequence as a multiset. */
  lemma {:induction false} FilterSplit<T>(s: seq<T>, keep: T -> bool)
    ensures multiset(s) == multiset(Filter(s, keep)) + multiset(Filter(s, Not(keep)))
  {
    if s != [] {
      FilterSplit(s[1..], keep);
      assert s == [s[0]] + s[1..];
    }
  }

  /** Python's `list.remove(x)`: drops the first occurrence of `x`.
      (Python raises when `x` is absent; the solver never asks for that,
      and here the sequence is then returned unchanged.) */
  function RemoveFirst<T(==)>(s: seq<T>, x: T): (r: seq<T>)
    ensures x in s ==> multiset(r) == multiset(s) - multiset{x}
    ensures x !in s ==> r == s
  {
    if s == [] then []
    else if s[0] == x then
      assert s == [s[0]] + s[1..];
      s[1..]
    else
      assert s == [s[0]] + s[1..];
      [s[0]] + RemoveFirst(s[1..], x)
  }

  /** `list.remove` takes out the first occurrence and keeps everything
      else in order. */
  lemma {:induction false} RemoveFirstAt<T>(s: seq<T>, x: T) returns (i: nat)
    requires x in s
    ensures i < |s| && s[i] == x && x !in s[..i]
    ensures RemoveFirst(s, x) == s[..i] + s[i + 1..]
  {
    if s[0] == x {
      i := 0;
      assert s[..0] + s[1..] == s[1..];
    } else {
      var t := s[1..];
      var j := RemoveFirstAt(t, x);
      i := j + 1;
      SplitAfterHead(s, j);
      assert x !in [s[0]] + t[..j];
      assert RemoveFirst(s, x) == [s[0]] + RemoveFirst(t, x);
    }
  }

  /** Cutting around position `j + 1` of `s` is cutting around `j` of its
      tail, with the head kept in front. */
  lemma SplitAfterHead<T>(s: seq<T>, j: nat)
    requires j + 1 < |s|
    ensures s[..j + 1] == [s[0]] + s[1..][..j]
    ensures s[j + 2..] == s[1..][j + 1..]
    ensures s[..j + 1] + s[j + 2..] == [s[0]] + (s[1..][..j] + s[1..][j + 1..])
  {
    assert s[..j + 1] == [s[0]] + s[1..][..j];
  }

  /** Removes the values of `xs` from `s` one at a time, each by `RemoveFirst`. */
  function RemoveAll<T(==)>(s: seq<T>, xs: seq<T>): seq<T>
    decreases xs
  {
    if xs == [] then s else RemoveAll(RemoveFirst(s, xs[0]), xs[1..])
  }

  lemma {:induction false} RemoveAllSkips<T>(x: T, s: seq<T>, xs: seq<T>)
    requires x !in xs
    ensures RemoveAll([x] + s, xs) == [x] + RemoveAll(s, xs)
    decreases xs
  {
    if xs != [] {
      assert RemoveFirst([x] + s, xs[0]) == [x] + RemoveFirst(s, xs[0]);
      RemoveAllSkips(x, RemoveFirst(s, xs[0]), xs[1..]);
    }
  }

  /** Removing, one occurrence at a time, every element that fails `keep`
      leaves exactly the elements that pass it, in their original order. */
  lemma {:induction false} RemoveAllFiltered<T>(s: seq<T>, keep: T -> bool)
    ensures RemoveAll(s, Filter(s, Not(keep))) == Filter(s, keep)
  {
    if s != [] {
      var t := s[1..];
      RemoveAllFiltered(t, keep);
      if keep(s[0]) {
        assert Filter(s, Not(keep)) == Filter(t, Not(keep));
        assert s == [s[0]] + t;
        RemoveAllSkips(s[0], t, Filter(t, Not(keep)));
      } else {
        assert Filter(s, Not(keep)) == [s[0]] + Filter(t, Not(keep));
        assert RemoveFirst(s, s[0]) == t;
      }
    }
  }

  /** Keys never decrease along the sequence. */
  ghost predicate SortedBy<T>(s: seq<T>, key: T -> nat)
  {
    forall i, j | 0 <= i < j < |s| :: key(s[i]) <= key(s[j])
  }

  /** The subsequence of elements whose key is `k`. A sort is stable exactly
      when it leaves every such subsequence as it was. */
  function WithKey<T>(s: seq<T>, key: T -> nat, k: nat): seq<T>
  {
    if s == [] then []
    else (if key(s[0]) == k then [s[0]] else []) + WithKey(s[1..], key, k)
  }

  lemma SortedCons<T>(x: T, t: seq<T>, key: T -> nat)
    requires SortedBy(t, key)
    requires forall y | y in t :: key(x) <= key(y)
    ensures SortedBy([x] + t, key)
  {
    var r := [x] + t;
    forall i, j | 0 <= i < j < |r| ensures key(r[i]) <= key(r[j]) {
      if i == 0 {
        assert r[j] == t[j - 1];
      } else {
        assert r[i] == t[i - 1] && r[j] == t[j - 1];
      }
    }
  }

  /** Inserts `x` in front of the first element whose key is not smaller. */
  function Insert<T>(x: T, s: seq<T>, key: T -> nat): seq<T>
  {
    if s == [] then [x]
    else if key(x) <= key(s[0]) then [x] + s
    else [s[0]] + Insert(x, s[1..], key)
  }

  lemma {:induction false} InsertSorted<T>(x: T, s: seq<T>, key: T -> nat)
    requires SortedBy(s, key)
    ensures SortedBy(Insert(x, s, key), key)
    ensures multiset(Insert(x, s, key)) == multiset(s) + multiset{x}
  {
    if s == [] {
    } else if key(x) <= key(s[0]) {
      SortedCons(x, s, key);
    } else {
      assert s == [s[0]] + s[1..];
      var rest := Insert(x, s[1..], key);
      InsertSorted(x, s[1..], key);
      forall y | y in rest ensures key(s[0]) <= key(y) {
        assert y in multiset(rest);
        if y != x {
          assert y in multiset(s[1..]);
          var j :| 0 <= j < |s[1..]| && s[1..][j] == y;
          assert s[j + 1] == y;
        }
      }
      SortedCons(s[0], rest, key);
    }
  }

  lemma WithKeyCons<T>(y: T, t: seq<T>, key: T -> nat, k: nat)
    ensures WithKey([y] + t, key, k) == (if key(y) == k then [y] else []) + WithKey(t, key, k)
  {
    assert ([y] + t)[1..] == t;
  }

  lemma {:induction false} InsertWithKey<T>(x: T, s: seq<T>, key: T -> nat, k: nat)
    ensures WithKey(Insert(x, s, key), key, k) == (if key(x) == k then [x] else []) + WithKey(s, key, k)
  {
    if s == [] {
      WithKeyCons(x, [], key, k);
    } else if key(x) <= key(s[0]) {
      WithKeyCons(x, s, key, k);
    } else {
      var rest := Insert(x, s[1..], key);
      InsertWithKey(x, s[1..], key, k);
      WithKeyCons(s[0], rest, key, k);
      WithKeyCons(s[0], s[1..], key, k);
      assert s == [s[0]] + s[1..];
      if key(x) == k {
        // s[0] precedes x, so its key is smaller and it is not collected
        assert WithKey(Insert(x, s, key), key, k) == [x] + WithKey(s[1..], key, k);
      } else {
        assert WithKey(rest, key, k) == WithKey(s[1..], key, k);
      }
    }
  }

  /** Stable insertion sort by `key`: Python's `sorted(s, key=key)`. */
  function SortByKey<T(==)>(s: seq<T>, key: T -> nat): (r: seq<T>)
    ensures SortedBy(r, key)
    ensures multiset(r) == multiset(s)
    ensures forall k :: WithKey(r, key, k) == WithKey(s, key, k)
  {
    if s == [] then []
    else
      assert s == [s[0]] + s[1..];
      var rest := SortByKey(s[1..], key);
      InsertSorted(s[0], rest, key);
      assert forall k :: WithKey(Insert(s[0], rest, key), key, k) == WithKey(s, key, k) by {
        forall k ensures WithKey(Insert(s[0], rest, key), key, k) == WithKey(s, key, k) {
          InsertWithKey(s[0], rest, key, k);
        }
      }
      Insert(s[0], rest, key)
  }
}
