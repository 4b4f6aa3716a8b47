/** Python's stable sort by a string key (`list.sort(key=...)`, `sorted`), as
    insertion sort: a pure version over sequences and an in-place version over
    arrays that is proved to compute the same thing. */
module Sorting {
  import opened Strings

  /** No element is followed by one whose key is smaller. */
  ghost predicate SortedByKey<T>(s: seq<T>, key: T -> string) {
    forall i, j :: 0 <= i < j < |s| ==> !Less(key(s[j]), key(s[i]))
  }

  /** The elements of `s` whose key is `k`, in their order in `s`. */
  function WithKey<T>(s: seq<T>, key: T -> string, k: string): seq<T> {
    if s == [] then []
    else WithKey(s[..|s| - 1], key, k) + (if key(s[|s| - 1]) == k then [s[|s| - 1]] else [])
  }

  /** Inserts `x` after the last element of `s` whose key is not greater than its own. */
  function InsertByKey<T>(s: seq<T>, x: T, key: T -> string): seq<T>
    decreases |s|
  {
    if s == [] || !Less(key(x), key(s[|s| - 1])) then s + [x]
    else InsertByKey(s[..|s| - 1], x, key) + [s[|s| - 1]]
  }

  function SortByKey<T>(s: seq<T>, key: T -> string): seq<T> {
    if s == [] then []
    else InsertByKey(SortByKey(s[..|s| - 1], key), s[|s| - 1], key)
  }

  lemma {:induction false} InsertPermutes<T>(s: seq<T>, x: T, key: T -> string)
    ensures multiset(InsertByKey(s, x, key)) == multiset(s) + multiset{x}
    decreases |s|
  {
    if s != [] && Less(key(x), key(s[|s| - 1])) {
      var init, last := s[..|s| - 1], s[|s| - 1];
      InsertPermutes(init, x, key);
      assert s == init + [last];
      calc {
        multiset(InsertByKey(s, x, key));
        multiset(InsertByKey(init, x, key) + [last]);
        multiset(InsertByKey(init, x, key)) + multiset{last};
        multiset(init) + multiset{x} + multiset{last};
        multiset(init + [last]) + multiset{x};
      }
    }
  }

  /** Sorting only reorders: the result is a permutation of the input. */
  lemma {:induction false} SortByKeyPermutes<T>(s: seq<T>, key: T -> string)
    ensures multiset(SortByKey(s, key)) == multiset(s)
    ensures |SortByKey(s, key)| == |s|
  {
    if s != [] {
      SortByKeyPermutes(s[..|s| - 1], key);
      InsertPermutes(SortByKey(s[..|s| - 1], key), s[|s| - 1], key);
      assert s == s[..|s| - 1] + [s[|s| - 1]];
      assert |SortByKey(s, key)| == |multiset(SortByKey(s, key))|;
    }
  }

  lemma {:induction false} InsertKeepsSorted<T>(s: seq<T>, x: T, key: T -> string)
    requires SortedByKey(s, key)
    ensures SortedByKey(InsertByKey(s, x, key), key)
    decreases |s|
  {
    if s == [] || !Less(key(x), key(s[|s| - 1])) {
      forall i | 0 <= i < |s|
        ensures !Less(key(x), key(s[i]))
      {
        if i < |s| - 1 {
          AtLeastTransitive(key(x), key(s[|s| - 1]), key(s[i]));
        }
      }
    } else {
      var init, last := s[..|s| - 1], s[|s| - 1];
      InsertKeepsSorted(init, x, key);
      var t := InsertByKey(init, x, key);
      InsertPermutes(init, x, key);
      forall e | e in t
        ensures !Less(key(last), key(e))
      {
        assert e in multiset(t);
        if e == x {
          LessAsymmetric(key(x), key(last));
        } else {
          assert e in init;
        }
      }
    }
  }

  lemma {:induction false} SortByKeySorted<T>(s: seq<T>, key: T -> string)
    ensures SortedByKey(SortByKey(s, key), key)
  {
    if s != [] {
      SortByKeySorted(s[..|s| - 1], key);
      InsertKeepsSorted(SortByKey(s[..|s| - 1], key), s[|s| - 1], key);
    }
  }

  lemma {:induction false} InsertWithKey<T>(s: seq<T>, x: T, key: T -> string, k: string)
    ensures WithKey(InsertByKey(s, x, key), key, k)
         == WithKey(s, key, k) + (if key(x) == k then [x] else [])
    decreases |s|
  {
    if s == [] || !Less(key(x), key(s[|s| - 1])) {
      assert (s + [x])[..|s|] == s;
    } else {
      var init, last := s[..|s| - 1], s[|s| - 1];
      InsertWithKey(init, x, key, k);
      var t := InsertByKey(init, x, key);
      assert (t + [last])[..|t|] == t;
      if key(x) == k && key(last) == k {
        LessIrreflexive(k);
      }
    }
  }

  /** The sort is stable: the elements sharing a key keep their relative order. */
  lemma {:induction false} SortByKeyStable<T>(s: seq<T>, key: T -> string, k: string)
    ensures WithKey(SortByKey(s, key), key, k) == WithKey(s, key, k)
  {
    if s != [] {
      SortByKeyStable(s[..|s| - 1], key, k);
      InsertWithKey(SortByKey(s[..|s| - 1], key), s[|s| - 1], key, k);
    }
  }

  /** Where insertion puts `x`: right after the last element whose key is not
      greater than its own, when all elements from `j` on have greater keys. */
  lemma {:induction false} InsertAt<T>(p: seq<T>, j: nat, x: T, key: T -> string)
    requires j <= |p| && (j == 0 || !Less(key(x), key(p[j - 1])))
    requires forall k :: j <= k < |p| ==> Less(key(x), key(p[k]))
    ensures InsertByKey(p, x, key) == p[..j] + [x] + p[j..]
    decreases |p|
  {
    if j < |p| {
      var init := p[..|p| - 1];
      assert init[..j] == p[..j];
      InsertAt(init, j, x, key);
      assert p[j..] == init[j..] + [p[|p| - 1]];
    }
  }

  /** Shifts right by one the elements just before `a[i]` whose key is greater
      than that of `x`, and returns the position this frees. */
  method ShiftGreater<T>(a: array<T>, i: nat, x: T, key: T -> string) returns (j: nat)
    requires i < a.Length
    modifies a
    ensures j <= i
    ensures forall k :: 0 <= k < j ==> a[k] == old(a[k])
    ensures forall k :: j < k <= i ==> a[k] == old(a[k - 1])
    ensures forall k :: i < k < a.Length ==> a[k] == old(a[k])
    ensures forall k :: j <= k < i ==> Less(key(x), key(old(a[k])))
    ensures j == 0 || !Less(key(x), key(a[j - 1]))
  {
    j := i;
    while j > 0 && Less(key(x), key(a[j - 1]))
      invariant j <= i
      invariant forall k :: 0 <= k < j ==> a[k] == old(a[k])
      invariant forall k :: j < k <= i ==> a[k] == old(a[k - 1])
      invariant forall k :: i < k < a.Length ==> a[k] == old(a[k])
      invariant forall k :: j <= k < i ==> Less(key(x), key(old(a[k])))
    {
      a[j] := a[j - 1];
      j := j - 1;
    }
  }

  /** Moves `a[i]` left past the elements of `a[..i]` whose key is greater. */
  method InsertInPlace<T>(a: array<T>, i: nat, key: T -> string)
    requires i < a.Length
    modifies a
    ensures a[..i + 1] == InsertByKey(old(a[..i]), old(a[i]), key)
    ensures a[i + 1..] == old(a[i + 1..])
  {
    var x := a[i];
    ghost var prefix := a[..i];
    var j := ShiftGreater(a, i, x, key);
    a[j] := x;
    InsertAt(prefix, j, x, key);
    ghost var r := prefix[..j] + [x] + prefix[j..];
    assert |r| == i + 1;
    assert forall k :: 0 <= k <= i ==> a[k] == r[k];
    assert a[..i + 1] == r;
    assert a[i + 1..] == old(a[i + 1..]) by {
      assert forall k :: i < k < a.Length ==> a[k] == old(a[k]);
    }
  }

  /** In-place stable insertion sort of `a` by `key`. */
  method SortInPlace<T>(a: array<T>, key: T -> string)
    modifies a
    ensures a[..] == SortByKey(old(a[..]), key)
  {
    ghost var input := a[..];
    var i := 0;
    while i < a.Length
      invariant 0 <= i <= a.Length
      invariant a[..i] == SortByKey(input[..i], key)
      invariant a[i..] == input[i..]
    {
      assert input[..i + 1][..i] == input[..i];
      InsertInPlace(a, i, key);
      i := i + 1;
    }
    assert a[..] == a[..a.Length] && input == input[..a.Length];
  }
}
