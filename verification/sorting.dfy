/**
 * Python's `list.sort(key=...)` and the "last element satisfying a bound"
 * selections that the schedule engine performs on sorted lists.
 *
 * `list.sort` is stable; `SortBy` is a stable insertion sort on an integer
 * key, `SortInPlace` sorts an array in place and is proved to agree with it.
 * A sort with `reverse=True` keeps equal elements in input order as well, so
 * it is `SortBy` on the negated key.
 */
module Sorting {
  import opened Wrappers

  /** `s` is in ascending order of `key`. */
  ghost predicate SortedBy<T>(s: seq<T>, key: T -> int) {
    forall i, j :: 0 <= i < j < |s| ==> key(s[i]) <= key(s[j])
  }

  /** The elements of `s` whose key is `k`, in the order they have in `s`. */
  function WithKey<T, K(==)>(s: seq<T>, key: T -> K, k: K): (r: seq<T>)
    ensures |r| <= |s|
    ensures forall i :: 0 <= i < |r| ==> key(r[i]) == k
  {
    if s == [] then []
    else
      var init := s[..|s| - 1];
      assert s == init + [s[|s| - 1]];
      WithKey(init, key, k) + (if key(s[|s| - 1]) == k then [s[|s| - 1]] else [])
  }

  lemma {:induction false} WithKeyAppend<T, K>(a: seq<T>, b: seq<T>, key: T -> K, k: K)
    ensures WithKey(a + b, key, k) == WithKey(a, key, k) + WithKey(b, key, k)
    decreases |b|
  {
    if b == [] {
      assert a + b == a;
    } else {
      var b' := b[..|b| - 1];
      assert (a + b)[..|a + b| - 1] == a + b';
      WithKeyAppend(a, b', key, k);
    }
  }

  /** Every element of `s` with key `k` is kept by `WithKey`. */
  lemma {:induction false} WithKeyKeeps<T, K>(s: seq<T>, key: T -> K, k: K, i: nat)
    requires i < |s| && key(s[i]) == k
    ensures s[i] in WithKey(s, key, k)
    decreases |s|
  {
    if i < |s| - 1 {
      WithKeyKeeps(s[..|s| - 1], key, k, i);
    }
  }

  /** `WithKey` keeps only elements of `s`. */
  lemma {:induction false} WithKeyFrom<T, K>(s: seq<T>, key: T -> K, k: K)
    ensures multiset(WithKey(s, key, k)) <= multiset(s)
    decreases |s|
  {
    if s != [] {
      WithKeyFrom(s[..|s| - 1], key, k);
      assert s == s[..|s| - 1] + [s[|s| - 1]];
    }
  }

  /** The first element of `WithKey(s, key, k)` is the first element of `s` with key `k`. */
  lemma {:induction false} WithKeyHead<T, K>(s: seq<T>, key: T -> K, k: K) returns (i: nat)
    requires WithKey(s, key, k) != []
    ensures i < |s| && s[i] == WithKey(s, key, k)[0] && key(s[i]) == k
    ensures forall j :: 0 <= j < i ==> key(s[j]) != k
    decreases |s|
  {
    var init := s[..|s| - 1];
    if WithKey(init, key, k) == [] {
      i := |s| - 1;
      forall j | 0 <= j < i ensures key(s[j]) != k {
        if key(s[j]) == k {
          WithKeyKeeps(init, key, k, j);
        }
      }
    } else {
      i := WithKeyHead(init, key, k);
    }
  }

  /**
   * Inserts `x` into `t` after every element whose key is at most `key(x)`,
   * scanning from the back as the inner loop of insertion sort does.
   */
  function Insert<T>(t: seq<T>, x: T, key: T -> int): (r: seq<T>)
    ensures |r| == |t| + 1
  {
    if t == [] || key(t[|t| - 1]) <= key(x) then t + [x]
    else Insert(t[..|t| - 1], x, key) + [t[|t| - 1]]
  }

  lemma {:induction false} InsertPermutes<T>(t: seq<T>, x: T, key: T -> int)
    ensures multiset(Insert(t, x, key)) == multiset(t) + multiset{x}
    decreases |t|
  {
    if t != [] && key(t[|t| - 1]) > key(x) {
      var init := t[..|t| - 1];
      InsertPermutes(init, x, key);
      assert t == init + [t[|t| - 1]];
    }
  }

  lemma {:induction false} InsertSorted<T>(t: seq<T>, x: T, key: T -> int)
    requires SortedBy(t, key)
    ensures SortedBy(Insert(t, x, key), key)
    decreases |t|
  {
    if t != [] && key(t[|t| - 1]) > key(x) {
      var init, last := t[..|t| - 1], t[|t| - 1];
      InsertSorted(init, x, key);
      InsertPermutes(init, x, key);
      var r := Insert(init, x, key);
      forall i | 0 <= i < |r| ensures key(r[i]) <= key(last) {
        assert r[i] in multiset(r);
        if r[i] != x {
          assert r[i] in multiset(init);
        }
      }
    }
  }

  /** Inserting `x` appends it to the run of elements that share its key. */
  lemma {:induction false} InsertStable<T>(t: seq<T>, x: T, key: T -> int, k: int)
    ensures WithKey(Insert(t, x, key), key, k)
         == WithKey(t, key, k) + (if key(x) == k then [x] else [])
    decreases |t|
  {
    var xs := if key(x) == k then [x] else [];
    if t == [] || key(t[|t| - 1]) <= key(x) {
      WithKeySingleton(x, key, k);
      WithKeyAppend(t, [x], key, k);
    } else {
      var init, last := t[..|t| - 1], t[|t| - 1];
      var ls := WithKey([last], key, k);
      assert xs == [] || ls == [] by {
        WithKeySingleton(last, key, k);
      }
      assert WithKey(Insert(t, x, key), key, k) == WithKey(Insert(init, x, key), key, k) + ls by {
        WithKeyAppend(Insert(init, x, key), [last], key, k);
      }
      assert WithKey(t, key, k) == WithKey(init, key, k) + ls by {
        WithKeySingleton(last, key, k);
      }
      InsertStable(init, x, key, k);
    }
  }

  lemma WithKeySingleton<T>(x: T, key: T -> int, k: int)
    ensures WithKey([x], key, k) == if key(x) == k then [x] else []
  {
    assert [x][..0] == [];
  }

  /** Stable insertion sort on `key`, the model of `list.sort(key=key)`. */
  function SortBy<T>(s: seq<T>, key: T -> int): (r: seq<T>)
    ensures |r| == |s|
  {
    if s == [] then []
    else Insert(SortBy(s[..|s| - 1], key), s[|s| - 1], key)
  }

  /** The sort's output is in ascending key order ... */
  lemma {:induction false} SortBySorted<T>(s: seq<T>, key: T -> int)
    ensures SortedBy(SortBy(s, key), key)
    decreases |s|
  {
    if s != [] {
      SortBySorted(s[..|s| - 1], key);
      InsertSorted(SortBy(s[..|s| - 1], key), s[|s| - 1], key);
    }
  }

  /** ... and a permutation of its input. */
  lemma {:induction false} SortByPermutes<T>(s: seq<T>, key: T -> int)
    ensures multiset(SortBy(s, key)) == multiset(s)
    decreases |s|
  {
    if s != [] {
      var init := s[..|s| - 1];
      SortByPermutes(init, key);
      InsertPermutes(SortBy(init, key), s[|s| - 1], key);
      assert s == init + [s[|s| - 1]];
    }
  }

  /**
   * Stability: for every key, the elements with that key come out of the
   * sort in the order they went in.
   */
  lemma {:induction false} SortByStable<T>(s: seq<T>, key: T -> int, k: int)
    ensures WithKey(SortBy(s, key), key, k) == WithKey(s, key, k)
    decreases |s|
  {
    if s != [] {
      var init, last := s[..|s| - 1], s[|s| - 1];
      SortByStable(init, key, k);
      InsertStable(SortBy(init, key), last, key, k);
    }
  }

  /**
   * The head of a sorted, non-empty list is the first element of the input
   * that has the least key: every earlier input element has a larger key.
   */
  lemma SortByHead<T>(s: seq<T>, key: T -> int) returns (i: nat)
    requires s != []
    ensures i < |s| && SortBy(s, key)[0] == s[i]
    ensures forall j :: 0 <= j < |s| ==> key(s[i]) <= key(s[j])
    ensures forall j :: 0 <= j < i ==> key(s[i]) < key(s[j])
  {
    var r := SortBy(s, key);
    SortBySorted(s, key);
    SortByPermutes(s, key);
    var k := key(r[0]);
    SortByStable(s, key, k);
    WithKeyHeadIsHead(r, key, k);
    i := WithKeyHead(s, key, k);
    forall j | 0 <= j < |s| ensures k <= key(s[j]) {
      assert s[j] in multiset(r);
      var m :| 0 <= m < |r| && r[m] == s[j];
    }
  }

  /** The sort keeps exactly the input's elements. */
  lemma SortByMembers<T>(s: seq<T>, key: T -> int)
    ensures forall x :: x in SortBy(s, key) <==> x in s
  {
    SortByPermutes(s, key);
    assert forall x :: x in s <==> x in multiset(s);
    assert forall x :: x in SortBy(s, key) <==> x in multiset(SortBy(s, key));
  }

  /** Where input element `i` lands in the sorted output. */
  lemma SortByIndexOf<T>(s: seq<T>, key: T -> int, i: nat) returns (m: nat)
    requires i < |s|
    ensures m < |SortBy(s, key)| && SortBy(s, key)[m] == s[i]
  {
    SortByPermutes(s, key);
    assert s[i] in multiset(SortBy(s, key));
    m :| 0 <= m < |SortBy(s, key)| && SortBy(s, key)[m] == s[i];
  }

  /** Sorting a list that is already in key order leaves it as it is. */
  lemma {:induction false} SortByOfSorted<T>(s: seq<T>, key: T -> int)
    requires SortedBy(s, key)
    ensures SortBy(s, key) == s
    decreases |s|
  {
    if s != [] {
      var init, last := s[..|s| - 1], s[|s| - 1];
      assert SortedBy(init, key) by {
        assert forall i :: 0 <= i < |init| ==> init[i] == s[i];
      }
      SortByOfSorted(init, key);
      assert init == [] || key(init[|init| - 1]) <= key(last);
      assert Insert(init, last, key) == init + [last];
      assert s == init + [last];
    }
  }

  /**
   * The last element with key `k` is the one after which no element has
   * key `k`.
   */
  lemma {:induction false} WithKeyLast<T, K>(s: seq<T>, key: T -> K, k: K, i: nat)
    requires i < |s| && key(s[i]) == k
    requires forall j :: i < j < |s| ==> key(s[j]) != k
    ensures WithKey(s, key, k) != []
    ensures WithKey(s, key, k)[|WithKey(s, key, k)| - 1] == s[i]
    decreases |s|
  {
    var init := s[..|s| - 1];
    if i < |s| - 1 {
      WithKeyLast(init, key, k, i);
    }
  }

  /** In a list whose head has key `k`, the head is the first element with key `k`. */
  lemma {:induction false} WithKeyHeadIsHead<T>(r: seq<T>, key: T -> int, k: int)
    requires r != [] && key(r[0]) == k
    ensures WithKey(r, key, k) != [] && WithKey(r, key, k)[0] == r[0]
  {
    assert r == [r[0]] + r[1..];
    WithKeyAppend([r[0]], r[1..], key, k);
    assert [r[0]] == [] + [r[0]];
  }

  /**
   * Index of the last of the first `n` elements of `s` whose key is at most
   * `x`: the model of `[e for e in s[:n] if key(e) <= x][-1]`, `None` where
   * that list is empty. `LastAtMostSpec` states what the index is.
   */
  function LastAtMost<T>(s: seq<T>, key: T -> int, x: int, n: nat): (r: Option<nat>)
    requires n <= |s|
    ensures r.Some? ==> r.value < n && key(s[r.value]) <= x
  {
    if n == 0 then None
    else if key(s[n - 1]) <= x then Some(n - 1)
    else LastAtMost(s, key, x, n - 1)
  }

  /**
   * `LastAtMost` finds an element exactly when one of the first `n` keys is
   * at most `x`, and every element after the one it finds has a larger key.
   */
  lemma {:induction false} LastAtMostSpec<T>(s: seq<T>, key: T -> int, x: int, n: nat)
    requires n <= |s|
    ensures LastAtMost(s, key, x, n).Some? ==>
              forall j :: LastAtMost(s, key, x, n).value < j < n ==> key(s[j]) > x
    ensures LastAtMost(s, key, x, n).None? <==> forall j :: 0 <= j < n ==> key(s[j]) > x
  {
    if n > 0 && key(s[n - 1]) > x {
      LastAtMostSpec(s, key, x, n - 1);
    }
  }

  /** `LastAtMost` is pinned down by its characterisation. */
  lemma LastAtMostAt<T>(s: seq<T>, key: T -> int, x: int, n: nat, k: nat)
    requires k < n <= |s| && key(s[k]) <= x
    requires forall j :: k < j < n ==> key(s[j]) > x
    ensures LastAtMost(s, key, x, n) == Some(k)
  {
    LastAtMostSpec(s, key, x, n);
  }

  /** A shorter prefix that still holds the selected element selects the same one. */
  lemma LastAtMostPrefix<T>(s: seq<T>, key: T -> int, x: int, n: nat, m: nat)
    requires n <= m <= |s|
    requires LastAtMost(s, key, x, m).Some? ==> LastAtMost(s, key, x, m).value < n
    ensures LastAtMost(s, key, x, n) == LastAtMost(s, key, x, m)
  {
    LastAtMostSpec(s, key, x, m);
    LastAtMostSpec(s, key, x, n);
    match LastAtMost(s, key, x, m)
    case None =>
    case Some(k) =>
      LastAtMostAt(s, key, x, n, k);
  }

  lemma SortByStep<T>(s: seq<T>, i: nat, key: T -> int)
    requires i < |s|
    ensures SortBy(s[..i + 1], key) == Insert(SortBy(s[..i], key), s[i], key)
  {
    assert s[..i + 1][..i] == s[..i];
  }

  /** One step of the inner loop: moving past a larger element. */
  lemma InsertShift<T>(t: seq<T>, j: nat, x: T, key: T -> int)
    requires 0 < j <= |t| && key(t[j - 1]) > key(x)
    ensures Insert(t[..j], x, key) + t[j..] == Insert(t[..j - 1], x, key) + t[j - 1..]
  {
    assert t[..j][..j - 1] == t[..j - 1];
    assert t[j - 1..] == [t[j - 1]] + t[j..];
  }

  /** The inner loop stops where `x` belongs. */
  lemma InsertStop<T>(t: seq<T>, j: nat, x: T, key: T -> int)
    requires j <= |t| && (j == 0 || key(t[j - 1]) <= key(x))
    ensures Insert(t[..j], x, key) == t[..j] + [x]
  {
  }

  /**
   * One pass of insertion sort: moves `a[i]` left past every larger element
   * of the sorted prefix `a[..i]`.
   */
  method InsertAt<T>(a: array<T>, i: nat, key: T -> int)
    requires i < a.Length
    modifies a
    ensures a[..i + 1] == Insert(old(a[..i]), old(a[i]), key)
    ensures a[i + 1..] == old(a[i + 1..])
  {
    ghost var t := a[..i];
    var x := a[i];
    var j := i;
    assert t[..j] == t && t[j..] == [];
    while j > 0 && key(a[j - 1]) > key(x)
      invariant 0 <= j <= i
      invariant forall m :: 0 <= m < j ==> a[m] == t[m]
      invariant forall m :: j < m <= i ==> a[m] == t[m - 1]
      invariant forall m :: i < m < a.Length ==> a[m] == old(a[m])
      invariant Insert(t, x, key) == Insert(t[..j], x, key) + t[j..]
    {
      InsertShift(t, j, x, key);
      a[j] := a[j - 1];
      j := j - 1;
    }
    a[j] := x;
    InsertStop(t, j, x, key);
    assert a[..i + 1] == t[..j] + [x] + t[j..];
  }

  /**
   * `a.sort(key=key)`: insertion sort in place, proved to leave in `a`
   * exactly the stable sort of what it held.
   */
  method SortInPlace<T>(a: array<T>, key: T -> int)
    modifies a
    ensures a[..] == SortBy(old(a[..]), key)
  {
    ghost var input := a[..];
    var i := 0;
    while i < a.Length
      invariant 0 <= i <= a.Length
      invariant a[..i] == SortBy(input[..i], key)
      invariant a[i..] == input[i..]
    {
      InsertAt(a, i, key);
      SortByStep(input, i, key);
      assert a[i + 1..] == input[i + 1..];
      i := i + 1;
    }
    assert input[..a.Length] == input;
  }
}
