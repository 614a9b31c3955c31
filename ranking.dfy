/** `array.sort((a, b) => key(b) - key(a)).slice(0, n)`: a stable sort by a
    numeric key, largest first, then the first `n` items. `Array.prototype.sort`
    is stable (ECMA-262, 10th edition, section 22.1.3.27), so items with equal
    keys keep their original relative order. */
module Ranking {

  /** Non-increasing by `key`. */
  ghost predicate SortedDesc<T>(s: seq<T>, key: T -> int) {
    forall i, j :: 0 <= i < j < |s| ==> key(s[i]) >= key(s[j])
  }

  /** The items of `s` whose key is `k`, in their order in `s`. */
  function WithKey<T>(s: seq<T>, key: T -> int, k: int): seq<T> {
    if s == [] then []
    else (if key(s[0]) == k then [s[0]] else []) + WithKey(s[1..], key, k)
  }

  /** Puts `x` in front of the first item whose key is not larger than its
      own: after every item that ranks strictly higher, before the rest. */
  function Insert<T>(x: T, s: seq<T>, key: T -> int): (r: seq<T>)
    ensures |r| == |s| + 1
  {
    if s == [] then [x]
    else if key(s[0]) <= key(x) then [x] + s
    else [s[0]] + Insert(x, s[1..], key)
  }

  lemma {:induction false} InsertPermutes<T>(x: T, s: seq<T>, key: T -> int)
    ensures multiset(Insert(x, s, key)) == multiset(s) + multiset{x}
  {
    if s != [] && key(s[0]) > key(x) {
      InsertPermutes(x, s[1..], key);
      assert s == [s[0]] + s[1..];
    }
  }

  /** The stable descending sort. */
  function SortDesc<T>(s: seq<T>, key: T -> int): (r: seq<T>)
    ensures |r| == |s|
  {
    if s == [] then [] else Insert(s[0], SortDesc(s[1..], key), key)
  }

  /** The sort is a permutation of its input. */
  lemma {:induction false} SortDescPermutes<T>(s: seq<T>, key: T -> int)
    ensures multiset(SortDesc(s, key)) == multiset(s)
  {
    if s != [] {
      SortDescPermutes(s[1..], key);
      InsertPermutes(s[0], SortDesc(s[1..], key), key);
      assert s == [s[0]] + s[1..];
    }
  }

  /** Every item of `Insert(x, s)` is `x` or an item of `s`. */
  lemma {:induction false} InsertMembers<T>(x: T, s: seq<T>, key: T -> int)
    ensures forall y :: y in Insert(x, s, key) ==> y == x || y in s
  {
    if s != [] && key(s[0]) > key(x) {
      InsertMembers(x, s[1..], key);
      assert forall y :: y in s[1..] ==> y in s;
    }
  }

  lemma {:induction false} InsertSorted<T>(x: T, s: seq<T>, key: T -> int)
    requires SortedDesc(s, key)
    ensures SortedDesc(Insert(x, s, key), key)
  {
    if s == [] {
    } else if key(s[0]) <= key(x) {
      forall y | y in s
        ensures key(x) >= key(y)
      {
        var k :| 0 <= k < |s| && s[k] == y;
      }
      ConsSorted(x, s, key);
    } else {
      var rest := Insert(x, s[1..], key);
      assert SortedDesc(s[1..], key);
      InsertSorted(x, s[1..], key);
      InsertMembers(x, s[1..], key);
      forall y | y in rest
        ensures key(s[0]) >= key(y)
      {
        if y != x {
          var k :| 0 <= k < |s[1..]| && s[1..][k] == y;
          assert s[k + 1] == y;
        }
      }
      ConsSorted(s[0], rest, key);
    }
  }

  /** An item ranked at least as high as everything in a sorted sequence
      can go in front of it. */
  lemma ConsSorted<T>(h: T, s: seq<T>, key: T -> int)
    requires SortedDesc(s, key)
    requires forall y :: y in s ==> key(h) >= key(y)
    ensures SortedDesc([h] + s, key)
  {
    var r := [h] + s;
    forall i, j | 0 <= i < j < |r|
      ensures key(r[i]) >= key(r[j])
    {
      assert r[j] == s[j - 1];
      if i > 0 {
        assert r[i] == s[i - 1];
      } else {
        assert s[j - 1] in s;
      }
    }
  }

  lemma WithKeyCons<T>(a: T, s: seq<T>, key: T -> int, k: int)
    ensures WithKey([a] + s, key, k) == (if key(a) == k then [a] else []) + WithKey(s, key, k)
  {
    assert ([a] + s)[1..] == s;
  }

  lemma {:induction false} InsertWithKey<T>(x: T, s: seq<T>, key: T -> int, k: int)
    ensures WithKey(Insert(x, s, key), key, k) ==
      (if key(x) == k then [x] else []) + WithKey(s, key, k)
  {
    if s == [] {
      WithKeyCons(x, s, key, k);
    } else if key(s[0]) <= key(x) {
      WithKeyCons(x, s, key, k);
    } else {
      var rest := Insert(x, s[1..], key);
      assert Insert(x, s, key) == [s[0]] + rest;
      InsertWithKey(x, s[1..], key, k);
      WithKeyCons(s[0], rest, key, k);
      WithKeyCons(s[0], s[1..], key, k);
      assert [s[0]] + s[1..] == s;
      // `s[0]` ranks strictly above `x`, so at most one of them has key `k`.
      if key(x) == k {
        assert WithKey(Insert(x, s, key), key, k) == [x] + WithKey(s[1..], key, k);
      } else {
        assert WithKey(Insert(x, s, key), key, k) == WithKey(s, key, k);
      }
    }
  }

  /** The sort orders by key, largest first. */
  lemma {:induction false} SortDescSorted<T>(s: seq<T>, key: T -> int)
    ensures SortedDesc(SortDesc(s, key), key)
  {
    if s != [] {
      SortDescSorted(s[1..], key);
      InsertSorted(s[0], SortDesc(s[1..], key), key);
    }
  }

  /** The sort is stable: the items of any one key come out in the order
      they went in. */
  lemma {:induction false} SortDescStable<T>(s: seq<T>, key: T -> int, k: int)
    ensures WithKey(SortDesc(s, key), key, k) == WithKey(s, key, k)
  {
    if s != [] {
      SortDescStable(s[1..], key, k);
      InsertWithKey(s[0], SortDesc(s[1..], key), key, k);
    }
  }

  /** The `n` highest-ranked items. */
  function TopN<T>(s: seq<T>, key: T -> int, n: nat): (r: seq<T>)
    ensures |r| == if n < |s| then n else |s|
  {
    SortDesc(s, key)[..if n < |s| then n else |s|]
  }

  lemma {:induction false} WithKeyPrefix<T>(s: seq<T>, key: T -> int, k: int, m: nat)
    requires m <= |s|
    ensures |WithKey(s[..m], key, k)| <= |WithKey(s, key, k)|
    ensures WithKey(s[..m], key, k) == WithKey(s, key, k)[..|WithKey(s[..m], key, k)|]
  {
    if m > 0 {
      WithKeyPrefix(s[1..], key, k, m - 1);
      assert s[..m][1..] == s[1..][..m - 1];
    }
  }

  /** Top-N keeps at most `n` items, all of them taken from the input. */
  lemma TopNDrawn<T>(s: seq<T>, key: T -> int, n: nat)
    ensures |TopN(s, key, n)| <= n
    ensures multiset(TopN(s, key, n)) <= multiset(s)
  {
    var sorted := SortDesc(s, key);
    var m := (if n < |s| then n else |s|);
    SortDescPermutes(s, key);
    assert sorted == sorted[..m] + sorted[m..];
  }

  /** Top-N lists its items from the largest key down. */
  lemma TopNSorted<T>(s: seq<T>, key: T -> int, n: nat)
    ensures SortedDesc(TopN(s, key, n), key)
  {
    SortDescSorted(s, key);
  }

  /** Among items of equal key, top-N keeps the first ones in input order. */
  lemma TopNStable<T>(s: seq<T>, key: T -> int, n: nat, k: int)
    ensures |WithKey(TopN(s, key, n), key, k)| <= |WithKey(s, key, k)|
    ensures WithKey(TopN(s, key, n), key, k) == WithKey(s, key, k)[..|WithKey(TopN(s, key, n), key, k)|]
  {
    SortDescStable(s, key, k);
    WithKeyPrefix(SortDesc(s, key), key, k, (if n < |s| then n else |s|));
  }

  /** Every item top-N leaves out ranks no higher than any item it keeps. */
  lemma TopNLeftOut<T>(s: seq<T>, key: T -> int, n: nat, x: T)
    requires x in multiset(s) - multiset(TopN(s, key, n))
    ensures forall i :: 0 <= i < |TopN(s, key, n)| ==> key(x) <= key(TopN(s, key, n)[i])
  {
    var sorted := SortDesc(s, key);
    var m := (if n < |s| then n else |s|);
    SortDescPermutes(s, key);
    var j := AfterPrefix(sorted, m, x);
    SortDescSorted(s, key);
    SortedBelowPrefix(sorted, key, m, j);
  }

  /** An item that occurs more often in `s` than in its first `m` items
      occurs at some position from `m` on. */
  lemma AfterPrefix<T>(s: seq<T>, m: nat, x: T) returns (j: nat)
    requires m <= |s| && x in multiset(s) - multiset(s[..m])
    ensures m <= j < |s| && s[j] == x
  {
    assert s == s[..m] + s[m..];
    assert x in multiset(s[m..]);
    var k :| 0 <= k < |s[m..]| && s[m..][k] == x;
    j := m + k;
  }

  /** In a sequence sorted by decreasing key, an item at position `j` ranks
      no higher than any of the first `m <= j` items. */
  lemma SortedBelowPrefix<T>(s: seq<T>, key: T -> int, m: nat, j: nat)
    requires SortedDesc(s, key) && m <= j < |s|
    ensures forall i :: 0 <= i < |s[..m]| ==> key(s[j]) <= key(s[..m][i])
  {
    forall i | 0 <= i < |s[..m]|
      ensures key(s[j]) <= key(s[..m][i])
    {
      assert s[..m][i] == s[i];
    }
  }
}
