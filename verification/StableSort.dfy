/** The sorting contract behind CArrayHelper::sort and order_result.

    Both helpers order records by one field with a PHP library sort, which is stable.  The natural,
    case-insensitive comparison of field values is an abstract total preorder here: `key` maps a
    record to its rank, and two values compare equal exactly when their ranks are equal.
    The sort itself is a plain insertion; `StableSortUnique` shows that being sorted and keeping the
    order of equal records leaves no freedom, so any stable sort gives the same list. */
module StableSort {

  predicate SortedBy<T>(s: seq<T>, key: T -> real) {
    forall i, j :: 0 <= i < j < |s| ==> key(s[i]) <= key(s[j])
  }

  predicate DistinctKeys<T>(s: seq<T>, key: T -> real) {
    forall i, j :: 0 <= i < j < |s| ==> key(s[i]) != key(s[j])
  }

  function Insert<T>(x: T, s: seq<T>, key: T -> real): seq<T> {
    if s == [] || key(x) <= key(s[0]) then [x] + s else [s[0]] + Insert(x, s[1..], key)
  }

  function Sort<T>(s: seq<T>, key: T -> real): seq<T> {
    if s == [] then [] else Insert(s[0], Sort(s[1..], key), key)
  }

  function Take<T>(s: seq<T>, n: nat): seq<T> {
    if n <= |s| then s[..n] else s
  }

  /** array_reverse */
  function Reverse<T>(s: seq<T>): (r: seq<T>)
    ensures |r| == |s|
  {
    seq(|s|, i requires 0 <= i < |s| => s[|s| - 1 - i])
  }

  /** The records of `s` whose rank is `k`, in their order. */
  function WithKey<T>(s: seq<T>, key: T -> real, k: real): seq<T> {
    if s == [] then []
    else (if key(s[0]) == k then [s[0]] else []) + WithKey(s[1..], key, k)
  }

  // ----- Sort meets the contract of a stable sort

  lemma {:induction false} InsertKeepsRecords<T>(x: T, s: seq<T>, key: T -> real)
    ensures multiset(Insert(x, s, key)) == multiset{x} + multiset(s)
  {
    if s != [] && key(x) > key(s[0]) {
      InsertKeepsRecords(x, s[1..], key);
      assert s == [s[0]] + s[1..];
    }
  }

  lemma {:induction false} InsertKeeps<T>(x: T, s: seq<T>, key: T -> real)
    requires SortedBy(s, key)
    ensures multiset(Insert(x, s, key)) == multiset{x} + multiset(s)
    ensures SortedBy(Insert(x, s, key), key)
  {
    InsertKeepsRecords(x, s, key);
    if s != [] && key(x) > key(s[0]) {
      InsertLater(x, s, key);
      InsertKeeps(x, s[1..], key);
      AtLeast(key(s[0]), Insert(x, s[1..], key), [x] + s[1..], key);
      SortedCons(s[0], Insert(x, s[1..], key), key);
    }
  }

  lemma InsertLater<T>(x: T, s: seq<T>, key: T -> real)
    requires s != [] && key(x) > key(s[0])
    ensures Insert(x, s, key) == [s[0]] + Insert(x, s[1..], key)
  {
  }

  lemma SortedCons<T>(x: T, s: seq<T>, key: T -> real)
    requires SortedBy(s, key) && forall i :: 0 <= i < |s| ==> key(x) <= key(s[i])
    ensures SortedBy([x] + s, key)
  {
  }

  lemma AtLeast<T>(k: real, r: seq<T>, s: seq<T>, key: T -> real)
    requires multiset(r) == multiset(s) && forall i :: 0 <= i < |s| ==> k <= key(s[i])
    ensures forall i :: 0 <= i < |r| ==> k <= key(r[i])
  {
    forall i | 0 <= i < |r| ensures k <= key(r[i]) {
      assert r[i] in multiset(r);
      assert r[i] in s;
    }
  }

  lemma {:induction false} SortIsSortedPermutation<T>(s: seq<T>, key: T -> real)
    ensures SortedBy(Sort(s, key), key)
    ensures multiset(Sort(s, key)) == multiset(s)
    ensures |Sort(s, key)| == |s|
  {
    if s != [] {
      SortIsSortedPermutation(s[1..], key);
      InsertKeeps(s[0], Sort(s[1..], key), key);
      assert s == [s[0]] + s[1..];
    }
    assert |multiset(Sort(s, key))| == |multiset(s)|;
  }

  lemma {:induction false} InsertStable<T>(x: T, s: seq<T>, key: T -> real, k: real)
    requires SortedBy(s, key)
    ensures WithKey(Insert(x, s, key), key, k) == WithKey([x] + s, key, k)
  {
    if s == [] || key(x) <= key(s[0]) {
    } else {
      InsertStable(x, s[1..], key, k);
      assert ([x] + s)[1..] == s;
      assert ([x] + s[1..])[1..] == s[1..];
    }
  }

  lemma {:induction false} SortIsStable<T>(s: seq<T>, key: T -> real, k: real)
    ensures WithKey(Sort(s, key), key, k) == WithKey(s, key, k)
  {
    if s != [] {
      SortIsSortedPermutation(s[1..], key);
      InsertStable(s[0], Sort(s[1..], key), key, k);
      SortIsStable(s[1..], key, k);
      assert ([s[0]] + Sort(s[1..], key))[1..] == Sort(s[1..], key);
    }
  }

  // ----- the contract determines the result

  lemma {:induction false} WithKeySome<T>(s: seq<T>, key: T -> real, k: real) returns (i: nat)
    requires WithKey(s, key, k) != []
    ensures i < |s| && key(s[i]) == k
  {
    if key(s[0]) == k { return 0; }
    i := WithKeySome(s[1..], key, k);
    i := i + 1;
  }

  lemma HeadBelow<T>(a: seq<T>, b: seq<T>, key: T -> real)
    requires a != [] && SortedBy(b, key)
    requires WithKey(a, key, key(a[0])) == WithKey(b, key, key(a[0]))
    ensures b != [] && key(b[0]) <= key(a[0])
  {
    var i := WithKeySome(b, key, key(a[0]));
  }

  /** Two sorted lists with the same records, in the same order, at every rank are the same list. */
  lemma {:induction false} StableSortUnique<T>(a: seq<T>, b: seq<T>, key: T -> real)
    requires SortedBy(a, key) && SortedBy(b, key)
    requires forall k :: WithKey(a, key, k) == WithKey(b, key, k)
    ensures a == b
  {
    if a != [] { HeadBelow(a, b, key); }
    if b != [] {
      assert WithKey(b, key, key(b[0])) == WithKey(a, key, key(b[0]));
      HeadBelow(b, a, key);
    }
    if a != [] {
      assert a[0] == WithKey(a, key, key(a[0]))[0] == WithKey(b, key, key(a[0]))[0] == b[0];
      forall k ensures WithKey(a[1..], key, k) == WithKey(b[1..], key, k) {
        assert WithKey(a, key, k) == WithKey(b, key, k);
        if key(a[0]) == k {
          assert WithKey(a, key, k)[1..] == WithKey(a[1..], key, k);
          assert WithKey(b, key, k)[1..] == WithKey(b[1..], key, k);
        } else {
          assert WithKey(a, key, k) == WithKey(a[1..], key, k);
          assert WithKey(b, key, k) == WithKey(b[1..], key, k);
        }
      }
      StableSortUnique(a[1..], b[1..], key);
    }
  }

  lemma SortOfSorted<T>(s: seq<T>, key: T -> real)
    requires SortedBy(s, key)
    ensures Sort(s, key) == s
  {
    SortIsSortedPermutation(s, key);
    forall k ensures WithKey(Sort(s, key), key, k) == WithKey(s, key, k) { SortIsStable(s, key, k); }
    StableSortUnique(Sort(s, key), s, key);
  }

  lemma SameHead<T>(a: seq<T>, b: seq<T>, key: T -> real)
    requires SortedBy(a, key) && SortedBy(b, key) && DistinctKeys(a, key)
    requires multiset(a) == multiset(b) && a != []
    ensures b != [] && a[0] == b[0]
  {
    assert a[0] in multiset(b);
    var i :| 0 <= i < |b| && b[i] == a[0];
    assert b[0] in multiset(a);
    var j :| 0 <= j < |a| && a[j] == b[0];
    assert key(b[0]) <= key(b[i]);
    assert key(a[0]) <= key(a[j]);
  }

  lemma SameTail<T>(a: seq<T>, b: seq<T>)
    requires a != [] && b != [] && a[0] == b[0] && multiset(a) == multiset(b)
    ensures multiset(a[1..]) == multiset(b[1..])
  {
    assert a == [a[0]] + a[1..] && b == [b[0]] + b[1..];
    assert multiset(a[1..]) == multiset(a) - multiset{a[0]};
    assert multiset(b[1..]) == multiset(b) - multiset{b[0]};
  }

  /** With pairwise different ranks the sorted list depends only on which records there are. */
  lemma {:induction false} SortedPermutationUnique<T>(a: seq<T>, b: seq<T>, key: T -> real)
    requires SortedBy(a, key) && SortedBy(b, key)
    requires DistinctKeys(a, key)
    requires multiset(a) == multiset(b)
    ensures a == b
  {
    if a == [] {
      assert |multiset(b)| == 0;
    } else {
      SameHead(a, b, key);
      SameTail(a, b);
      SortedPermutationUnique(a[1..], b[1..], key);
      assert a == [a[0]] + a[1..] && b == [b[0]] + b[1..];
    }
  }

  lemma HeadDistinct<T>(s: seq<T>, key: T -> real)
    requires s != [] && DistinctKeys(s, key)
    ensures forall y :: y in s[1..] ==> key(y) != key(s[0])
    ensures DistinctKeys(s[1..], key)
  {
    forall y | y in s[1..] ensures key(y) != key(s[0]) {
      var m :| 0 <= m < |s[1..]| && s[1..][m] == y;
      assert key(s[0]) != key(s[m + 1]);
    }
  }

  lemma {:induction false} InsertDistinct<T>(x: T, s: seq<T>, key: T -> real)
    requires SortedBy(s, key) && DistinctKeys(s, key)
    requires forall y :: y in s ==> key(y) != key(x)
    ensures DistinctKeys(Insert(x, s, key), key)
  {
    if s == [] || key(x) <= key(s[0]) {
    } else {
      HeadDistinct(s, key);
      InsertDistinct(x, s[1..], key);
      InsertKeeps(x, s[1..], key);
      var r := Insert(x, s[1..], key);
      forall i | 0 <= i < |r| ensures key(s[0]) != key(r[i]) {
        assert r[i] in multiset(r) && s[0] in s;
        assert r[i] == x || r[i] in s[1..];
      }
    }
  }

  lemma {:induction false} SortDistinct<T>(s: seq<T>, key: T -> real)
    requires DistinctKeys(s, key)
    ensures DistinctKeys(Sort(s, key), key)
  {
    if s != [] {
      HeadDistinct(s, key);
      SortDistinct(s[1..], key);
      SortIsSortedPermutation(s[1..], key);
      forall y | y in Sort(s[1..], key) ensures key(y) != key(s[0]) {
        assert y in multiset(Sort(s[1..], key));
        assert y in s[1..];
      }
      InsertDistinct(s[0], Sort(s[1..], key), key);
    }
  }

  /** Same records, distinct ranks: the order they arrive in does not matter. */
  lemma SortIgnoresOrder<T>(a: seq<T>, b: seq<T>, key: T -> real)
    requires multiset(a) == multiset(b) && DistinctKeys(a, key)
    ensures Sort(a, key) == Sort(b, key)
  {
    SortIsSortedPermutation(a, key);
    SortIsSortedPermutation(b, key);
    SortDistinct(a, key);
    SortedPermutationUnique(Sort(a, key), Sort(b, key), key);
  }

  // ----- truncated sorting

  lemma TakeCons<T>(x: T, s: seq<T>, n: nat)
    requires n > 0
    ensures Take([x] + s, n) == [x] + Take(s, n - 1)
  {
  }

  lemma {:induction false} InsertThenTake<T>(x: T, s: seq<T>, key: T -> real, n: nat)
    ensures Take(Insert(x, Take(s, n), key), n) == Take(Insert(x, s, key), n)
  {
    if |s| <= n {
      assert Take(s, n) == s;
    } else if n == 0 {
    } else if key(x) <= key(s[0]) {
    } else {
      var tail := s[1..];
      InsertThenTake(x, tail, key, n - 1);
      assert s == [s[0]] + tail;
      TakeCons(s[0], tail, n);
      InsertLater(x, s, key);
      InsertLater(x, [s[0]] + Take(tail, n - 1), key);
      assert ([s[0]] + Take(tail, n - 1))[1..] == Take(tail, n - 1);
      TakeCons(s[0], Insert(x, tail, key), n);
      TakeCons(s[0], Insert(x, Take(tail, n - 1), key), n);
    }
  }

  /** Truncating the tail before sorting the whole does not change the first `n`. */
  lemma {:induction false} TakeSortAppend<T>(a: seq<T>, b: seq<T>, key: T -> real, n: nat)
    ensures Take(Sort(a + Take(Sort(b, key), n), key), n) == Take(Sort(a + b, key), n)
  {
    hide Insert;
    var t := Take(Sort(b, key), n);
    if a == [] {
      SortIsSortedPermutation(b, key);
      SortOfSorted(t, key);
      assert a + t == t && a + b == b;
    } else {
      TakeSortAppend(a[1..], b, key, n);
      assert (a + t)[1..] == a[1..] + t && (a + b)[1..] == a[1..] + b;
      InsertThenTake(a[0], Sort(a[1..] + t, key), key, n);
      InsertThenTake(a[0], Sort(a[1..] + b, key), key, n);
    }
  }

  // ----- reversal

  lemma ReverseCons<T>(s: seq<T>)
    requires s != []
    ensures Reverse(s) == Reverse(s[1..]) + [s[0]]
  {
  }

  lemma {:induction false} ReverseFacts<T>(s: seq<T>)
    ensures forall i :: 0 <= i < |s| ==> Reverse(s)[i] == s[|s| - 1 - i]
    ensures multiset(Reverse(s)) == multiset(s)
    ensures Reverse(Reverse(s)) == s
  {
    if s != [] {
      ReverseFacts(s[1..]);
      ReverseCons(s);
      assert s == [s[0]] + s[1..];
    }
  }
}
