/** The sort-order repair that runs before the graph edit form is shown (ui/graphs.php).

    The items were just re-indexed, so the `isset` tests of the loop always succeed and the inner
    search for the next existing item stops at once. */
module GraphOrder {
  import opened StableSort

  datatype GraphItem = GraphItem(gitemid: nat, sortorder: int)

  function Orders(items: seq<GraphItem>): (orders: seq<int>)
    ensures |orders| == |items|
  {
    seq(|items|, i requires 0 <= i < |items| => items[i].sortorder)
  }

  predicate NonDecreasing(s: seq<int>) { forall i, j :: 0 <= i < j < |s| ==> s[i] <= s[j] }

  predicate Increasing(s: seq<int>) { forall i, j :: 0 <= i < j < |s| ==> s[i] < s[j] }

  predicate AtOrAbove(t: seq<int>, s: seq<int>) {
    |t| == |s| && forall i :: 0 <= i < |s| ==> s[i] <= t[i]
  }

  predicate NeighboursDiffer(s: seq<int>) { forall i :: 0 <= i < |s| - 1 ==> s[i] != s[i + 1] }

  // ----- what the loops compute

  /** The inner loop from position `j`: raise every order that does not exceed its left neighbour. */
  function Bump(s: seq<int>, j: nat): seq<int>
    requires 0 < j
    decreases |s| - j
  {
    if j >= |s| then s else Bump(if s[j - 1] >= s[j] then s[j := s[j] + 1] else s, j + 1)
  }

  /** The outer loop from position `i`. */
  function RepairFrom(s: seq<int>, i: nat): seq<int>
    decreases |s| - i
  {
    if i + 1 >= |s| then s
    else
      var t := if s[i] == s[i + 1] then Bump(s, i + 1) else s;
      BumpShape(s, i + 1);
      RepairFrom(t, i + 1)
  }

  function Repaired(s: seq<int>): seq<int> { RepairFrom(s, 0) }

  method RepairSortOrder(items: array<GraphItem>)
    modifies items
    ensures Orders(items[..]) == Repaired(Orders(old(items[..])))
    ensures forall k :: 0 <= k < items.Length ==>
      items[k].gitemid == old(items[k].gitemid)
  {
    var itemCount := items.Length;
    var i := 0;
    while i < itemCount - 1
      invariant 0 <= i
      invariant RepairFrom(Orders(items[..]), i) == Repaired(Orders(old(items[..])))
      invariant forall k :: 0 <= k < items.Length ==> items[k].gitemid == old(items[k].gitemid)
    {
      var next := i + 1;
      if items[i].sortorder == items[next].sortorder {
        BumpSortOrders(items, next);
      }
      i := next;
    }
  }

  /** The inner loop. */
  method BumpSortOrders(items: array<GraphItem>, next: nat)
    requires 0 < next
    modifies items
    ensures Orders(items[..]) == Bump(Orders(old(items[..])), next)
    ensures forall k :: 0 <= k < items.Length ==>
      items[k].gitemid == old(items[k].gitemid)
  {
    var j := next;
    while j < items.Length
      invariant 0 < j
      invariant Bump(Orders(items[..]), j) == Bump(Orders(old(items[..])), next)
      invariant forall k :: 0 <= k < items.Length ==> items[k].gitemid == old(items[k].gitemid)
    {
      ghost var was := Orders(items[..]);
      if items[j - 1].sortorder >= items[j].sortorder {
        items[j] := items[j].(sortorder := items[j].sortorder + 1);
        assert Orders(items[..]) == was[j := was[j] + 1];
      }
      j := j + 1;
    }
  }

  // ----- every input

  /** A pass from `j` keeps everything left of `j` and raises each later order by at most one;
      it does raise the order at `j` when that is not above its left neighbour. */
  lemma {:induction false} BumpShape(s: seq<int>, j: nat)
    requires 0 < j
    ensures |Bump(s, j)| == |s|
    ensures forall k :: 0 <= k < |s| ==>
      s[k] <= Bump(s, j)[k] <= s[k] + if k < j then 0 else 1
    ensures j < |s| && s[j - 1] >= s[j] ==> Bump(s, j)[j] == s[j] + 1
    decreases |s| - j
  {
    if j < |s| {
      BumpShape(if s[j - 1] >= s[j] then s[j := s[j] + 1] else s, j + 1);
    }
  }

  lemma {:induction false} RepairFromShape(s: seq<int>, i: nat)
    requires forall k :: 0 <= k < i && k + 1 < |s| ==> s[k] != s[k + 1]
    ensures |RepairFrom(s, i)| == |s|
    ensures forall k :: 0 <= k < |s| ==>
      s[k] <= RepairFrom(s, i)[k] <= s[k] + if k < i then 0 else k - i
    ensures NeighboursDiffer(RepairFrom(s, i))
    decreases |s| - i
  {
    if i + 1 < |s| {
      BumpShape(s, i + 1);
      RepairFromShape(if s[i] == s[i + 1] then Bump(s, i + 1) else s, i + 1);
    }
  }

  /** On any sort orders: neighbours end up different, the first item keeps its order, and item `k`
      is raised by at least 0 and at most `k`. */
  lemma RepairedNeighboursDiffer(s: seq<int>)
    ensures |Repaired(s)| == |s|
    ensures NeighboursDiffer(Repaired(s))
    ensures s != [] ==> Repaired(s)[0] == s[0]
    ensures forall k :: 0 <= k < |s| ==> s[k] <= Repaired(s)[k] <= s[k] + k
  {
    RepairFromShape(s, 0);
  }

  lemma {:induction false} RepairFromKeeps(s: seq<int>, i: nat)
    requires NeighboursDiffer(s)
    ensures RepairFrom(s, i) == s
    decreases |s| - i
  {
    if i + 1 < |s| { RepairFromKeeps(s, i + 1); }
  }

  /** The repair changes nothing exactly when no two neighbours are equal; so running it again never
      changes anything. */
  lemma RepairedIsFixpoint(s: seq<int>)
    ensures Repaired(s) == s <==> NeighboursDiffer(s)
    ensures Repaired(Repaired(s)) == Repaired(s)
  {
    RepairedNeighboursDiffer(s);
    RepairFromKeeps(Repaired(s), 0);
    if NeighboursDiffer(s) { RepairFromKeeps(s, 0); }
  }

  // ----- inputs in order

  /** The least strictly increasing sequence at or above `s`. */
  function LeastIncreasing(s: seq<int>): (t: seq<int>)
    ensures |t| == |s|
  {
    if |s| <= 1 then s
    else
      var n := |s| - 1;
      var t := LeastIncreasing(s[..n]);
      t + [if s[n] > t[n - 1] then s[n] else t[n - 1] + 1]
  }

  lemma {:induction false} LeastIncreasingIsLeast(s: seq<int>, t: seq<int>)
    ensures Increasing(LeastIncreasing(s))
    ensures AtOrAbove(LeastIncreasing(s), s)
    ensures Increasing(t) && AtOrAbove(t, s) ==> AtOrAbove(t, LeastIncreasing(s))
  {
    if |s| > 1 {
      var n := |s| - 1;
      LeastIncreasingIsLeast(s[..n], if |t| == |s| then t[..n] else []);
      LeastNext(LeastIncreasing(s[..n]), s, t);
    }
  }

  /** One more order at the end of a least sequence. */
  lemma LeastNext(least: seq<int>, s: seq<int>, t: seq<int>)
    requires |s| == |least| + 1 > 1 && Increasing(least) && AtOrAbove(least, s[..|least|])
    requires |t| == |s| && Increasing(t[..|least|]) && AtOrAbove(t[..|least|], s[..|least|]) ==>
      AtOrAbove(t[..|least|], least)
    ensures var n := |least|;
      var all := least + [if s[n] > least[n - 1] then s[n] else least[n - 1] + 1];
      Increasing(all) && AtOrAbove(all, s) && (Increasing(t) && AtOrAbove(t, s) ==> AtOrAbove(t, all))
  {
    var n := |least|;
    assert forall i :: 0 <= i < n ==> s[..n][i] == s[i];
    assert forall i :: 0 <= i < n ==> least[i] <= least[n - 1];
    if Increasing(t) && AtOrAbove(t, s) {
      assert forall i :: 0 <= i < n ==> t[..n][i] == t[i];
      assert Increasing(t[..n]) && AtOrAbove(t[..n], s[..n]);
      assert t[n - 1] < t[n] && least[n - 1] <= t[..n][n - 1];
    }
  }

  /** What an order lacks to its least increasing one. */
  function Gap(s: seq<int>, k: nat): (gap: nat)
    requires k < |s|
  {
    LeastIncreasingAt(s, k);
    LeastIncreasing(s)[k] - s[k]
  }

  /** The largest gap up to and including `k`. */
  function LargestGap(s: seq<int>, k: nat): nat
    requires k < |s|
  {
    if k == 0 then Gap(s, 0)
    else if Gap(s, k) > LargestGap(s, k - 1) then Gap(s, k) else LargestGap(s, k - 1)
  }

  /** No gap exceeds all gaps before it by more than one. */
  predicate GapsGrowByOne(s: seq<int>) {
    forall k :: 0 < k < |s| ==> Gap(s, k) <= LargestGap(s, k - 1) + 1
  }

  lemma {:induction false} LeastIncreasingAt(s: seq<int>, k: nat)
    requires k < |s|
    ensures LeastIncreasing(s)[k] ==
      if k == 0 || s[k] > LeastIncreasing(s)[k - 1] then s[k] else LeastIncreasing(s)[k - 1] + 1
    ensures s[k] <= LeastIncreasing(s)[k]
  {
    if |s| > 1 && k < |s| - 1 { LeastIncreasingAt(s[..|s| - 1], k); }
  }

  /** Orders below a strictly increasing bound stay below it. */
  lemma {:induction false} BumpStaysBelow(s: seq<int>, j: nat, t: seq<int>)
    requires 0 < j && Increasing(t) && AtOrAbove(t, s)
    ensures AtOrAbove(t, Bump(s, j))
    decreases |s| - j
  {
    if j < |s| {
      assert t[j - 1] < t[j];
      BumpStaysBelow(if s[j - 1] >= s[j] then s[j := s[j] + 1] else s, j + 1, t);
    }
  }

  lemma {:induction false} RepairStaysBelow(s: seq<int>, i: nat, t: seq<int>)
    requires Increasing(t) && AtOrAbove(t, s)
    ensures AtOrAbove(t, RepairFrom(s, i))
    decreases |s| - i
  {
    if i + 1 < |s| {
      BumpStaysBelow(s, i + 1, t);
      RepairStaysBelow(if s[i] == s[i + 1] then Bump(s, i + 1) else s, i + 1, t);
    }
  }

  /** The least orders, the gaps to them and the largest gaps so far. */
  datatype Course = Course(least: seq<int>, gaps: seq<int>, tops: seq<int>)

  function CourseOf(s: seq<int>): (c: Course)
    ensures c.least == LeastIncreasing(s) && |c.gaps| == |c.tops| == |s|
    ensures forall k :: 0 <= k < |s| ==>
      c.gaps[k] == Gap(s, k) && c.tops[k] == LargestGap(s, k)
  {
    Course(LeastIncreasing(s), seq(|s|, k requires 0 <= k < |s| => Gap(s, k)),
           seq(|s|, k requires 0 <= k < |s| => LargestGap(s, k)))
  }

  /** `s` lies on or below the least orders; an order that is below is one that had to be raised. */
  predicate Below(c: Course, s: seq<int>) {
    |c.least| == |c.gaps| == |c.tops| == |s| && forall k :: 0 <= k < |s| ==> BelowAt(c, s, k)
  }

  predicate BelowAt(c: Course, s: seq<int>, k: nat) {
    && k < |c.least| == |c.gaps| == |c.tops| == |s|
    && s[k] <= c.least[k]
    && (k > 0 ==>
          && c.least[k - 1] < c.least[k] && (s[k] < c.least[k] ==> c.least[k] == c.least[k - 1] + 1)
          && c.tops[k] == if c.gaps[k] > c.tops[k - 1] then c.gaps[k] else c.tops[k - 1])
  }

  /** After some passes an order at `k` lacks its gap less the passes, and no more than the largest gap
      so far less the passes. */
  predicate Lacks(c: Course, s: seq<int>, k: nat, passes: int) {
    && k < |c.least| == |c.gaps| == |c.tops| == |s|
    && c.gaps[k] - passes <= c.least[k] - s[k] <= c.tops[k] - passes
  }

  function Raised(s: seq<int>, j: nat): (t: seq<int>)
    requires 0 < j < |s|
    ensures |t| == |s|
  {
    if s[j - 1] >= s[j] then s[j := s[j] + 1] else s
  }

  lemma RaiseGains(c: Course, s: seq<int>, j: nat, passes: int)
    requires 0 < j < |s| == |c.least| == |c.gaps| == |c.tops| && Below(c, s)
    requires Lacks(c, s, j - 1, passes + 1)
    requires forall k :: j <= k < |s| ==> Lacks(c, s, k, passes)
    ensures Below(c, Raised(s, j)) && Lacks(c, Raised(s, j), j, passes + 1)
    ensures forall k :: j < k < |s| ==> Lacks(c, Raised(s, j), k, passes)
  {
    assert Lacks(c, s, j, passes) && BelowAt(c, s, j - 1) && BelowAt(c, s, j);
    forall k | 0 <= k < |s| ensures BelowAt(c, Raised(s, j), k) { assert BelowAt(c, s, k); }
    forall k | j < k < |s| ensures Lacks(c, Raised(s, j), k, passes) { assert Lacks(c, s, k, passes); }
  }

  /** A pass over the orders from `j` on makes up for one more of what each of them lacks. */
  lemma {:induction false} BumpGains(c: Course, s: seq<int>, j: nat, passes: int, more: int)
    requires 0 < j <= |s| == |c.least| == |c.gaps| == |c.tops| && Below(c, s) && more == passes + 1
    requires Lacks(c, s, j - 1, more)
    requires forall k :: j <= k < |s| ==> Lacks(c, s, k, passes)
    ensures |Bump(s, j)| == |s| && Below(c, Bump(s, j))
    ensures forall k :: j <= k < |s| ==> Lacks(c, Bump(s, j), k, more)
    decreases |s| - j
  {
    if j < |s| {
      BumpShape(Raised(s, j), j + 1);
      RaiseGains(c, s, j, passes);
      BumpGains(c, Raised(s, j), j + 1, passes, more);
    }
  }

  /** Before the outer loop's step `i`: the orders up to `i` are final, and as many passes were made as
      the largest gap among them. */
  predicate OnCourse(c: Course, s: seq<int>, i: nat) {
    && Below(c, s) && i < |s|
    && (forall k :: 0 <= k <= i ==> s[k] == c.least[k])
    && forall k :: i < k < |s| ==> Lacks(c, s, k, c.tops[i])
  }

  function AfterStep(s: seq<int>, i: nat): seq<int> {
    if i + 1 < |s| && s[i] == s[i + 1] then Bump(s, i + 1) else s
  }

  /** The first order a pass raises becomes final. */
  lemma FirstGain(c: Course, s: seq<int>, i: nat)
    requires i + 1 < |s| && OnCourse(c, s, i) && c.gaps[i + 1] <= c.tops[i] + 1 && s[i] == s[i + 1]
    ensures var t := s[i + 1 := s[i + 1] + 1];
      && Below(c, t) && t[i + 1] == c.least[i + 1]
      && c.tops[i + 1] == c.tops[i] + 1 && Lacks(c, t, i + 1, c.tops[i + 1])
      && forall k :: i + 2 <= k < |s| ==> Lacks(c, t, k, c.tops[i])
  {
    var t := s[i + 1 := s[i + 1] + 1];
    assert Lacks(c, s, i + 1, c.tops[i]) && BelowAt(c, s, i + 1);
    forall k | 0 <= k < |s| ensures BelowAt(c, t, k) { assert BelowAt(c, s, k); }
    forall k | i + 2 <= k < |s| ensures Lacks(c, t, k, c.tops[i]) { assert Lacks(c, s, k, c.tops[i]); }
  }

  /** One step of the outer loop stays on course when the next gap is not too large. */
  lemma StepOnCourse(c: Course, s: seq<int>, i: nat)
    requires i + 1 < |s| && OnCourse(c, s, i) && c.gaps[i + 1] <= c.tops[i] + 1
    ensures OnCourse(c, AfterStep(s, i), i + 1)
  {
    if s[i] == s[i + 1] {
      var t := s[i + 1 := s[i + 1] + 1];
      FirstGain(c, s, i);
      BumpShape(t, i + 2);
      BumpGains(c, t, i + 2, c.tops[i], c.tops[i + 1]);
    } else {
      assert Lacks(c, s, i + 1, c.tops[i]) && BelowAt(c, s, i + 1);
    }
  }

  /** An order that lacks two or more is never reached by a pass. */
  lemma StepOffCourse(c: Course, s: seq<int>, i: nat)
    requires i + 1 < |s| && OnCourse(c, s, i) && c.gaps[i + 1] > c.tops[i] + 1
    ensures |RepairFrom(s, i)| == |s| && RepairFrom(s, i)[i + 1] != c.least[i + 1]
  {
    assert Lacks(c, s, i + 1, c.tops[i]);
    assert BelowAt(c, s, i + 1);
    forall k | 0 <= k < i ensures s[k] != s[k + 1] { assert BelowAt(c, s, k + 1); }
    RepairFromShape(s, i + 1);
  }

  predicate GrowsByOne(c: Course, k: nat) {
    0 < k < |c.gaps| && |c.tops| == |c.gaps| && c.gaps[k] <= c.tops[k - 1] + 1
  }

  lemma {:induction false} RepairFromReaches(c: Course, s: seq<int>, i: nat)
    requires i < |s| == |c.least| == |c.gaps| == |c.tops| && OnCourse(c, s, i)
    ensures RepairFrom(s, i) == c.least <==>
      forall k :: i < k < |s| ==> GrowsByOne(c, k)
    decreases |s| - i
  {
    hide Bump;
    if i + 1 < |s| {
      if GrowsByOne(c, i + 1) {
        BumpShape(s, i + 1);
        StepOnCourse(c, s, i);
        RepairFromReaches(c, AfterStep(s, i), i + 1);
      } else {
        StepOffCourse(c, s, i);
      }
    }
  }

  lemma StartOnCourse(s: seq<int>)
    requires s != []
    ensures OnCourse(CourseOf(s), s, 0)
  {
    var c := CourseOf(s);
    LeastIncreasingIsLeast(s, []);
    forall k | 0 <= k < |s| ensures BelowAt(c, s, k) { LeastIncreasingAt(s, k); }
    LeastIncreasingAt(s, 0);
    forall k | 0 < k < |s| ensures Lacks(c, s, k, c.tops[0]) { GapBounds(s, k); }
  }

  /** On any sort orders: the nested loops compute the least strictly increasing orders at or above the
      given ones exactly when no gap exceeds all gaps before it by more than one; else they do not even
      reach strictly increasing orders, and they never go above the least ones. */
  lemma RepairedIsLeast(s: seq<int>)
    ensures Repaired(s) == LeastIncreasing(s) <==> GapsGrowByOne(s)
    ensures Increasing(Repaired(s)) <==> GapsGrowByOne(s)
    ensures AtOrAbove(LeastIncreasing(s), Repaired(s))
  {
    hide RepairFrom, LargestGap, Gap;
    LeastIncreasingIsLeast(s, Repaired(s));
    RepairStaysBelow(s, 0, LeastIncreasing(s));
    RepairedNeighboursDiffer(s);
    if s != [] {
      var c := CourseOf(s);
      StartOnCourse(s);
      RepairFromReaches(c, s, 0);
      assert GapsGrowByOne(s) <==> forall k :: 0 < k < |s| ==> GrowsByOne(c, k) by {
        assert forall k :: 0 < k < |s| ==> (GrowsByOne(c, k) <==> Gap(s, k) <= LargestGap(s, k - 1) + 1);
      }
    }
    if Increasing(Repaired(s)) {
      assert forall k :: 0 <= k < |s| ==> Repaired(s)[k] == LeastIncreasing(s)[k];
    }
  }

  lemma {:induction false} GapBounds(s: seq<int>, k: nat)
    requires k < |s|
    ensures Gap(s, 0) == 0
    ensures Gap(s, k) <= LargestGap(s, k)
  {
    LeastIncreasingAt(s, 0);
  }

  /** Orders that already come in sequence, as 1, 1, 1, 2, meet the condition. */
  lemma SortedGapsGrowByOne(s: seq<int>)
    requires NonDecreasing(s)
    ensures GapsGrowByOne(s)
  {
    forall k | 0 < k < |s| ensures Gap(s, k) <= LargestGap(s, k - 1) + 1 {
      LeastIncreasingAt(s, k);
      GapBounds(s, k - 1);
      assert s[k - 1] <= s[k];
    }
  }

  /** On non-decreasing sort orders the nested loops compute the least strictly increasing orders at
      or above the given ones. */
  lemma RepairedIsLeastIncreasing(s: seq<int>)
    requires NonDecreasing(s)
    ensures Repaired(s) == LeastIncreasing(s)
  {
    SortedGapsGrowByOne(s);
    RepairedIsLeast(s);
  }

  // ----- the list the form shows

  /** The items the form shows: sorted by their (repaired) sort order. */
  function Shown(items: seq<GraphItem>): seq<GraphItem> {
    Sort(items, (g: GraphItem) => g.sortorder as real)
  }

  /** The items shown are those of the graph, in the order of their sort orders. */
  lemma ShownIsSorted(items: seq<GraphItem>)
    ensures multiset(Shown(items)) == multiset(items) && NonDecreasing(Orders(Shown(items)))
  {
    var key := (g: GraphItem) => g.sortorder as real;
    SortIsSortedPermutation(items, key);
    var shown := Sort(items, key);
    forall i, j | 0 <= i < j < |shown| ensures shown[i].sortorder <= shown[j].sortorder {
      assert key(shown[i]) <= key(shown[j]);
    }
  }

  /** The form shows the items in the order they came in, with no sort order twice, exactly when no gap
      exceeds all gaps before it by more than one. */
  lemma ShownAfterRepair(items: seq<GraphItem>, was: seq<int>)
    requires Orders(items) == Repaired(was)
    ensures Shown(items) == items && Increasing(Orders(Shown(items))) <==>
      GapsGrowByOne(was)
  {
    RepairedIsLeast(was);
    if Increasing(Orders(items)) {
      forall i, j | 0 <= i < j < |items| ensures items[i].sortorder < items[j].sortorder {
        assert Orders(items)[i] < Orders(items)[j];
      }
      SortOfSorted(items, (g: GraphItem) => g.sortorder as real);
    }
  }

  /** The items are fetched by gitemid, not by sort order.  Out of order the loops can miss a
      duplicate: 1, 2, 1 has no equal neighbours and is left alone, so the form shows 1, 1, 2. */
  lemma OutOfOrderKeepsDuplicate()
    ensures Repaired([1, 2, 1]) == [1, 2, 1] && !GapsGrowByOne([1, 2, 1])
    ensures Orders(Shown([GraphItem(7, 1), GraphItem(8, 2), GraphItem(9, 1)])) == [1, 1, 2]
  {
    RepairedIsFixpoint([1, 2, 1]);
    RepairedIsLeast([1, 2, 1]);
    var key := (g: GraphItem) => g.sortorder as real;
    var a, b, c := GraphItem(7, 1), GraphItem(8, 2), GraphItem(9, 1);
    assert [a, b, c][1..] == [b, c] && [b, c][1..] == [c] && [c][1..] == [];
    assert Sort([c], key) == [c];
    assert Insert(b, [c], key) == [c] + Insert(b, [], key) == [c, b];
    assert Sort([b, c], key) == [c, b];
    assert Sort([a, b, c], key) == [a, c, b];
  }

  /** Being in order is not needed: in 0, 0, 5, 4 the last order lacks two, but one was lacking before. */
  lemma OutOfOrderRepaired()
    ensures GapsGrowByOne([0, 0, 5, 4]) && Repaired([0, 0, 5, 4]) == [0, 1, 5, 6]
  {
    var s := [0, 0, 5, 4];
    assert s[..3] == [0, 0, 5] && s[..3][..2] == [0, 0] && s[..3][..2][..1] == [0];
    assert LeastIncreasing([0, 0]) == [0, 1];
    assert LeastIncreasing([0, 0, 5]) == [0, 1, 5];
    assert LeastIncreasing(s) == [0, 1, 5, 6];
    assert LargestGap(s, 0) == 0 && LargestGap(s, 1) == 1 && LargestGap(s, 2) == 1;
    RepairedIsLeast(s);
  }
}
