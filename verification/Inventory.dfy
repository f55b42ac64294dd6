/** The host inventory list (ui/hostinventories.php) and the overview report that links into it
    (ui/hostinventoriesoverview.php).

    `lower` stands for mb_strtolower and `rank` for the natural, case-insensitive order of the field
    the list is sorted by; both are left abstract. */
module Inventory {
  import opened StableSort

  /** A host with the inventory field that is filtered on or grouped by. */
  datatype Host = Host(hostid: nat, value: string)

  datatype SortOrder = Up | Down

  predicate DistinctHosts(hosts: seq<Host>) {
    forall i, j :: 0 <= i < j < |hosts| ==> hosts[i] != hosts[j]
  }

  // ----- the list

  /** order_result: a stable ascending sort, reversed as a whole for the descending order. */
  function OrderResult(hosts: seq<Host>, order: SortOrder, rank: Host -> real): seq<Host> {
    if order == Up then Sort(hosts, rank) else Reverse(Sort(hosts, rank))
  }

  /** array_slice($a, -limit, limit). */
  function LastOf(hosts: seq<Host>, limit: nat): seq<Host> {
    if |hosts| <= limit then hosts else hosts[|hosts| - limit..]
  }

  /** The hosts whose field equals the filter value in any letter case. */
  function ExactMatches(hosts: seq<Host>, needle: string, lower: string -> string): seq<Host> {
    if hosts == [] then []
    else (if lower(hosts[0].value) == lower(needle) then [hosts[0]] else [])
         + ExactMatches(hosts[1..], needle, lower)
  }

  lemma {:induction false} ExactMatchesAppend(a: seq<Host>, h: Host, needle: string, lower: string -> string)
    ensures ExactMatches(a + [h], needle, lower)
         == ExactMatches(a, needle, lower) + (if lower(h.value) == lower(needle) then [h] else [])
  {
    if a == [] {
      assert a + [h] == [h];
    } else {
      ExactMatchesAppend(a[1..], h, needle, lower);
      assert (a + [h])[1..] == a[1..] + [h];
    }
  }

  function Filtered(hosts: seq<Host>, fieldValue: string, exact: bool, lower: string -> string): seq<Host> {
    if fieldValue != "" && exact then ExactMatches(hosts, fieldValue, lower) else hosts
  }

  /** What the ascending list shows: the first `limit` hosts of the sorted filtered hosts. */
  function Ascending(hosts: seq<Host>, limit: nat, rank: Host -> real): seq<Host> {
    Take(Sort(hosts, rank), limit)
  }

  method ListHosts(hosts: seq<Host>, fieldValue: string, exact: bool, order: SortOrder, searchLimit: nat,
                   rank: Host -> real, lower: string -> string) returns (list: seq<Host>)
    requires DistinctHosts(hosts)
    ensures var up := Ascending(Filtered(hosts, fieldValue, exact, lower), searchLimit + 1, rank);
            && multiset(list) == multiset(up)
            && (order == Up ==> list == up)
            && (order == Down ==> (list == Reverse(up) <==> DistinctKeys(up, rank)))
  {
    list := hosts;
    if fieldValue != "" && exact {
      var needle := lower(fieldValue);
      list := [];
      for num := 0 to |hosts|
        invariant list == ExactMatches(hosts[..num], fieldValue, lower)
      {
        ExactMatchesAppend(hosts[..num], hosts[num], fieldValue, lower);
        assert hosts[..num + 1] == hosts[..num] + [hosts[num]];
        var haystack := lower(hosts[num].value);
        if haystack == needle {
          list := list + [hosts[num]];
        }
      }
      assert hosts[..|hosts|] == hosts;
      ExactMatchesDistinct(hosts, fieldValue, lower);
    }
    ghost var kept := list;
    var limit := searchLimit + 1;
    list := OrderResult(list, order, rank);
    if order == Up {
      list := Take(list, limit);
      AscendingIsSorted(kept, limit, rank);
    } else {
      list := LastOf(list, limit);
      DescendingList(kept, limit, rank);
    }
    list := OrderResult(list, order, rank);
  }

  lemma {:induction false} ExactMatchesDistinct(hosts: seq<Host>, needle: string, lower: string -> string)
    requires DistinctHosts(hosts)
    ensures DistinctHosts(ExactMatches(hosts, needle, lower))
    ensures forall h :: h in ExactMatches(hosts, needle, lower) <==>
      h in hosts && lower(h.value) == lower(needle)
  {
    if hosts != [] {
      ExactMatchesDistinct(hosts[1..], needle, lower);
      assert hosts == [hosts[0]] + hosts[1..];
      assert hosts[0] !in hosts[1..];
    }
  }

  /** The list is filtered only when an exact match is asked for and the filter value is not empty; then it
      keeps the hosts whose value equals it in any letter case. */
  lemma FilteredIs(hosts: seq<Host>, fieldValue: string, exact: bool, lower: string -> string)
    requires DistinctHosts(hosts)
    ensures DistinctHosts(Filtered(hosts, fieldValue, exact, lower))
    ensures forall h :: h in Filtered(hosts, fieldValue, exact, lower) <==>
      h in hosts && (exact && fieldValue != "" ==> lower(h.value) == lower(fieldValue))
  {
    ExactMatchesDistinct(hosts, fieldValue, lower);
  }

  /** The ascending list holds as many hosts as there are, up to the limit, each once and in order; a host
      that is left out does not come before any that is listed. */
  lemma AscendingIsFirst(hosts: seq<Host>, limit: nat, rank: Host -> real)
    requires DistinctHosts(hosts)
    ensures var list := Ascending(hosts, limit, rank);
      && |list| == (if |hosts| < limit then |hosts| else limit)
      && DistinctHosts(list)
      && (forall i, j :: 0 <= i < j < |list| ==> rank(list[i]) <= rank(list[j]))
      && (forall h :: h in list ==> h in hosts)
      && forall a, b :: a in list && b in hosts && b !in list ==> rank(a) <= rank(b)
  {
    hide Sort;
    var sorted := Sort(hosts, rank);
    SortIsSortedPermutation(hosts, rank);
    SortedDistinct(hosts, rank);
    var list := Take(sorted, limit);
    forall h | h in list ensures h in hosts {
      assert h in sorted && h in multiset(sorted) && h in multiset(hosts);
    }
    forall a, b | a in list && b in hosts && b !in list ensures rank(a) <= rank(b) {
      assert b in multiset(hosts) && b in multiset(sorted);
      assert b in sorted;
      var i :| 0 <= i < |list| && list[i] == a;
      var j :| 0 <= j < |sorted| && sorted[j] == b;
      forall k | 0 <= k < |list| ensures sorted[k] != b { assert list[k] == sorted[k] && list[k] in list; }
      assert sorted[i] == a && i < j;
    }
  }

  lemma AscendingIsSorted(kept: seq<Host>, limit: nat, rank: Host -> real)
    ensures SortedBy(Ascending(kept, limit, rank), rank)
    ensures Sort(Ascending(kept, limit, rank), rank) == Ascending(kept, limit, rank)
  {
    SortIsSortedPermutation(kept, rank);
    SortOfSorted(Ascending(kept, limit, rank), rank);
  }

  /** Cutting the last `limit` hosts of the descending list and sorting again keeps exactly the hosts
      of the ascending list, in reverse order exactly when no two of them compare equal. */
  lemma DescendingList(kept: seq<Host>, limit: nat, rank: Host -> real)
    requires DistinctHosts(kept)
    ensures var up := Ascending(kept, limit, rank);
            var down := OrderResult(LastOf(OrderResult(kept, Down, rank), limit), Down, rank);
            && multiset(down) == multiset(up)
            && (down == Reverse(up) <==> DistinctKeys(up, rank))
  {
    var up := Ascending(kept, limit, rank);
    SortedDistinct(kept, rank);
    LastOfReversed(Sort(kept, rank), limit);
    AscendingIsSorted(kept, limit, rank);
    ResortReversed(up, rank);
  }

  /** The descending list comes from the last to the first of the order, and hosts that compare equal come
      as they do in the ascending list; this fixes it. */
  lemma DescendingOrder(kept: seq<Host>, limit: nat, rank: Host -> real, k: real)
    ensures var up := Ascending(kept, limit, rank);
            var down := OrderResult(LastOf(OrderResult(kept, Down, rank), limit), Down, rank);
            && (forall i, j :: 0 <= i < j < |down| ==> rank(down[i]) >= rank(down[j]))
            && WithKey(down, rank, k) == WithKey(up, rank, k)
  {
    hide Sort, Reverse, WithKey;
    var up := Ascending(kept, limit, rank);
    LastOfReversed(Sort(kept, rank), limit);
    var back := Sort(Reverse(up), rank);
    SortIsSortedPermutation(Reverse(up), rank);
    SortIsStable(Reverse(up), rank, k);
    WithKeyReverse(up, rank, k);
    WithKeyReverse(back, rank, k);
    ReverseFacts(WithKey(up, rank, k));
    ReverseFacts(back);
  }

  lemma LastOfReversed(s: seq<Host>, limit: nat)
    ensures LastOf(Reverse(s), limit) == Reverse(Take(s, limit))
  {
    ReverseFacts(s);
    ReverseFacts(Take(s, limit));
  }

  lemma ResortReversed(up: seq<Host>, rank: Host -> real)
    requires DistinctHosts(up) && SortedBy(up, rank)
    ensures var down := Reverse(Sort(Reverse(up), rank));
            && multiset(down) == multiset(up)
            && (down == Reverse(up) <==> DistinctKeys(up, rank))
  {
    hide Sort, Reverse;
    var back := Sort(Reverse(up), rank);
    ReverseFacts(up);
    ReverseFacts(back);
    SortIsSortedPermutation(Reverse(up), rank);
    if DistinctKeys(up, rank) {
      SortIgnoresOrder(up, Reverse(up), rank);
      SortOfSorted(up, rank);
    }
    if Reverse(back) == Reverse(up) {
      assert back == up;
      TiesAreReversed(up, rank);
    }
  }

  lemma {:induction false} WithKeyReverse(s: seq<Host>, rank: Host -> real, k: real)
    ensures WithKey(Reverse(s), rank, k) == Reverse(WithKey(s, rank, k))
  {
    if s != [] {
      hide Reverse;
      WithKeyReverse(s[1..], rank, k);
      ReverseCons(s);
      WithKeyAppend(Reverse(s[1..]), [s[0]], rank, k);
      assert [s[0]][1..] == [];
      var rest := WithKey(s[1..], rank, k);
      if rank(s[0]) == k {
        ReverseCons([s[0]] + rest);
        assert ([s[0]] + rest)[1..] == rest;
      } else {
        assert [] + rest == rest && Reverse(rest) + [] == Reverse(rest);
      }
    }
  }

  lemma {:induction false} WithKeyAppend(a: seq<Host>, b: seq<Host>, rank: Host -> real, k: real)
    ensures WithKey(a + b, rank, k) == WithKey(a, rank, k) + WithKey(b, rank, k)
  {
    if a == [] {
      assert a + b == b;
    } else {
      hide WithKey;
      var x, rest := a[0], a[1..];
      WithKeyAppend(rest, b, rank, k);
      WithKeyCons(x, rest, rank, k);
      WithKeyCons(x, rest + b, rank, k);
      assert a == [x] + rest && a + b == [x] + (rest + b);
    }
  }

  lemma WithKeyCons(x: Host, rest: seq<Host>, rank: Host -> real, k: real)
    ensures WithKey([x] + rest, rank, k) == (if rank(x) == k then [x] else []) + WithKey(rest, rank, k)
  {
    assert ([x] + rest)[1..] == rest;
  }

  lemma {:induction false} WithKeyMembers(s: seq<Host>, rank: Host -> real, k: real)
    requires DistinctHosts(s)
    ensures DistinctHosts(WithKey(s, rank, k))
    ensures forall h :: h in WithKey(s, rank, k) <==> h in s && rank(h) == k
  {
    if s != [] {
      WithKeyMembers(s[1..], rank, k);
      assert s == [s[0]] + s[1..];
      assert s[0] !in s[1..];
    }
  }

  /** A stable sort of the reversed list puts tied hosts in the other order, so it is not the list. */
  lemma TiesAreReversed(up: seq<Host>, rank: Host -> real)
    requires DistinctHosts(up) && Sort(Reverse(up), rank) == up
    ensures DistinctKeys(up, rank)
  {
    hide Sort, Reverse, WithKey;
    forall i, j | 0 <= i < j < |up| ensures rank(up[i]) != rank(up[j]) {
      var k := rank(up[i]);
      var ties := WithKey(up, rank, k);
      SortIsStable(Reverse(up), rank, k);
      WithKeyReverse(up, rank, k);
      ReverseFacts(ties);
      WithKeyMembers(up, rank, k);
      assert up[i] in ties && ties[0] == ties[|ties| - 1];
      assert ties == [up[i]];
      assert up[j] !in ties;
    }
  }

  /** Of two hosts that compare equal, both lists show the same one first. */
  lemma TiedHostsKeepOrder()
    ensures var hosts, rank := [Host(1, "server"), Host(2, "server")], (h: Host) => 0.0;
      && OrderResult(LastOf(OrderResult(hosts, Down, rank), 2), Down, rank) == hosts
      && Ascending(hosts, 2, rank) == hosts && Reverse(hosts) != hosts
  {
    var a, b, rank := Host(1, "server"), Host(2, "server"), (h: Host) => 0.0;
    assert Reverse([a, b]) == [b, a] && Reverse([b, a]) == [a, b];
    SortOfSorted([a, b], rank);
    SortOfSorted([b, a], rank);
  }

  lemma SortedDistinct(kept: seq<Host>, rank: Host -> real)
    requires DistinctHosts(kept)
    ensures DistinctHosts(Sort(kept, rank))
  {
    SortIsSortedPermutation(kept, rank);
    var s := Sort(kept, rank);
    NoRepeats(kept);
    CountsGiveDistinct(s);
  }

  lemma {:induction false} CountsGiveDistinct(s: seq<Host>)
    requires forall h :: multiset(s)[h] <= 1
    ensures DistinctHosts(s)
  {
    if s != [] {
      assert s == [s[0]] + s[1..];
      assert multiset(s) == multiset{s[0]} + multiset(s[1..]);
      forall h ensures multiset(s[1..])[h] <= 1 { assert multiset(s)[h] <= 1; }
      CountsGiveDistinct(s[1..]);
      assert multiset(s)[s[0]] <= 1;
      assert s[0] !in multiset(s[1..]);
    }
  }

  lemma {:induction false} NoRepeats(s: seq<Host>)
    requires DistinctHosts(s)
    ensures forall h :: multiset(s)[h] <= 1
  {
    if s != [] {
      NoRepeats(s[1..]);
      assert s == [s[0]] + s[1..];
      assert s[0] !in s[1..];
    }
  }

  // ----- the overview

  /** One row of the report; `key` is the lower-case value the PHP array is indexed by. */
  datatype Row = Row(key: string, inventoryField: string, hostCount: nat)

  /** The row with the given key, or the number of rows if there is none. */
  function FindRow(report: seq<Row>, key: string): (at: nat)
    ensures at <= |report|
    ensures at < |report| ==> report[at].key == key
    ensures forall i :: 0 <= i < at ==> report[i].key != key
  {
    if report == [] || report[0].key == key then 0 else 1 + FindRow(report[1..], key)
  }

  function TotalCount(report: seq<Row>): nat {
    if report == [] then 0 else report[0].hostCount + TotalCount(report[1..])
  }

  function NonEmpty(hosts: seq<Host>): nat {
    if hosts == [] then 0 else (if hosts[0].value != "" then 1 else 0) + NonEmpty(hosts[1..])
  }

  predicate DistinctRows(report: seq<Row>) {
    forall i, j :: 0 <= i < j < |report| ==> report[i].key != report[j].key
  }

  /** A row shows the first spelling of a value, and its count is the number of hosts that the exact filter of
      the list, which the row links to, keeps for the value shown. */
  ghost predicate RowIsExact(row: Row, hosts: seq<Host>, lower: string -> string) {
    && row.inventoryField != "" && row.key == lower(row.inventoryField)
    && IsFirst(hosts, row.inventoryField, lower)
    && row.hostCount == |ExactMatches(hosts, row.inventoryField, lower)|
  }

  /** `value` is the first of its spellings among the hosts' values. */
  ghost predicate IsFirst(hosts: seq<Host>, value: string, lower: string -> string) {
    exists i :: 0 <= i < |hosts| && hosts[i].value == value
                && forall j :: 0 <= j < i ==> lower(hosts[j].value) != lower(value)
  }

  /** Each value (in any letter case) has one row; every row counts the hosts its drill-down link
      shows, and the counts add up to the hosts with a value. */
  ghost predicate ReportOf(report: seq<Row>, hosts: seq<Host>, lower: string -> string) {
    && DistinctRows(report)
    && (forall i :: 0 <= i < |report| ==> RowIsExact(report[i], hosts, lower))
    && (forall h :: h in hosts && h.value != "" ==> HasRow(report, lower(h.value)))
    && TotalCount(report) == NonEmpty(hosts)
  }

  ghost predicate HasRow(report: seq<Row>, key: string) {
    exists i :: 0 <= i < |report| && report[i].key == key
  }

  lemma {:induction false} TotalCountUpdate(report: seq<Row>, at: nat, row: Row)
    requires at < |report|
    ensures TotalCount(report[at := row]) == TotalCount(report) - report[at].hostCount + row.hostCount
  {
    if at == 0 {
      assert report[0 := row][1..] == report[1..];
    } else {
      TotalCountUpdate(report[1..], at - 1, row);
      assert report[at := row][1..] == report[1..][at - 1 := row];
    }
  }

  lemma {:induction false} TotalCountAppend(report: seq<Row>, row: Row)
    ensures TotalCount(report + [row]) == TotalCount(report) + row.hostCount
  {
    if report == [] {
      assert report + [row] == [row];
    } else {
      TotalCountAppend(report[1..], row);
      assert (report + [row])[1..] == report[1..] + [row];
    }
  }

  lemma {:induction false} AppendHost(hosts: seq<Host>, h: Host)
    ensures NonEmpty(hosts + [h]) == NonEmpty(hosts) + (if h.value != "" then 1 else 0)
  {
    if hosts == [] {
      assert hosts + [h] == [h];
    } else {
      AppendHost(hosts[1..], h);
      assert (hosts + [h])[1..] == hosts[1..] + [h];
    }
  }

  lemma {:induction false} NoMatches(hosts: seq<Host>, needle: string, lower: string -> string)
    requires forall h :: h in hosts ==> lower(h.value) != lower(needle)
    ensures ExactMatches(hosts, needle, lower) == []
  {
    if hosts != [] { NoMatches(hosts[1..], needle, lower); }
  }

  /** Lower-casing never empties a value, as mb_strtolower does not. */
  ghost predicate KeepsNonEmpty(lower: string -> string) {
    forall v :: v != "" ==> lower(v) != lower("")
  }

  method Overview(hosts: seq<Host>, lower: string -> string) returns (report: seq<Row>)
    requires KeepsNonEmpty(lower)
    ensures ReportOf(report, hosts, lower)
  {
    hide ReportOf;
    report := [];
    EmptyReport(lower);
    for n := 0 to |hosts|
      invariant ReportOf(report, hosts[..n], lower)
    {
      var host := hosts[n];
      assert hosts[..n + 1] == hosts[..n] + [host];
      if host.value != "" {
        var lowerValue := lower(host.value);
        var at := FindRow(report, lowerValue);
        if at == |report| {
          NewValue(report, hosts[..n], host, lower);
          report := report + [Row(lowerValue, host.value, 1)];
        } else {
          KnownValue(report, hosts[..n], host, at, lower);
          report := report[at := report[at].(hostCount := report[at].hostCount + 1)];
        }
      } else {
        NoValue(report, hosts[..n], host, lower);
      }
    }
    assert hosts[..|hosts|] == hosts;
  }

  lemma EmptyReport(lower: string -> string)
    ensures ReportOf([], [], lower)
  {
  }

  /** What one more host does to a row. */
  lemma RowStep(row: Row, hosts: seq<Host>, host: Host, lower: string -> string)
    requires RowIsExact(row, hosts, lower)
    ensures RowIsExact(if row.key == lower(host.value) then row.(hostCount := row.hostCount + 1) else row,
                       hosts + [host], lower)
  {
    ExactMatchesAppend(hosts, host, row.inventoryField, lower);
    var i :| 0 <= i < |hosts| && hosts[i].value == row.inventoryField
             && forall j :: 0 <= j < i ==> lower(hosts[j].value) != lower(row.inventoryField);
    assert (hosts + [host])[i] == hosts[i];
  }

  lemma NoValue(report: seq<Row>, hosts: seq<Host>, host: Host, lower: string -> string)
    requires ReportOf(report, hosts, lower) && host.value == "" && KeepsNonEmpty(lower)
    ensures ReportOf(report, hosts + [host], lower)
  {
    AppendHost(hosts, host);
    forall i | 0 <= i < |report| ensures RowIsExact(report[i], hosts + [host], lower) {
      RowStep(report[i], hosts, host, lower);
    }
  }

  lemma KnownValue(report: seq<Row>, hosts: seq<Host>, host: Host, at: nat, lower: string -> string)
    requires ReportOf(report, hosts, lower) && host.value != ""
    requires at < |report| && report[at].key == lower(host.value)
    ensures ReportOf(report[at := report[at].(hostCount := report[at].hostCount + 1)], hosts + [host], lower)
  {
    hide RowIsExact, ExactMatches, NonEmpty, TotalCount;
    var after := report[at := report[at].(hostCount := report[at].hostCount + 1)];
    AppendHost(hosts, host);
    TotalCountUpdate(report, at, after[at]);
    forall i | 0 <= i < |after| ensures RowIsExact(after[i], hosts + [host], lower) {
      RowStep(report[i], hosts, host, lower);
    }
    forall h | h in hosts + [host] && h.value != "" ensures HasRow(after, lower(h.value)) {
      var i :| 0 <= i < |report| && report[i].key == lower(h.value);
      assert after[i].key == lower(h.value);
    }
  }

  lemma NewValue(report: seq<Row>, hosts: seq<Host>, host: Host, lower: string -> string)
    requires ReportOf(report, hosts, lower) && host.value != "" && KeepsNonEmpty(lower)
    requires forall i :: 0 <= i < |report| ==> report[i].key != lower(host.value)
    ensures ReportOf(report + [Row(lower(host.value), host.value, 1)], hosts + [host], lower)
  {
    hide ExactMatches, NonEmpty, TotalCount;
    var row := Row(lower(host.value), host.value, 1);
    var after := report + [row];
    AppendHost(hosts, host);
    TotalCountAppend(report, row);
    forall h | h in hosts ensures lower(h.value) != lower(host.value) {
      if h.value != "" { assert HasRow(report, lower(h.value)); }
    }
    NoMatches(hosts, host.value, lower);
    ExactMatchesAppend(hosts, host, host.value, lower);
    assert host in hosts + [host];
    forall i | 0 <= i < |report| ensures RowIsExact(after[i], hosts + [host], lower) {
      RowStep(report[i], hosts, host, lower);
    }
    forall h | h in hosts + [host] && h.value != "" ensures HasRow(after, lower(h.value)) {
      if h in hosts {
        var i :| 0 <= i < |report| && report[i].key == lower(h.value);
        assert after[i].key == lower(h.value);
      } else {
        assert after[|report|].key == lower(h.value);
      }
    }
  }
}
