/** The action log (ui/auditacts.php): alerts of every event source are fetched separately, newest
    first and cut at the search limit plus one, then merged, sorted and cut again. */
module AlertStream {
  import opened StableSort

  /** An alert belongs to the event source and object of its event; `alertid` is its primary key. */
  datatype Alert = Alert(alertid: nat, source: nat, obj: nat)

  datatype EventSource = EventSource(source: nat, obj: nat)

  const EVENT_SOURCE_TRIGGERS := 0
  const EVENT_SOURCE_DISCOVERY := 1
  const EVENT_SOURCE_AUTOREGISTRATION := 2
  const EVENT_SOURCE_INTERNAL := 3
  const EVENT_OBJECT_TRIGGER := 0
  const EVENT_OBJECT_DHOST := 1
  const EVENT_OBJECT_DSERVICE := 2
  const EVENT_OBJECT_AUTOREGHOST := 3
  const EVENT_OBJECT_ITEM := 4
  const EVENT_OBJECT_LLDRULE := 5

  const EVENT_SOURCE_OBJECTS: seq<EventSource> := [
    EventSource(EVENT_SOURCE_TRIGGERS, EVENT_OBJECT_TRIGGER),
    EventSource(EVENT_SOURCE_DISCOVERY, EVENT_OBJECT_DHOST),
    EventSource(EVENT_SOURCE_DISCOVERY, EVENT_OBJECT_DSERVICE),
    EventSource(EVENT_SOURCE_AUTOREGISTRATION, EVENT_OBJECT_AUTOREGHOST),
    EventSource(EVENT_SOURCE_INTERNAL, EVENT_OBJECT_TRIGGER),
    EventSource(EVENT_SOURCE_INTERNAL, EVENT_OBJECT_ITEM),
    EventSource(EVENT_SOURCE_INTERNAL, EVENT_OBJECT_LLDRULE)
  ]

  /** Descending alert ids: the sort key is the negated id. */
  function Newest(a: Alert): real { -(a.alertid as real) }

  predicate DistinctIds(alerts: seq<Alert>) {
    forall i, j :: 0 <= i < j < |alerts| ==> alerts[i].alertid != alerts[j].alertid
  }

  function Of(a: Alert): EventSource { EventSource(a.source, a.obj) }

  /** The rows of `table` (already restricted to the users and period asked for) whose event has one
      of the given sources. */
  function Matching(table: seq<Alert>, sources: seq<EventSource>): seq<Alert> {
    if table == [] then []
    else (if Of(table[0]) in sources then [table[0]] else []) + Matching(table[1..], sources)
  }

  /** API::Alert()->get with `sortfield` alertid, `sortorder` down and a `limit`. */
  function FetchNewest(table: seq<Alert>, source: EventSource, limit: nat): seq<Alert> {
    Take(Sort(Matching(table, [source]), Newest), limit)
  }

  /** The newest `limit` of all alerts of all sources: what the page means to list. */
  function NewestOf(table: seq<Alert>, sources: seq<EventSource>, limit: nat): seq<Alert> {
    Take(Sort(Matching(table, sources), Newest), limit)
  }

  /** Fetching a truncated stream per source loses nothing: the merged, sorted and cut list is the
      newest `searchLimit + 1` of all alerts, for any event sources and any limit. */
  method MergedAlerts(table: seq<Alert>, sources: seq<EventSource>, searchLimit: nat)
    returns (alerts: seq<Alert>)
    requires DistinctIds(table)
    requires forall i, j :: 0 <= i < j < |sources| ==> sources[i] != sources[j]
    ensures alerts == NewestOf(table, sources, searchLimit + 1)
  {
    alerts := [];
    MatchingNone(table);
    for i := 0 to |sources|
      invariant forall a :: a in alerts ==> a in Matching(table, sources[..i])
      invariant DistinctIds(alerts)
      invariant Take(Sort(alerts, Newest), searchLimit + 1) == NewestOf(table, sources[..i], searchLimit + 1)
    {
      MergeStep(table, sources[..i], sources[i], alerts, searchLimit + 1);
      alerts := alerts + FetchNewest(table, sources[i], searchLimit + 1);
      assert sources[..i] + [sources[i]] == sources[..i + 1];
    }
    assert sources[..|sources|] == sources;
    alerts := Sort(alerts, Newest);
    alerts := Take(alerts, searchLimit + 1);
  }

  /** A matching alert is left out only when the list is full, and then every listed alert is newer. */
  lemma ListedAreNewest(table: seq<Alert>, sources: seq<EventSource>, limit: nat, b: Alert)
    requires DistinctIds(table)
    requires b in Matching(table, sources) && b !in NewestOf(table, sources, limit)
    ensures |NewestOf(table, sources, limit)| == limit
    ensures forall a :: a in NewestOf(table, sources, limit) ==>
      a in table && Of(a) in sources && a.alertid > b.alertid
  {
    hide Sort, Matching;
    var all := Matching(table, sources);
    var sorted := Sort(all, Newest);
    SortIsSortedPermutation(all, Newest);
    MatchingIs(table, sources);
    assert multiset(all)[b] > 0 && multiset(sorted)[b] > 0;
    var j :| 0 <= j < |sorted| && sorted[j] == b;
    assert forall k :: 0 <= k < |Take(sorted, limit)| ==> Take(sorted, limit)[k] == sorted[k];
    assert |Take(sorted, limit)| <= j;
    forall a | a in Take(sorted, limit) ensures a in table && Of(a) in sources && a.alertid > b.alertid {
      var i :| 0 <= i < |Take(sorted, limit)| && Take(sorted, limit)[i] == a;
      ListedBefore(table, all, sorted, i, j);
    }
  }

  lemma ListedBefore(table: seq<Alert>, all: seq<Alert>, sorted: seq<Alert>, i: nat, j: nat)
    requires DistinctIds(table) && (forall a :: a in all ==> a in table)
    requires SortedBy(sorted, Newest) && multiset(sorted) == multiset(all) && i < j < |sorted| && sorted[i] != sorted[j]
    ensures sorted[i] in all && sorted[i].alertid > sorted[j].alertid
  {
    assert sorted[i] in multiset(sorted) && sorted[j] in multiset(sorted);
    assert sorted[i] in multiset(all) && sorted[j] in multiset(all);
    assert sorted[i] in table && sorted[j] in table;
    var p :| 0 <= p < |table| && table[p] == sorted[i];
    var q :| 0 <= q < |table| && table[q] == sorted[j];
    assert Newest(sorted[i]) <= Newest(sorted[j]);
  }

  lemma SourceObjectsDistinct()
    ensures EVENT_SOURCE_OBJECTS == [EventSource(0, 0), EventSource(1, 1), EventSource(1, 2), EventSource(2, 3),
                                     EventSource(3, 0), EventSource(3, 4), EventSource(3, 5)]
    ensures forall i, j :: 0 <= i < j < |EVENT_SOURCE_OBJECTS| ==>
      EVENT_SOURCE_OBJECTS[i] != EVENT_SOURCE_OBJECTS[j]
  {
  }

  // ----- proof steps

  lemma {:induction false} MatchingIs(table: seq<Alert>, sources: seq<EventSource>)
    ensures forall a :: a in Matching(table, sources) <==>
      a in table && Of(a) in sources
    ensures DistinctIds(table) ==> DistinctIds(Matching(table, sources))
  {
    if table != [] {
      MatchingIs(table[1..], sources);
      assert table == [table[0]] + table[1..];
      assert DistinctIds(table) ==> DistinctIds(table[1..]);
      var rest := Matching(table[1..], sources);
      if DistinctIds(table) {
        forall i | 0 <= i < |rest| ensures rest[i].alertid != table[0].alertid {
          assert rest[i] in table[1..];
          var j :| 0 <= j < |table[1..]| && table[1..][j] == rest[i];
          assert table[j + 1] == rest[i];
        }
      }
    }
  }

  lemma {:induction false} MatchingNone(table: seq<Alert>)
    ensures Matching(table, []) == []
  {
    if table != [] { MatchingNone(table[1..]); }
  }

  /** The alerts of the sources so far and of one more are together those of both. */
  lemma {:induction false} MatchingSplit(table: seq<Alert>, sources: seq<EventSource>, source: EventSource)
    requires source !in sources
    ensures multiset(Matching(table, sources + [source]))
         == multiset(Matching(table, sources)) + multiset(Matching(table, [source]))
  {
    if table != [] {
      MatchingSplit(table[1..], sources, source);
      assert forall a: Alert :: Of(a) in sources + [source] <==> Of(a) in sources || Of(a) == source;
    }
  }

  lemma SwapStreams(a: seq<Alert>, b: seq<Alert>)
    requires DistinctIds(a + b)
    ensures Sort(a + b, Newest) == Sort(b + a, Newest)
  {
    assert multiset(a + b) == multiset(b + a);
    SortIgnoresOrder(a + b, b + a, Newest);
  }

  /** Cut the new stream, then the old one. */
  lemma MergeCut(alerts: seq<Alert>, all: seq<Alert>, more: seq<Alert>, limit: nat)
    requires DistinctIds(alerts + more) && DistinctIds(all + more)
    requires Take(Sort(alerts, Newest), limit) == Take(Sort(all, Newest), limit)
    ensures Take(Sort(alerts + Take(Sort(more, Newest), limit), Newest), limit)
         == Take(Sort(all + more, Newest), limit)
  {
    TakeSortAppend(alerts, more, Newest, limit);
    SwapStreams(alerts, more);
    TakeSortAppend(more, alerts, Newest, limit);
    TakeSortAppend(more, all, Newest, limit);
    SwapStreams(all, more);
  }

  /** One iteration of the fetch loop. */
  lemma MergeStep(table: seq<Alert>, sources: seq<EventSource>, source: EventSource, alerts: seq<Alert>, limit: nat)
    requires DistinctIds(table) && source !in sources
    requires forall a :: a in alerts ==> a in Matching(table, sources)
    requires DistinctIds(alerts)
    requires Take(Sort(alerts, Newest), limit) == NewestOf(table, sources, limit)
    ensures forall a :: a in alerts + FetchNewest(table, source, limit) ==>
      a in Matching(table, sources + [source])
    ensures DistinctIds(alerts + FetchNewest(table, source, limit))
    ensures Take(Sort(alerts + FetchNewest(table, source, limit), Newest), limit)
         == NewestOf(table, sources + [source], limit)
  {
    MergeMembers(table, sources, source, alerts, limit);
    var more := Matching(table, [source]);
    var all := Matching(table, sources);
    MatchingIs(table, sources);
    MatchingIs(table, [source]);
    DisjointSourcesDistinct(table, sources, source, alerts, more);
    DisjointSourcesDistinct(table, sources, source, all, more);
    MergeCut(alerts, all, more, limit);
    MatchingSplit(table, sources, source);
    assert multiset(all + more) == multiset(Matching(table, sources + [source]));
    SortIgnoresOrder(all + more, Matching(table, sources + [source]), Newest);
  }

  lemma MergeMembers(table: seq<Alert>, sources: seq<EventSource>, source: EventSource, alerts: seq<Alert>, limit: nat)
    requires DistinctIds(table) && source !in sources
    requires forall a :: a in alerts ==> a in Matching(table, sources)
    requires DistinctIds(alerts)
    ensures forall a :: a in alerts + FetchNewest(table, source, limit) ==>
      a in Matching(table, sources + [source])
    ensures DistinctIds(alerts + FetchNewest(table, source, limit))
  {
    var more := Matching(table, [source]);
    var cut := FetchNewest(table, source, limit);
    MatchingIs(table, sources);
    MatchingIs(table, [source]);
    MatchingIs(table, sources + [source]);
    SortDistinct(more, Newest);
    SortIsSortedPermutation(more, Newest);
    forall a | a in cut ensures a in more {
      assert a in Sort(more, Newest);
      assert a in multiset(Sort(more, Newest));
    }
    forall i, j | 0 <= i < j < |cut| ensures cut[i].alertid != cut[j].alertid {
      assert Newest(Sort(more, Newest)[i]) != Newest(Sort(more, Newest)[j]);
    }
    DisjointSourcesDistinct(table, sources, source, alerts, cut);
  }

  lemma DisjointSourcesDistinct(table: seq<Alert>, sources: seq<EventSource>, source: EventSource,
                                a: seq<Alert>, b: seq<Alert>)
    requires DistinctIds(table) && source !in sources
    requires DistinctIds(a) && forall x :: x in a ==> x in Matching(table, sources)
    requires DistinctIds(b) && forall x :: x in b ==> x in Matching(table, [source])
    ensures DistinctIds(a + b)
  {
    MatchingIs(table, sources);
    MatchingIs(table, [source]);
    forall i, j | 0 <= i < |a| && 0 <= j < |b| ensures a[i].alertid != b[j].alertid {
      assert a[i] in table && b[j] in table;
      var p :| 0 <= p < |table| && table[p] == a[i];
      var q :| 0 <= q < |table| && table[q] == b[j];
      assert p != q;
    }
  }

  /** The list holds as many alerts as there are, up to the limit, each once and newest first; all of them
      are in the table and of one of the sources. */
  lemma ListIsDescending(table: seq<Alert>, sources: seq<EventSource>, limit: nat)
    requires DistinctIds(table)
    ensures var list := NewestOf(table, sources, limit);
      && |list| == (if |Matching(table, sources)| < limit then |Matching(table, sources)| else limit)
      && (forall i, j :: 0 <= i < j < |list| ==> list[i].alertid > list[j].alertid)
      && forall a :: a in list ==> a in table && EventSource(a.source, a.obj) in sources
  {
    hide Sort, Matching;
    var all := Matching(table, sources);
    var sorted := Sort(all, Newest);
    SortIsSortedPermutation(all, Newest);
    MatchingIs(table, sources);
    SortDistinct(all, Newest);
    forall i, j | 0 <= i < j < |sorted| ensures sorted[i].alertid > sorted[j].alertid {
      assert Newest(sorted[i]) <= Newest(sorted[j]) && Newest(sorted[i]) != Newest(sorted[j]);
    }
    forall a | a in Take(sorted, limit) ensures a in table && EventSource(a.source, a.obj) in sources {
      assert a in sorted && a in multiset(sorted) && a in multiset(all);
      assert a in all;
    }
  }

  /** Every alert of the table whose event is of one of the sources competes for the list. */
  lemma MatchingAre(table: seq<Alert>, sources: seq<EventSource>, a: Alert)
    ensures a in Matching(table, sources) <==>
      a in table && EventSource(a.source, a.obj) in sources
  {
    MatchingIs(table, sources);
  }
}
