/** The operation editor of actions (ui/actionconf.php, the add_operation branch).

    Five operation types may occur once only.  Operations are a PHP array, a list of entries with
    distinct integer keys; an operation that is edited carries the key of its entry. */
module ActionOperations {
  import opened Wrappers
  import opened StableSort

  const OPERATION_TYPE_HOST_ADD := 2
  const OPERATION_TYPE_HOST_REMOVE := 3
  const OPERATION_TYPE_HOST_ENABLE := 8
  const OPERATION_TYPE_HOST_DISABLE := 9
  const OPERATION_TYPE_HOST_INVENTORY := 10
  const EVENT_SOURCE_TRIGGERS := 0
  const EVENT_SOURCE_INTERNAL := 3

  const UNIQUE_TYPES: set<nat> := {
    OPERATION_TYPE_HOST_ADD, OPERATION_TYPE_HOST_REMOVE, OPERATION_TYPE_HOST_ENABLE,
    OPERATION_TYPE_HOST_DISABLE, OPERATION_TYPE_HOST_INVENTORY
  }

  /** `details` stands for everything but the type. */
  datatype Operation = Operation(operationtype: nat, details: string)

  datatype Entry = Entry(id: nat, op: Operation)

  /** `valid` is the verdict of validateOperationsIntegrity. */
  datatype Request = Request(op: Operation, id: Option<nat>, eventsource: nat, valid: bool)

  function CountIf(entries: seq<Entry>, p: Entry -> bool): nat {
    if entries == [] then 0 else (if p(entries[0]) then 1 else 0) + CountIf(entries[1..], p)
  }

  function HasType(t: nat): Entry -> bool { (e: Entry) => e.op.operationtype == t }

  function HasId(id: nat): Entry -> bool { (e: Entry) => e.id == id }

  /** The entries other than the one being edited that have type `t`. */
  function Rival(t: nat, id: Option<nat>): Entry -> bool {
    (e: Entry) => e.op.operationtype == t && (id.None? || e.id != id.value)
  }

  ghost predicate DistinctIds(entries: seq<Entry>) { forall id :: CountIf(entries, HasId(id)) <= 1 }

  /** Each of the five types occurs at most once. */
  ghost predicate UniqueOnce(entries: seq<Entry>) {
    forall t :: t in {2, 3, 8, 9, 10} ==> CountIf(entries, HasType(t)) <= 1
  }

  /** The position of the entry with key `id`, or the number of entries. */
  function FindId(entries: seq<Entry>, id: nat): (at: nat)
    ensures at <= |entries|
    ensures at < |entries| ==> entries[at].id == id
    ensures forall i :: 0 <= i < at ==> entries[i].id != id
  {
    if entries == [] || entries[0].id == id then 0 else 1 + FindId(entries[1..], id)
  }

  /** The key of `$array[] = ...`: one more than the largest key. */
  function NextKey(entries: seq<Entry>): nat {
    if entries == [] then 0
    else
      var rest := NextKey(entries[1..]);
      if entries[0].id + 1 > rest then entries[0].id + 1 else rest
  }

  function Placed(entries: seq<Entry>, op: Operation, id: Option<nat>): seq<Entry> {
    if id.None? then entries + [Entry(NextKey(entries), op)]
    else
      var at := FindId(entries, id.value);
      if at < |entries| then entries[at := Entry(id.value, op)] else entries + [Entry(id.value, op)]
  }

  function Renumbered(entries: seq<Entry>): seq<Entry> {
    seq(|entries|, i requires 0 <= i < |entries| => Entry(i, entries[i].op))
  }

  /** `rank` is the order of escalation steps, intervals and types. */
  function ByRank(rank: Operation -> real): Entry -> real { (e: Entry) => rank(e.op) }

  function ByType(): Entry -> real { (e: Entry) => e.op.operationtype as real }

  /** sortOperations: array_multisort numbers the entries anew, CArrayHelper::sort keeps their keys. */
  function SortOperations(eventsource: nat, entries: seq<Entry>, rank: Operation -> real): seq<Entry> {
    if eventsource == EVENT_SOURCE_TRIGGERS || eventsource == EVENT_SOURCE_INTERNAL
    then Renumbered(Sort(entries, ByRank(rank))) else Sort(entries, ByType())
  }

  /** A request is refused when it is invalid or repeats one of the five types. */
  predicate Refused(entries: seq<Entry>, r: Request) {
    !r.valid || (r.op.operationtype in UNIQUE_TYPES && exists e :: e in entries && Rival(r.op.operationtype, r.id)(e))
  }

  function Step(entries: seq<Entry>, r: Request, rank: Operation -> real): seq<Entry> {
    if Refused(entries, r) then entries else SortOperations(r.eventsource, Placed(entries, r.op, r.id), rank)
  }

  class OperationsForm {
    var operations: seq<Entry>

    constructor ()
      ensures operations == []
    {
      operations := [];
    }

    method AddOperation(r: Request, rank: Operation -> real) returns (accepted: bool)
      modifies this
      ensures accepted <==> !Refused(old(operations), r)
      ensures operations == Step(old(operations), r, rank)
    {
      accepted := false;
      if r.valid {
        var uniqOperations := map t | t in UNIQUE_TYPES :: 0;
        var result := true;
        var t := r.op.operationtype;
        if t in uniqOperations {
          uniqOperations := uniqOperations[t := uniqOperations[t] + 1];
          for i := 0 to |operations|
            invariant operations == old(operations)
            invariant uniqOperations.Keys == UNIQUE_TYPES
            invariant uniqOperations[t] == 1 + CountIf(operations[..i], Rival(t, r.id))
          {
            var entry := operations[i];
            CountAppend(operations[..i], entry, Rival(t, r.id));
            assert operations[..i] + [entry] == operations[..i + 1];
            if entry.op.operationtype in uniqOperations && (r.id.None? || r.id.value != entry.id) {
              uniqOperations := uniqOperations[entry.op.operationtype := uniqOperations[entry.op.operationtype] + 1];
            }
          }
          assert operations[..|operations|] == operations;
          CountPositive(operations, Rival(t, r.id));
          if uniqOperations[t] > 1 {
            result := false;
          }
        }
        if result {
          if r.id.Some? {
            var at := FindId(operations, r.id.value);
            operations := if at < |operations| then operations[at := Entry(r.id.value, r.op)]
                          else operations + [Entry(r.id.value, r.op)];
          } else {
            operations := operations + [Entry(NextKey(operations), r.op)];
          }
          operations := SortOperations(r.eventsource, operations, rank);
          accepted := true;
        }
      }
    }
  }

  // ----- counting

  lemma {:induction false} CountAppend(a: seq<Entry>, e: Entry, p: Entry -> bool)
    ensures CountIf(a + [e], p) == CountIf(a, p) + (if p(e) then 1 else 0)
  {
    if a == [] {
      assert a + [e] == [e];
    } else {
      CountAppend(a[1..], e, p);
      assert (a + [e])[1..] == a[1..] + [e];
    }
  }

  lemma {:induction false} CountPositive(a: seq<Entry>, p: Entry -> bool)
    ensures CountIf(a, p) > 0 <==> exists e :: e in a && p(e)
  {
    if a != [] {
      CountPositive(a[1..], p);
      assert a == [a[0]] + a[1..];
    }
  }

  lemma {:induction false} CountUpdate(a: seq<Entry>, at: nat, e: Entry, p: Entry -> bool)
    requires at < |a|
    ensures CountIf(a[at := e], p) == CountIf(a, p) - (if p(a[at]) then 1 else 0) + (if p(e) then 1 else 0)
  {
    if at == 0 {
      assert a[0 := e][1..] == a[1..];
    } else {
      CountUpdate(a[1..], at - 1, e, p);
      assert a[at := e][1..] == a[1..][at - 1 := e];
    }
  }

  lemma {:induction false} CountInsert(e: Entry, a: seq<Entry>, key: Entry -> real, p: Entry -> bool)
    ensures CountIf(Insert(e, a, key), p) == CountIf(a, p) + (if p(e) then 1 else 0)
  {
    if a == [] || key(e) <= key(a[0]) {
      assert ([e] + a)[1..] == a;
    } else {
      CountInsert(e, a[1..], key, p);
      assert ([a[0]] + Insert(e, a[1..], key))[1..] == Insert(e, a[1..], key);
    }
  }

  lemma {:induction false} CountSort(a: seq<Entry>, key: Entry -> real, p: Entry -> bool)
    ensures CountIf(Sort(a, key), p) == CountIf(a, p)
  {
    if a != [] {
      CountSort(a[1..], key, p);
      CountInsert(a[0], Sort(a[1..], key), key, p);
    }
  }

  lemma {:induction false} CountRenumbered(a: seq<Entry>, b: seq<Entry>, t: nat)
    requires |a| == |b| && forall i :: 0 <= i < |a| ==> a[i].op == b[i].op
    ensures CountIf(a, HasType(t)) == CountIf(b, HasType(t))
  {
    if a != [] { CountRenumbered(a[1..], b[1..], t); }
  }

  lemma {:induction false} IdsByPosition(a: seq<Entry>)
    requires forall i, j :: 0 <= i < j < |a| ==> a[i].id != a[j].id
    ensures DistinctIds(a)
  {
    if a != [] {
      IdsByPosition(a[1..]);
      forall id ensures CountIf(a, HasId(id)) <= 1 {
        assert CountIf(a[1..], HasId(id)) <= 1;
        CountPositive(a[1..], HasId(id));
        assert forall e :: e in a[1..] ==> e.id != a[0].id;
      }
    }
  }

  // ----- one request

  lemma {:induction false} NextKeyIsNew(a: seq<Entry>)
    ensures forall e :: e in a ==> e.id < NextKey(a)
  {
    if a != [] {
      NextKeyIsNew(a[1..]);
      assert a == [a[0]] + a[1..];
    }
  }

  lemma PlacedKeepsIds(entries: seq<Entry>, op: Operation, id: Option<nat>)
    requires DistinctIds(entries)
    ensures DistinctIds(Placed(entries, op, id))
  {
    NextKeyIsNew(entries);
    var placed := Placed(entries, op, id);
    forall k ensures CountIf(placed, HasId(k)) <= 1 {
      assert CountIf(entries, HasId(k)) <= 1;
      CountPositive(entries, HasId(k));
      if id.None? {
        CountAppend(entries, Entry(NextKey(entries), op), HasId(k));
      } else {
        var at := FindId(entries, id.value);
        if at < |entries| {
          CountUpdate(entries, at, Entry(id.value, op), HasId(k));
        } else {
          CountAppend(entries, Entry(id.value, op), HasId(k));
        }
      }
    }
  }

  /** How placing an operation changes the number of operations of a type. */
  lemma PlacedCount(entries: seq<Entry>, op: Operation, id: Option<nat>, t: nat)
    ensures var edited := id.Some? && FindId(entries, id.value) < |entries|;
            CountIf(Placed(entries, op, id), HasType(t)) == CountIf(entries, HasType(t))
              + (if op.operationtype == t then 1 else 0)
              - (if edited && entries[FindId(entries, id.value)].op.operationtype == t then 1 else 0)
  {
    if id.Some? && FindId(entries, id.value) < |entries| {
      CountUpdate(entries, FindId(entries, id.value), Entry(id.value, op), HasType(t));
    } else {
      CountAppend(entries, Entry(if id.None? then NextKey(entries) else id.value, op), HasType(t));
    }
  }

  /** With distinct keys, the entries of a type are its rivals and the edited one. */
  lemma {:induction false} RivalCount(entries: seq<Entry>, t: nat, id: Option<nat>)
    requires id.Some? ==> CountIf(entries, HasId(id.value)) <= 1
    ensures var edited := id.Some? && FindId(entries, id.value) < |entries|;
            CountIf(entries, HasType(t)) == CountIf(entries, Rival(t, id))
              + (if edited && entries[FindId(entries, id.value)].op.operationtype == t then 1 else 0)
  {
    if entries != [] {
      if id.Some? && entries[0].id == id.value {
        CountPositive(entries[1..], HasId(id.value));
        NoneEdited(entries[1..], t, id);
      } else {
        RivalCount(entries[1..], t, id);
      }
    }
  }

  lemma {:induction false} NoneEdited(entries: seq<Entry>, t: nat, id: Option<nat>)
    requires id.Some? && forall e :: e in entries ==> e.id != id.value
    ensures CountIf(entries, HasType(t)) == CountIf(entries, Rival(t, id))
  {
    if entries != [] { NoneEdited(entries[1..], t, id); }
  }

  lemma SortKeeps(eventsource: nat, entries: seq<Entry>, rank: Operation -> real, t: nat)
    requires DistinctIds(entries)
    ensures DistinctIds(SortOperations(eventsource, entries, rank))
    ensures CountIf(SortOperations(eventsource, entries, rank), HasType(t)) == CountIf(entries, HasType(t))
  {
    var sorted := Sort(entries, ByRank(rank));
    CountSort(entries, ByRank(rank), HasType(t));
    CountRenumbered(Renumbered(sorted), sorted, t);
    IdsByPosition(Renumbered(sorted));
    CountSort(entries, ByType(), HasType(t));
    forall id ensures CountIf(Sort(entries, ByType()), HasId(id)) <= 1 { CountSort(entries, ByType(), HasId(id)); }
  }

  /** One request: accepted operations change the number of operations per type by the new one and the
      one edited, refused ones change nothing; each of the five types still occurs at most once. */
  lemma StepKeepsUnique(entries: seq<Entry>, r: Request, rank: Operation -> real)
    requires DistinctIds(entries) && UniqueOnce(entries)
    ensures DistinctIds(Step(entries, r, rank)) && UniqueOnce(Step(entries, r, rank))
    ensures !Refused(entries, r) && r.op.operationtype in {2, 3, 8, 9, 10} ==>
      CountIf(Step(entries, r, rank), HasType(r.op.operationtype)) == 1
    ensures !Refused(entries, r) && r.id.None? ==> forall t ::
      CountIf(Step(entries, r, rank), HasType(t)) == CountIf(entries, HasType(t))
        + if t == r.op.operationtype then 1 else 0
  {
    if !Refused(entries, r) {
      var placed := Placed(entries, r.op, r.id);
      PlacedKeepsIds(entries, r.op, r.id);
      CountPositive(entries, Rival(r.op.operationtype, r.id));
      RivalCount(entries, r.op.operationtype, r.id);
      forall t ensures CountIf(Step(entries, r, rank), HasType(t)) == CountIf(placed, HasType(t)) {
        SortKeeps(r.eventsource, placed, rank, t);
      }
      SortKeeps(r.eventsource, placed, rank, 0);
      forall t
        ensures t in UNIQUE_TYPES ==> CountIf(placed, HasType(t)) <= 1
        ensures t in UNIQUE_TYPES && t == r.op.operationtype ==> CountIf(placed, HasType(t)) == 1
        ensures r.id.None? ==>
          CountIf(placed, HasType(t)) == CountIf(entries, HasType(t)) + if t == r.op.operationtype then 1 else 0
      {
        PlacedCount(entries, r.op, r.id, t);
        RivalCount(entries, t, r.id);
      }
    }
  }

  function Run(entries: seq<Entry>, requests: seq<Request>, rank: Operation -> real): seq<Entry> {
    if requests == [] then entries
    else Step(Run(entries, requests[..|requests| - 1], rank), requests[|requests| - 1], rank)
  }

  /** Over every run of additions and edits each of the five types occurs at most once. */
  lemma {:induction false} RunKeepsUnique(entries: seq<Entry>, requests: seq<Request>, rank: Operation -> real)
    requires DistinctIds(entries) && UniqueOnce(entries)
    ensures DistinctIds(Run(entries, requests, rank)) && UniqueOnce(Run(entries, requests, rank))
  {
    if requests != [] {
      RunKeepsUnique(entries, requests[..|requests| - 1], rank);
      StepKeepsUnique(Run(entries, requests[..|requests| - 1], rank), requests[|requests| - 1], rank);
    }
  }

  // ----- the same in terms of entries

  /** The five types are 2, 3, 8, 9 and 10; a request of one of them is refused when another entry than
      the edited one has it, and invalid requests are refused. */
  lemma RefusedIs(entries: seq<Entry>, r: Request)
    ensures Refused(entries, r) <==>
      || !r.valid
      || (r.op.operationtype in {2, 3, 8, 9, 10}
          && exists e :: e in entries && e.op.operationtype == r.op.operationtype && r.id != Some(e.id))
  {
  }

  function Ops(entries: seq<Entry>): (ops: seq<Operation>)
    ensures |ops| == |entries| && forall i :: 0 <= i < |ops| ==>
      ops[i] == entries[i].op
  {
    seq(|entries|, i requires 0 <= i < |entries| => entries[i].op)
  }

  /** `ops` is the list of operations with `op` in place of the entry with the given key, or added to it. */
  predicate Replaces(ops: multiset<Operation>, entries: seq<Entry>, op: Operation, id: Option<nat>) {
    if exists i :: 0 <= i < |entries| && id == Some(entries[i].id)
    then exists i :: 0 <= i < |entries| && id == Some(entries[i].id)
                     && ops + multiset{entries[i].op} == multiset(Ops(entries)) + multiset{op}
    else ops == multiset(Ops(entries)) + multiset{op}
  }

  lemma PlacedReplaces(entries: seq<Entry>, op: Operation, id: Option<nat>)
    ensures Replaces(multiset(Ops(Placed(entries, op, id))), entries, op, id)
  {
    var placed := Placed(entries, op, id);
    if id.Some? && FindId(entries, id.value) < |entries| {
      var at := FindId(entries, id.value);
      assert Ops(placed) == Ops(entries)[at := op];
      assert entries[at].id == id.value;
    } else {
      assert Ops(placed) == Ops(entries) + [op];
      assert multiset(Ops(placed)) == multiset(Ops(entries)) + multiset{op};
    }
  }

  lemma OpsCons(e: Entry, rest: seq<Entry>)
    ensures multiset(Ops([e] + rest)) == multiset{e.op} + multiset(Ops(rest))
  {
    assert Ops([e] + rest) == [e.op] + Ops(rest);
  }

  lemma {:induction false} OpsInsert(e: Entry, a: seq<Entry>, key: Entry -> real)
    ensures multiset(Ops(Insert(e, a, key))) == multiset{e.op} + multiset(Ops(a))
  {
    if a == [] || key(e) <= key(a[0]) {
      OpsCons(e, a);
    } else {
      OpsInsert(e, a[1..], key);
      OpsCons(a[0], a[1..]);
      OpsCons(a[0], Insert(e, a[1..], key));
      assert a == [a[0]] + a[1..];
    }
  }

  lemma {:induction false} OpsSort(a: seq<Entry>, key: Entry -> real)
    ensures multiset(Ops(Sort(a, key))) == multiset(Ops(a))
  {
    if a != [] {
      OpsSort(a[1..], key);
      OpsInsert(a[0], Sort(a[1..], key), key);
      OpsCons(a[0], a[1..]);
      assert a == [a[0]] + a[1..];
    }
  }

  /** An accepted request puts its operation in place of the edited one, or adds it, loses none of the
      others, and leaves the list sorted: by escalation, with keys 0, 1, 2, ..., for triggers (0) and
      internal events (3), and by type otherwise.  A refused one changes nothing. */
  lemma StepIs(entries: seq<Entry>, r: Request, rank: Operation -> real)
    ensures Refused(entries, r) ==> Step(entries, r, rank) == entries
    ensures !Refused(entries, r) ==>
      Replaces(multiset(Ops(Step(entries, r, rank))), entries, r.op, r.id)
    ensures !Refused(entries, r) && (r.eventsource == 0 || r.eventsource == 3) ==>
      forall i, j :: 0 <= i < j < |Step(entries, r, rank)| ==>
        rank(Step(entries, r, rank)[i].op) <= rank(Step(entries, r, rank)[j].op)
    ensures !Refused(entries, r) && (r.eventsource == 0 || r.eventsource == 3) ==>
      forall i :: 0 <= i < |Step(entries, r, rank)| ==> Step(entries, r, rank)[i].id == i
    ensures !Refused(entries, r) && r.eventsource != 0 && r.eventsource != 3 ==>
      forall i, j :: 0 <= i < j < |Step(entries, r, rank)| ==>
        Step(entries, r, rank)[i].op.operationtype <= Step(entries, r, rank)[j].op.operationtype
  {
    hide Refused;
    if !Refused(entries, r) {
      var placed := Placed(entries, r.op, r.id);
      PlacedReplaces(entries, r.op, r.id);
      SortedIs(r.eventsource, placed, rank);
    }
  }

  lemma SortedIs(eventsource: nat, entries: seq<Entry>, rank: Operation -> real)
    ensures var sorted := SortOperations(eventsource, entries, rank);
      && multiset(Ops(sorted)) == multiset(Ops(entries))
      && (eventsource == 0 || eventsource == 3 ==>
            && (forall i, j :: 0 <= i < j < |sorted| ==> rank(sorted[i].op) <= rank(sorted[j].op))
            && (forall i :: 0 <= i < |sorted| ==> sorted[i].id == i))
      && (eventsource != 0 && eventsource != 3 ==>
            && multiset(sorted) == multiset(entries)
            && forall i, j :: 0 <= i < j < |sorted| ==> sorted[i].op.operationtype <= sorted[j].op.operationtype)
  {
    var ranked := Sort(entries, ByRank(rank));
    SortIsSortedPermutation(entries, ByRank(rank));
    OpsSort(entries, ByRank(rank));
    assert Ops(Renumbered(ranked)) == Ops(ranked);
    forall i, j | 0 <= i < j < |ranked| ensures rank(ranked[i].op) <= rank(ranked[j].op) {
      assert ByRank(rank)(ranked[i]) <= ByRank(rank)(ranked[j]);
    }
    SortIsSortedPermutation(entries, ByType());
    var typed := Sort(entries, ByType());
    OpsSort(entries, ByType());
    forall i, j | 0 <= i < j < |typed| ensures typed[i].op.operationtype <= typed[j].op.operationtype {
      assert ByType()(typed[i]) <= ByType()(typed[j]);
    }
  }

  /** Where keys are kept, every entry but the edited one is still there under its key, and a new one gets
      a key above all others. */
  lemma KeysKept(entries: seq<Entry>, r: Request, rank: Operation -> real, e: Entry)
    requires !Refused(entries, r) && r.eventsource != 0 && r.eventsource != 3
    requires e in entries && r.id != Some(e.id)
    ensures e in Step(entries, r, rank)
    ensures exists x :: x in Step(entries, r, rank) && x.op == r.op
                        && if r.id.Some? then x.id == r.id.value else x.id > e.id
  {
    var placed := Placed(entries, r.op, r.id);
    SortedIs(r.eventsource, placed, rank);
    var after := Step(entries, r, rank);
    assert after == SortOperations(r.eventsource, placed, rank);
    hide Step, Placed, SortOperations, Refused;
    forall x | x in placed ensures x in after { assert x in multiset(placed) && x in multiset(after); }
    PlacedHas(entries, r.op, r.id, e);
  }

  lemma PlacedHas(entries: seq<Entry>, op: Operation, id: Option<nat>, e: Entry)
    requires e in entries && id != Some(e.id)
    ensures e in Placed(entries, op, id)
    ensures exists x ::
      x in Placed(entries, op, id) && x.op == op && if id.Some? then x.id == id.value else x.id > e.id
  {
    var placed := Placed(entries, op, id);
    NextKeyIsNew(entries);
    var k :| 0 <= k < |entries| && entries[k] == e;
    assert placed[k] == e;
    var at := if id.None? then |entries| else FindId(entries, id.value);
    assert placed[at].op == op && (id.Some? ==> placed[at] == Entry(id.value, op));
    assert placed[at] in placed;
  }
}
