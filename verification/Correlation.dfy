/** The condition editor of event correlation rules (ui/correlation.php, the add_condition branch). */
module Correlation {
  import opened FormulaIds
  import opened Conditions

  /** The fields by which two conditions of one type are the same. */
  datatype Key =
    | OldEventTag(tag: string)
    | NewEventTag(tag: string)
    | NewEventHostGroup(groupid: nat)
    | EventTagPair(oldtag: string, newtag: string)
    | OldEventTagValue(tag: string, value: string)
    | NewEventTagValue(tag: string, value: string)

  /** A new condition as posted: a host group condition carries a list of group ids. */
  datatype NewCondition =
    | Single(key: Key, operator: nat)
    | HostGroups(groupids: seq<nat>, operator: nat)

  function Same(key: Key): Key { key }

  /** Tags must not be empty and group ids not zero. */
  predicate ValidKey(key: Key) {
    match key
    case OldEventTag(tag) => tag != ""
    case NewEventTag(tag) => tag != ""
    case NewEventHostGroup(groupid) => groupid != 0
    case EventTagPair(oldtag, newtag) => oldtag != "" && newtag != ""
    case OldEventTagValue(tag, _) => tag != ""
    case NewEventTagValue(tag, _) => tag != ""
  }

  function GroupKeys(groupids: seq<nat>): seq<Key> {
    if groupids == [] then [] else [NewEventHostGroup(groupids[0])] + GroupKeys(groupids[1..])
  }

  function RequestedKeys(request: NewCondition): seq<Key> {
    match request
    case Single(key, _) => [key]
    case HostGroups(groupids, _) => GroupKeys(groupids)
  }

  predicate Known(conditions: seq<Condition<Key>>, key: Key) {
    exists i :: 0 <= i < |conditions| && conditions[i].key == key
  }

  /** The keys to add: valid and not yet there, in the order requested. */
  function Fresh(conditions: seq<Condition<Key>>, keys: seq<Key>): seq<Key> {
    if keys == [] then []
    else
      var rest := Fresh(conditions, keys[1..]);
      if ValidKey(keys[0]) && !Known(conditions, keys[0]) then [keys[0]] + rest else rest
  }

  function Added(conditions: seq<Condition<Key>>, request: NewCondition): seq<Condition<Key>>
    requires AllIds(Ids(conditions))
  {
    Extend(conditions, Fresh(conditions, RequestedKeys(request)), request.operator)
  }

  // ----- the editor

  /** The group ids other than `groupid`. */
  function Without(groupids: seq<nat>, groupid: nat): seq<nat> {
    if groupids == [] then []
    else
      var rest := Without(groupids[1..], groupid);
      if groupids[0] == groupid then rest else [groupids[0]] + rest
  }

  /** The group ids that no condition of the list has. */
  function Unknown(conditions: seq<Condition<Key>>, groupids: seq<nat>): seq<nat> {
    if conditions == [] then groupids
    else
      var n := |conditions| - 1;
      var rest := Unknown(conditions[..n], groupids);
      if conditions[n].key.NewEventHostGroup? then Without(rest, conditions[n].key.groupid) else rest
  }

  class CorrelationForm {
    var conditions: seq<Condition<Key>>

    constructor ()
      ensures conditions == []
    {
      conditions := [];
    }

    /** Drops from the new condition what the existing conditions already say. */
    method RemoveKnown(request: NewCondition) returns (rest: NewCondition, pending: bool)
      requires request.Single? ==> !request.key.NewEventHostGroup?
      ensures request.Single? ==> rest == request && (pending <==> !Known(conditions, request.key))
      ensures request.HostGroups? ==> rest == HostGroups(Unknown(conditions, request.groupids), request.operator)
      ensures request.HostGroups? && !pending ==> rest.groupids == []
    {
      rest, pending := request, true;
      for i := 0 to |conditions|
        invariant request.Single? ==> rest == request && (pending <==> !Known(conditions[..i], request.key))
        invariant request.HostGroups? ==>
          rest == HostGroups(Unknown(conditions[..i], request.groupids), request.operator)
        invariant request.HostGroups? && !pending ==> rest.groupids == []
      {
        assert conditions[..i + 1][..i] == conditions[..i];
        assert conditions[..i + 1][i] == conditions[i];
        if pending {
          match rest
          case Single(key, _) =>
            if conditions[i].key == key {
              pending := false;
            }
            assert Known(conditions[..i + 1], key) <==> conditions[i].key == key;
          case HostGroups(groupids, operator) =>
            if conditions[i].key.NewEventHostGroup? {
              rest := HostGroups(Without(groupids, conditions[i].key.groupid), operator);
              if rest.groupids == [] {
                pending := false;
              }
            }
        } else {
          assert request.Single? ==> Known(conditions[..i + 1], request.key) by {
            if request.Single? {
              var k :| 0 <= k < i && conditions[..i][k].key == request.key;
              assert conditions[..i + 1][k].key == request.key;
            }
          }
        }
      }
      assert conditions[..|conditions|] == conditions;
    }

    /** Appends one condition per valid group id; `formulaid` is the id reserved for the first. */
    method AddGroups(groupids: seq<nat>, operator: nat, firstFormulaid: string, usedFormulaids: seq<string>)
      requires AllIds(Ids(conditions)) && firstFormulaid == GetNextFormulaId(Ids(conditions))
      requires usedFormulaids == Ids(conditions) + [firstFormulaid]
      modifies this
      ensures conditions == Extend(old(conditions), NonZero(groupids), operator)
    {
      var formulaid, used := firstFormulaid, usedFormulaids;
      for g := 0 to |groupids|
        invariant AllIds(Ids(conditions))
        invariant formulaid == GetNextFormulaId(Ids(conditions)) && used == Ids(conditions) + [formulaid]
        invariant Extend(conditions, NonZero(groupids[g..]), operator) ==
          Extend(old(conditions), NonZero(groupids), operator)
      {
        assert groupids[g..][0] == groupids[g] && groupids[g..][1..] == groupids[g + 1..];
        if groupids[g] != 0 {
          ExtendOne(conditions, NewEventHostGroup(groupids[g]), NonZero(groupids[g + 1..]), operator);
          conditions := conditions + [Condition(NewEventHostGroup(groupids[g]), operator, formulaid)];
          assert used == Ids(conditions);
          formulaid := GetNextFormulaId(used);
          used := used + [formulaid];
        }
      }
      assert groupids[|groupids|..] == [];
    }

    method AddCondition(request: NewCondition)
      requires AllIds(Ids(conditions))
      requires request.Single? ==> !request.key.NewEventHostGroup?
      modifies this
      ensures conditions == Added(old(conditions), request)
    {
      NextIsNew(Ids(conditions));
      var used := Ids(conditions);
      var formulaid := GetNextFormulaId(used);
      used := used + [formulaid];
      var rest, pending := RemoveKnown(request);
      match rest {
        case Single(key, operator) =>
          ExtendSingle(conditions, key, operator);
          if pending && ValidKey(key) {
            conditions := conditions + [Condition(key, operator, formulaid)];
          }
        case HostGroups(groupids, operator) =>
          GroupsLeft(conditions, request.groupids);
          if pending {
            AddGroups(groupids, operator, formulaid, used);
          }
      }
    }
  }

  lemma ExtendSingle(conditions: seq<Condition<Key>>, key: Key, operator: nat)
    requires AllIds(Ids(conditions))
    ensures Added(conditions, Single(key, operator)) ==
      if ValidKey(key) && !Known(conditions, key)
      then conditions + [Condition(key, operator, GetNextFormulaId(Ids(conditions)))] else conditions
  {
    assert [key][1..] == [];
    assert Fresh(conditions, [key]) == if ValidKey(key) && !Known(conditions, key) then [key] else [];
    ExtendOne(conditions, key, [], operator);
    assert [key] + [] == [key];
  }

  /** The host group keys of the non-zero ids. */
  function NonZero(groupids: seq<nat>): seq<Key> {
    if groupids == [] then []
    else
      var rest := NonZero(groupids[1..]);
      if groupids[0] != 0 then [NewEventHostGroup(groupids[0])] + rest else rest
  }

  /** The ids whose group no condition has, in one pass over the ids. */
  function NotKnown(conditions: seq<Condition<Key>>, groupids: seq<nat>): seq<nat> {
    if groupids == [] then []
    else
      var rest := NotKnown(conditions, groupids[1..]);
      if Known(conditions, NewEventHostGroup(groupids[0])) then rest else [groupids[0]] + rest
  }

  lemma {:induction false} NotKnownStep(conditions: seq<Condition<Key>>, last: Condition<Key>, groupids: seq<nat>)
    ensures NotKnown(conditions + [last], groupids) ==
      if last.key.NewEventHostGroup? then Without(NotKnown(conditions, groupids), last.key.groupid)
      else NotKnown(conditions, groupids)
  {
    if groupids != [] {
      NotKnownStep(conditions, last, groupids[1..]);
      KnownAppend(conditions, last, NewEventHostGroup(groupids[0]));
      var rest := NotKnown(conditions, groupids[1..]);
      assert ([groupids[0]] + rest)[1..] == rest;
    }
  }

  lemma KnownAppend(conditions: seq<Condition<Key>>, last: Condition<Key>, key: Key)
    ensures Known(conditions + [last], key) <==>
      Known(conditions, key) || last.key == key
  {
    if i :| 0 <= i < |conditions| && conditions[i].key == key { assert (conditions + [last])[i].key == key; }
    if last.key == key { assert (conditions + [last])[|conditions|].key == key; }
  }

  lemma {:induction false} UnknownIs(conditions: seq<Condition<Key>>, groupids: seq<nat>)
    ensures Unknown(conditions, groupids) == NotKnown(conditions, groupids)
  {
    if conditions == [] {
      NotKnownEmpty(groupids);
    } else {
      var n := |conditions| - 1;
      UnknownIs(conditions[..n], groupids);
      NotKnownStep(conditions[..n], conditions[n], groupids);
      assert conditions[..n] + [conditions[n]] == conditions;
    }
  }

  lemma {:induction false} NotKnownEmpty(groupids: seq<nat>)
    ensures NotKnown([], groupids) == groupids
  {
    if groupids != [] { NotKnownEmpty(groupids[1..]); }
  }

  lemma {:induction false} FreshGroups(conditions: seq<Condition<Key>>, groupids: seq<nat>)
    ensures NonZero(NotKnown(conditions, groupids)) == Fresh(conditions, GroupKeys(groupids))
  {
    if groupids != [] {
      FreshGroups(conditions, groupids[1..]);
      var rest := NotKnown(conditions, groupids[1..]);
      assert ([groupids[0]] + rest)[1..] == rest;
      assert GroupKeys(groupids)[1..] == GroupKeys(groupids[1..]);
    }
  }

  lemma GroupsLeft(conditions: seq<Condition<Key>>, groupids: seq<nat>)
    ensures NonZero(Unknown(conditions, groupids)) == Fresh(conditions, GroupKeys(groupids))
  {
    UnknownIs(conditions, groupids);
    FreshGroups(conditions, groupids);
  }

  // ----- every edit and every run

  lemma {:induction false} FreshIs(conditions: seq<Condition<Key>>, keys: seq<Key>)
    ensures forall key :: key in Fresh(conditions, keys) <==>
      key in keys && ValidKey(key) && !Known(conditions, key)
    ensures DistinctRequest(keys, Same) ==>
      DistinctRequest(Fresh(conditions, keys), Same)
  {
    if keys != [] {
      FreshIs(conditions, keys[1..]);
      assert keys == [keys[0]] + keys[1..];
      var rest := Fresh(conditions, keys[1..]);
      if DistinctRequest(keys, Same) {
        forall i | 0 <= i < |rest| ensures rest[i] != keys[0] {
          assert rest[i] in keys[1..];
          var j :| 0 <= j < |keys[1..]| && keys[1..][j] == rest[i];
          assert Same(keys[0]) != Same(keys[j + 1]);
        }
        forall i, j | 0 <= i < j < |keys| - 1 ensures Same(keys[1..][i]) != Same(keys[1..][j]) {
          assert Same(keys[i + 1]) != Same(keys[j + 1]);
        }
      }
    }
  }

  /** What one request does: earlier conditions stay in front; ids stay distinct; a key is there
      afterwards exactly when it was or it is valid and requested; and no key is there twice exactly
      when the request does not name a new valid key twice. */
  lemma AddedOnce(conditions: seq<Condition<Key>>, request: NewCondition)
    requires OwnIds(conditions)
    ensures conditions <= Added(conditions, request)
    ensures OwnIds(Added(conditions, request))
    ensures forall key :: Known(Added(conditions, request), key) <==>
      Known(conditions, key) || (ValidKey(key) && key in RequestedKeys(request))
    ensures DistinctKeys(conditions, Same) ==>
      (DistinctKeys(Added(conditions, request), Same) <==>
       DistinctRequest(Fresh(conditions, RequestedKeys(request)), Same))
  {
    var keys := Fresh(conditions, RequestedKeys(request));
    FreshIs(conditions, RequestedKeys(request));
    ExtendShape(conditions, keys, request.operator);
    ExtendIds(conditions, keys, request.operator);
    forall key ensures Known(Added(conditions, request), key) <==>
      Known(conditions, key) || (ValidKey(key) && key in RequestedKeys(request))
    {
      ExtendHas(conditions, keys, request.operator, Same, key);
      assert HasKey(conditions, Same, key) <==> Known(conditions, key);
      assert HasKey(Added(conditions, request), Same, key) <==> Known(Added(conditions, request), key);
      assert (exists i :: 0 <= i < |keys| && Same(keys[i]) == Same(key)) <==> key in keys;
    }
    if DistinctKeys(conditions, Same) {
      forall i | 0 <= i < |keys| ensures !HasKey(conditions, Same, keys[i]) { assert keys[i] in keys; }
      ExtendKeys(conditions, keys, request.operator, Same);
    }
  }

  /** The conditions after a run of requests, starting from the given ones. */
  function Run(conditions: seq<Condition<Key>>, requests: seq<NewCondition>): seq<Condition<Key>>
    requires OwnIds(conditions)
    decreases |requests|, 0
  {
    if requests == [] then conditions
    else
      RunInvariant(conditions, requests[..|requests| - 1]);
      Added(Run(conditions, requests[..|requests| - 1]), requests[|requests| - 1])
  }

  /** Over every run of requests formula ids stay distinct, earlier conditions stay in front, and every
      valid key ever requested is there; when no request names a key twice, no key is there twice. */
  lemma {:induction false} RunInvariant(conditions: seq<Condition<Key>>, requests: seq<NewCondition>)
    requires OwnIds(conditions)
    ensures OwnIds(Run(conditions, requests))
    ensures conditions <= Run(conditions, requests)
    ensures forall r, key ::
      r in requests && key in RequestedKeys(r) && ValidKey(key) ==>
      Known(Run(conditions, requests), key)
    ensures DistinctKeys(conditions, Same) && (forall r :: r in requests ==>
      DistinctRequest(RequestedKeys(r), Same)) ==>
      DistinctKeys(Run(conditions, requests), Same)
    decreases |requests|, 1
  {
    if requests != [] {
      var n := |requests| - 1;
      assert requests == requests[..n] + [requests[n]];
      RunInvariant(conditions, requests[..n]);
      AddedOnce(Run(conditions, requests[..n]), requests[n]);
      FreshIs(Run(conditions, requests[..n]), RequestedKeys(requests[n]));
    }
  }

  // ----- what is added

  /** Every condition added is of the request: it has the request's operator, one of its keys, and the
      next formula id after those before it. */
  lemma AddedConditions(conditions: seq<Condition<Key>>, request: NewCondition, k: nat)
    requires OwnIds(conditions) && |conditions| <= k < |Added(conditions, request)|
    ensures var all := Added(conditions, request);
      && all[k] == Condition(all[k].key, request.operator, NextId(all[..k]))
      && if request.Single? then all[k].key == request.key
         else all[k].key.NewEventHostGroup? && all[k].key.groupid in request.groupids
  {
    hide GetNextFormulaId;
    var keys := Fresh(conditions, RequestedKeys(request));
    ExtendShape(conditions, keys, request.operator);
    ExtendAt(conditions, keys, request.operator, k - |conditions|);
    FreshIs(conditions, RequestedKeys(request));
    assert keys[k - |conditions|] in keys;
    if request.HostGroups? { GroupKeysAre(request.groupids, keys[k - |conditions|]); }
  }

  lemma {:induction false} GroupKeysAre(groupids: seq<nat>, key: Key)
    ensures key in GroupKeys(groupids) <==>
      key.NewEventHostGroup? && key.groupid in groupids
  {
    if groupids != [] {
      GroupKeysAre(groupids[1..], key);
      assert groupids == [groupids[0]] + groupids[1..];
    }
  }

  /** A condition of the list has this key. */
  ghost predicate Holds(conditions: seq<Condition<Key>>, key: Key) { exists c :: c in conditions && c.key == key }

  lemma HoldsIs(conditions: seq<Condition<Key>>, key: Key)
    ensures Holds(conditions, key) <==> Known(conditions, key)
  {
    if c :| c in conditions && c.key == key {
      var i :| 0 <= i < |conditions| && conditions[i] == c;
    }
    if i :| 0 <= i < |conditions| && conditions[i].key == key { assert conditions[i] in conditions; }
  }

  /** Group conditions are added for exactly the groups requested that have a non-zero id. */
  lemma GroupsAdded(conditions: seq<Condition<Key>>, groupids: seq<nat>, operator: nat, g: nat)
    requires OwnIds(conditions)
    ensures Holds(Added(conditions, HostGroups(groupids, operator)), NewEventHostGroup(g)) <==>
      Holds(conditions, NewEventHostGroup(g)) || (g in groupids && g != 0)
  {
    AddedOnce(conditions, HostGroups(groupids, operator));
    GroupKeysAre(groupids, NewEventHostGroup(g));
    HoldsIs(conditions, NewEventHostGroup(g));
    HoldsIs(Added(conditions, HostGroups(groupids, operator)), NewEventHostGroup(g));
  }

  /** Groups that are all new come in the order requested. */
  lemma GroupsInOrder(conditions: seq<Condition<Key>>, groupids: seq<nat>, operator: nat)
    requires OwnIds(conditions)
    requires forall g :: g in groupids ==> g != 0 && !Holds(conditions, NewEventHostGroup(g))
    ensures var all := Added(conditions, HostGroups(groupids, operator));
      && |all| == |conditions| + |groupids|
      && forall i :: 0 <= i < |groupids| ==> all[|conditions| + i].key == NewEventHostGroup(groupids[i])
  {
    AllFresh(conditions, groupids);
    ExtendShape(conditions, GroupKeys(groupids), operator);
  }

  lemma {:induction false} AllFresh(conditions: seq<Condition<Key>>, groupids: seq<nat>)
    requires forall g :: g in groupids ==> g != 0 && !Holds(conditions, NewEventHostGroup(g))
    ensures Fresh(conditions, GroupKeys(groupids)) == GroupKeys(groupids)
    ensures |GroupKeys(groupids)| == |groupids|
    ensures forall i :: 0 <= i < |groupids| ==>
      GroupKeys(groupids)[i] == NewEventHostGroup(groupids[i])
  {
    if groupids != [] {
      forall g | g in groupids[1..] ensures g in groupids {}
      AllFresh(conditions, groupids[1..]);
      assert groupids[0] in groupids;
      HoldsIs(conditions, NewEventHostGroup(groupids[0]));
    }
  }

  /** A tag condition is added exactly when none of its tags is empty; its value may be empty. */
  lemma TagsAdded(conditions: seq<Condition<Key>>, key: Key, operator: nat)
    requires OwnIds(conditions) && !key.NewEventHostGroup?
    ensures Holds(Added(conditions, Single(key, operator)), key) <==>
      Holds(conditions, key) ||
      match key
      case OldEventTag(tag) => tag != ""
      case NewEventTag(tag) => tag != ""
      case EventTagPair(oldtag, newtag) => oldtag != "" && newtag != ""
      case OldEventTagValue(tag, value) => tag != ""
      case NewEventTagValue(tag, value) => tag != ""
      case NewEventHostGroup(groupid) => false
  {
    AddedOnce(conditions, Single(key, operator));
    HoldsIs(conditions, key);
    HoldsIs(Added(conditions, Single(key, operator)), key);
  }

  // ----- when no key is there twice

  predicate NoFreshRepeat(conditions: seq<Condition<Key>>, keys: seq<Key>) {
    forall i, j :: 0 <= i < j < |keys| && keys[i] == keys[j] && ValidKey(keys[i]) ==> Known(conditions, keys[i])
  }

  lemma {:induction false} FreshDistinct(conditions: seq<Condition<Key>>, keys: seq<Key>)
    ensures DistinctRequest(Fresh(conditions, keys), Same) <==>
      NoFreshRepeat(conditions, keys)
  {
    hide Known, ValidKey;
    if keys != [] {
      var head, tail := keys[0], keys[1..];
      FreshDistinct(conditions, tail);
      FreshIs(conditions, tail);
      DistinctCons(head, Fresh(conditions, tail));
      NoFreshRepeatCons(conditions, keys);
    }
  }

  lemma DistinctCons(head: Key, tail: seq<Key>)
    ensures DistinctRequest([head] + tail, Same) <==>
      DistinctRequest(tail, Same) && head !in tail
  {
    var all := [head] + tail;
    if DistinctRequest(all, Same) {
      forall i, j | 0 <= i < j < |tail| ensures Same(tail[i]) != Same(tail[j]) {
        assert Same(all[i + 1]) != Same(all[j + 1]);
      }
      forall i | 0 <= i < |tail| ensures tail[i] != head { assert Same(all[0]) != Same(all[i + 1]); }
    }
  }

  lemma NoFreshRepeatCons(conditions: seq<Condition<Key>>, keys: seq<Key>)
    requires keys != []
    ensures NoFreshRepeat(conditions, keys) <==>
      && NoFreshRepeat(conditions, keys[1..])
      && (keys[0] in keys[1..] && ValidKey(keys[0]) ==> Known(conditions, keys[0]))
  {
    hide Known, ValidKey;
    var tail := keys[1..];
    assert forall i :: 0 <= i < |tail| ==> tail[i] == keys[i + 1];
    if NoFreshRepeat(conditions, keys) {
      if keys[0] in tail && ValidKey(keys[0]) {
        var j :| 0 <= j < |tail| && tail[j] == keys[0];
        assert keys[0] == keys[j + 1];
      }
      forall i, j | 0 <= i < j < |tail| && tail[i] == tail[j] && ValidKey(tail[i]) ensures Known(conditions, tail[i]) {
        assert keys[i + 1] == keys[j + 1];
      }
    }
    if NoFreshRepeat(conditions, tail) && (keys[0] in tail && ValidKey(keys[0]) ==> Known(conditions, keys[0])) {
      forall i, j | 0 <= i < j < |keys| && keys[i] == keys[j] && ValidKey(keys[i]) ensures Known(conditions, keys[i]) {
        assert keys[j] == tail[j - 1];
        if i > 0 { assert keys[i] == tail[i - 1]; }
      }
    }
  }

  predicate Requested(requests: seq<NewCondition>, key: Key) { exists r :: r in requests && key in RequestedKeys(r) }

  /** After a run a key is there exactly when it was or it is valid and was requested. */
  lemma {:induction false} KnownAfterRun(conditions: seq<Condition<Key>>, requests: seq<NewCondition>, key: Key)
    requires OwnIds(conditions)
    ensures OwnIds(Run(conditions, requests))
    ensures Known(Run(conditions, requests), key) <==>
      Known(conditions, key) || (ValidKey(key) && Requested(requests, key))
  {
    RunInvariant(conditions, requests);
    if requests != [] {
      var n := |requests| - 1;
      assert requests == requests[..n] + [requests[n]];
      KnownAfterRun(conditions, requests[..n], key);
      AddedOnce(Run(conditions, requests[..n]), requests[n]);
      assert Requested(requests, key) <==> Requested(requests[..n], key) || key in RequestedKeys(requests[n]);
    }
  }

  /** Request `k` names no valid key twice that is neither there at the start nor in an earlier request. */
  predicate RepeatsNothingNew(conditions: seq<Condition<Key>>, requests: seq<NewCondition>, k: nat) {
    k < |requests| &&
    var keys := RequestedKeys(requests[k]);
    forall i, j :: 0 <= i < j < |keys| && keys[i] == keys[j] && ValidKey(keys[i]) ==>
      Known(conditions, keys[i]) || Requested(requests[..k], keys[i])
  }

  lemma StepRepeats(conditions: seq<Condition<Key>>, requests: seq<NewCondition>, n: nat)
    requires OwnIds(conditions) && n < |requests| && OwnIds(Run(conditions, requests[..n]))
    ensures NoFreshRepeat(Run(conditions, requests[..n]), RequestedKeys(requests[n])) <==>
      RepeatsNothingNew(conditions, requests, n)
  {
    hide Known, Requested, ValidKey, Run;
    forall key ensures Known(Run(conditions, requests[..n]), key) <==>
      Known(conditions, key) || (ValidKey(key) && Requested(requests[..n], key))
    {
      KnownAfterRun(conditions, requests[..n], key);
    }
  }

  lemma LastKeepsKeysApart(conditions: seq<Condition<Key>>, requests: seq<NewCondition>)
    requires OwnIds(conditions) && requests != [] && OwnIds(Run(conditions, requests[..|requests| - 1]))
    ensures var n := |requests| - 1;
      DistinctKeys(Run(conditions, requests), Same) <==>
        DistinctKeys(Run(conditions, requests[..n]), Same) && RepeatsNothingNew(conditions, requests, n)
  {
    hide RepeatsNothingNew;
    var n := |requests| - 1;
    var before := Run(conditions, requests[..n]);
    var after := Added(before, requests[n]);
    AddedOnce(before, requests[n]);
    FreshDistinct(before, RequestedKeys(requests[n]));
    StepRepeats(conditions, requests, n);
    assert Run(conditions, requests) == after;
    hide DistinctKeys, Run, Added;
    if DistinctKeys(after, Same) { PrefixKeysApart(before, after); }
  }

  /** Over a run starting without repeated keys, no key is ever there twice exactly when no request
      names a valid key twice that is new at that point. */
  lemma {:induction false} RunKeepsKeysApart(conditions: seq<Condition<Key>>, requests: seq<NewCondition>)
    requires OwnIds(conditions) && DistinctKeys(conditions, Same)
    ensures DistinctKeys(Run(conditions, requests), Same) <==>
      forall k :: 0 <= k < |requests| ==> RepeatsNothingNew(conditions, requests, k)
  {
    hide DistinctKeys, RepeatsNothingNew, OwnIds, Added;
    if requests != [] {
      var n := |requests| - 1;
      RunInvariant(conditions, requests[..n]);
      RunKeepsKeysApart(conditions, requests[..n]);
      LastKeepsKeysApart(conditions, requests);
      forall k | 0 <= k < n
        ensures RepeatsNothingNew(conditions, requests[..n], k) <==> RepeatsNothingNew(conditions, requests, k)
      {
        SameRepeats(conditions, requests, n, k);
      }
    }
  }

  lemma SameRepeats(conditions: seq<Condition<Key>>, requests: seq<NewCondition>, n: nat, k: nat)
    requires k < n <= |requests|
    ensures RepeatsNothingNew(conditions, requests[..n], k) <==>
      RepeatsNothingNew(conditions, requests, k)
  {
    assert requests[..n][..k] == requests[..k] && requests[..n][k] == requests[k];
  }

  lemma PrefixKeysApart(conditions: seq<Condition<Key>>, more: seq<Condition<Key>>)
    requires conditions <= more && DistinctKeys(more, Same)
    ensures DistinctKeys(conditions, Same)
  {
  }
}
