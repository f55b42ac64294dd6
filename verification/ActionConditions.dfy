/** The condition editor of actions (ui/actionconf.php, the add_condition branch).

    Values are compared with PHP's loose equality, an equivalence on strings; `loose` maps a value to
    its class. */
module ActionConditions {
  import opened Wrappers
  import opened FormulaIds
  import opened Conditions

  const CONDITION_TYPE_SUPPRESSED := 16

  datatype Key = Key(conditiontype: nat, value: string, value2: Option<string>)

  datatype Value = Scalar(text: string) | List(texts: seq<string>)

  datatype NewCondition = NewCondition(conditiontype: nat, operator: nat, value: Value, value2: Option<string>)

  datatype KeyClass = KeyClass(conditiontype: nat, value: string, value2: Option<string>)

  /** Two conditions have the same key when their values are loosely and their second values strictly equal. */
  function ClassOf(loose: string -> string): Key -> KeyClass {
    (key: Key) => KeyClass(key.conditiontype, loose(key.value), key.value2)
  }

  /** A condition of the requested type with a loosely equal value. */
  predicate SameValue(c: Condition<Key>, request: NewCondition, value: string, loose: string -> string) {
    c.key.conditiontype == request.conditiontype && loose(c.key.value) == loose(value)
  }

  /** The test for a scalar value: a second value counts only if the request has one. */
  predicate SameScalar(c: Condition<Key>, request: NewCondition, value: string, loose: string -> string) {
    SameValue(c, request, value, loose) && (request.value2.None? || request.value2 == c.key.value2)
  }

  predicate Taken(conditions: seq<Condition<Key>>, request: NewCondition, value: string, loose: string -> string) {
    exists i :: 0 <= i < |conditions| &&
      if request.value.Scalar? then SameScalar(conditions[i], request, value, loose)
      else SameValue(conditions[i], request, value, loose)
  }

  /** The values, in order, that no condition has. */
  function NotTaken(conditions: seq<Condition<Key>>, request: NewCondition, values: seq<string>,
                    loose: string -> string): seq<string> {
    if values == [] then []
    else
      var rest := NotTaken(conditions, request, values[1..], loose);
      if Taken(conditions, request, values[0], loose) then rest else [values[0]] + rest
  }

  function Keys(request: NewCondition, values: seq<string>): (keys: seq<Key>)
    ensures |keys| == |values|
    ensures forall i :: 0 <= i < |keys| ==>
      keys[i] == Key(request.conditiontype, values[i], request.value2)
  {
    seq(|values|, i requires 0 <= i < |values| => Key(request.conditiontype, values[i], request.value2))
  }

  /** A suppressed-problem condition has no value of its own. */
  function Normal(request: NewCondition): NewCondition {
    if request.conditiontype == CONDITION_TYPE_SUPPRESSED then request.(value := Scalar("")) else request
  }

  function RequestedValues(request: NewCondition): seq<string> {
    match Normal(request).value
    case Scalar(text) => [text]
    case List(texts) => texts
  }

  function NewValues(conditions: seq<Condition<Key>>, request: NewCondition, loose: string -> string): seq<string> {
    NotTaken(conditions, Normal(request), RequestedValues(request), loose)
  }

  function Added(conditions: seq<Condition<Key>>, request: NewCondition, loose: string -> string): seq<Condition<Key>>
    requires AllIds(Ids(conditions))
  {
    Extend(conditions, Keys(request, NewValues(conditions, request, loose)), request.operator)
  }

  // ----- the editor

  /** The values that are not loosely equal to `value`. */
  function Without(values: seq<string>, value: string, loose: string -> string): seq<string> {
    if values == [] then []
    else
      var rest := Without(values[1..], value, loose);
      if loose(values[0]) == loose(value) then rest else [values[0]] + rest
  }

  class ActionForm {
    var conditions: seq<Condition<Key>>

    constructor ()
      ensures conditions == []
    {
      conditions := [];
    }

    /** The values left to add once the existing conditions have been compared. */
    method RemoveTaken(request: NewCondition, loose: string -> string) returns (values: seq<string>)
      ensures values == NotTaken(conditions, request,
        if request.value.Scalar? then [request.value.text] else request.value.texts, loose)
    {
      values := if request.value.Scalar? then [request.value.text] else request.value.texts;
      ghost var all := values;
      NoneTaken(request, all, loose);
      for i := 0 to |conditions|
        invariant values == NotTaken(conditions[..i], request, all, loose)
      {
        NotTakenStep(conditions[..i], conditions[i], request, all, loose);
        assert conditions[..i] + [conditions[i]] == conditions[..i + 1];
        if request.conditiontype == conditions[i].key.conditiontype {
          if request.value.List? {
            values := Without(values, conditions[i].key.value, loose);
          } else if loose(request.value.text) == loose(conditions[i].key.value)
                    && (request.value2.None? || request.value2 == conditions[i].key.value2) {
            values := [];
          }
        }
      }
      assert conditions[..|conditions|] == conditions;
    }

    method AddCondition(request: NewCondition, loose: string -> string)
      requires AllIds(Ids(conditions))
      modifies this
      ensures conditions == Added(old(conditions), request, loose)
    {
      var newCondition := request;
      if newCondition.conditiontype == CONDITION_TYPE_SUPPRESSED {
        newCondition := newCondition.(value := Scalar(""));
      }
      var values := RemoveTaken(newCondition, loose);
      var used := Ids(conditions);
      for v := 0 to |values|
        invariant AllIds(Ids(conditions)) && used == Ids(conditions)
        invariant Extend(conditions, Keys(request, values[v..]), request.operator) ==
          Extend(old(conditions), Keys(request, values), request.operator)
      {
        var key := Key(newCondition.conditiontype, values[v], newCondition.value2);
        ExtendOne(conditions, key, Keys(request, values[v + 1..]), request.operator);
        assert Keys(request, values[v..]) == [key] + Keys(request, values[v + 1..]);
        var formulaid := GetNextFormulaId(used);
        used := used + [formulaid];
        conditions := conditions + [Condition(key, newCondition.operator, formulaid)];
      }
      assert values[|values|..] == [];
    }
  }

  lemma {:induction false} NoneTaken(request: NewCondition, values: seq<string>, loose: string -> string)
    ensures NotTaken([], request, values, loose) == values
  {
    if values != [] { NoneTaken(request, values[1..], loose); }
  }

  lemma TakenAppend(conditions: seq<Condition<Key>>, last: Condition<Key>, request: NewCondition, value: string,
                    loose: string -> string)
    ensures Taken(conditions + [last], request, value, loose) <==>
      || Taken(conditions, request, value, loose)
      || (if request.value.Scalar?
          then SameScalar(last, request, value, loose) else SameValue(last, request, value, loose))
  {
    var all := conditions + [last];
    assert forall i :: 0 <= i < |conditions| ==> all[i] == conditions[i];
    assert all[|conditions|] == last;
  }

  lemma {:induction false} NotTakenStep(conditions: seq<Condition<Key>>, last: Condition<Key>, request: NewCondition,
                                        values: seq<string>, loose: string -> string)
    ensures request.value.List? ==>
      NotTaken(conditions + [last], request, values, loose) ==
        if last.key.conditiontype == request.conditiontype
        then Without(NotTaken(conditions, request, values, loose), last.key.value, loose)
        else NotTaken(conditions, request, values, loose)
    ensures request.value.Scalar? && |values| == 1 ==>
      NotTaken(conditions + [last], request, values, loose) ==
        if SameScalar(last, request, values[0], loose) then [] else NotTaken(conditions, request, values, loose)
  {
    if values != [] {
      NotTakenStep(conditions, last, request, values[1..], loose);
      TakenAppend(conditions, last, request, values[0], loose);
      var rest := NotTaken(conditions, request, values[1..], loose);
      assert ([values[0]] + rest)[1..] == rest;
    }
  }

  // ----- every edit and every run

  lemma {:induction false} NotTakenIs(conditions: seq<Condition<Key>>, request: NewCondition, values: seq<string>,
                                      loose: string -> string)
    ensures forall v :: v in NotTaken(conditions, request, values, loose) <==>
      v in values && !Taken(conditions, request, v, loose)
    ensures DistinctValues(values, loose) ==>
      DistinctValues(NotTaken(conditions, request, values, loose), loose)
  {
    if values != [] {
      NotTakenIs(conditions, request, values[1..], loose);
      assert values == [values[0]] + values[1..];
      var rest := NotTaken(conditions, request, values[1..], loose);
      if DistinctValues(values, loose) {
        forall i, j | 0 <= i < j < |values| - 1 ensures loose(values[1..][i]) != loose(values[1..][j]) {
          assert loose(values[i + 1]) != loose(values[j + 1]);
        }
        forall i | 0 <= i < |rest| ensures loose(rest[i]) != loose(values[0]) {
          assert rest[i] in values[1..];
          var j :| 0 <= j < |values[1..]| && values[1..][j] == rest[i];
          assert loose(values[0]) != loose(values[j + 1]);
        }
      }
    }
  }

  ghost predicate DistinctValues(values: seq<string>, loose: string -> string) {
    forall i, j :: 0 <= i < j < |values| ==> loose(values[i]) != loose(values[j])
  }

  /** Some condition answers the request for this value; a scalar request also fixes the second value. */
  ghost predicate Answered(conditions: seq<Condition<Key>>, request: NewCondition, value: string,
    loose: string -> string) {
    Taken(conditions, Normal(request), value, loose)
  }

  /** What one request does: earlier conditions stay in front, ids stay distinct, every requested value
      is answered, and no key is there twice exactly when no new value is requested twice. */
  lemma AddedOnce(conditions: seq<Condition<Key>>, request: NewCondition, loose: string -> string)
    requires OwnIds(conditions)
    ensures conditions <= Added(conditions, request, loose)
    ensures OwnIds(Added(conditions, request, loose))
    ensures forall v :: v in RequestedValues(request) ==>
      Answered(Added(conditions, request, loose), request, v, loose)
    ensures DistinctKeys(conditions, ClassOf(loose)) ==>
      (DistinctKeys(Added(conditions, request, loose), ClassOf(loose)) <==>
       DistinctValues(NewValues(conditions, request, loose), loose))
  {
    var values := NewValues(conditions, request, loose);
    var keys := Keys(request, values);
    var r := Added(conditions, request, loose);
    NotTakenIs(conditions, Normal(request), RequestedValues(request), loose);
    ExtendShape(conditions, keys, request.operator);
    ExtendIds(conditions, keys, request.operator);
    forall v | v in RequestedValues(request) ensures Answered(r, request, v, loose) {
      if v in values {
        var i :| 0 <= i < |values| && values[i] == v;
        assert r[|conditions| + i].key == keys[i];
      } else {
        KeepsAnswer(conditions, r, request, v, loose);
      }
    }
    if DistinctKeys(conditions, ClassOf(loose)) {
      forall i | 0 <= i < |keys| ensures !HasKey(conditions, ClassOf(loose), keys[i]) {
        assert values[i] in values;
        assert !Taken(conditions, Normal(request), values[i], loose);
      }
      ExtendKeys(conditions, keys, request.operator, ClassOf(loose));
      DistinctClasses(request, values, loose);
    }
  }

  lemma DistinctClasses(request: NewCondition, values: seq<string>, loose: string -> string)
    ensures DistinctRequest(Keys(request, values), ClassOf(loose)) <==>
      DistinctValues(values, loose)
  {
    var keys := Keys(request, values);
    if DistinctRequest(keys, ClassOf(loose)) {
      forall i, j | 0 <= i < j < |values| ensures loose(values[i]) != loose(values[j]) {
        assert ClassOf(loose)(keys[i]) != ClassOf(loose)(keys[j]);
      }
    }
  }

  lemma KeepsAnswer(conditions: seq<Condition<Key>>, more: seq<Condition<Key>>, request: NewCondition, v: string,
                    loose: string -> string)
    requires conditions <= more && Answered(conditions, request, v, loose)
    ensures Answered(more, request, v, loose)
  {
    var n := Normal(request);
    var i :| 0 <= i < |conditions| &&
      if n.value.Scalar? then SameScalar(conditions[i], n, v, loose) else SameValue(conditions[i], n, v, loose);
    assert more[i] == conditions[i];
  }

  function Run(conditions: seq<Condition<Key>>, requests: seq<NewCondition>,
    loose: string -> string): seq<Condition<Key>>
    requires OwnIds(conditions)
    decreases |requests|, 0
  {
    if requests == [] then conditions
    else
      RunInvariant(conditions, requests[..|requests| - 1], loose);
      Added(Run(conditions, requests[..|requests| - 1], loose), requests[|requests| - 1], loose)
  }

  /** Over every run of requests formula ids stay distinct, earlier conditions stay in front and every
      value ever requested stays answered; when no request names a value twice, no key is there twice. */
  lemma {:induction false} RunInvariant(conditions: seq<Condition<Key>>, requests: seq<NewCondition>,
    loose: string -> string)
    requires OwnIds(conditions)
    ensures OwnIds(Run(conditions, requests, loose))
    ensures conditions <= Run(conditions, requests, loose)
    ensures forall r, v :: r in requests && v in RequestedValues(r) ==>
      Answered(Run(conditions, requests, loose), r, v, loose)
    ensures (DistinctKeys(conditions, ClassOf(loose)) &&
             forall r :: r in requests ==> DistinctValues(RequestedValues(r), loose)) ==>
            DistinctKeys(Run(conditions, requests, loose), ClassOf(loose))
    decreases |requests|, 1
  {
    if requests != [] {
      var n := |requests| - 1;
      assert requests == requests[..n] + [requests[n]];
      RunInvariant(conditions, requests[..n], loose);
      var before := Run(conditions, requests[..n], loose);
      var after := Added(before, requests[n], loose);
      AddedOnce(before, requests[n], loose);
      NotTakenIs(before, Normal(requests[n]), RequestedValues(requests[n]), loose);
      forall r, v | r in requests && v in RequestedValues(r) ensures Answered(after, r, v, loose) {
        if r in requests[..n] { KeepsAnswer(before, after, r, v, loose); }
      }
    }
  }

  /** Request `k` names no new value twice. */
  ghost predicate NamesOnce(conditions: seq<Condition<Key>>, requests: seq<NewCondition>, loose: string -> string,
    k: nat)
    requires OwnIds(conditions) && k < |requests|
  {
    RunInvariant(conditions, requests[..k], loose);
    DistinctValues(NewValues(Run(conditions, requests[..k], loose), requests[k], loose), loose)
  }

  lemma LastKeepsKeysApart(conditions: seq<Condition<Key>>, requests: seq<NewCondition>, loose: string -> string)
    requires OwnIds(conditions) && requests != [] && OwnIds(Run(conditions, requests[..|requests| - 1], loose))
    ensures var n := |requests| - 1;
      DistinctKeys(Run(conditions, requests, loose), ClassOf(loose)) <==>
        && DistinctKeys(Run(conditions, requests[..n], loose), ClassOf(loose))
        && NamesOnce(conditions, requests, loose, n)
  {
    var n := |requests| - 1;
    var before := Run(conditions, requests[..n], loose);
    var after := Added(before, requests[n], loose);
    AddedOnce(before, requests[n], loose);
    assert Run(conditions, requests, loose) == after;
    assert NamesOnce(conditions, requests, loose, n) <==>
      DistinctValues(NewValues(before, requests[n], loose), loose);
    hide DistinctKeys, Run, Added;
    if DistinctKeys(after, ClassOf(loose)) { PrefixKeysApart(before, after, loose); }
  }

  /** Over a run starting without repeated keys, no key is ever there twice exactly when no request
      names a value twice that is new at that point. */
  lemma {:induction false} RunKeepsKeysApart(conditions: seq<Condition<Key>>, requests: seq<NewCondition>,
                                             loose: string -> string)
    requires OwnIds(conditions) && DistinctKeys(conditions, ClassOf(loose))
    ensures DistinctKeys(Run(conditions, requests, loose), ClassOf(loose)) <==>
      forall k :: 0 <= k < |requests| ==> NamesOnce(conditions, requests, loose, k)
  {
    hide DistinctKeys, NamesOnce, OwnIds, Added;
    if requests != [] {
      var n := |requests| - 1;
      RunInvariant(conditions, requests[..n], loose);
      RunKeepsKeysApart(conditions, requests[..n], loose);
      LastKeepsKeysApart(conditions, requests, loose);
      forall k | 0 <= k < n
        ensures NamesOnce(conditions, requests[..n], loose, k) <==> NamesOnce(conditions, requests, loose, k)
      {
        SameNames(conditions, requests, loose, n, k);
      }
    }
  }

  lemma SameNames(conditions: seq<Condition<Key>>, requests: seq<NewCondition>, loose: string -> string, n: nat, k: nat)
    requires OwnIds(conditions) && k < n <= |requests|
    ensures NamesOnce(conditions, requests[..n], loose, k) <==>
      NamesOnce(conditions, requests, loose, k)
  {
    assert requests[..n][..k] == requests[..k] && requests[..n][k] == requests[k];
  }

  lemma PrefixKeysApart(conditions: seq<Condition<Key>>, more: seq<Condition<Key>>, loose: string -> string)
    requires conditions <= more && DistinctKeys(more, ClassOf(loose))
    ensures DistinctKeys(conditions, ClassOf(loose))
  {
  }

  // ----- what is added

  /** Every condition added has the operator, the type and the second value of the request, and the next
      formula id after those before it. */
  lemma AddedConditions(conditions: seq<Condition<Key>>, request: NewCondition, loose: string -> string, k: nat)
    requires OwnIds(conditions) && |conditions| <= k < |Added(conditions, request, loose)|
    ensures var all := Added(conditions, request, loose);
      all[k] == Condition(Key(request.conditiontype, all[k].key.value, request.value2), request.operator,
                          NextId(all[..k]))
  {
    hide GetNextFormulaId;
    var keys := Keys(request, NewValues(conditions, request, loose));
    ExtendShape(conditions, keys, request.operator);
    ExtendAt(conditions, keys, request.operator, k - |conditions|);
  }

  /** A condition of the list has the type and, loosely, the value. */
  ghost predicate HasValue(conditions: seq<Condition<Key>>, conditiontype: nat, value: string,
    loose: string -> string) {
    exists c :: c in conditions && c.key.conditiontype == conditiontype && loose(c.key.value) == loose(value)
  }

  /** ... and the second value as well. */
  ghost predicate HasValues(conditions: seq<Condition<Key>>, conditiontype: nat, value: string, value2: Option<string>,
                            loose: string -> string) {
    exists c :: c in conditions && c.key.conditiontype == conditiontype && loose(c.key.value) == loose(value)
                && c.key.value2 == value2
  }

  lemma TakenIs(conditions: seq<Condition<Key>>, request: NewCondition, value: string, loose: string -> string)
    ensures Taken(conditions, request, value, loose) <==>
      if request.value.Scalar? && request.value2.Some?
      then HasValues(conditions, request.conditiontype, value, request.value2, loose)
      else HasValue(conditions, request.conditiontype, value, loose)
  {
    forall i | 0 <= i < |conditions| ensures conditions[i] in conditions {}
    forall c | c in conditions ensures exists i :: 0 <= i < |conditions| && conditions[i] == c {}
  }

  /** A single value: one condition is added, unless one of that type has the value and, if the request
      gives one, the second value.  A request for suppressed problems (type 16) has the empty value. */
  lemma ScalarAdded(conditions: seq<Condition<Key>>, request: NewCondition, loose: string -> string)
    requires OwnIds(conditions) && (request.value.Scalar? || request.conditiontype == 16)
    ensures var value := if request.conditiontype == 16 then "" else request.value.text;
      var there := if request.value2.Some?
        then HasValues(conditions, request.conditiontype, value, request.value2, loose)
        else HasValue(conditions, request.conditiontype, value, loose);
      Added(conditions, request, loose) == conditions +
        if there then []
        else [Condition(Key(request.conditiontype, value, request.value2), request.operator,
                        GetNextFormulaId(Ids(conditions)))]
  {
    hide GetNextFormulaId;
    var value := if request.conditiontype == 16 then "" else request.value.text;
    TakenIs(conditions, Normal(request), value, loose);
    assert RequestedValues(request) == [value] && [value][1..] == [];
    var values := NewValues(conditions, request, loose);
    assert NotTaken(conditions, Normal(request), [], loose) == [];
    if values == [] {
      assert Keys(request, values) == [];
    } else {
      assert values == [value];
      var key := Key(request.conditiontype, value, request.value2);
      assert Keys(request, values) == [key] + [];
      ExtendOne(conditions, key, [], request.operator);
    }
  }

  /** The values of the conditions added, in order. */
  lemma AddedValues(conditions: seq<Condition<Key>>, request: NewCondition, loose: string -> string)
    requires OwnIds(conditions)
    ensures var all, values := Added(conditions, request, loose), NewValues(conditions, request, loose);
      && |all| == |conditions| + |values|
      && forall k :: |conditions| <= k < |all| ==> all[k].key.value == values[k - |conditions|]
  {
    var all, values := Added(conditions, request, loose), NewValues(conditions, request, loose);
    var keys := Keys(request, values);
    ExtendShape(conditions, keys, request.operator);
    hide Added, NewValues, Extend;
    forall k | |conditions| <= k < |all| ensures all[k].key.value == values[k - |conditions|] {
      assert all[|conditions| + (k - |conditions|)].key == keys[k - |conditions|];
    }
  }

  /** A list of values: a condition is added for exactly those values that no condition of the type has;
      the second values are not compared. */
  lemma ListAdded(conditions: seq<Condition<Key>>, request: NewCondition, loose: string -> string, v: string)
    requires OwnIds(conditions) && request.value.List? && request.conditiontype != 16
    ensures var all := Added(conditions, request, loose);
      (exists k :: |conditions| <= k < |all| && all[k].key.value == v) <==>
      v in request.value.texts && !HasValue(conditions, request.conditiontype, v, loose)
  {
    var all, values := Added(conditions, request, loose), NewValues(conditions, request, loose);
    AddedValues(conditions, request, loose);
    NotTakenIs(conditions, request, request.value.texts, loose);
    TakenIs(conditions, request, v, loose);
    assert v in values <==> v in request.value.texts && !HasValue(conditions, request.conditiontype, v, loose);
    hide Added, NewValues, HasValue;
    if v in values {
      var i :| 0 <= i < |values| && values[i] == v;
      assert all[|conditions| + i].key.value == v;
    }
  }

  /** Values that are all new come in the order requested. */
  lemma ListInOrder(conditions: seq<Condition<Key>>, request: NewCondition, loose: string -> string)
    requires OwnIds(conditions) && request.value.List? && request.conditiontype != 16
    requires forall v :: v in request.value.texts ==> !HasValue(conditions, request.conditiontype, v, loose)
    ensures var all := Added(conditions, request, loose);
      && |all| == |conditions| + |request.value.texts|
      && forall k :: |conditions| <= k < |all| ==> all[k].key.value == request.value.texts[k - |conditions|]
  {
    AddedValues(conditions, request, loose);
    forall v | v in request.value.texts ensures !Taken(conditions, request, v, loose) {
      TakenIs(conditions, request, v, loose);
    }
    NothingTaken(conditions, request, request.value.texts, loose);
  }

  lemma {:induction false} NothingTaken(conditions: seq<Condition<Key>>, request: NewCondition, values: seq<string>,
                                        loose: string -> string)
    requires forall v :: v in values ==> !Taken(conditions, request, v, loose)
    ensures NotTaken(conditions, request, values, loose) == values
  {
    if values != [] { NothingTaken(conditions, request, values[1..], loose); }
  }
}
