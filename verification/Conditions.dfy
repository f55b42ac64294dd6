/** Lists of conditions with formula ids, shared by the editors of correlations and actions.

    `canon` maps a condition's key to what the editor compares. */
module Conditions {
  import opened FormulaIds

  datatype Condition<K> = Condition(key: K, operator: nat, formulaid: string)

  function Ids<K>(conditions: seq<Condition<K>>): (ids: seq<string>)
    ensures |ids| == |conditions|
    ensures forall i :: 0 <= i < |ids| ==> ids[i] == conditions[i].formulaid
  {
    seq(|conditions|, i requires 0 <= i < |conditions| => conditions[i].formulaid)
  }

  /** Every condition has a formula id of its own. */
  ghost predicate OwnIds<K>(conditions: seq<Condition<K>>) {
    && AllIds(Ids(conditions))
    && forall i, j :: 0 <= i < j < |conditions| ==> conditions[i].formulaid != conditions[j].formulaid
  }

  ghost predicate HasKey<K, C>(conditions: seq<Condition<K>>, canon: K -> C, key: K) {
    exists i :: 0 <= i < |conditions| && canon(conditions[i].key) == canon(key)
  }

  ghost predicate DistinctKeys<K, C>(conditions: seq<Condition<K>>, canon: K -> C) {
    forall i, j :: 0 <= i < j < |conditions| ==> canon(conditions[i].key) != canon(conditions[j].key)
  }

  ghost predicate DistinctRequest<K, C>(keys: seq<K>, canon: K -> C) {
    forall i, j :: 0 <= i < j < |keys| ==> canon(keys[i]) != canon(keys[j])
  }

  /** The keys appended in order, each with the next formula id. */
  function Extend<K>(conditions: seq<Condition<K>>, keys: seq<K>, operator: nat): seq<Condition<K>>
    requires AllIds(Ids(conditions))
    decreases |keys|
  {
    if keys == [] then conditions
    else
      NextIsNew(Ids(conditions));
      Extend(conditions + [Condition(keys[0], operator, GetNextFormulaId(Ids(conditions)))], keys[1..], operator)
  }

  lemma AppendOne<K>(conditions: seq<Condition<K>>, key: K, operator: nat)
    requires AllIds(Ids(conditions))
    ensures var more := conditions + [Condition(key, operator, GetNextFormulaId(Ids(conditions)))];
      AllIds(Ids(more)) && (OwnIds(conditions) ==> OwnIds(more))
  {
    var ids := Ids(conditions);
    NextIsNew(ids);
    var more := conditions + [Condition(key, operator, GetNextFormulaId(ids))];
    assert Ids(more) == ids + [GetNextFormulaId(ids)];
    forall i | 0 <= i < |conditions| ensures more[i].formulaid != GetNextFormulaId(ids) { assert ids[i] in ids; }
  }

  lemma ExtendOne<K>(conditions: seq<Condition<K>>, key: K, keys: seq<K>, operator: nat)
    requires AllIds(Ids(conditions))
    ensures var more := conditions + [Condition(key, operator, GetNextFormulaId(Ids(conditions)))];
            && AllIds(Ids(more)) && Ids(more) == Ids(conditions) + [GetNextFormulaId(Ids(conditions))]
            && Extend(conditions, [key] + keys, operator) == Extend(more, keys, operator)
  {
    AppendOne(conditions, key, operator);
    assert ([key] + keys)[1..] == keys;
  }

  /** Appending gives every new condition an id that was never used. */
  lemma {:induction false} ExtendIds<K>(conditions: seq<Condition<K>>, keys: seq<K>, operator: nat)
    requires AllIds(Ids(conditions))
    ensures AllIds(Ids(Extend(conditions, keys, operator)))
    ensures OwnIds(conditions) ==> OwnIds(Extend(conditions, keys, operator))
    decreases |keys|
  {
    if keys != [] {
      AppendOne(conditions, keys[0], operator);
      ExtendIds(conditions + [Condition(keys[0], operator, GetNextFormulaId(Ids(conditions)))], keys[1..], operator);
    }
  }

  /** Appending keeps the earlier conditions and adds one condition per key. */
  lemma {:induction false} ExtendShape<K>(conditions: seq<Condition<K>>, keys: seq<K>, operator: nat)
    requires AllIds(Ids(conditions))
    ensures |Extend(conditions, keys, operator)| == |conditions| + |keys|
    ensures Extend(conditions, keys, operator)[..|conditions|] == conditions
    ensures forall i :: 0 <= i < |keys| ==>
      Extend(conditions, keys, operator)[|conditions| + i].key == keys[i]
    decreases |keys|
  {
    hide GetNextFormulaId, AllIds;
    if keys != [] {
      AppendOne(conditions, keys[0], operator);
      var more := conditions + [Condition(keys[0], operator, GetNextFormulaId(Ids(conditions)))];
      ExtendShape(more, keys[1..], operator);
      var r := Extend(conditions, keys, operator);
      assert r == Extend(more, keys[1..], operator);
      assert r[..|conditions|] == r[..|more|][..|conditions|];
      assert r[|conditions|] == r[..|more|][|conditions|];
      forall i | 0 <= i < |keys| ensures r[|conditions| + i].key == keys[i] {
        if i > 0 { assert r[|more| + (i - 1)].key == keys[1..][i - 1]; }
      }
    }
  }

  /** When the appended keys are new, the list stays free of repeated keys exactly when the request
      does not repeat itself. */
  lemma ExtendKeys<K, C(!new)>(conditions: seq<Condition<K>>, keys: seq<K>, operator: nat, canon: K -> C)
    requires AllIds(Ids(conditions)) && DistinctKeys(conditions, canon)
    requires forall i :: 0 <= i < |keys| ==> !HasKey(conditions, canon, keys[i])
    ensures DistinctKeys(Extend(conditions, keys, operator), canon) <==>
      DistinctRequest(keys, canon)
  {
    hide Extend, AllIds;
    ExtendShape(conditions, keys, operator);
    var n, r := |conditions|, Extend(conditions, keys, operator);
    forall i | 0 <= i < n ensures r[i] == conditions[i] { assert r[i] == r[..n][i]; }
    if DistinctKeys(r, canon) {
      forall i, j | 0 <= i < j < |keys| ensures canon(keys[i]) != canon(keys[j]) {
        assert canon(r[n + i].key) != canon(r[n + j].key);
      }
    }
    if DistinctRequest(keys, canon) {
      forall i, j | 0 <= i < j < |r| ensures canon(r[i].key) != canon(r[j].key) {
        if j >= n {
          assert r[j].key == keys[j - n];
          if i >= n { assert r[i].key == keys[i - n]; } else { assert !HasKey(conditions, canon, keys[j - n]); }
        }
      }
    }
  }

  lemma ExtendHas<K, C>(conditions: seq<Condition<K>>, keys: seq<K>, operator: nat, canon: K -> C, key: K)
    requires AllIds(Ids(conditions))
    ensures HasKey(Extend(conditions, keys, operator), canon, key) <==>
      HasKey(conditions, canon, key) || exists i :: 0 <= i < |keys| && canon(keys[i]) == canon(key)
  {
    hide Extend, AllIds;
    ExtendShape(conditions, keys, operator);
    var n, r := |conditions|, Extend(conditions, keys, operator);
    forall i | 0 <= i < n ensures r[i] == conditions[i] { assert r[i] == r[..n][i]; }
    if HasKey(r, canon, key) {
      var i :| 0 <= i < |r| && canon(r[i].key) == canon(key);
      if i >= n { assert r[i].key == keys[i - n]; }
    }
    if i :| 0 <= i < |keys| && canon(keys[i]) == canon(key) { assert r[n + i].key == keys[i]; }
    if i :| 0 <= i < n && canon(conditions[i].key) == canon(key) { assert r[i].key == conditions[i].key; }
  }

  /** The formula id next to those of the given conditions. */
  function NextId<K>(conditions: seq<Condition<K>>): string {
    if AllIds(Ids(conditions)) then GetNextFormulaId(Ids(conditions)) else ""
  }

  /** The condition at `k` after appending: its key is requested in that place, its operator is the one
      given and its formula id is the next after those before it. */
  lemma {:induction false} ExtendAt<K>(conditions: seq<Condition<K>>, keys: seq<K>, operator: nat, k: nat)
    requires AllIds(Ids(conditions)) && k < |keys|
    ensures |Extend(conditions, keys, operator)| == |conditions| + |keys|
    ensures var r := Extend(conditions, keys, operator);
      r[|conditions| + k] == Condition(keys[k], operator, NextId(r[..|conditions| + k]))
    decreases |keys|
  {
    hide GetNextFormulaId, AllIds;
    var more := conditions + [Condition(keys[0], operator, GetNextFormulaId(Ids(conditions)))];
    AppendOne(conditions, keys[0], operator);
    ExtendShape(conditions, keys, operator);
    ExtendShape(more, keys[1..], operator);
    var r := Extend(conditions, keys, operator);
    assert r == Extend(more, keys[1..], operator);
    if k == 0 {
      assert r[..|conditions|] == conditions;
      assert r[|conditions|] == r[..|more|][|conditions|];
    } else {
      ExtendAt(more, keys[1..], operator, k - 1);
    }
  }
}
