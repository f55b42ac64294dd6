/** The subfilters of the item list (ui/items.php): an item is shown when it passes all twelve, and
    when no item does, the subfilters are switched off.

    Values are compared as strings; an item's type, interval, history, ... come as the page shows them. */
module Subfilters {

  datatype Name =
    | Hosts | Types | ValueTypes | Status | State | Templated | Discovery | WithTriggers | History | Trends
    | Interval | Apps

  /** `interval` and `trends` are empty where an item has none. */
  datatype Item = Item(
    itemid: nat, hostids: seq<string>, itemType: string, valueType: string, status: string, state: string,
    templateid: nat, flags: Flags, triggers: nat, history: string, trends: string, interval: string,
    applications: seq<string>)

  /** ZBX_FLAG_DISCOVERY_NORMAL, ZBX_FLAG_DISCOVERY_CREATED and the rest. */
  datatype Flags = Normal | Created | Other

  /** The values asked for; a missing or empty list switches a subfilter off. */
  type Request = map<Name, seq<string>>

  function Evaluated(): seq<Name> {
    [Hosts, Types, ValueTypes, Status, State, Templated, Discovery, WithTriggers, History, Trends, Interval, Apps]
  }

  /** $subfiltersList */
  function Listed(): seq<Name> {
    [Apps, Types, ValueTypes, Status, State, Templated, WithTriggers, Hosts, Interval, History, Trends, Discovery]
  }

  function Asked(r: Request, name: Name): seq<string> { if name in r then r[name] else [] }

  /** The values of an item a subfilter looks at. */
  function Values(i: Item, name: Name): seq<string> {
    match name
    case Hosts => i.hostids
    case Types => [i.itemType]
    case ValueTypes => [i.valueType]
    case Status => [i.status]
    case State => [i.state]
    case Templated => [if i.templateid == 0 then "0" else "1"]
    case Discovery => if i.flags.Normal? then ["0"] else if i.flags.Created? then ["1"] else []
    case WithTriggers => [if i.triggers == 0 then "0" else "1"]
    case History => [i.history]
    case Trends => if i.trends == "" then [] else [i.trends]
    case Interval => if i.interval == "" then [] else [i.interval]
    case Apps => i.applications
  }

  predicate Passes(i: Item, r: Request, name: Name) {
    Asked(r, name) == [] || exists v :: v in Values(i, name) && v in Asked(r, name)
  }

  predicate PassesAll(i: Item, r: Request) { forall name :: Passes(i, r, name) }

  /** The items that pass, in order. */
  function Passing(items: seq<Item>, r: Request): seq<Item> {
    if items == [] then []
    else
      var rest := Passing(items[..|items| - 1], r);
      var last := items[|items| - 1];
      if PassesAll(last, r) then rest + [last] else rest
  }

  type Results = map<Name, bool>

  predicate Told(results: Results, name: Name) { name in results && results[name] }

  predicate AllTold(results: Results) { forall name :: Told(results, name) }

  /** An item with what its subfilters said. */
  datatype Rated = Rated(item: Item, results: Results)

  predicate RatedBy(rated: seq<Rated>, items: seq<Item>, r: Request) {
    && |rated| == |items|
    && forall k :: 0 <= k < |items| ==> rated[k].item == items[k] && (AllTold(rated[k].results) <==>
      PassesAll(items[k], r))
  }

  method AnyOf(values: seq<string>, asked: seq<string>) returns (found: bool)
    ensures found <==> exists v :: v in values && v in asked
  {
    for k := 0 to |values|
      invariant forall j :: 0 <= j < k ==> values[j] !in asked
    {
      if values[k] in asked { return true; }
    }
    found := false;
  }

  method Rate(i: Item, r: Request) returns (rated: Rated)
    ensures rated.item == i && (AllTold(rated.results) <==> PassesAll(i, r))
  {
    hide Evaluated;
    var results: Results := map[];
    for k := 0 to |Evaluated()|
      invariant forall j :: 0 <= j < k ==> (Told(results, Evaluated()[j]) <==> Passes(i, r, Evaluated()[j]))
    {
      var name := Evaluated()[k];
      var found := AnyOf(Values(i, name), Asked(r, name));
      results := results[name := Asked(r, name) == [] || found];
    }
    forall name: Name ensures Told(results, name) <==> Passes(i, r, name) { AllListed(name); }
    rated := Rated(i, results);
  }

  method IsShown(rated: Rated) returns (shown: bool)
    ensures shown <==> AllTold(rated.results)
  {
    hide Evaluated;
    shown := true;
    for k := 0 to |Evaluated()|
      invariant shown && forall j :: 0 <= j < k ==> Told(rated.results, Evaluated()[j])
    {
      if !Told(rated.results, Evaluated()[k]) { return false; }
    }
    forall name: Name ensures Told(rated.results, name) { AllListed(name); }
  }

  /** Some item passes, or there is none at all. */
  method AtLeastOne(rated: seq<Rated>) returns (found: bool)
    ensures found <==>
      rated == [] || exists k :: 0 <= k < |rated| && AllTold(rated[k].results)
  {
    hide AllTold;
    found := true;
    for k := 0 to |rated|
      invariant k == 0 ==> found
      invariant k > 0 ==> !found
      invariant forall j :: 0 <= j < k ==> !AllTold(rated[j].results)
    {
      found := IsShown(rated[k]);
      if found { return true; }
    }
  }

  /** Every listed subfilter is emptied, in the request and in what every item was told. */
  method SwitchOff(rated0: seq<Rated>, r0: Request) returns (rated: seq<Rated>, r: Request)
    ensures forall name :: Asked(r, name) == []
    ensures |rated| == |rated0|
    ensures forall k :: 0 <= k < |rated| ==>
      rated[k].item == rated0[k].item && AllTold(rated[k].results)
  {
    hide Listed;
    rated, r := rated0, r0;
    for n := 0 to |Listed()|
      invariant forall j :: 0 <= j < n ==> Asked(r, Listed()[j]) == []
      invariant |rated| == |rated0| && forall k :: 0 <= k < |rated| ==> rated[k].item == rated0[k].item
      invariant forall j, k :: 0 <= j < n && 0 <= k < |rated| ==> Told(rated[k].results, Listed()[j])
    {
      r := r[Listed()[n] := []];
      for k := 0 to |rated|
        invariant |rated| == |rated0| && forall i :: 0 <= i < |rated| ==> rated[i].item == rated0[i].item
        invariant forall j, i :: 0 <= j < n && 0 <= i < |rated| ==> Told(rated[i].results, Listed()[j])
        invariant forall i :: 0 <= i < k ==> Told(rated[i].results, Listed()[n])
      {
        rated := rated[k := rated[k].(results := rated[k].results[Listed()[n] := true])];
      }
    }
    forall name: Name ensures Asked(r, name) == [] { AllListed(name); }
    forall k, name: Name | 0 <= k < |rated| ensures Told(rated[k].results, name) { AllListed(name); }
  }

  /** Both lists of names are complete. */
  lemma AllListed(name: Name)
    ensures name in Evaluated() && name in Listed()
  {
    match name
    case Hosts => assert Evaluated()[0] == name && Listed()[7] == name;
    case Types => assert Evaluated()[1] == name && Listed()[1] == name;
    case ValueTypes => assert Evaluated()[2] == name && Listed()[2] == name;
    case Status => assert Evaluated()[3] == name && Listed()[3] == name;
    case State => assert Evaluated()[4] == name && Listed()[4] == name;
    case Templated => assert Evaluated()[5] == name && Listed()[5] == name;
    case Discovery => assert Evaluated()[6] == name && Listed()[11] == name;
    case WithTriggers => assert Evaluated()[7] == name && Listed()[6] == name;
    case History => assert Evaluated()[8] == name && Listed()[9] == name;
    case Trends => assert Evaluated()[9] == name && Listed()[10] == name;
    case Interval => assert Evaluated()[10] == name && Listed()[8] == name;
    case Apps => assert Evaluated()[11] == name && Listed()[0] == name;
  }

  method RateAll(items: seq<Item>, r: Request) returns (rated: seq<Rated>)
    ensures RatedBy(rated, items, r)
  {
    hide AllTold, PassesAll;
    rated := [];
    for k := 0 to |items|
      invariant RatedBy(rated, items[..k], r)
    {
      var one := Rate(items[k], r);
      rated := rated + [one];
    }
    assert items[..|items|] == items;
  }

  method Keep(rated: seq<Rated>, ghost items: seq<Item>, ghost r: Request) returns (shown: seq<Item>)
    requires RatedBy(rated, items, r)
    ensures shown == Passing(items, r)
  {
    shown := [];
    for k := 0 to |rated|
      invariant shown == Passing(items[..k], r)
    {
      assert items[..k + 1][..k] == items[..k];
      var keep := IsShown(rated[k]);
      if keep { shown := shown + [rated[k].item]; }
    }
    assert items[..|items|] == items;
  }

  predicate AnyPasses(items: seq<Item>, r: Request) { exists i :: i in items && PassesAll(i, r) }

  /** The list and the request the page keeps: the list is always what that request selects, a list of
      items never becomes empty, and the request changes only when it would select nothing. */
  method Show(items: seq<Item>, r0: Request) returns (shown: seq<Item>, r: Request)
    ensures shown == Passing(items, r)
    ensures items != [] ==> shown != []
    ensures AnyPasses(items, r0) || items == [] ==> r == r0
    ensures !AnyPasses(items, r0) && items != [] ==>
      shown == items && forall name :: Asked(r, name) == []
  {
    r := r0;
    var rated := RateAll(items, r);
    var found := AtLeastOne(rated);
    if !found {
      forall i | i in items ensures !PassesAll(i, r0) {
        var k :| 0 <= k < |items| && items[k] == i;
        assert !AllTold(rated[k].results);
      }
      rated, r := SwitchOff(rated, r);
    }
    shown := Keep(rated, items, r);
    PassingIs(items, r);
    if found && items != [] {
      var k :| 0 <= k < |rated| && AllTold(rated[k].results);
      assert items[k] in items && PassesAll(items[k], r);
    }
  }

  lemma {:induction false} PassingIs(items: seq<Item>, r: Request)
    ensures forall i :: i in Passing(items, r) <==> i in items && PassesAll(i, r)
    ensures Passing(items, r) == items <==>
      forall i :: i in items ==> PassesAll(i, r)
    ensures |Passing(items, r)| <= |items|
  {
    hide PassesAll;
    if items != [] {
      var n := |items| - 1;
      assert items == items[..n] + [items[n]];
      PassingIs(items[..n], r);
      assert forall i :: i in items <==> i in items[..n] || i == items[n];
    }
  }

  /** A subfilter is off when the request has no values for it. */
  predicate IsOff(r: Request, name: Name) { name !in r || r[name] == [] }

  /** What each subfilter asks of an item. */
  lemma PassesIs(i: Item, r: Request)
    ensures Passes(i, r, Hosts) <==>
      IsOff(r, Hosts) || (exists v :: v in i.hostids && v in r[Hosts])
    ensures Passes(i, r, Types) <==> IsOff(r, Types) || i.itemType in r[Types]
    ensures Passes(i, r, ValueTypes) <==>
      IsOff(r, ValueTypes) || i.valueType in r[ValueTypes]
    ensures Passes(i, r, Status) <==> IsOff(r, Status) || i.status in r[Status]
    ensures Passes(i, r, State) <==> IsOff(r, State) || i.state in r[State]
    ensures Passes(i, r, Templated) <==>
      || IsOff(r, Templated)
      || (i.templateid == 0 && "0" in r[Templated]) || (i.templateid > 0 && "1" in r[Templated])
    ensures Passes(i, r, Discovery) <==>
      || IsOff(r, Discovery)
      || (i.flags == Normal && "0" in r[Discovery]) || (i.flags == Created && "1" in r[Discovery])
    ensures Passes(i, r, WithTriggers) <==>
      || IsOff(r, WithTriggers)
      || (i.triggers == 0 && "0" in r[WithTriggers]) || (i.triggers > 0 && "1" in r[WithTriggers])
    ensures Passes(i, r, History) <==> IsOff(r, History) || i.history in r[History]
    ensures Passes(i, r, Trends) <==>
      IsOff(r, Trends) || (i.trends != "" && i.trends in r[Trends])
    ensures Passes(i, r, Interval) <==>
      IsOff(r, Interval) || (i.interval != "" && i.interval in r[Interval])
    ensures Passes(i, r, Apps) <==>
      IsOff(r, Apps) || (exists v :: v in i.applications && v in r[Apps])
  {
    hide Passes;
    HostsPass(i, r);
    OneValue(i, r, Types, i.itemType);
    OneValue(i, r, ValueTypes, i.valueType);
    OneValue(i, r, Status, i.status);
    OneValue(i, r, State, i.state);
    OneValue(i, r, Templated, if i.templateid == 0 then "0" else "1");
    OneOrNoValue(i, r, Discovery, "");
    if i.flags.Normal? { OneValue(i, r, Discovery, "0"); }
    if i.flags.Created? { OneValue(i, r, Discovery, "1"); }
    OneValue(i, r, WithTriggers, if i.triggers == 0 then "0" else "1");
    OneValue(i, r, History, i.history);
    OneOrNoValue(i, r, Trends, i.trends);
    OneOrNoValue(i, r, Interval, i.interval);
    AppsPass(i, r);
  }

  lemma OneValue(i: Item, r: Request, name: Name, v: string)
    requires Values(i, name) == [v]
    ensures Passes(i, r, name) <==> IsOff(r, name) || v in r[name]
  {
    AskedIs(r, name);
    assert v in Values(i, name);
  }

  lemma OneOrNoValue(i: Item, r: Request, name: Name, v: string)
    ensures Values(i, name) == [v] ==> (Passes(i, r, name) <==>
      IsOff(r, name) || v in r[name])
    ensures Values(i, name) == [] ==> (Passes(i, r, name) <==> IsOff(r, name))
  {
    AskedIs(r, name);
    if Values(i, name) == [v] { OneValue(i, r, name, v); }
  }

  lemma HostsPass(i: Item, r: Request)
    ensures Passes(i, r, Hosts) <==>
      IsOff(r, Hosts) || exists v :: v in i.hostids && v in r[Hosts]
  {
    AskedIs(r, Hosts);
  }

  lemma AppsPass(i: Item, r: Request)
    ensures Passes(i, r, Apps) <==>
      IsOff(r, Apps) || exists v :: v in i.applications && v in r[Apps]
  {
    AskedIs(r, Apps);
  }

  lemma AskedIs(r: Request, name: Name)
    ensures IsOff(r, name) <==> Asked(r, name) == []
    ensures !IsOff(r, name) ==> Asked(r, name) == r[name]
  {
  }

  /** An item is shown exactly when it passes each of the twelve. */
  lemma PassesAllIs(i: Item, r: Request)
    ensures PassesAll(i, r) <==>
      && Passes(i, r, Hosts) && Passes(i, r, Types) && Passes(i, r, ValueTypes) && Passes(i, r, Status)
      && Passes(i, r, State) && Passes(i, r, Templated) && Passes(i, r, Discovery) && Passes(i, r, WithTriggers)
      && Passes(i, r, History) && Passes(i, r, Trends) && Passes(i, r, Interval) && Passes(i, r, Apps)
  {
    hide Passes;
    if && Passes(i, r, Hosts) && Passes(i, r, Types) && Passes(i, r, ValueTypes) && Passes(i, r, Status)
       && Passes(i, r, State) && Passes(i, r, Templated) && Passes(i, r, Discovery) && Passes(i, r, WithTriggers)
       && Passes(i, r, History) && Passes(i, r, Trends) && Passes(i, r, Interval) && Passes(i, r, Apps) {
      forall name: Name ensures Passes(i, r, name) {
        match name {
          case Hosts | Types | ValueTypes | Status | State | Templated =>
          case Discovery | WithTriggers | History | Trends | Interval | Apps =>
        }
      }
    }
  }
}
