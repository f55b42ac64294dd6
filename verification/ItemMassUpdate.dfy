/** The item mass update (ui/items.php): one record of new values is shared by all selected items; its
    application list is overwritten, or dropped for good, while the loop goes over the items. */
module ItemMassUpdate {
  import opened Wrappers

  const ITEM_TYPE_JMX := "16"

  datatype Action = Add | Replace | Remove

  /** A stored item; `normal` tells it from an item created by discovery. */
  datatype Item = Item(normal: bool, itemType: string, applications: seq<nat>, fields: map<string, string>)

  /** The shared record `$item`; it is empty when both parts are. */
  datatype Values = Values(applications: Option<seq<nat>>, fields: map<string, string>)

  datatype UpdateItem = UpdateItem(itemid: nat, values: Values)

  /** What the user asked for.  `applicationids` is only used when the applications are visible. */
  datatype Request = Request(applicationsVisible: bool, action: Action, applicationids: seq<nat>,
                             fields: map<string, string>, status: Option<string>)

  /** array_keys(array_flip($ids)) */
  function Unique(ids: seq<nat>): seq<nat> {
    if ids == [] then []
    else
      var rest := Unique(ids[..|ids| - 1]);
      if ids[|ids| - 1] in rest then rest else rest + [ids[|ids| - 1]]
  }

  /** array_diff */
  function Minus(a: seq<nat>, b: seq<nat>): seq<nat> {
    if a == [] then []
    else
      var rest := Minus(a[1..], b);
      if a[0] in b then rest else [a[0]] + rest
  }

  /** What the applications of an item are meant to become. */
  function WantedApplications(r: Request, own: seq<nat>): seq<nat> {
    if !r.applicationsVisible then own
    else match r.action
      case Add => if r.applicationids == [] then own else Unique(r.applicationids + own)
      case Replace => Unique(r.applicationids)
      case Remove => if r.applicationids == [] then own else Unique(Minus(own, r.applicationids))
  }

  /** A JMX endpoint is only set on JMX items. */
  function Cleaned(itemType: string, fields: map<string, string>): map<string, string> {
    var t := if "type" in fields then fields["type"] else itemType;
    if t != ITEM_TYPE_JMX then fields - {"jmx_endpoint"} else fields
  }

  function StatusOnly(r: Request): map<string, string> {
    if r.status.Some? then map["status" := r.status.value] else map[]
  }

  /** What a selected item is meant to become. */
  function Wanted(r: Request, item: Item): Item {
    if item.normal
    then item.(applications := WantedApplications(r, item.applications),
               fields := item.fields + Cleaned(item.itemType, r.fields))
    else item.(fields := item.fields + Cleaned(item.itemType, StatusOnly(r)))
  }

  // ----- the API

  function Updated(item: Item, values: Values): Item {
    item.(applications := if values.applications.Some? then values.applications.value else item.applications,
          fields := item.fields + values.fields)
  }

  /** API::Item()->update, one entry after the other. */
  function UpdateAll(db: map<nat, Item>, updates: seq<UpdateItem>): (r: map<nat, Item>)
    ensures r.Keys == db.Keys
  {
    if updates == [] then db
    else
      var u := updates[|updates| - 1];
      var before := UpdateAll(db, updates[..|updates| - 1]);
      if u.itemid in before then before[u.itemid := Updated(before[u.itemid], u.values)] else before
  }

  function CleanedUpdate(db: map<nat, Item>, u: UpdateItem): UpdateItem {
    if u.itemid in db then u.(values := u.values.(fields := Cleaned(db[u.itemid].itemType, u.values.fields))) else u
  }

  function CleanedUpdates(db: map<nat, Item>, updates: seq<UpdateItem>): seq<UpdateItem> {
    if updates == [] then []
    else CleanedUpdates(db, updates[..|updates| - 1]) + [CleanedUpdate(db, updates[|updates| - 1])]
  }

  // ----- the loops

  /** The shared record for one normal item, made from the record the previous item left behind. */
  method NextValues(item0: Values, own: seq<nat>, r: Request) returns (item: Values)
    requires Shared(r, item0)
    ensures Shared(r, item)
    ensures item.applications ==
      if r.applicationsVisible && (r.applicationids != [] || r.action == Replace)
      then Some(WantedApplications(r, own)) else None
  {
    item := item0;
    if r.applicationsVisible {
      if r.applicationids != [] {
        var updated: seq<nat>;
        match r.action {
          case Add => updated := r.applicationids + own;
          case Replace => updated := r.applicationids;
          case Remove => updated := Minus(own, r.applicationids);
        }
        item := item.(applications := Some(Unique(updated)));
      } else if r.action == Add || r.action == Remove {
        item := item.(applications := None);
      }
    }
  }

  /** The loop over the selected items. */
  method CollectUpdates(db: map<nat, Item>, itemids: seq<nat>, r: Request) returns (updates: seq<UpdateItem>)
    ensures Reached(db, itemids, r, CleanedUpdates(db, updates))
    ensures forall u :: u in updates ==> u.itemid in db && u.itemid in itemids
  {
    var item := Values(if r.applicationsVisible then Some([]) else None, r.fields);
    var discoveredItem := Values(None, StatusOnly(r));
    assert r.status.Some? ==> "status" in discoveredItem.fields;
    updates := [];
    for i := 0 to |itemids|
      invariant Shared(r, item)
      invariant forall u :: u in updates ==> u.itemid in db && u.itemid in itemids
      invariant Reached(db, itemids[..i], r, CleanedUpdates(db, updates))
    {
      var itemid := itemids[i];
      assert itemids[..i] + [itemid] == itemids[..i + 1];
      if itemid in db {
        var values := None;
        if db[itemid].normal {
          if item != Values(None, map[]) {
            item := NextValues(item, db[itemid].applications, r);
            values := Some(item);
          }
        } else if r.status.Some? {
          values := Some(discoveredItem);
        }
        if values.Some? {
          CleanedAppend(db, updates, UpdateItem(itemid, values.value));
          NextReached(db, itemids[..i], r, CleanedUpdates(db, updates), itemid, values.value);
          updates := updates + [UpdateItem(itemid, values.value)];
        } else {
          NothingToDo(db, itemids[..i], r, CleanedUpdates(db, updates), itemid);
        }
      }
    }
    assert itemids[..|itemids|] == itemids;
  }

  /** Every selected item becomes what is meant for it, whatever the other selected items are and in
      whatever order they come; no other item changes. */
  method MassUpdate(db: map<nat, Item>, itemids: seq<nat>, r: Request) returns (updates: seq<UpdateItem>)
    ensures Reached(db, itemids, r, updates)
  {
    updates := CollectUpdates(db, itemids, r);
    ghost var all := updates;
    for i := 0 to |updates|
      invariant |updates| == |all|
      invariant forall k :: i <= k < |all| ==> updates[k] == all[k]
      invariant updates[..i] == CleanedUpdates(db, all[..i])
    {
      var u := updates[i];
      assert u in all;
      assert all[..i + 1][..i] == all[..i];
      var t := if "type" in u.values.fields then u.values.fields["type"] else db[u.itemid].itemType;
      if t != ITEM_TYPE_JMX {
        u := u.(values := u.values.(fields := u.values.fields - {"jmx_endpoint"}));
      }
      ghost var was := updates;
      updates := updates[i := u];
      assert updates[..i + 1] == was[..i] + [u];
    }
    assert all[..|all|] == all && updates[..|updates|] == updates;
  }

  /** The shared record between two iterations: the fields are those requested; the applications may be
      anything once a list was computed, and may be gone when there is nothing to add or remove. */
  ghost predicate Shared(r: Request, item: Values) {
    && item.fields == r.fields
    && (!r.applicationsVisible ==> item.applications == None)
    && (r.applicationsVisible && r.applicationids != [] ==> item.applications.Some?)
    && (r.applicationsVisible && r.applicationids == [] && r.action == Replace ==> item.applications == Some([]))
    && (r.applicationsVisible && r.applicationids == [] && r.action != Replace ==>
          item.applications == None || item.applications == Some([]))
  }

  /** Applying `updates` makes the given items what they are meant to be and leaves the others. */
  ghost predicate Reached(db: map<nat, Item>, itemids: seq<nat>, r: Request, updates: seq<UpdateItem>) {
    forall id :: id in db ==> UpdateAll(db, updates)[id] == if id in itemids then Wanted(r, db[id]) else db[id]
  }

  lemma CleanedAppend(db: map<nat, Item>, updates: seq<UpdateItem>, u: UpdateItem)
    ensures CleanedUpdates(db, updates + [u]) == CleanedUpdates(db, updates) + [CleanedUpdate(db, u)]
  {
    assert (updates + [u])[..|updates|] == updates;
  }

  /** An item gets its own list, or none when its list is not to change. */
  lemma NextReached(db: map<nat, Item>, itemids: seq<nat>, r: Request, updates: seq<UpdateItem>, itemid: nat,
    values: Values)
    requires Reached(db, itemids, r, updates) && itemid in db
    requires values.fields == if db[itemid].normal then r.fields else StatusOnly(r)
    requires values.applications ==
      if db[itemid].normal && r.applicationsVisible && (r.applicationids != [] || r.action == Replace)
      then Some(WantedApplications(r, db[itemid].applications)) else None
    ensures Reached(db, itemids + [itemid], r, updates + [CleanedUpdate(db, UpdateItem(itemid, values))])
  {
    var u := CleanedUpdate(db, UpdateItem(itemid, values));
    assert (updates + [u])[..|updates|] == updates;
    var fields := Cleaned(db[itemid].itemType, values.fields);
    assert (db[itemid].fields + fields) + fields == db[itemid].fields + fields;
  }

  lemma NothingToDo(db: map<nat, Item>, itemids: seq<nat>, r: Request, updates: seq<UpdateItem>, itemid: nat)
    requires Reached(db, itemids, r, updates) && itemid in db
    requires if db[itemid].normal
      then r.fields == map[] && (r.applicationsVisible ==> r.applicationids == [] && r.action != Replace)
      else r.status == None
    ensures Reached(db, itemids + [itemid], r, updates)
  {
    assert Wanted(r, db[itemid]) == db[itemid] by {
      assert db[itemid].fields + map[] == db[itemid].fields;
      assert Cleaned(db[itemid].itemType, map[]) == map[];
    }
  }

  // ----- the applications as sets

  lemma {:induction false} UniqueIs(ids: seq<nat>)
    ensures forall x :: x in Unique(ids) <==> x in ids
    ensures forall i, j :: 0 <= i < j < |Unique(ids)| ==>
      Unique(ids)[i] != Unique(ids)[j]
  {
    if ids != [] {
      UniqueIs(ids[..|ids| - 1]);
      assert ids == ids[..|ids| - 1] + [ids[|ids| - 1]];
    }
  }

  lemma {:induction false} MinusIs(a: seq<nat>, b: seq<nat>)
    ensures forall x :: x in Minus(a, b) <==> x in a && x !in b
  {
    if a != [] {
      MinusIs(a[1..], b);
      assert a == [a[0]] + a[1..];
    }
  }

  /** ADD is union, REPLACE replacement, REMOVE difference; for ADD and REMOVE an empty request changes
      nothing, for REPLACE it takes all applications away. */
  lemma ApplicationsAsSets(r: Request, own: seq<nat>, app: nat)
    requires r.applicationsVisible
    ensures app in WantedApplications(r, own) <==>
      match r.action
      case Add => app in own || app in r.applicationids
      case Replace => app in r.applicationids
      case Remove => app in own && app !in r.applicationids
  {
    UniqueIs(r.applicationids + own);
    UniqueIs(r.applicationids);
    UniqueIs(Minus(own, r.applicationids));
    MinusIs(own, r.applicationids);
  }

  // ----- what is meant, field by field

  /** A normal item gets every requested value, except a JMX endpoint unless its type, the requested one if
      there is one, is 16; its type and kind stay, and so do all other fields. */
  lemma NormalItemGets(r: Request, item: Item, field: string)
    requires item.normal
    ensures var after := Wanted(r, item);
      var itemType := if "type" in r.fields then r.fields["type"] else item.itemType;
      && after.normal && after.itemType == item.itemType
      && if field in r.fields && (field != "jmx_endpoint" || itemType == "16")
         then field in after.fields && after.fields[field] == r.fields[field]
         else (field in after.fields <==> field in item.fields)
              && (field in item.fields ==> after.fields[field] == item.fields[field])
  {
  }

  /** An item made by discovery gets the requested status and nothing else. */
  lemma DiscoveredItemGets(r: Request, item: Item, field: string)
    requires !item.normal
    ensures var after := Wanted(r, item);
      && !after.normal && after.itemType == item.itemType && after.applications == item.applications
      && if field == "status" && r.status.Some?
         then field in after.fields && after.fields[field] == r.status.value
         else (field in after.fields <==> field in item.fields)
              && (field in item.fields ==> after.fields[field] == item.fields[field])
  {
  }

  /** The applications of a normal item are a set (no id twice) whenever the list is changed; an invisible
      list, and an empty request to add or remove, leave it as it is. */
  lemma ApplicationsKept(r: Request, item: Item)
    requires item.normal
    ensures !r.applicationsVisible || (r.applicationids == [] && r.action != Replace) ==>
      Wanted(r, item).applications == item.applications
    ensures r.applicationsVisible && (r.applicationids != [] || r.action == Replace) ==>
      var apps := Wanted(r, item).applications;
      forall i, j :: 0 <= i < j < |apps| ==> apps[i] != apps[j]
  {
    UniqueIs(r.applicationids + item.applications);
    UniqueIs(r.applicationids);
    UniqueIs(Minus(item.applications, r.applicationids));
  }

  /** An update entry sets the given fields, and the applications if it has a list; others stay. */
  lemma UpdatedIs(item: Item, values: Values, field: string)
    ensures var after := Updated(item, values);
      && after.normal == item.normal && after.itemType == item.itemType
      && after.applications == (if values.applications.Some? then values.applications.value else item.applications)
      && (field in after.fields <==> field in values.fields || field in item.fields)
      && (field in after.fields ==>
            after.fields[field] == if field in values.fields then values.fields[field] else item.fields[field])
  {
  }
}
