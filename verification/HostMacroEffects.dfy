/** What the macro mass update does to every host, and exactly when it succeeds. */
module HostMacroEffects {
  import opened Wrappers
  import opened HostMacros
  import opened HostMacroPlans

  /** The macros host `hostid` is meant to have afterwards, as a map from names to bodies: requested
      macros win or lose against existing ones, and are added or not, by mode. */
  ghost predicate Wanted(mode: Mode, store: Store, hostid: nat, macros: seq<Macro>, name: string, body: Body) {
    match mode
    case Add(updateExisting) =>
      if Named(macros, name) && (updateExisting || !HasName(store, hostid, name))
      then Macro(name, body) in macros
      else Has(store, hostid, name, body)
    case Update(addMissing) =>
      if Named(macros, name) && (addMissing || HasName(store, hostid, name))
      then Macro(name, body) in macros
      else Has(store, hostid, name, body)
    case Remove(exceptSelected) =>
      Has(store, hostid, name, body) && (macros == [] || Named(macros, name) == exceptSelected)
    case RemoveAll(_) => false
  }

  /** The chosen macros are acceptable for one host: it may be edited if there are any, each can be
      parsed and has a known type, and the API tells them apart. */
  predicate AcceptsChosen(c: Choice, h: Host, macros: seq<Macro>, editable: set<nat>, parse: Parser) {
    && (forall m :: m in macros && Chosen(c, h, m) ==>
          h.hostid in editable && parse(m.name).Some? && (m.body.macroType == 0 || m.body.macroType == 1))
    && ToldApart(c, h, macros, parse)
  }

  /** The update is acceptable for one host; no macro to add may read as one the host already has. */
  ghost predicate Accepts(mode: Mode, h: Host, macros: seq<Macro>, editable: set<nat>, parse: Parser) {
    match mode
    case RemoveAll(confirmed) => confirmed && h.hostid in editable
    case Remove(exceptSelected) =>
      h.hostid in editable || macros == [] || forall hm :: hm in h.macros ==> Named(macros, hm.name) == exceptSelected
    case _ =>
      && (PlansAdds(mode) ==>
            && AcceptsChosen(ToAdd, h, macros, editable, parse)
            && forall m, hm :: m in macros && Missing(h, m) && hm in h.macros ==>
              Read(parse, m.name) != Read(parse, hm.name))
      && (PlansUpdates(mode) ==> AcceptsChosen(ToUpdate, h, macros, editable, parse))
  }

  // ----- the API calls

  ghost predicate Touched(update: seq<MacroUpdate>, id: nat) { exists u :: u in update && u.hostmacroid == id }

  /** `created` is `rows` with the entries of `add` under the ids from `next` on. */
  ghost predicate Inserted(rows: map<nat, Row>, next: nat, add: seq<Row>, created: map<nat, Row>) {
    forall id ::
      && (id in rows ==> id < next)
      && (id in created <==> id in rows || next <= id < next + |add|)
      && (id in created ==> created[id] == if id in rows then rows[id] else add[id - next])
  }

  /** `final` is `rows` with the rows of `update` replaced. */
  ghost predicate Rewritten(rows: map<nat, Row>, update: seq<MacroUpdate>, final: map<nat, Row>) {
    && final.Keys == rows.Keys
    && (forall u :: u in update ==> u.hostmacroid in rows && final[u.hostmacroid] == RowOf(u))
    && forall id :: id in rows && !Touched(update, id) ==> final[id] == rows[id]
  }

  lemma {:induction false} InsertIs(rows: map<nat, Row>, next: nat, add: seq<Row>)
    requires forall id :: id in rows ==> id < next
    ensures Inserted(rows, next, add, Insert(rows, next, add))
  {
    if add != [] { InsertIs(rows, next, add[..|add| - 1]); }
  }

  lemma TouchedAppend(update: seq<MacroUpdate>, u: MacroUpdate)
    ensures forall id :: Touched(update + [u], id) <==>
      Touched(update, id) || id == u.hostmacroid
  {
    assert u in update + [u];
    forall x | x in update ensures x in update + [u] {}
  }

  lemma {:induction false} RewriteIs(rows: map<nat, Row>, update: seq<MacroUpdate>)
    requires forall u :: u in update ==> u.hostmacroid in rows
    requires DistinctIds(update)
    ensures Rewritten(rows, update, Rewrite(rows, update))
  {
    if update != [] {
      var n := |update| - 1;
      assert update == update[..n] + [update[n]];
      RewriteIs(rows, update[..n]);
      forall u | u in update[..n] ensures u.hostmacroid != update[n].hostmacroid {
        var i :| 0 <= i < n && update[i] == u;
      }
      TouchedAppend(update[..n], update[n]);
    }
  }

  /** Two updates of one macro would name it twice, which the API refuses. */
  lemma UpdateIdsDistinct(store: Store, update: seq<MacroUpdate>, parse: Parser)
    requires KeepsNames(store, update) && DuplicateFree(RowsOf(update), parse)
    ensures DistinctIds(update)
  {
    forall i, j | 0 <= i < j < |update| ensures update[i].hostmacroid != update[j].hostmacroid {
      DuplicateFreeApart(RowsOf(update), parse, i, j);
      assert update[i] in update && update[j] in update;
    }
  }

  /** An accepted create and update, by what they do to the rows. */
  lemma Submitted(store: Store, add: seq<Row>, update: seq<MacroUpdate>, editable: set<nat>, parse: Parser)
    returns (created: map<nat, Row>, final: map<nat, Row>)
    requires Valid(store, parse) && KeepsNames(store, update)
    requires Submit(store, Plan(add, update, []), editable, parse).Ok?
    ensures Submit(store, Plan(add, update, []), editable, parse).value == Store(final, store.next + |add|)
    ensures Inserted(store.rows, store.next, add, created) && Rewritten(created, update, final)
  {
    created := Insert(store.rows, store.next, add);
    final := Rewrite(created, update);
    InsertIs(store.rows, store.next, add);
    SubmittedRows(store, add, update, editable, parse);
    UpdateIdsDistinct(store, update, parse);
    RewriteIs(created, update);
  }

  lemma SubmittedRows(store: Store, add: seq<Row>, update: seq<MacroUpdate>, editable: set<nat>, parse: Parser)
    requires Submit(store, Plan(add, update, []), editable, parse).Ok?
    ensures Submit(store, Plan(add, update, []), editable, parse).value
         == Store(Rewrite(Insert(store.rows, store.next, add), update), store.next + |add|)
    ensures DuplicateFree(RowsOf(update), parse)
    ensures EntryListOk(add, editable, parse) && forall a :: a in add ==>
      !Taken(store.rows, a, parse)
  {
  }

  lemma RewrittenRows(rows: map<nat, Row>, next: nat, add: seq<Row>, update: seq<MacroUpdate>,
                      created: map<nat, Row>, final: map<nat, Row>, row: Row)
    requires Inserted(rows, next, add, created) && Rewritten(created, update, final)
    requires forall u :: u in update ==> u.hostmacroid in rows
    ensures (exists id :: id in final && final[id] == row)
       <==> (|| row in add
             || (exists u :: u in update && RowOf(u) == row)
             || (exists id :: id in rows && rows[id] == row && !Touched(update, id)))
  {
    if id :| id in final && final[id] == row {
      if Touched(update, id) {
        var u :| u in update && u.hostmacroid == id;
        assert RowOf(u) == row;
      } else if id in rows {
        assert final[id] == rows[id];
      } else {
        assert created[next + (id - next)] == row;
        assert add[id - next] in add;
      }
    }
    if row in add {
      var k :| 0 <= k < |add| && add[k] == row;
      assert !Touched(update, next + k);
      assert next + k in final && final[next + k] == created[next + k];
    }
    if u :| u in update && RowOf(u) == row {
      assert u.hostmacroid in final && final[u.hostmacroid] == row;
    }
    if id :| id in rows && rows[id] == row && !Touched(update, id) {
      assert id in final && final[id] == row;
    }
  }

  /** What the rows are after an accepted create and update. */
  lemma SubmitIs(store: Store, add: seq<Row>, update: seq<MacroUpdate>, editable: set<nat>,
                 parse: Parser, hostid: nat, name: string, body: Body)
    requires Valid(store, parse) && KeepsNames(store, update)
    requires Submit(store, Plan(add, update, []), editable, parse).Ok?
    ensures Has(Submit(store, Plan(add, update, []), editable, parse).value, hostid, name, body)
       <==> (|| Row(hostid, name, body) in add
             || (exists u :: u in update && u.hostid == hostid && u.name == name && u.body == body)
             || (exists id :: id in store.rows && store.rows[id] == Row(hostid, name, body) && !Touched(update, id)))
  {
    var created, final := Submitted(store, add, update, editable, parse);
    hide Submit, Inserted, Rewritten;
    RewrittenRows(store.rows, store.next, add, update, created, final, Row(hostid, name, body));
    if u :| u in update && RowOf(u) == Row(hostid, name, body) {
      assert u.hostid == hostid && u.name == name && u.body == body;
    }
  }

  lemma SubmitValid(store: Store, add: seq<Row>, update: seq<MacroUpdate>, editable: set<nat>, parse: Parser)
    requires Valid(store, parse) && KeepsNames(store, update)
    requires Submit(store, Plan(add, update, []), editable, parse).Ok?
    ensures Valid(Submit(store, Plan(add, update, []), editable, parse).value, parse)
  {
    var created, final := Submitted(store, add, update, editable, parse);
    SubmittedRows(store, add, update, editable, parse);
    hide Submit;
    CreatedValid(store, add, created, editable, parse);
    forall id | id in final ensures final[id].hostid == created[id].hostid && final[id].name == created[id].name {
      if Touched(update, id) {
        var u :| u in update && u.hostmacroid == id;
        assert IsRow(store, u.hostid, HostMacro(u.hostmacroid, u.name)) && created[id] == store.rows[id];
      }
    }
  }

  lemma CreatedValid(store: Store, add: seq<Row>, created: map<nat, Row>, editable: set<nat>, parse: Parser)
    requires Valid(store, parse) && Inserted(store.rows, store.next, add, created)
    requires EntryListOk(add, editable, parse) && forall a :: a in add ==> !Taken(store.rows, a, parse)
    ensures Valid(Store(created, store.next + |add|), parse)
  {
    forall id | id in created ensures parse(created[id].name).Some? {
      if id !in store.rows {
        var k := id - store.next;
        assert created[store.next + k] == add[k] && add[k] in add;
      }
    }
    forall i, j | i in created && j in created && i != j ensures !Clash(created[i], created[j], parse) {
      CreatedApart(store, add, created, parse, i, j);
    }
  }

  lemma CreatedApart(store: Store, add: seq<Row>, created: map<nat, Row>, parse: Parser, i: nat, j: nat)
    requires Valid(store, parse) && Inserted(store.rows, store.next, add, created)
    requires (forall a :: a in add ==> !Taken(store.rows, a, parse)) && DuplicateFree(add, parse)
    requires i in created && j in created && i != j
    ensures !Clash(created[i], created[j], parse)
  {
    hide DuplicateFree;
    if i in store.rows && j in store.rows {
    } else if i !in store.rows && j !in store.rows {
      var p, q := i - store.next, j - store.next;
      assert created[store.next + p] == add[p] && created[store.next + q] == add[q];
      DuplicateFreeApart(add, parse, if p < q then p else q, if p < q then q else p);
    } else {
      var k := (if i in store.rows then j else i) - store.next;
      assert created[store.next + k] == add[k];
      assert add[k] in add && !Taken(store.rows, add[k], parse);
    }
  }

  // ----- reading the snapshot

  /** Membership in the planned lists, read off the store. */
  lemma PlannedFor(store: Store, parse: Parser, hosts: seq<Host>, macros: seq<Macro>, name: string, body: Body, h: Host)
    requires Valid(store, parse) && Snapshot(store, hosts) && h in hosts
    ensures Row(h.hostid, name, body) in Entries(ToAdd, hosts, macros) <==>
      Macro(name, body) in macros && !HasName(store, h.hostid, name)
    ensures (exists u ::
      u in Updates(hosts, macros) && u.hostid == h.hostid && u.name == name && u.body == body) <==>
      Macro(name, body) in macros && HasName(store, h.hostid, name)
    ensures forall id :: id in store.rows && store.rows[id].hostid == h.hostid ==>
      (Touched(Updates(hosts, macros), id) <==> Named(macros, store.rows[id].name))
  {
    ListsAre(hosts, macros, false);
    EntriesAre(ToAdd, hosts, macros);
    HostEntriesAre(ToAdd, h, macros);
    HostUpdatesIs(h, macros);
    MissingIs(store, h, Macro(name, body));
    forall g | g in hosts && g.hostid == h.hostid ensures g == h { SameHost(hosts, g, h); }
    if Row(h.hostid, name, body) in Entries(ToAdd, hosts, macros) {
      var g :| g in hosts && Row(h.hostid, name, body) in HostEntries(ToAdd, g, macros);
      OwnHost(ToAdd, g, macros);
    }
    if exists u :: u in Updates(hosts, macros) && u.hostid == h.hostid && u.name == name && u.body == body {
      var u :| u in Updates(hosts, macros) && u.hostid == h.hostid && u.name == name && u.body == body;
      var g :| g in hosts && u in HostUpdates(g, macros);
      OwnUpdates(g, macros);
    }
    if Macro(name, body) in macros && HasName(store, h.hostid, name) {
      assert UpdateFor(h, Macro(name, body)) in HostUpdates(h, macros);
    }
    forall id | id in store.rows && store.rows[id].hostid == h.hostid
      ensures Touched(Updates(hosts, macros), id) <==> Named(macros, store.rows[id].name)
    {
      TouchedIs(store, parse, hosts, macros, h, id);
    }
  }

  lemma SameHost(hosts: seq<Host>, g: Host, h: Host)
    requires DistinctHosts(hosts) && g in hosts && h in hosts && g.hostid == h.hostid
    ensures g == h
  {
    var i :| 0 <= i < |hosts| && hosts[i] == g;
    var j :| 0 <= j < |hosts| && hosts[j] == h;
    assert i == j;
  }

  /** An existing macro is updated exactly when its name is requested. */
  lemma TouchedIs(store: Store, parse: Parser, hosts: seq<Host>, macros: seq<Macro>, h: Host, id: nat)
    requires Valid(store, parse) && Snapshot(store, hosts) && h in hosts
    requires id in store.rows && store.rows[id].hostid == h.hostid
    ensures Touched(Updates(hosts, macros), id) <==>
      Named(macros, store.rows[id].name)
  {
    ListsAre(hosts, macros, false);
    if Touched(Updates(hosts, macros), id) {
      var u :| u in Updates(hosts, macros) && u.hostmacroid == id;
      var g :| g in hosts && u in HostUpdates(g, macros);
      HostUpdatesIs(g, macros);
      var m :| m in macros && !Missing(g, m) && u == UpdateFor(g, m);
      MissingIs(store, g, m);
    }
    if Named(macros, store.rows[id].name) {
      var m :| m in macros && m.name == store.rows[id].name;
      MissingIs(store, h, m);
      HostUpdatesIs(h, macros);
      var u := UpdateFor(h, m);
      assert u in HostUpdates(h, macros);
      assert u.hostmacroid == id by {
        if u.hostmacroid != id { assert Clash(store.rows[u.hostmacroid], store.rows[id], parse); }
      }
    }
  }

  // ----- the effect

  lemma AddOrUpdateEffect(store: Store, hosts: seq<Host>, mode: Mode, macros: seq<Macro>, editable: set<nat>,
                          parse: Parser, h: Host, name: string, body: Body)
    requires Valid(store, parse) && Snapshot(store, hosts) && h in hosts
    requires mode.Add? || mode.Update?
    requires Execute(store, hosts, mode, macros, editable, parse).Ok?
    ensures Has(Execute(store, hosts, mode, macros, editable, parse).value, h.hostid, name, body)
       <==> Wanted(mode, store, h.hostid, macros, name, body)
  {
    var plan := PlanOf(hosts, mode, macros);
    PlanIs(hosts, mode, macros);
    UpdatesKeepNames(store, hosts, macros);
    SubmitIs(store, plan.add, plan.update, editable, parse, h.hostid, name, body);
    PlannedFor(store, parse, hosts, macros, name, body, h);
  }

  lemma RemoveEffect(store: Store, hosts: seq<Host>, mode: Mode, macros: seq<Macro>, editable: set<nat>,
                     parse: Parser, h: Host, name: string, body: Body)
    requires Snapshot(store, hosts) && h in hosts
    requires mode.Remove? || mode.RemoveAll?
    requires Execute(store, hosts, mode, macros, editable, parse).Ok?
    ensures Has(Execute(store, hosts, mode, macros, editable, parse).value, h.hostid, name, body)
       <==> Wanted(mode, store, h.hostid, macros, name, body)
  {
    var after := Execute(store, hosts, mode, macros, editable, parse).value;
    assert Selected(hosts, h.hostid);
    if mode.Remove? {
      forall id | id in store.rows && store.rows[id] == Row(h.hostid, name, body)
        ensures id in after.rows <==> macros == [] || Named(macros, name) == mode.exceptSelected
      {
        RemovalsAre(store, hosts, macros, mode.exceptSelected, id);
      }
    }
  }

  ghost predicate HasWanted(store: Store, after: Store, mode: Mode, hostid: nat, macros: seq<Macro>) {
    forall name, body :: Has(after, hostid, name, body) <==> Wanted(mode, store, hostid, macros, name, body)
  }

  /** A successful mass update leaves every selected host with exactly the macros its mode asks for. */
  lemma HostGetsWanted(store: Store, hosts: seq<Host>, mode: Mode, macros: seq<Macro>, editable: set<nat>,
                       parse: Parser, h: Host)
    requires Valid(store, parse) && Snapshot(store, hosts) && h in hosts
    requires Execute(store, hosts, mode, macros, editable, parse).Ok?
    ensures HasWanted(store, Execute(store, hosts, mode, macros, editable, parse).value, mode, h.hostid, macros)
  {
    var after := Execute(store, hosts, mode, macros, editable, parse).value;
    forall name, body
      ensures Has(after, h.hostid, name, body) <==> Wanted(mode, store, h.hostid, macros, name, body)
    {
      if mode.Add? || mode.Update? {
        AddOrUpdateEffect(store, hosts, mode, macros, editable, parse, h, name, body);
      } else {
        RemoveEffect(store, hosts, mode, macros, editable, parse, h, name, body);
      }
    }
  }

  ghost predicate SameElsewhere(store: Store, after: Store, hosts: seq<Host>) {
    forall id ::
      || (id in store.rows && !Selected(hosts, store.rows[id].hostid))
      || (id in after.rows && !Selected(hosts, after.rows[id].hostid)) ==>
      id in store.rows && id in after.rows && after.rows[id] == store.rows[id]
  }

  /** The macros of all other hosts stay as they are, row by row, and the table stays consistent. */
  lemma OthersUntouched(store: Store, hosts: seq<Host>, mode: Mode, macros: seq<Macro>, editable: set<nat>,
                        parse: Parser)
    requires Valid(store, parse) && Snapshot(store, hosts)
    requires Execute(store, hosts, mode, macros, editable, parse).Ok?
    ensures Valid(Execute(store, hosts, mode, macros, editable, parse).value, parse)
    ensures SameElsewhere(store, Execute(store, hosts, mode, macros, editable, parse).value, hosts)
  {
    if mode.Add? || mode.Update? {
      var plan := PlanOf(hosts, mode, macros);
      PlanIs(hosts, mode, macros);
      UpdatesKeepNames(store, hosts, macros);
      PlanIsForSelected(hosts, macros);
      SubmitValid(store, plan.add, plan.update, editable, parse);
      SubmitElsewhere(store, plan.add, plan.update, editable, parse, hosts);
    } else if mode.Remove? {
      forall id | id in store.rows ensures id in Removals(hosts, macros, mode.exceptSelected) ==>
        Selected(hosts, store.rows[id].hostid)
      {
        RemovalsAre(store, hosts, macros, mode.exceptSelected, id);
      }
    }
  }

  lemma SubmitElsewhere(store: Store, add: seq<Row>, update: seq<MacroUpdate>, editable: set<nat>,
                        parse: Parser, hosts: seq<Host>)
    requires Valid(store, parse) && KeepsNames(store, update)
    requires Submit(store, Plan(add, update, []), editable, parse).Ok?
    requires forall a :: a in add ==> Selected(hosts, a.hostid)
    requires forall u :: u in update ==> Selected(hosts, u.hostid)
    ensures SameElsewhere(store, Submit(store, Plan(add, update, []), editable, parse).value, hosts)
  {
    var created, final := Submitted(store, add, update, editable, parse);
    hide Submit, Inserted, Rewritten, Selected;
    forall id
      | (id in store.rows && !Selected(hosts, store.rows[id].hostid)) || (id in final && !Selected(hosts, final[id].hostid))
      ensures id in store.rows && id in final && final[id] == store.rows[id]
    {
      RowElsewhere(store, add, update, created, final, hosts, id);
    }
  }

  lemma RowElsewhere(store: Store, add: seq<Row>, update: seq<MacroUpdate>, created: map<nat, Row>,
                     final: map<nat, Row>, hosts: seq<Host>, id: nat)
    requires Inserted(store.rows, store.next, add, created) && Rewritten(created, update, final)
    requires forall a :: a in add ==> Selected(hosts, a.hostid)
    requires KeepsNames(store, update) && forall u :: u in update ==> Selected(hosts, u.hostid)
    ensures
      || (id in store.rows && id in final && final[id] == store.rows[id])
      || ((id in store.rows ==> Selected(hosts, store.rows[id].hostid))
          && (id in final ==> Selected(hosts, final[id].hostid)))
  {
    hide Selected;
    if Touched(update, id) {
      var u :| u in update && u.hostmacroid == id;
      assert IsRow(store, u.hostid, HostMacro(u.hostmacroid, u.name));
      assert final[id] == RowOf(u);
    } else if id in final && id !in store.rows {
      var k := id - store.next;
      assert created[store.next + k] == add[k] && add[k] in add;
    }
  }

  lemma PlanIsForSelected(hosts: seq<Host>, macros: seq<Macro>)
    ensures forall a :: a in Entries(ToAdd, hosts, macros) ==>
      Selected(hosts, a.hostid)
    ensures forall u :: u in Updates(hosts, macros) ==> Selected(hosts, u.hostid)
  {
    ListsAre(hosts, macros, false);
    EntriesAre(ToAdd, hosts, macros);
    forall a | a in Entries(ToAdd, hosts, macros) ensures Selected(hosts, a.hostid) {
      var h :| h in hosts && a in HostEntries(ToAdd, h, macros);
      OwnHost(ToAdd, h, macros);
    }
    forall u | u in Updates(hosts, macros) ensures Selected(hosts, u.hostid) {
      var h :| h in hosts && u in HostUpdates(h, macros);
      OwnUpdates(h, macros);
    }
  }

  // ----- success

  /** A mass update goes through exactly when it is acceptable for every selected host; otherwise, by
      `MassUpdateMacros`, nothing changes for any host. */
  lemma SucceedsExactly(store: Store, hosts: seq<Host>, mode: Mode, macros: seq<Macro>, editable: set<nat>,
                        parse: Parser)
    requires Valid(store, parse) && Snapshot(store, hosts)
    ensures Execute(store, hosts, mode, macros, editable, parse).Ok? <==>
      forall h :: h in hosts ==> Accepts(mode, h, macros, editable, parse)
  {
    if mode.Remove? {
      RemoveSucceeds(store, hosts, mode.exceptSelected, macros, editable, parse);
    } else if mode.RemoveAll? {
      assert hosts != [] ==> hosts[0] in hosts;
    } else {
      SubmitSucceeds(store, hosts, mode, macros, editable, parse);
    }
  }

  lemma RemoveSucceeds(store: Store, hosts: seq<Host>, exceptSelected: bool, macros: seq<Macro>, editable: set<nat>,
                       parse: Parser)
    requires Snapshot(store, hosts)
    ensures Execute(store, hosts, Remove(exceptSelected), macros, editable, parse).Ok? <==>
      forall h :: h in hosts ==> Accepts(Remove(exceptSelected), h, macros, editable, parse)
  {
    var ids := Removals(hosts, macros, exceptSelected);
    forall id
      ensures id in ids <==>
        id in store.rows && Selected(hosts, store.rows[id].hostid) &&
          Named(macros, store.rows[id].name) != exceptSelected
    {
      RemovalsAre(store, hosts, macros, exceptSelected, id);
    }
    if macros != [] {
      if Execute(store, hosts, Remove(exceptSelected), macros, editable, parse).Ok? {
        forall h, hm | h in hosts && hm in h.macros && Named(macros, hm.name) != exceptSelected
          ensures h.hostid in editable {
          assert IsRow(store, h.hostid, hm);
          assert hm.hostmacroid in ids;
        }
      }
      if forall h :: h in hosts ==> Accepts(Remove(exceptSelected), h, macros, editable, parse) {
        forall id | id in ids ensures store.rows[id].hostid in editable {
          var h :| h in hosts && h.hostid == store.rows[id].hostid;
          assert HostMacro(id, store.rows[id].name) in h.macros;
        }
      }
    }
  }

  /** The API's conditions on the entries planned for one host. */
  ghost predicate EntriesOk(store: Store, mode: Mode, h: Host, macros: seq<Macro>, editable: set<nat>, parse: Parser) {
    && (PlansAdds(mode) ==>
          && EntryListOk(HostEntries(ToAdd, h, macros), editable, parse)
          && forall a :: a in HostEntries(ToAdd, h, macros) ==> !Taken(store.rows, a, parse))
    && (PlansUpdates(mode) ==> EntryListOk(HostEntries(ToUpdate, h, macros), editable, parse))
  }

  predicate EntryListOk(entries: seq<Row>, editable: set<nat>, parse: Parser) {
    (forall a :: a in entries ==> a.hostid in editable && WellFormed(a, parse)) && DuplicateFree(entries, parse)
  }

  /** After an accepted create no planned update can hit the name of another macro. */
  lemma UpdatesNeverTaken(store: Store, add: seq<Row>, update: seq<MacroUpdate>, parse: Parser, u: MacroUpdate)
    requires Valid(store, parse) && KeepsNames(store, update) && u in update
    requires (forall a :: a in add ==> !Taken(store.rows, a, parse)) && DuplicateFree(add, parse)
    ensures var created := Insert(store.rows, store.next, add);
            && u.hostmacroid in created && created[u.hostmacroid].hostid == u.hostid
            && !TakenByOther(created, u, parse)
  {
    var created := Insert(store.rows, store.next, add);
    InsertIs(store.rows, store.next, add);
    assert IsRow(store, u.hostid, HostMacro(u.hostmacroid, u.name));
    forall id | id in created && id != u.hostmacroid ensures !Clash(created[id], RowOf(u), parse) {
      CreatedApart(store, add, created, parse, id, u.hostmacroid);
    }
  }

  /** Create and update both pass exactly when both lists are well-formed, editable and free of
      duplicates, and no macro to add exists. */
  lemma SubmitOkIs(store: Store, add: seq<Row>, update: seq<MacroUpdate>, editable: set<nat>, parse: Parser)
    requires Valid(store, parse) && KeepsNames(store, update)
    ensures Submit(store, Plan(add, update, []), editable, parse).Ok? <==>
      && EntryListOk(add, editable, parse) && (forall a :: a in add ==> !Taken(store.rows, a, parse))
      && EntryListOk(RowsOf(update), editable, parse)
  {
    UpdateRowsOk(update, editable, parse);
    if EntryListOk(add, editable, parse) && forall a :: a in add ==> !Taken(store.rows, a, parse) {
      forall u | u in update
        ensures var created := Insert(store.rows, store.next, add);
                && u.hostmacroid in created && created[u.hostmacroid].hostid == u.hostid
                && !TakenByOther(created, u, parse)
      {
        UpdatesNeverTaken(store, add, update, parse, u);
      }
    }
  }

  lemma UpdateRowsOk(update: seq<MacroUpdate>, editable: set<nat>, parse: Parser)
    ensures (forall a :: a in RowsOf(update) ==>
      a.hostid in editable && WellFormed(a, parse)) <==>
            (forall u :: u in update ==> u.hostid in editable && WellFormed(RowOf(u), parse))
  {
    forall u | u in update ensures RowOf(u) in RowsOf(update) {
      var i :| 0 <= i < |update| && update[i] == u;
      assert RowsOf(update)[i] == RowOf(u);
    }
  }

  /** The conditions on a list hold when they hold for every host's part. */
  lemma EntryListSplits(c: Choice, hosts: seq<Host>, macros: seq<Macro>, editable: set<nat>, parse: Parser)
    requires DistinctHosts(hosts)
    ensures EntryListOk(Entries(c, hosts, macros), editable, parse) <==>
      forall h :: h in hosts ==> EntryListOk(HostEntries(c, h, macros), editable, parse)
  {
    EntriesAre(c, hosts, macros);
    EntriesDuplicateFree(c, hosts, macros, parse);
  }

  lemma NoneTakenSplits(rows: map<nat, Row>, hosts: seq<Host>, macros: seq<Macro>, parse: Parser)
    ensures (forall a :: a in Entries(ToAdd, hosts, macros) ==>
      !Taken(rows, a, parse)) <==>
      forall h, a :: h in hosts && a in HostEntries(ToAdd, h, macros) ==> !Taken(rows, a, parse)
  {
    EntriesAre(ToAdd, hosts, macros);
  }

  lemma EntriesOkIs(store: Store, hosts: seq<Host>, mode: Mode, macros: seq<Macro>, editable: set<nat>, parse: Parser)
    requires Valid(store, parse) && Snapshot(store, hosts)
    requires mode.Add? || mode.Update?
    ensures Execute(store, hosts, mode, macros, editable, parse).Ok? <==>
      forall h :: h in hosts ==> EntriesOk(store, mode, h, macros, editable, parse)
  {
    hide Submit, EntryListOk, Taken;
    var plan := PlanOf(hosts, mode, macros);
    PlanIs(hosts, mode, macros);
    UpdatesKeepNames(store, hosts, macros);
    SubmitOkIs(store, plan.add, plan.update, editable, parse);
    UpdateRows(hosts, macros);
    EntryListSplits(ToAdd, hosts, macros, editable, parse);
    EntryListSplits(ToUpdate, hosts, macros, editable, parse);
    NoneTakenSplits(store.rows, hosts, macros, parse);
    NothingOk(editable, parse);
  }

  lemma NothingOk(editable: set<nat>, parse: Parser)
    ensures EntryListOk([], editable, parse) && RowsOf([]) == []
  {
  }

  /** A macro to add is taken exactly when the API sees it among the host's own macros. */
  lemma TakenIs(store: Store, h: Host, m: Macro, parse: Parser)
    requires Lists(store, h)
    ensures Taken(store.rows, Row(h.hostid, m.name, m.body), parse) <==>
      exists hm :: hm in h.macros && Read(parse, hm.name) == Read(parse, m.name)
  {
    if Taken(store.rows, Row(h.hostid, m.name, m.body), parse) {
      var id :| id in store.rows && Clash(store.rows[id], Row(h.hostid, m.name, m.body), parse);
      assert HostMacro(id, store.rows[id].name) in h.macros;
    }
    if exists hm :: hm in h.macros && Read(parse, hm.name) == Read(parse, m.name) {
      var hm :| hm in h.macros && Read(parse, hm.name) == Read(parse, m.name);
      assert IsRow(store, h.hostid, hm);
      assert Clash(store.rows[hm.hostmacroid], Row(h.hostid, m.name, m.body), parse);
    }
  }

  lemma EntryListOkIs(c: Choice, h: Host, macros: seq<Macro>, editable: set<nat>, parse: Parser)
    ensures EntryListOk(HostEntries(c, h, macros), editable, parse) <==>
      AcceptsChosen(c, h, macros, editable, parse)
  {
    hide DuplicateFree, ToldApart;
    HostDuplicateFree(c, h, macros, parse);
    HostEntriesAre(c, h, macros);
    forall m | m in macros && Chosen(c, h, m) ensures Row(h.hostid, m.name, m.body) in HostEntries(c, h, macros) {}
  }

  lemma AcceptsIs(store: Store, mode: Mode, h: Host, macros: seq<Macro>, editable: set<nat>, parse: Parser)
    requires Lists(store, h)
    requires mode.Add? || mode.Update?
    ensures EntriesOk(store, mode, h, macros, editable, parse) <==>
      Accepts(mode, h, macros, editable, parse)
  {
    hide EntryListOk, AcceptsChosen, Taken, HostEntries;
    EntryListOkIs(ToAdd, h, macros, editable, parse);
    EntryListOkIs(ToUpdate, h, macros, editable, parse);
    HostEntriesAre(ToAdd, h, macros);
    forall m | m in macros && Missing(h, m)
      ensures Row(h.hostid, m.name, m.body) in HostEntries(ToAdd, h, macros)
      ensures Taken(store.rows, Row(h.hostid, m.name, m.body), parse) <==>
        exists hm :: hm in h.macros && Read(parse, hm.name) == Read(parse, m.name)
    {
      assert Chosen(ToAdd, h, m);
      TakenIs(store, h, m, parse);
    }
  }

  lemma SubmitSucceeds(store: Store, hosts: seq<Host>, mode: Mode, macros: seq<Macro>, editable: set<nat>,
                       parse: Parser)
    requires Valid(store, parse) && Snapshot(store, hosts)
    requires mode.Add? || mode.Update?
    ensures Execute(store, hosts, mode, macros, editable, parse).Ok? <==>
      forall h :: h in hosts ==> Accepts(mode, h, macros, editable, parse)
  {
    EntriesOkIs(store, hosts, mode, macros, editable, parse);
    forall h | h in hosts
      ensures EntriesOk(store, mode, h, macros, editable, parse) <==> Accepts(mode, h, macros, editable, parse)
    {
      var i :| 0 <= i < |hosts| && hosts[i] == h;
      assert Lists(store, hosts[i]);
      AcceptsIs(store, mode, h, macros, editable, parse);
    }
  }

  // ----- the edges

  /** "Add, and update existing" and "update, and add missing" are the same transaction: the two walks
      collect the same lists. */
  lemma AddUpdatingIsUpdateAdding(store: Store, hosts: seq<Host>, macros: seq<Macro>, editable: set<nat>, parse: Parser)
    ensures AddHosts(hosts, macros, true) == ReplaceHosts(hosts, macros, true)
    ensures Execute(store, hosts, Add(true), macros, editable, parse)
         == Execute(store, hosts, Update(true), macros, editable, parse)
  {
    AddHostsIs(hosts, macros, true);
    ReplaceHostsIs(hosts, macros, true);
  }

  /** A macro whose text cannot be parsed makes the whole update fail. */
  lemma MalformedIsRefused(body: Body, parse: Parser)
    requires parse("not a macro").None?
    ensures Execute(Store(map[], 1), [Host(1, [])], Add(false), [Macro("not a macro", body)], {1}, parse) == Failed
  {
    var h, m := Host(1, []), Macro("not a macro", body);
    SucceedsExactly(Store(map[], 1), [h], Add(false), [m], {1}, parse);
    assert h in [h] && m in [m] && Chosen(ToAdd, h, m);
  }

  /** Three macros that differ can be refused in one order and accepted in another: without context and
      regular expression, the last one takes the null context of one and the null expression of the
      other for a duplicate. */
  lemma OrderDecides(body: Body, parse: Parser)
    requires parse("{$M}") == Some(Parsed("M", Plain)) && parse("{$M:a}") == Some(Parsed("M", Context("a")))
    requires parse("{$M:regex:b}") == Some(Parsed("M", Regex("b"))) && body.macroType == ZBX_MACRO_TYPE_TEXT
    ensures var plain, context, regex := Macro("{$M}", body), Macro("{$M:a}", body), Macro("{$M:regex:b}", body);
      && Execute(Store(map[], 1), [Host(1, [])], Add(false), [context, regex, plain], {1}, parse) == Failed
      && Execute(Store(map[], 1), [Host(1, [])], Add(false), [plain, context, regex], {1}, parse).Ok?
  {
    hide Execute, Admits;
    var h, plain := Host(1, []), Macro("{$M}", body);
    var context, regex := Macro("{$M:a}", body), Macro("{$M:regex:b}", body);
    assert h in [h];
    SucceedsExactly(Store(map[], 1), [h], Add(false), [context, regex, plain], {1}, parse);
    SucceedsExactly(Store(map[], 1), [h], Add(false), [plain, context, regex], {1}, parse);
    assert [context, regex, plain][..2] == [context, regex];
    PlainRefused(h, context, regex, plain, parse);
    assert !AdmitsAt(ToAdd, h, [context, regex, plain], 2, parse);
    PlainFirst(h, context, regex, plain, parse);
    forall m | m in [plain, context, regex] ensures WellFormed(Row(h.hostid, m.name, m.body), parse) {}
  }

  lemma PlainRefused(h: Host, context: Macro, regex: Macro, plain: Macro, parse: Parser)
    requires h.macros == [] && Read(parse, plain.name) == Parsed("M", Plain)
    requires Read(parse, context.name) == Parsed("M", Context("a")) &&
      Read(parse, regex.name) == Parsed("M", Regex("b"))
    ensures !Admits(ToAdd, h, [context, regex], plain, parse)
  {
    assert context in [context, regex] && regex in [context, regex];
    assert Chosen(ToAdd, h, context) && Chosen(ToAdd, h, regex);
  }

  lemma PlainFirst(h: Host, context: Macro, regex: Macro, plain: Macro, parse: Parser)
    requires h.macros == [] && Read(parse, plain.name) == Parsed("M", Plain)
    requires Read(parse, context.name) == Parsed("M", Context("a")) &&
      Read(parse, regex.name) == Parsed("M", Regex("b"))
    ensures ToldApart(ToAdd, h, [plain, context, regex], parse)
  {
    var all := [plain, context, regex];
    assert all[..0] == [] && all[..1] == [plain] && all[..2] == [plain, context];
  }

  /** A macro to add may be a text (0) or a secret (1) macro, and nothing else. */
  lemma AddedTypes(rest: string, macroType: nat, parse: Parser)
    requires parse("{$M}").Some?
    ensures Execute(Store(map[], 1), [Host(1, [])], Add(false), [Macro("{$M}", Body(macroType, rest))], {1}, parse).Ok?
       <==> macroType == 0 || macroType == 1
  {
    var h, m := Host(1, []), Macro("{$M}", Body(macroType, rest));
    SucceedsExactly(Store(map[], 1), [h], Add(false), [m], {1}, parse);
    assert h in [h] && m in [m] && [m][..0] == [] && Chosen(ToAdd, h, m);
    assert AdmitsAt(ToAdd, h, [m], 0, parse);
  }

  /** So may a macro to update, whatever it was. */
  lemma UpdatedTypes(was: Body, rest: string, macroType: nat, parse: Parser)
    requires parse("{$M}").Some?
    ensures Execute(Store(map[7 := Row(1, "{$M}", was)], 8), [Host(1, [HostMacro(7, "{$M}")])], Update(false),
                    [Macro("{$M}", Body(macroType, rest))], {1}, parse).Ok?
       <==> macroType == 0 || macroType == 1
  {
    var h, m := Host(1, [HostMacro(7, "{$M}")]), Macro("{$M}", Body(macroType, rest));
    var store := Store(map[7 := Row(1, "{$M}", was)], 8);
    assert HostMacro(7, "{$M}") in h.macros;
    assert Lists(store, [h][0]);
    SucceedsExactly(store, [h], Update(false), [m], {1}, parse);
    assert h in [h] && m in [m] && [m][..0] == [] && Chosen(ToUpdate, h, m);
    assert AdmitsAt(ToUpdate, h, [m], 0, parse);
  }

  /** REMOVE is meant to drop the requested macros or, with "except selected", all others.  The walk
      skips an empty request, so "all except nothing" leaves every macro in place: the result is the
      meant one exactly when something is requested, or the option is off, or there is nothing to drop. */
  lemma RemoveIsRestriction(store: Store, hosts: seq<Host>, exceptSelected: bool, macros: seq<Macro>,
                            editable: set<nat>, parse: Parser, h: Host)
    requires Valid(store, parse) && Snapshot(store, hosts) && h in hosts
    requires Execute(store, hosts, Remove(exceptSelected), macros, editable, parse).Ok?
    ensures (forall name, body ::
               Has(Execute(store, hosts, Remove(exceptSelected), macros, editable, parse).value, h.hostid, name, body)
               <==> Has(store, h.hostid, name, body) && Named(macros, name) == exceptSelected)
            <==> macros != [] || !exceptSelected || h.macros == []
  {
    HostGetsWanted(store, hosts, Remove(exceptSelected), macros, editable, parse, h);
    var after := Execute(store, hosts, Remove(exceptSelected), macros, editable, parse).value;
    var i :| 0 <= i < |hosts| && hosts[i] == h;
    assert Lists(store, hosts[i]);
    if macros == [] && h.macros != [] {
      var hm := h.macros[0];
      assert hm in h.macros && IsRow(store, h.hostid, hm);
      var row := store.rows[hm.hostmacroid];
      assert Has(store, h.hostid, row.name, row.body);
      assert Has(after, h.hostid, row.name, row.body);
      assert !Named(macros, row.name);
    } else if macros == [] {
      assert forall id :: id in store.rows ==> store.rows[id].hostid != h.hostid;
      assert forall name, body :: !Has(store, h.hostid, name, body);
    }
  }

  /** "All macros except the selected ones", with none selected, removes none. */
  lemma ExceptNothingRemovesNothing(body: Body, editable: set<nat>, parse: Parser)
    ensures var store := Store(map[7 := Row(1, "{$M}", body)], 8);
      Execute(store, [Host(1, [HostMacro(7, "{$M}")])], Remove(true), [], editable, parse) == Ok(store)
  {
  }

}