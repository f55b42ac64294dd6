/** What the walks of the macro mass update collect, and when the API takes a collected list for one with
    duplicates. */
module HostMacroPlans {
  import opened Wrappers
  import opened HostMacros

  // ----- the lists

  lemma {:induction false} HostEntriesAre(c: Choice, h: Host, macros: seq<Macro>)
    ensures forall a :: a in HostEntries(c, h, macros) <==>
      exists m :: m in macros && Chosen(c, h, m) && a == Row(h.hostid, m.name, m.body)
  {
    if macros != [] {
      var n := |macros| - 1;
      HostEntriesAre(c, h, macros[..n]);
      assert macros == macros[..n] + [macros[n]];
      assert forall m :: m in macros <==> m in macros[..n] || m == macros[n];
    }
  }

  lemma {:induction false} HostUpdatesIs(h: Host, macros: seq<Macro>)
    ensures forall u :: u in HostUpdates(h, macros) <==>
      exists m :: m in macros && !Missing(h, m) && u == UpdateFor(h, m)
  {
    if macros != [] {
      var n := |macros| - 1;
      HostUpdatesIs(h, macros[..n]);
      assert macros == macros[..n] + [macros[n]];
      assert forall m :: m in macros <==> m in macros[..n] || m == macros[n];
    }
  }

  lemma {:induction false} HostRemovalsIs(own: seq<HostMacro>, macros: seq<Macro>, exceptSelected: bool)
    ensures forall id :: id in HostRemovals(own, macros, exceptSelected) <==>
      exists hm :: hm in own && hm.hostmacroid == id && Named(macros, hm.name) != exceptSelected
  {
    if own != [] {
      var n := |own| - 1;
      HostRemovalsIs(own[..n], macros, exceptSelected);
      assert own == own[..n] + [own[n]];
      assert forall hm :: hm in own <==> hm in own[..n] || hm == own[n];
    }
  }

  lemma {:induction false} ListsAre(hosts: seq<Host>, macros: seq<Macro>, exceptSelected: bool)
    ensures forall u :: u in Updates(hosts, macros) <==>
      exists h :: h in hosts && u in HostUpdates(h, macros)
    ensures forall id :: id in Removals(hosts, macros, exceptSelected) <==>
      exists h :: h in hosts && id in HostRemovals(h.macros, macros, exceptSelected)
  {
    if hosts != [] {
      var n := |hosts| - 1;
      ListsAre(hosts[..n], macros, exceptSelected);
      assert hosts == hosts[..n] + [hosts[n]];
      assert forall h :: h in hosts <==> h in hosts[..n] || h == hosts[n];
    }
  }

  lemma {:induction false} EntriesAre(c: Choice, hosts: seq<Host>, macros: seq<Macro>)
    ensures forall a :: a in Entries(c, hosts, macros) <==>
      exists h :: h in hosts && a in HostEntries(c, h, macros)
  {
    if hosts != [] {
      var n := |hosts| - 1;
      EntriesAre(c, hosts[..n], macros);
      assert Entries(c, hosts, macros) == Entries(c, hosts[..n], macros) + HostEntries(c, hosts[n], macros);
      assert hosts == hosts[..n] + [hosts[n]];
      assert forall h :: h in hosts <==> h in hosts[..n] || h == hosts[n];
    }
  }

  // ----- what the two walks collect

  lemma {:induction false} AddHostIs(plan: Plan, h: Host, macros: seq<Macro>, updateExisting: bool)
    ensures AddHost(plan, h, macros, updateExisting) ==
      Plan(plan.add + HostEntries(ToAdd, h, macros),
           plan.update + (if updateExisting then HostUpdates(h, macros) else []), plan.remove)
  {
    if macros != [] { AddHostIs(plan, h, macros[..|macros| - 1], updateExisting); }
  }

  lemma {:induction false} ReplaceHostIs(plan: Plan, h: Host, macros: seq<Macro>, addMissing: bool)
    ensures ReplaceHost(plan, h, macros, addMissing) ==
      Plan(plan.add + (if addMissing then HostEntries(ToAdd, h, macros) else []),
           plan.update + HostUpdates(h, macros), plan.remove)
  {
    if macros != [] { ReplaceHostIs(plan, h, macros[..|macros| - 1], addMissing); }
  }

  lemma {:induction false} AddHostsIs(hosts: seq<Host>, macros: seq<Macro>, updateExisting: bool)
    ensures AddHosts(hosts, macros, updateExisting) ==
      Plan(Entries(ToAdd, hosts, macros), if updateExisting then Updates(hosts, macros) else [], [])
  {
    if hosts != [] {
      var n := |hosts| - 1;
      AddHostsIs(hosts[..n], macros, updateExisting);
      AddHostIs(AddHosts(hosts[..n], macros, updateExisting), hosts[n], macros, updateExisting);
    }
  }

  lemma {:induction false} ReplaceHostsIs(hosts: seq<Host>, macros: seq<Macro>, addMissing: bool)
    ensures ReplaceHosts(hosts, macros, addMissing) ==
      Plan(if addMissing then Entries(ToAdd, hosts, macros) else [], Updates(hosts, macros), [])
  {
    if hosts != [] {
      var n := |hosts| - 1;
      ReplaceHostsIs(hosts[..n], macros, addMissing);
      ReplaceHostIs(ReplaceHosts(hosts[..n], macros, addMissing), hosts[n], macros, addMissing);
    }
  }

  lemma PlanIs(hosts: seq<Host>, mode: Mode, macros: seq<Macro>)
    requires mode.Add? || mode.Update?
    ensures PlanOf(hosts, mode, macros) ==
      Plan(if PlansAdds(mode) then Entries(ToAdd, hosts, macros) else [],
           if PlansUpdates(mode) then Updates(hosts, macros) else [], [])
  {
    if mode.Add? {
      AddHostsIs(hosts, macros, mode.updateExisting);
    } else {
      ReplaceHostsIs(hosts, macros, mode.addMissing);
    }
  }

  /** The updates are those of the chosen entries. */
  lemma {:induction false} HostUpdateRows(h: Host, macros: seq<Macro>)
    ensures RowsOf(HostUpdates(h, macros)) == HostEntries(ToUpdate, h, macros)
  {
    if macros != [] {
      var n := |macros| - 1;
      HostUpdateRows(h, macros[..n]);
      RowsOfAppend(HostUpdates(h, macros[..n]), if Missing(h, macros[n]) then [] else [UpdateFor(h, macros[n])]);
    }
  }

  lemma RowsOfAppend(a: seq<MacroUpdate>, b: seq<MacroUpdate>)
    ensures RowsOf(a + b) == RowsOf(a) + RowsOf(b)
  {
  }

  lemma {:induction false} UpdateRows(hosts: seq<Host>, macros: seq<Macro>)
    ensures RowsOf(Updates(hosts, macros)) == Entries(ToUpdate, hosts, macros)
  {
    if hosts != [] {
      var n := |hosts| - 1;
      UpdateRows(hosts[..n], macros);
      HostUpdateRows(hosts[n], macros);
      RowsOfAppend(Updates(hosts[..n], macros), HostUpdates(hosts[n], macros));
    }
  }

  // ----- duplicates in a request

  /** An entry is a duplicate of every earlier one that reads the same; beyond that only a plain macro is
      refused, after one with a context and one with a regular expression. */
  lemma DuplicateIs(earlier: seq<Row>, a: Row, parse: Parser)
    ensures var p := Read(parse, a.name);
      IsDuplicate(earlier, a, parse) <==>
        || (exists e :: e in earlier && Clash(e, a, parse))
        || (p.qualifier.Plain? && Precedes(earlier, a, parse, true) && Precedes(earlier, a, parse, false))
  {
    var p := Read(parse, a.name);
    if e :| e in earlier && Clash(e, a, parse) {
      assert SameName(e, a, parse);
    }
  }

  /** An earlier entry of the name has a context (or a regular expression). */
  predicate Precedes(earlier: seq<Row>, a: Row, parse: Parser, context: bool) {
    exists e :: e in earlier && SameName(e, a, parse)
                && if context then Read(parse, e.name).qualifier.Context? else Read(parse, e.name).qualifier.Regex?
  }

  /** No entry of a request that passes reads the same as another one of its host. */
  lemma {:induction false} DuplicateFreeApart(add: seq<Row>, parse: Parser, i: nat, j: nat)
    requires DuplicateFree(add, parse) && i < j < |add|
    ensures !Clash(add[i], add[j], parse)
  {
    var n := |add| - 1;
    if j == n {
      DuplicateIs(add[..n], add[n], parse);
      assert add[i] in add[..n];
    } else {
      DuplicateFreeApart(add[..n], parse, i, j);
    }
  }

  lemma {:induction false} DuplicateFreeAppend(a: seq<Row>, b: seq<Row>, parse: Parser)
    requires forall x, y :: x in a && y in b ==> x.hostid != y.hostid
    ensures DuplicateFree(a + b, parse) <==>
      DuplicateFree(a, parse) && DuplicateFree(b, parse)
  {
    if b == [] {
      assert a + b == a;
    } else {
      var n := |b| - 1;
      assert b == b[..n] + [b[n]];
      DuplicateFreeAppend(a, b[..n], parse);
      assert (a + b)[..|a + b| - 1] == a + b[..n];
      OtherHostsIgnored(a, b[..n], b[n], parse);
    }
  }

  lemma OtherHostsIgnored(a: seq<Row>, b: seq<Row>, x: Row, parse: Parser)
    requires forall y :: y in a ==> y.hostid != x.hostid
    ensures IsDuplicate(a + b, x, parse) <==> IsDuplicate(b, x, parse)
  {
    assert forall e :: e in a + b && SameName(e, x, parse) <==> e in b && SameName(e, x, parse);
  }

  /** The check splits by hosts. */
  lemma {:induction false} EntriesDuplicateFree(c: Choice, hosts: seq<Host>, macros: seq<Macro>, parse: Parser)
    requires DistinctHosts(hosts)
    ensures DuplicateFree(Entries(c, hosts, macros), parse) <==>
      forall h :: h in hosts ==> DuplicateFree(HostEntries(c, h, macros), parse)
  {
    hide HostEntries;
    if hosts != [] {
      var n := |hosts| - 1;
      var last := hosts[n];
      EntriesDuplicateFree(c, hosts[..n], macros, parse);
      OtherHosts(c, hosts[..n], last, macros);
      OwnHost(c, last, macros);
      DuplicateFreeAppend(Entries(c, hosts[..n], macros), HostEntries(c, last, macros), parse);
      assert hosts == hosts[..n] + [last];
      assert forall h :: h in hosts <==> h in hosts[..n] || h == last;
    }
  }

  lemma OwnHost(c: Choice, h: Host, macros: seq<Macro>)
    ensures forall a :: a in HostEntries(c, h, macros) ==> a.hostid == h.hostid
  {
    HostEntriesAre(c, h, macros);
  }

  lemma OwnUpdates(h: Host, macros: seq<Macro>)
    ensures forall u :: u in HostUpdates(h, macros) ==> u.hostid == h.hostid
  {
    HostUpdatesIs(h, macros);
  }

  lemma OtherHosts(c: Choice, hosts: seq<Host>, last: Host, macros: seq<Macro>)
    requires forall h :: h in hosts ==> h.hostid != last.hostid
    ensures forall a :: a in Entries(c, hosts, macros) ==> a.hostid != last.hostid
  {
    EntriesAre(c, hosts, macros);
    forall a | a in Entries(c, hosts, macros) ensures a.hostid != last.hostid {
      var h :| h in hosts && a in HostEntries(c, h, macros);
      OwnHost(c, h, macros);
    }
  }

  /** For one host the check comes to a condition on the requested macros. */
  lemma {:induction false} HostDuplicateFree(c: Choice, h: Host, macros: seq<Macro>, parse: Parser)
    ensures DuplicateFree(HostEntries(c, h, macros), parse) <==>
      ToldApart(c, h, macros, parse)
  {
    if macros != [] {
      var n := |macros| - 1;
      var rest, last := macros[..n], macros[n];
      HostDuplicateFree(c, h, rest, parse);
      ToldApartStep(c, h, macros, parse);
      if Chosen(c, h, last) {
        var a := Row(h.hostid, last.name, last.body);
        AdmitsIs(c, h, rest, last, parse);
        assert HostEntries(c, h, macros) == HostEntries(c, h, rest) + [a];
        assert HostEntries(c, h, macros)[..|HostEntries(c, h, rest)|] == HostEntries(c, h, rest);
      } else {
        assert HostEntries(c, h, macros) == HostEntries(c, h, rest);
      }
    }
  }

  lemma ToldApartStep(c: Choice, h: Host, macros: seq<Macro>, parse: Parser)
    requires macros != []
    ensures var n := |macros| - 1;
      ToldApart(c, h, macros, parse) <==> ToldApart(c, h, macros[..n], parse) && AdmitsAt(c, h, macros, n, parse)
  {
    hide Admits;
    var n := |macros| - 1;
    forall k | 0 <= k < n ensures AdmitsAt(c, h, macros[..n], k, parse) <==> AdmitsAt(c, h, macros, k, parse) {
      assert macros[..n][..k] == macros[..k];
    }
  }

  lemma AdmitsIs(c: Choice, h: Host, earlier: seq<Macro>, last: Macro, parse: Parser)
    ensures Admits(c, h, earlier, last, parse) <==>
      !IsDuplicate(HostEntries(c, h, earlier), Row(h.hostid, last.name, last.body), parse)
  {
    var entries, a := HostEntries(c, h, earlier), Row(h.hostid, last.name, last.body);
    HostEntriesAre(c, h, earlier);
    DuplicateIs(entries, a, parse);
    forall m | m in earlier && Chosen(c, h, m) ensures Row(h.hostid, m.name, m.body) in entries {}
  }

  // ----- reading the snapshot

  lemma MissingIs(store: Store, h: Host, m: Macro)
    requires Lists(store, h)
    ensures Missing(h, m) <==> !HasName(store, h.hostid, m.name)
    ensures !Missing(h, m) ==>
      IsRow(store, h.hostid, HostMacro(UpdateFor(h, m).hostmacroid, m.name))
  {
    var at := FindMacro(h.macros, m.name);
    if at < |h.macros| {
      assert h.macros[at] in h.macros;
      assert IsRow(store, h.hostid, h.macros[at]);
    }
    if HasName(store, h.hostid, m.name) {
      var id :| id in store.rows && store.rows[id].hostid == h.hostid && store.rows[id].name == m.name;
      assert HostMacro(id, m.name) in h.macros;
    }
  }

  lemma UpdatesKeepNames(store: Store, hosts: seq<Host>, macros: seq<Macro>)
    requires Snapshot(store, hosts)
    ensures KeepsNames(store, Updates(hosts, macros))
  {
    ListsAre(hosts, macros, false);
    forall u | u in Updates(hosts, macros) ensures IsRow(store, u.hostid, HostMacro(u.hostmacroid, u.name)) {
      var h :| h in hosts && u in HostUpdates(h, macros);
      HostUpdatesIs(h, macros);
      var m :| m in macros && !Missing(h, m) && u == UpdateFor(h, m);
      MissingIs(store, h, m);
    }
  }

  /** A planned update keeps its row's host and name. */
  ghost predicate KeepsNames(store: Store, update: seq<MacroUpdate>) {
    forall u :: u in update ==> IsRow(store, u.hostid, HostMacro(u.hostmacroid, u.name))
  }

  lemma RemovalsAre(store: Store, hosts: seq<Host>, macros: seq<Macro>, exceptSelected: bool, id: nat)
    requires Snapshot(store, hosts)
    ensures id in Removals(hosts, macros, exceptSelected) <==>
      && id in store.rows && Selected(hosts, store.rows[id].hostid)
      && Named(macros, store.rows[id].name) != exceptSelected
  {
    ListsAre(hosts, macros, exceptSelected);
    if id in Removals(hosts, macros, exceptSelected) {
      var h :| h in hosts && id in HostRemovals(h.macros, macros, exceptSelected);
      HostRemovalsIs(h.macros, macros, exceptSelected);
      var hm :| hm in h.macros && hm.hostmacroid == id && Named(macros, hm.name) != exceptSelected;
      assert IsRow(store, h.hostid, hm);
    }
    if id in store.rows && Selected(hosts, store.rows[id].hostid) {
      var h :| h in hosts && h.hostid == store.rows[id].hostid;
      HostRemovalsIs(h.macros, macros, exceptSelected);
      assert HostMacro(id, store.rows[id].name) in h.macros;
    }
  }

  // ----- the condition on a request

  predicate PlansAdds(mode: Mode) { mode.Add? || (mode.Update? && mode.addMissing) }

  predicate PlansUpdates(mode: Mode) { mode.Update? || (mode.Add? && mode.updateExisting) }

  /** The API tells `last` apart from the chosen macros before it: none reads the same, and a macro
      without context and regular expression does not follow both one with a context and one with a
      regular expression of its name. */
  predicate Admits(c: Choice, h: Host, earlier: seq<Macro>, last: Macro, parse: Parser) {
    var p := Read(parse, last.name);
    && (forall m :: m in earlier && Chosen(c, h, m) ==> Read(parse, m.name) != p)
    && (p.qualifier.Plain? ==>
          !(exists m :: m in earlier && Chosen(c, h, m) && Read(parse, m.name).name == p.name
                        && Read(parse, m.name).qualifier.Context?)
          || !(exists m :: m in earlier && Chosen(c, h, m) && Read(parse, m.name).name == p.name
                           && Read(parse, m.name).qualifier.Regex?))
  }

  predicate AdmitsAt(c: Choice, h: Host, macros: seq<Macro>, k: nat, parse: Parser) {
    k < |macros| && (Chosen(c, h, macros[k]) ==> Admits(c, h, macros[..k], macros[k], parse))
  }

  predicate ToldApart(c: Choice, h: Host, macros: seq<Macro>, parse: Parser) {
    forall k :: 0 <= k < |macros| ==> AdmitsAt(c, h, macros, k, parse)
  }

  // ----- ids

  predicate DistinctIds(update: seq<MacroUpdate>) {
    forall i, j :: 0 <= i < j < |update| ==> update[i].hostmacroid != update[j].hostmacroid
  }

  /** A macro the host has is requested once. */
  predicate RequestedOnce(h: Host, macros: seq<Macro>) {
    forall i, j :: 0 <= i < j < |macros| && !Missing(h, macros[j]) ==> macros[i].name != macros[j].name
  }

  /** No macro id occurs twice among the planned removals; none does among the planned updates exactly
      when the request names no macro twice that some host has. */
  lemma PlannedIdsOnce(store: Store, hosts: seq<Host>, macros: seq<Macro>, exceptSelected: bool)
    requires Snapshot(store, hosts)
    ensures DistinctIds(Updates(hosts, macros)) <==>
      forall h :: h in hosts ==> RequestedOnce(h, macros)
    ensures NoRepeats(Removals(hosts, macros, exceptSelected))
  {
    UpdateIdsOnce(store, hosts, macros);
    RemovalsOnce(store, hosts, macros, exceptSelected);
  }

  lemma {:induction false} HostUpdateIdsOnce(store: Store, h: Host, macros: seq<Macro>)
    requires Lists(store, h)
    ensures DistinctIds(HostUpdates(h, macros)) <==> RequestedOnce(h, macros)
  {
    hide DistinctIds, RequestedOnce;
    if macros == [] {
      NoIds();
      NoRequest(h);
    } else {
      var n := |macros| - 1;
      var rest := HostUpdates(h, macros[..n]);
      HostUpdateIdsOnce(store, h, macros[..n]);
      RequestedOnceStep(h, macros);
      if Missing(h, macros[n]) {
        assert rest + [] == rest;
      } else {
        LastIdNew(h, macros[..n], macros[n]);
        DistinctIdsStep(rest, UpdateFor(h, macros[n]));
      }
    }
  }

  lemma NoRequest(h: Host)
    ensures RequestedOnce(h, [])
  {
  }

  lemma RequestedOnceStep(h: Host, macros: seq<Macro>)
    requires macros != []
    ensures var n := |macros| - 1;
      RequestedOnce(h, macros) <==>
        && RequestedOnce(h, macros[..n])
        && (!Missing(h, macros[n]) ==> forall m :: m in macros[..n] ==> m.name != macros[n].name)
  {
    var n := |macros| - 1;
    if RequestedOnce(h, macros) && !Missing(h, macros[n]) {
      forall m | m in macros[..n] ensures m.name != macros[n].name {
        var i :| 0 <= i < n && macros[i] == m;
      }
    }
    if RequestedOnce(h, macros[..n]) && (!Missing(h, macros[n]) ==> forall m :: m in macros[..n] ==>
      m.name != macros[n].name) {
      forall i, j | 0 <= i < j < |macros| && !Missing(h, macros[j]) ensures macros[i].name != macros[j].name {
        assert macros[i] == macros[..n][i];
        if j < n { assert macros[j] == macros[..n][j]; }
      }
    }
  }

  /** Updates of one host have the same id exactly when they have the same name. */
  lemma LastIdNew(h: Host, earlier: seq<Macro>, last: Macro)
    requires !Missing(h, last)
    requires forall i, j :: 0 <= i < j < |h.macros| ==> h.macros[i].hostmacroid != h.macros[j].hostmacroid
    ensures (forall u :: u in HostUpdates(h, earlier) ==>
      u.hostmacroid != UpdateFor(h, last).hostmacroid) <==>
            (forall m :: m in earlier ==> m.name != last.name)
  {
    HostUpdatesIs(h, earlier);
    forall m | m in earlier && m.name == last.name ensures UpdateFor(h, m) in HostUpdates(h, earlier) {}
    forall u | u in HostUpdates(h, earlier) && u.hostmacroid == UpdateFor(h, last).hostmacroid
      ensures u.name == last.name {
      var m :| m in earlier && !Missing(h, m) && u == UpdateFor(h, m);
      assert FindMacro(h.macros, m.name) == FindMacro(h.macros, last.name);
    }
  }

  lemma DistinctIdsStep(a: seq<MacroUpdate>, u: MacroUpdate)
    ensures DistinctIds(a + [u]) <==>
      DistinctIds(a) && forall x :: x in a ==> x.hostmacroid != u.hostmacroid
  {
    var all := a + [u];
    if DistinctIds(all) {
      assert forall i :: 0 <= i < |a| ==> all[i] == a[i];
      forall x | x in a ensures x.hostmacroid != u.hostmacroid {
        var i :| 0 <= i < |a| && a[i] == x;
        assert all[i].hostmacroid != all[|a|].hostmacroid;
      }
    }
  }

  lemma {:induction false} DistinctIdsAppend(a: seq<MacroUpdate>, b: seq<MacroUpdate>)
    requires forall x, y :: x in a && y in b ==> x.hostmacroid != y.hostmacroid
    ensures DistinctIds(a + b) <==> DistinctIds(a) && DistinctIds(b)
  {
    if b == [] {
      assert a + b == a;
    } else {
      var n := |b| - 1;
      assert b == b[..n] + [b[n]] && a + b == (a + b[..n]) + [b[n]];
      DistinctIdsAppend(a, b[..n]);
      DistinctIdsStep(b[..n], b[n]);
      DistinctIdsStep(a + b[..n], b[n]);
    }
  }

  lemma {:induction false} UpdateIdsOnce(store: Store, hosts: seq<Host>, macros: seq<Macro>)
    requires Snapshot(store, hosts)
    ensures DistinctIds(Updates(hosts, macros)) <==>
      forall h :: h in hosts ==> RequestedOnce(h, macros)
  {
    hide RequestedOnce, DistinctIds;
    if hosts != [] {
      var n := |hosts| - 1;
      var last := hosts[n];
      assert hosts == hosts[..n] + [last];
      assert forall h :: h in hosts <==> h in hosts[..n] || h == last;
      assert Snapshot(store, hosts[..n]) && Lists(store, last);
      UpdateIdsOnce(store, hosts[..n], macros);
      HostUpdateIdsOnce(store, last, macros);
      OtherRows(store, hosts, macros);
      DistinctIdsAppend(Updates(hosts[..n], macros), HostUpdates(last, macros));
    } else {
      NoIds();
    }
  }

  lemma NoIds()
    ensures DistinctIds([])
  {
  }

  lemma OtherRows(store: Store, hosts: seq<Host>, macros: seq<Macro>)
    requires Snapshot(store, hosts) && hosts != []
    ensures var n := |hosts| - 1;
      forall x, y :: x in Updates(hosts[..n], macros) && y in HostUpdates(hosts[n], macros) ==>
        x.hostmacroid != y.hostmacroid
  {
    var n := |hosts| - 1;
    assert Snapshot(store, hosts[..n]) && Snapshot(store, [hosts[n]]);
    UpdatesKeepNames(store, hosts[..n], macros);
    UpdatesKeepNames(store, [hosts[n]], macros);
    assert [hosts[n]][..0] == [];
    assert Updates([hosts[n]], macros) == HostUpdates(hosts[n], macros);
    OwnUpdates(hosts[n], macros);
    ListsAre(hosts[..n], macros, false);
    forall x | x in Updates(hosts[..n], macros) ensures x.hostid != hosts[n].hostid {
      var h :| h in hosts[..n] && x in HostUpdates(h, macros);
      OwnUpdates(h, macros);
    }
  }

  predicate NoRepeats(ids: seq<nat>) { forall i, j :: 0 <= i < j < |ids| ==> ids[i] != ids[j] }

  lemma NoRepeatsAppend(a: seq<nat>, b: seq<nat>)
    requires NoRepeats(a) && NoRepeats(b) && forall x :: x in a ==> x !in b
    ensures NoRepeats(a + b)
  {
    forall i, j | 0 <= i < |a| && 0 <= j < |b| ensures a[i] != b[j] { assert a[i] in a; }
  }

  lemma {:induction false} HostRemovalsOnce(own: seq<HostMacro>, macros: seq<Macro>, exceptSelected: bool)
    requires forall i, j :: 0 <= i < j < |own| ==> own[i].hostmacroid != own[j].hostmacroid
    ensures NoRepeats(HostRemovals(own, macros, exceptSelected))
  {
    if own != [] {
      var n := |own| - 1;
      HostRemovalsOnce(own[..n], macros, exceptSelected);
      HostRemovalsIs(own[..n], macros, exceptSelected);
      forall id | id in HostRemovals(own[..n], macros, exceptSelected) ensures id != own[n].hostmacroid {
        var hm :| hm in own[..n] && hm.hostmacroid == id && Named(macros, hm.name) != exceptSelected;
        var i :| 0 <= i < n && own[i] == hm;
      }
      NoRepeatsAppend(HostRemovals(own[..n], macros, exceptSelected),
                      if Named(macros, own[n].name) != exceptSelected then [own[n].hostmacroid] else []);
    }
  }

  lemma {:induction false} RemovalsOnce(store: Store, hosts: seq<Host>, macros: seq<Macro>, exceptSelected: bool)
    requires Snapshot(store, hosts)
    ensures NoRepeats(Removals(hosts, macros, exceptSelected))
  {
    if hosts != [] {
      var n := |hosts| - 1;
      var last := hosts[n];
      assert Snapshot(store, hosts[..n]);
      RemovalsOnce(store, hosts[..n], macros, exceptSelected);
      assert Lists(store, last);
      HostRemovalsOnce(last.macros, macros, exceptSelected);
      forall id | id in Removals(hosts[..n], macros, exceptSelected)
        ensures id !in HostRemovals(last.macros, macros, exceptSelected) {
        RemovalsAre(store, hosts[..n], macros, exceptSelected, id);
        HostRemovalsIs(last.macros, macros, exceptSelected);
        OtherSelected(hosts, id, store);
      }
      NoRepeatsAppend(Removals(hosts[..n], macros, exceptSelected), HostRemovals(last.macros, macros, exceptSelected));
    }
  }

  lemma OtherSelected(hosts: seq<Host>, id: nat, store: Store)
    requires Snapshot(store, hosts) && hosts != []
    requires id in store.rows && Selected(hosts[..|hosts| - 1], store.rows[id].hostid)
    ensures forall hm :: hm in hosts[|hosts| - 1].macros ==> hm.hostmacroid != id
  {
    var n := |hosts| - 1;
    var h :| h in hosts[..n] && h.hostid == store.rows[id].hostid;
    var i :| 0 <= i < n && hosts[i] == h;
    assert Lists(store, hosts[n]);
    forall hm | hm in hosts[n].macros ensures hm.hostmacroid != id {
      assert IsRow(store, hosts[n].hostid, hm);
    }
  }
}
