/** The macro part of the host mass update (ui/hosts.php): a walk over the selected hosts collects
    macros to add, update and remove, and the lists are then handed to the user macro API in the
    order delete, create, update, inside one transaction.

    The walk compares macros by their text; the API (ui/include/classes/api/services/CUserMacro.php)
    parses the text and compares what it has read.  The parser is a parameter. */
module HostMacros {
  import opened Wrappers

  // ----- macros as the API reads them

  /** A macro can be qualified by a context or by a regular expression, not by both. */
  datatype Qualifier = Plain | Context(text: string) | Regex(pattern: string)

  datatype Parsed = Parsed(name: string, qualifier: Qualifier)

  type Parser = string -> Option<Parsed>

  /** What the parser's getters return; after a failure that is an empty name. */
  function Read(parse: Parser, text: string): Parsed {
    if parse(text).Some? then parse(text).value else Parsed("", Plain)
  }

  /** getContext; None is null. */
  function ContextOf(p: Parsed): Option<string> {
    if p.qualifier.Context? then Some(p.qualifier.text) else None
  }

  /** getRegex */
  function RegexOf(p: Parsed): Option<string> {
    if p.qualifier.Regex? then Some(p.qualifier.pattern) else None
  }

  const ZBX_MACRO_TYPE_TEXT := 0
  const ZBX_MACRO_TYPE_SECRET := 1

  /** `rest` stands for the value and the description. */
  datatype Body = Body(macroType: nat, rest: string)

  // ----- the request and the plan

  datatype Macro = Macro(name: string, body: Body)

  datatype HostMacro = HostMacro(hostmacroid: nat, name: string)

  datatype Host = Host(hostid: nat, macros: seq<HostMacro>)

  datatype Mode =
    | Add(updateExisting: bool)
    | Update(addMissing: bool)
    | Remove(exceptSelected: bool)
    | RemoveAll(confirmed: bool)

  /** A macro of a host: a row of the table, or an entry of a request. */
  datatype Row = Row(hostid: nat, name: string, body: Body)

  datatype MacroUpdate = MacroUpdate(hostmacroid: nat, hostid: nat, name: string, body: Body)

  datatype Plan = Plan(add: seq<Row>, update: seq<MacroUpdate>, remove: seq<nat>)

  function RowOf(u: MacroUpdate): Row { Row(u.hostid, u.name, u.body) }

  function RowsOf(update: seq<MacroUpdate>): (rows: seq<Row>)
    ensures |rows| == |update| && forall i :: 0 <= i < |rows| ==>
      rows[i] == RowOf(update[i])
  {
    seq(|update|, i requires 0 <= i < |update| => RowOf(update[i]))
  }

  // ----- the host macro table

  /** `next` is above every id in use. */
  datatype Store = Store(rows: map<nat, Row>, next: nat)

  /** Every macro in the table can be parsed, and the API tells the macros of a host apart. */
  ghost predicate Valid(store: Store, parse: Parser) {
    && (forall id :: id in store.rows ==> id < store.next && parse(store.rows[id].name).Some?)
    && (forall i, j :: i in store.rows && j in store.rows && i != j ==> !Clash(store.rows[i], store.rows[j], parse))
  }

  predicate Clash(a: Row, b: Row, parse: Parser) {
    a.hostid == b.hostid && Read(parse, a.name) == Read(parse, b.name)
  }

  ghost predicate Has(store: Store, hostid: nat, name: string, body: Body) {
    exists id :: id in store.rows && store.rows[id] == Row(hostid, name, body)
  }

  ghost predicate HasName(store: Store, hostid: nat, name: string) {
    exists id :: id in store.rows && store.rows[id].hostid == hostid && store.rows[id].name == name
  }

  predicate DistinctHosts(hosts: seq<Host>) {
    forall i, j :: 0 <= i < j < |hosts| ==> hosts[i].hostid != hosts[j].hostid
  }

  /** The selected hosts as API::Host()->get with `selectMacros` returns them. */
  ghost predicate Snapshot(store: Store, hosts: seq<Host>) {
    && DistinctHosts(hosts)
    && forall i :: 0 <= i < |hosts| ==> Lists(store, hosts[i])
  }

  ghost predicate IsRow(store: Store, hostid: nat, hm: HostMacro) {
    && hm.hostmacroid in store.rows
    && store.rows[hm.hostmacroid].hostid == hostid && store.rows[hm.hostmacroid].name == hm.name
  }

  ghost predicate Lists(store: Store, h: Host) {
    && (forall hm :: hm in h.macros ==> IsRow(store, h.hostid, hm))
    && (forall id :: id in store.rows && store.rows[id].hostid == h.hostid ==>
          HostMacro(id, store.rows[id].name) in h.macros)
    && forall i, j :: 0 <= i < j < |h.macros| ==> h.macros[i].hostmacroid != h.macros[j].hostmacroid
  }

  // ----- the plan

  /** The first macro of the host with the given text, or the number of its macros. */
  function FindMacro(macros: seq<HostMacro>, name: string): (at: nat)
    ensures at <= |macros|
    ensures at < |macros| ==> macros[at].name == name
    ensures forall i :: 0 <= i < at ==> macros[i].name != name
  {
    if macros == [] || macros[0].name == name then 0 else 1 + FindMacro(macros[1..], name)
  }

  predicate Missing(h: Host, m: Macro) { FindMacro(h.macros, m.name) == |h.macros| }

  /** The requested macros a host does not have are to be added, the others to be updated. */
  datatype Choice = ToAdd | ToUpdate

  predicate Chosen(c: Choice, h: Host, m: Macro) { Missing(h, m) == c.ToAdd? }

  /** The entries for one host, in the order of the request. */
  function HostEntries(c: Choice, h: Host, macros: seq<Macro>): seq<Row> {
    if macros == [] then []
    else
      var m := macros[|macros| - 1];
      HostEntries(c, h, macros[..|macros| - 1]) + (if Chosen(c, h, m) then [Row(h.hostid, m.name, m.body)] else [])
  }

  function Entries(c: Choice, hosts: seq<Host>, macros: seq<Macro>): seq<Row> {
    if hosts == [] then []
    else Entries(c, hosts[..|hosts| - 1], macros) + HostEntries(c, hosts[|hosts| - 1], macros)
  }

  /** The update of the host's macro that has the requested name. */
  function UpdateFor(h: Host, m: Macro): MacroUpdate
    requires !Missing(h, m)
  {
    MacroUpdate(h.macros[FindMacro(h.macros, m.name)].hostmacroid, h.hostid, m.name, m.body)
  }

  function HostUpdates(h: Host, macros: seq<Macro>): seq<MacroUpdate> {
    if macros == [] then []
    else
      var m := macros[|macros| - 1];
      HostUpdates(h, macros[..|macros| - 1]) + (if Missing(h, m) then [] else [UpdateFor(h, m)])
  }

  predicate Named(macros: seq<Macro>, name: string) { exists m :: m in macros && m.name == name }

  function HostRemovals(own: seq<HostMacro>, macros: seq<Macro>, exceptSelected: bool): seq<nat> {
    if own == [] then []
    else
      var hm := own[|own| - 1];
      HostRemovals(own[..|own| - 1], macros, exceptSelected)
      + (if Named(macros, hm.name) != exceptSelected then [hm.hostmacroid] else [])
  }

  function Updates(hosts: seq<Host>, macros: seq<Macro>): seq<MacroUpdate> {
    if hosts == [] then [] else Updates(hosts[..|hosts| - 1], macros) + HostUpdates(hosts[|hosts| - 1], macros)
  }

  function Removals(hosts: seq<Host>, macros: seq<Macro>, exceptSelected: bool): seq<nat> {
    if hosts == [] then []
    else Removals(hosts[..|hosts| - 1], macros, exceptSelected)
         + HostRemovals(hosts[|hosts| - 1].macros, macros, exceptSelected)
  }

  // ----- ADD

  /** One requested macro: a new one is added; a known one is updated if the option says so. */
  function AddMacro(plan: Plan, h: Host, m: Macro, updateExisting: bool): Plan {
    if Missing(h, m) then plan.(add := plan.add + [Row(h.hostid, m.name, m.body)])
    else if updateExisting then plan.(update := plan.update + [UpdateFor(h, m)])
    else plan
  }

  function AddHost(plan: Plan, h: Host, macros: seq<Macro>, updateExisting: bool): Plan {
    if macros == [] then plan
    else AddMacro(AddHost(plan, h, macros[..|macros| - 1], updateExisting), h, macros[|macros| - 1], updateExisting)
  }

  function AddHosts(hosts: seq<Host>, macros: seq<Macro>, updateExisting: bool): Plan {
    if hosts == [] then Plan([], [], [])
    else AddHost(AddHosts(hosts[..|hosts| - 1], macros, updateExisting), hosts[|hosts| - 1], macros, updateExisting)
  }

  method PlanAddMacro(plan0: Plan, host: Host, macro: Macro, updateExisting: bool) returns (plan: Plan)
    ensures plan == AddMacro(plan0, host, macro, updateExisting)
  {
    plan := plan0;
    for k := 0 to |host.macros|
      invariant k <= FindMacro(host.macros, macro.name)
    {
      if macro.name == host.macros[k].name {
        if updateExisting {
          plan := plan.(update := plan.update +
                        [MacroUpdate(host.macros[k].hostmacroid, host.hostid, macro.name, macro.body)]);
        }
        return;
      }
    }
    plan := plan.(add := plan.add + [Row(host.hostid, macro.name, macro.body)]);
  }

  method PlanAdd(hosts: seq<Host>, macros: seq<Macro>, updateExisting: bool) returns (plan: Plan)
    ensures plan == AddHosts(hosts, macros, updateExisting)
  {
    plan := Plan([], [], []);
    for i := 0 to |hosts|
      invariant plan == AddHosts(hosts[..i], macros, updateExisting)
    {
      assert hosts[..i + 1][..i] == hosts[..i];
      ghost var before := plan;
      for j := 0 to |macros|
        invariant plan == AddHost(before, hosts[i], macros[..j], updateExisting)
      {
        assert macros[..j + 1][..j] == macros[..j];
        plan := PlanAddMacro(plan, hosts[i], macros[j], updateExisting);
      }
      assert macros[..|macros|] == macros;
    }
    assert hosts[..|hosts|] == hosts;
  }

  // ----- REPLACE

  /** One requested macro: a known one is updated; a new one is added if the option says so. */
  function ReplaceMacro(plan: Plan, h: Host, m: Macro, addMissing: bool): Plan {
    if !Missing(h, m) then plan.(update := plan.update + [UpdateFor(h, m)])
    else if addMissing then plan.(add := plan.add + [Row(h.hostid, m.name, m.body)])
    else plan
  }

  function ReplaceHost(plan: Plan, h: Host, macros: seq<Macro>, addMissing: bool): Plan {
    if macros == [] then plan
    else ReplaceMacro(ReplaceHost(plan, h, macros[..|macros| - 1], addMissing), h, macros[|macros| - 1], addMissing)
  }

  function ReplaceHosts(hosts: seq<Host>, macros: seq<Macro>, addMissing: bool): Plan {
    if hosts == [] then Plan([], [], [])
    else ReplaceHost(ReplaceHosts(hosts[..|hosts| - 1], macros, addMissing), hosts[|hosts| - 1], macros, addMissing)
  }

  method PlanReplaceMacro(plan0: Plan, host: Host, macro: Macro, addMissing: bool) returns (plan: Plan)
    ensures plan == ReplaceMacro(plan0, host, macro, addMissing)
  {
    plan := plan0;
    for k := 0 to |host.macros|
      invariant k <= FindMacro(host.macros, macro.name)
    {
      if macro.name == host.macros[k].name {
        plan := plan.(update := plan.update +
                      [MacroUpdate(host.macros[k].hostmacroid, host.hostid, macro.name, macro.body)]);
        return;
      }
    }
    if addMissing {
      plan := plan.(add := plan.add + [Row(host.hostid, macro.name, macro.body)]);
    }
  }

  method PlanReplace(hosts: seq<Host>, macros: seq<Macro>, addMissing: bool) returns (plan: Plan)
    ensures plan == ReplaceHosts(hosts, macros, addMissing)
  {
    plan := Plan([], [], []);
    for i := 0 to |hosts|
      invariant plan == ReplaceHosts(hosts[..i], macros, addMissing)
    {
      assert hosts[..i + 1][..i] == hosts[..i];
      ghost var before := plan;
      for j := 0 to |macros|
        invariant plan == ReplaceHost(before, hosts[i], macros[..j], addMissing)
      {
        assert macros[..j + 1][..j] == macros[..j];
        plan := PlanReplaceMacro(plan, hosts[i], macros[j], addMissing);
      }
      assert macros[..|macros|] == macros;
    }
    assert hosts[..|hosts|] == hosts;
  }

  // ----- REMOVE

  function RemovePlan(hosts: seq<Host>, macros: seq<Macro>, exceptSelected: bool): Plan {
    Plan([], [], if macros != [] then Removals(hosts, macros, exceptSelected) else [])
  }

  method PlanHostRemovals(own: seq<HostMacro>, exceptSelected: bool, macros: seq<Macro>, remove0: seq<nat>)
    returns (remove: seq<nat>)
    ensures remove == remove0 + HostRemovals(own, macros, exceptSelected)
  {
    remove := remove0;
    for k := 0 to |own|
      invariant remove == remove0 + HostRemovals(own[..k], macros, exceptSelected)
    {
      assert own[..k + 1][..k] == own[..k];
      if Named(macros, own[k].name) != exceptSelected {
        remove := remove + [own[k].hostmacroid];
      }
    }
    assert own[..|own|] == own;
  }

  method PlanRemove(hosts: seq<Host>, exceptSelected: bool, macros: seq<Macro>) returns (plan: Plan)
    ensures plan == RemovePlan(hosts, macros, exceptSelected)
  {
    var remove: seq<nat> := [];
    for i := 0 to |hosts|
      invariant remove == if macros != [] then Removals(hosts[..i], macros, exceptSelected) else []
    {
      assert hosts[..i + 1][..i] == hosts[..i];
      if macros != [] {
        remove := PlanHostRemovals(hosts[i].macros, exceptSelected, macros, remove);
      }
    }
    assert hosts[..|hosts|] == hosts;
    plan := Plan([], [], remove);
  }

  function PlanOf(hosts: seq<Host>, mode: Mode, macros: seq<Macro>): Plan {
    match mode
    case Add(updateExisting) => AddHosts(hosts, macros, updateExisting)
    case Update(addMissing) => ReplaceHosts(hosts, macros, addMissing)
    case Remove(exceptSelected) => RemovePlan(hosts, macros, exceptSelected)
    case RemoveAll(_) => Plan([], [], [])
  }

  // ----- the user macro API

  /** delete: every id must exist, on a host the user may edit. */
  function Delete(store: Store, ids: seq<nat>, editable: set<nat>): Result<Store> {
    if forall id :: id in ids ==> id in store.rows && store.rows[id].hostid in editable
    then Ok(store.(rows := map id | id in store.rows && id !in ids :: store.rows[id]))
    else Failed
  }

  /** checkMacro and checkMacroType */
  predicate WellFormed(a: Row, parse: Parser) {
    parse(a.name).Some? && (a.body.macroType == ZBX_MACRO_TYPE_TEXT || a.body.macroType == ZBX_MACRO_TYPE_SECRET)
  }

  predicate SameName(a: Row, b: Row, parse: Parser) {
    a.hostid == b.hostid && Read(parse, a.name).name == Read(parse, b.name).name
  }

  /** Whether an earlier entry of the same host and name has the context, or the regular expression, of
      `a`; having none counts as having the same. */
  predicate HasContext(earlier: seq<Row>, a: Row, parse: Parser) {
    exists e :: e in earlier && SameName(e, a, parse) &&
      ContextOf(Read(parse, e.name)) == ContextOf(Read(parse, a.name))
  }

  predicate HasRegex(earlier: seq<Row>, a: Row, parse: Parser) {
    exists e :: e in earlier && SameName(e, a, parse) && RegexOf(Read(parse, e.name)) == RegexOf(Read(parse, a.name))
  }

  predicate IsDuplicate(earlier: seq<Row>, a: Row, parse: Parser) {
    var p := Read(parse, a.name);
    || (ContextOf(p).None? && RegexOf(p).None? && HasContext(earlier, a, parse) && HasRegex(earlier, a, parse))
    || (ContextOf(p).Some? && HasContext(earlier, a, parse))
    || (RegexOf(p).Some? && HasRegex(earlier, a, parse))
  }

  /** checkDuplicateMacros: one pass over the request, each entry against those before it. */
  predicate DuplicateFree(add: seq<Row>, parse: Parser) {
    add == [] || (DuplicateFree(add[..|add| - 1], parse) && !IsDuplicate(add[..|add| - 1], add[|add| - 1], parse))
  }

  /** checkIfHostMacrosDontRepeat, for a new macro. */
  predicate Taken(rows: map<nat, Row>, a: Row, parse: Parser) {
    exists id :: id in rows && Clash(rows[id], a, parse)
  }

  function Insert(rows: map<nat, Row>, next: nat, add: seq<Row>): map<nat, Row> {
    if add == [] then rows
    else Insert(rows, next, add[..|add| - 1])[next + |add| - 1 := add[|add| - 1]]
  }

  /** create: well-formed macros of hosts the user may edit, no duplicate in the request, none that its
      host already has. */
  function Create(store: Store, add: seq<Row>, editable: set<nat>, parse: Parser): Result<Store> {
    if && (forall a :: a in add ==> a.hostid in editable && WellFormed(a, parse) && !Taken(store.rows, a, parse))
       && DuplicateFree(add, parse)
    then Ok(Store(Insert(store.rows, store.next, add), store.next + |add|))
    else Failed
  }

  /** checkIfHostMacrosDontRepeat, for an update. */
  predicate TakenByOther(rows: map<nat, Row>, u: MacroUpdate, parse: Parser) {
    exists id :: id in rows && id != u.hostmacroid && Clash(rows[id], RowOf(u), parse)
  }

  function Rewrite(rows: map<nat, Row>, update: seq<MacroUpdate>): map<nat, Row> {
    if update == [] then rows
    else
      var u := update[|update| - 1];
      Rewrite(rows, update[..|update| - 1])[u.hostmacroid := RowOf(u)]
  }

  /** One entry of an update: an existing macro of a host the user may edit, well-formed, with a name
      that no other macro of the host has.  `hostid` is filled in from the macro's row. */
  predicate Updatable(rows: map<nat, Row>, u: MacroUpdate, editable: set<nat>, parse: Parser) {
    && u.hostmacroid in rows && rows[u.hostmacroid].hostid == u.hostid
    && u.hostid in editable && WellFormed(RowOf(u), parse) && !TakenByOther(rows, u, parse)
  }

  function UpdateMacros(store: Store, update: seq<MacroUpdate>, editable: set<nat>, parse: Parser): Result<Store> {
    if (forall u :: u in update ==> Updatable(store.rows, u, editable, parse)) && DuplicateFree(RowsOf(update), parse)
    then Ok(store.(rows := Rewrite(store.rows, update)))
    else Failed
  }

  predicate Selected(hosts: seq<Host>, hostid: nat) { exists h :: h in hosts && h.hostid == hostid }

  /** The host update with an empty macro list: all macros of the hosts go. */
  function ClearMacros(store: Store, hosts: seq<Host>, editable: set<nat>): Result<Store> {
    if forall h :: h in hosts ==> h.hostid in editable
    then Ok(store.(rows := map id | id in store.rows && !Selected(hosts, store.rows[id].hostid) :: store.rows[id]))
    else Failed
  }

  /** The three lists in the order they are sent; empty lists are not sent. */
  function Submit(store: Store, plan: Plan, editable: set<nat>, parse: Parser): Result<Store> {
    var s1 := if plan.remove == [] then Ok(store) else Delete(store, plan.remove, editable);
    if s1.Failed? then Failed else
    var s2 := if plan.add == [] then s1 else Create(s1.value, plan.add, editable, parse);
    if s2.Failed? then Failed else
    if plan.update == [] then s2 else UpdateMacros(s2.value, plan.update, editable, parse)
  }

  /** The whole transaction. */
  function Execute(store: Store, hosts: seq<Host>, mode: Mode, macros: seq<Macro>, editable: set<nat>,
                   parse: Parser): Result<Store> {
    if !mode.RemoveAll? then Submit(store, PlanOf(hosts, mode, macros), editable, parse)
    else if hosts == [] then Ok(store)
    else if mode.confirmed then ClearMacros(store, hosts, editable)
    else Failed
  }

  class Database {
    var store: Store

    constructor (s: Store)
      ensures store == s
    {
      store := s;
    }

    method Apply(r: Result<Store>) returns (ok: bool)
      modifies this
      ensures ok == r.Ok?
      ensures store == if r.Ok? then r.value else old(store)
    {
      ok := r.Ok?;
      if ok { store := r.value; }
    }

    method SubmitPlan(plan: Plan, editable: set<nat>, parse: Parser) returns (ok: bool)
      modifies this
      ensures var r := Submit(old(store), plan, editable, parse);
              ok == r.Ok? && (ok ==> store == r.value)
    {
      ok := true;
      if plan.remove != [] {
        ok := Apply(Delete(store, plan.remove, editable));
      }
      if ok && plan.add != [] {
        ok := Apply(Create(store, plan.add, editable, parse));
      }
      if ok && plan.update != [] {
        ok := Apply(UpdateMacros(store, plan.update, editable, parse));
      }
    }

    /** All of the update happens, or nothing of it. */
    method MassUpdateMacros(hosts: seq<Host>, mode: Mode, macros: seq<Macro>, editable: set<nat>,
                            parse: Parser) returns (ok: bool)
      modifies this
      ensures var r := Execute(old(store), hosts, mode, macros, editable, parse);
              ok == r.Ok? && store == if ok then r.value else old(store)
    {
      var saved := store; // DBstart
      match mode {
        case Add(updateExisting) =>
          var plan := PlanAdd(hosts, macros, updateExisting);
          ok := SubmitPlan(plan, editable, parse);
        case Update(addMissing) =>
          var plan := PlanReplace(hosts, macros, addMissing);
          ok := SubmitPlan(plan, editable, parse);
        case Remove(exceptSelected) =>
          var plan := PlanRemove(hosts, exceptSelected, macros);
          ok := SubmitPlan(plan, editable, parse);
        case RemoveAll(confirmed) =>
          if hosts == [] {
            ok := true;
          } else if confirmed {
            ok := Apply(ClearMacros(store, hosts, editable));
          } else {
            ok := false;
          }
      }
      if !ok { store := saved; } // DBend(false)
    }
  }
}
