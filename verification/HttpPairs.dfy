/** Web scenarios (ui/httpconf.php): headers, variables, query and post fields are shown in the form as
    typed pairs, numbered through the scenario and all its steps, and turned back into lists on save.

    `rank` is the natural order of variable names. */
module HttpPairs {
  import opened Wrappers
  import opened Strings
  import opened StableSort

  datatype Pair = Pair(name: string, value: string)

  datatype FieldType = Headers | Variables | QueryFields | PostFields

  /** Keys of a posted pair may be missing. */
  datatype FormPair = FormPair(id: nat, pairType: Option<FieldType>, name: Option<string>, value: Option<string>)

  /** Posts are a list of fields for form data and a text otherwise. */
  datatype Posts = FormPosts(fields: seq<Pair>) | RawPosts(text: string)

  datatype Step = Step(no: nat, headers: seq<Pair>, variables: seq<Pair>, queryFields: seq<Pair>, posts: Posts)

  datatype Scenario = Scenario(headers: seq<Pair>, variables: seq<Pair>, steps: seq<Step>)

  datatype FormStep = FormStep(isForm: bool, posts: string, pairs: seq<FormPair>)

  datatype Form = Form(pairs: seq<FormPair>, steps: seq<FormStep>)

  /** One list of the scenario or of a step, under the type its pairs get in the form. */
  datatype Field = Field(fieldType: FieldType, pairs: seq<Pair>)

  function ByName(rank: string -> real): Pair -> real { (p: Pair) => rank(p.name) }

  function ByNo(): Step -> real { (s: Step) => s.no as real }

  /** The lists in the order the form shows them, the variables in name order. */
  function ScenarioFields(s: Scenario, rank: string -> real): seq<Field> {
    [Field(Headers, s.headers), Field(Variables, Sort(s.variables, ByName(rank)))]
  }

  /** Raw posts have no pairs. */
  function StepFields(s: Step, rank: string -> real): seq<Field> {
    [Field(Headers, s.headers), Field(Variables, Sort(s.variables, ByName(rank))), Field(QueryFields, s.queryFields),
     Field(PostFields, if s.posts.FormPosts? then s.posts.fields else [])]
  }

  // ----- loading

  /** The pairs of one field, numbered from `id`. */
  function PairsOf(id: nat, t: FieldType, pairs: seq<Pair>): seq<FormPair> {
    if pairs == [] then []
    else
      var n := |pairs| - 1;
      PairsOf(id, t, pairs[..n]) + [FormPair(id + n, Some(t), Some(pairs[n].name), Some(pairs[n].value))]
  }

  /** The pairs of all fields, numbered through from `id`. */
  function FieldPairs(id: nat, fields: seq<Field>): seq<FormPair> {
    if fields == [] then []
    else
      var n := |fields| - 1;
      var before := FieldPairs(id, fields[..n]);
      before + PairsOf(id + |before|, fields[n].fieldType, fields[n].pairs)
  }

  /** A step whose lists are ready to be shown. */
  datatype ReadyStep = ReadyStep(isForm: bool, posts: string, fields: seq<Field>)

  function Ready(s: Step, rank: string -> real): ReadyStep {
    ReadyStep(s.posts.FormPosts?, if s.posts.RawPosts? then s.posts.text else "", StepFields(s, rank))
  }

  function AllReady(steps: seq<Step>, rank: string -> real): (r: seq<ReadyStep>)
    ensures |r| == |steps|
    ensures forall i :: 0 <= i < |r| ==> r[i] == Ready(steps[i], rank)
  {
    seq(|steps|, i requires 0 <= i < |steps| => Ready(steps[i], rank))
  }

  function LoadedStep(id: nat, s: ReadyStep): FormStep { FormStep(s.isForm, s.posts, FieldPairs(id, s.fields)) }

  function PairCount(steps: seq<FormStep>): nat {
    if steps == [] then 0 else PairCount(steps[..|steps| - 1]) + |steps[|steps| - 1].pairs|
  }

  function LoadedSteps(id: nat, steps: seq<ReadyStep>): (r: seq<FormStep>)
    ensures |r| == |steps|
  {
    if steps == [] then []
    else
      var n := |steps| - 1;
      var before := LoadedSteps(id, steps[..n]);
      before + [LoadedStep(id + PairCount(before), steps[n])]
  }

  function Loaded(db: Scenario, rank: string -> real): Form {
    var pairs := FieldPairs(1, ScenarioFields(db, rank));
    Form(pairs, LoadedSteps(1 + |pairs|, AllReady(Sort(db.steps, ByNo()), rank)))
  }

  method AddPairs(pairs0: seq<FormPair>, id0: nat, t: FieldType, field: seq<Pair>)
    returns (pairs: seq<FormPair>, id: nat)
    ensures pairs == pairs0 + PairsOf(id0, t, field) && id == id0 + |field|
  {
    pairs, id := pairs0, id0;
    for i := 0 to |field|
      invariant pairs == pairs0 + PairsOf(id0, t, field[..i]) && id == id0 + i
    {
      assert field[..i + 1][..i] == field[..i];
      pairs := pairs + [FormPair(id, Some(t), Some(field[i].name), Some(field[i].value))];
      id := id + 1;
    }
    assert field[..|field|] == field;
  }

  method AddFields(fields: seq<Field>, id0: nat) returns (pairs: seq<FormPair>, id: nat)
    ensures pairs == FieldPairs(id0, fields) && id == id0 + |pairs|
  {
    pairs, id := [], id0;
    for f := 0 to |fields|
      invariant pairs == FieldPairs(id0, fields[..f]) && id == id0 + |pairs|
    {
      assert fields[..f + 1][..f] == fields[..f];
      PairsOfLength(id, fields[f].fieldType, fields[f].pairs);
      pairs, id := AddPairs(pairs, id, fields[f].fieldType, fields[f].pairs);
    }
    assert fields[..|fields|] == fields;
  }

  method LoadStep(s: Step, id0: nat, rank: string -> real, ghost ready: ReadyStep) returns (step: FormStep, id: nat)
    requires ready == Ready(s, rank)
    ensures step == LoadedStep(id0, ready) && id == id0 + |step.pairs|
  {
    var pairs;
    pairs, id := AddFields(StepFields(s, rank), id0);
    var posts := if s.posts.FormPosts? then "" else s.posts.text;
    step := FormStep(s.posts.FormPosts?, posts, pairs);
  }

  method LoadSteps(sorted: seq<Step>, id0: nat, rank: string -> real) returns (steps: seq<FormStep>)
    ensures steps == LoadedSteps(id0, AllReady(sorted, rank))
  {
    hide LoadedStep, Ready, LoadedSteps, PairCount;
    steps := [];
    var id := id0;
    ghost var ready := AllReady(sorted, rank);
    LoadedStepsNone(id0, ready);
    for i := 0 to |sorted|
      invariant steps == LoadedSteps(id0, ready[..i]) && id == id0 + PairCount(steps)
    {
      var step;
      step, id := LoadStep(sorted[i], id, rank, ready[i]);
      LoadedStepsNext(id0, ready, i, steps, step);
      steps := steps + [step];
    }
    assert ready[..|sorted|] == ready;
  }

  lemma LoadedStepsNone(id: nat, ready: seq<ReadyStep>)
    ensures LoadedSteps(id, ready[..0]) == [] && PairCount([]) == 0
  {
  }

  lemma LoadedStepsNext(id: nat, ready: seq<ReadyStep>, i: nat, before: seq<FormStep>, next: FormStep)
    requires i < |ready| && before == LoadedSteps(id, ready[..i])
    requires next == LoadedStep(id + PairCount(before), ready[i])
    ensures LoadedSteps(id, ready[..i + 1]) == before + [next]
    ensures PairCount(before + [next]) == PairCount(before) + |next.pairs|
  {
    hide LoadedStep;
    assert ready[..i + 1][..i] == ready[..i];
    assert (before + [next])[..|before|] == before;
  }

  method Load(db: Scenario, rank: string -> real) returns (form: Form)
    ensures form == Loaded(db, rank)
  {
    var pairs, id := AddFields(ScenarioFields(db, rank), 1);
    var steps := LoadSteps(Sort(db.steps, ByNo()), id, rank);
    form := Form(pairs, steps);
  }

  lemma {:induction false} PairsOfLength(id: nat, t: FieldType, pairs: seq<Pair>)
    ensures |PairsOf(id, t, pairs)| == |pairs|
    ensures forall i :: 0 <= i < |pairs| ==> PairsOf(id, t, pairs)[i].id == id + i
  {
    if pairs != [] { PairsOfLength(id, t, pairs[..|pairs| - 1]); }
  }

  // ----- saving

  predicate Filled(p: FormPair) { (p.name.Some? && p.name.value != "") || (p.value.Some? && p.value.value != "") }

  function Text(t: Option<string>): string { if t.Some? then t.value else "" }

  /** The filled pairs of a type, as name and value. */
  function Select(pairs: seq<FormPair>, t: FieldType): seq<Pair> {
    if pairs == [] then []
    else
      var n := |pairs| - 1;
      var rest := Select(pairs[..n], t);
      if pairs[n].pairType == Some(t) && Filled(pairs[n]) then rest + [Pair(Text(pairs[n].name), Text(pairs[n].value))]
      else rest
  }

  function TrimNames(pairs: seq<Pair>): (r: seq<Pair>)
    ensures |r| == |pairs|
    ensures forall i :: 0 <= i < |r| ==>
      r[i] == pairs[i].(name := Trim(pairs[i].name))
  {
    if pairs == [] then [] else [pairs[0].(name := Trim(pairs[0].name))] + TrimNames(pairs[1..])
  }

  function SavedStep(no: nat, s: FormStep): Step {
    Step(no, Select(s.pairs, Headers), TrimNames(Select(s.pairs, Variables)), Select(s.pairs, QueryFields),
         if s.isForm then FormPosts(Select(s.pairs, PostFields)) else RawPosts(s.posts))
  }

  function SavedSteps(steps: seq<FormStep>): (r: seq<Step>)
    ensures |r| == |steps|
    ensures forall i :: 0 <= i < |r| ==> r[i] == SavedStep(i + 1, steps[i])
  {
    if steps == [] then []
    else SavedSteps(steps[..|steps| - 1]) + [SavedStep(|steps|, steps[|steps| - 1])]
  }

  function Saved(form: Form): Scenario {
    Scenario(Select(form.pairs, Headers), TrimNames(Select(form.pairs, Variables)), SavedSteps(form.steps))
  }

  method SelectPairs(pairs: seq<FormPair>, t: FieldType) returns (field: seq<Pair>)
    ensures field == Select(pairs, t)
  {
    field := [];
    for i := 0 to |pairs|
      invariant field == Select(pairs[..i], t)
    {
      assert pairs[..i + 1][..i] == pairs[..i];
      if pairs[i].pairType == Some(t) && Filled(pairs[i]) {
        field := field + [Pair(Text(pairs[i].name), Text(pairs[i].value))];
      }
    }
    assert pairs[..|pairs|] == pairs;
  }

  method TrimVariables(variables0: seq<Pair>) returns (variables: seq<Pair>)
    ensures variables == TrimNames(variables0)
  {
    variables := variables0;
    for i := 0 to |variables|
      invariant |variables| == |variables0|
      invariant forall k :: 0 <= k < i ==> variables[k] == variables0[k].(name := Trim(variables0[k].name))
      invariant forall k :: i <= k < |variables| ==> variables[k] == variables0[k]
    {
      variables := variables[i := variables[i].(name := Trim(variables[i].name))];
    }
  }

  method Save(form: Form) returns (db: Scenario)
    ensures db == Saved(form)
  {
    var steps: seq<Step> := [];
    for i := 0 to |form.steps|
      invariant steps == SavedSteps(form.steps[..i])
    {
      assert form.steps[..i + 1][..i] == form.steps[..i];
      var step := form.steps[i];
      var headers := SelectPairs(step.pairs, Headers);
      var variables := SelectPairs(step.pairs, Variables);
      var postFields := SelectPairs(step.pairs, PostFields);
      var queryFields := SelectPairs(step.pairs, QueryFields);
      variables := TrimVariables(variables);
      var posts := if step.isForm then FormPosts(postFields) else RawPosts(step.posts);
      steps := steps + [Step(i + 1, headers, variables, queryFields, posts)];
    }
    assert form.steps[..|form.steps|] == form.steps;
    var headers := SelectPairs(form.pairs, Headers);
    var variables := SelectPairs(form.pairs, Variables);
    variables := TrimVariables(variables);
    db := Scenario(headers, variables, steps);
  }

  // ----- loading and saving

  predicate NotEmpty(p: Pair) { p.name != "" || p.value != "" }

  function DropEmpty(pairs: seq<Pair>): seq<Pair> {
    if pairs == [] then []
    else
      var n := |pairs| - 1;
      var rest := DropEmpty(pairs[..n]);
      if NotEmpty(pairs[n]) then rest + [pairs[n]] else rest
  }

  function NormalVariables(variables: seq<Pair>, rank: string -> real): seq<Pair> {
    TrimNames(DropEmpty(Sort(variables, ByName(rank))))
  }

  function NormalStep(no: nat, s: Step, rank: string -> real): Step {
    Step(no, DropEmpty(s.headers), NormalVariables(s.variables, rank), DropEmpty(s.queryFields),
         if s.posts.FormPosts? then FormPosts(DropEmpty(s.posts.fields)) else s.posts)
  }

  lemma {:induction false} SelectAppend(a: seq<FormPair>, b: seq<FormPair>, t: FieldType)
    ensures Select(a + b, t) == Select(a, t) + Select(b, t)
  {
    if b == [] {
      assert a + b == a;
    } else {
      SelectAppend(a, b[..|b| - 1], t);
      assert (a + b)[..|a + b| - 1] == a + b[..|b| - 1];
    }
  }

  lemma {:induction false} SelectPairsOf(id: nat, t: FieldType, pairs: seq<Pair>, wanted: FieldType)
    ensures Select(PairsOf(id, t, pairs), wanted) == if t == wanted then DropEmpty(pairs) else []
  {
    if pairs != [] {
      var n := |pairs| - 1;
      SelectPairsOf(id, t, pairs[..n], wanted);
      assert PairsOf(id, t, pairs)[..|PairsOf(id, t, pairs)| - 1] == PairsOf(id, t, pairs[..n]);
    }
  }

  function FilledOf(fields: seq<Field>, wanted: FieldType): seq<Pair> {
    if fields == [] then []
    else
      var n := |fields| - 1;
      FilledOf(fields[..n], wanted) + if fields[n].fieldType == wanted then DropEmpty(fields[n].pairs) else []
  }

  lemma {:induction false} SelectFieldPairs(id: nat, fields: seq<Field>, wanted: FieldType)
    ensures Select(FieldPairs(id, fields), wanted) == FilledOf(fields, wanted)
  {
    if fields != [] {
      var n := |fields| - 1;
      var before := FieldPairs(id, fields[..n]);
      SelectFieldPairs(id, fields[..n], wanted);
      SelectAppend(before, PairsOf(id + |before|, fields[n].fieldType, fields[n].pairs), wanted);
      SelectPairsOf(id + |before|, fields[n].fieldType, fields[n].pairs, wanted);
    }
  }

  lemma FilledOfTwo(a: Field, b: Field, wanted: FieldType)
    ensures FilledOf([a, b], wanted) == (if a.fieldType == wanted then DropEmpty(a.pairs) else [])
                                      + (if b.fieldType == wanted then DropEmpty(b.pairs) else [])
  {
    assert [a, b][..1] == [a] && [a][..0] == [];
    assert FilledOf([a], wanted) == FilledOf([], wanted) + if a.fieldType == wanted then DropEmpty(a.pairs) else [];
  }

  lemma FilledOfFour(a: Field, b: Field, c: Field, d: Field, wanted: FieldType)
    ensures FilledOf([a, b, c, d], wanted) == FilledOf([a, b], wanted)
                                            + (if c.fieldType == wanted then DropEmpty(c.pairs) else [])
                                            + (if d.fieldType == wanted then DropEmpty(d.pairs) else [])
  {
    assert [a, b, c, d][..3] == [a, b, c] && [a, b, c][..2] == [a, b];
  }

  lemma {:induction false} LoadedStepsAt(id: nat, steps: seq<ReadyStep>, i: nat) returns (first: nat)
    requires i < |steps|
    ensures LoadedSteps(id, steps)[i] == LoadedStep(first, steps[i])
  {
    var n := |steps| - 1;
    if i < n {
      first := LoadedStepsAt(id, steps[..n], i);
    } else {
      first := id + PairCount(LoadedSteps(id, steps[..n]));
    }
  }

  lemma SaveOfLoadedStep(no: nat, first: nat, s: Step, rank: string -> real)
    ensures SavedStep(no, LoadedStep(first, Ready(s, rank))) == NormalStep(no, s, rank)
  {
    hide Sort, TrimNames, DropEmpty, Select, FieldPairs, FilledOf;
    var fields := StepFields(s, rank);
    forall wanted ensures Select(FieldPairs(first, fields), wanted) == FilledOf(fields, wanted) {
      SelectFieldPairs(first, fields, wanted);
    }
    forall wanted ensures FilledOf(fields, wanted) ==
      match wanted
      case Headers => DropEmpty(fields[0].pairs)
      case Variables => DropEmpty(fields[1].pairs)
      case QueryFields => DropEmpty(fields[2].pairs)
      case PostFields => DropEmpty(fields[3].pairs)
    {
      FilledOfTwo(fields[0], fields[1], wanted);
      FilledOfFour(fields[0], fields[1], fields[2], fields[3], wanted);
    }
  }

  lemma SaveOfLoadedSteps(id: nat, steps: seq<Step>, rank: string -> real)
    ensures |SavedSteps(LoadedSteps(id, AllReady(steps, rank)))| == |steps|
    ensures forall i :: 0 <= i < |steps| ==>
      SavedSteps(LoadedSteps(id, AllReady(steps, rank)))[i] == NormalStep(i + 1, steps[i], rank)
  {
    hide SavedStep, NormalStep, LoadedStep, Ready, AllReady, LoadedSteps, SavedSteps;
    var ready := AllReady(steps, rank);
    var loaded := LoadedSteps(id, ready);
    forall i | 0 <= i < |steps| ensures SavedStep(i + 1, loaded[i]) == NormalStep(i + 1, steps[i], rank) {
      var first := LoadedStepsAt(id, ready, i);
      SaveOfLoadedStep(i + 1, first, steps[i], rank);
    }
  }

  /** Loading a scenario into the form and saving it, for any scenario: every list keeps its filled
      pairs in order, variables are put in name order and trimmed, raw posts stay as they are, and the
      steps are renumbered in their order. */
  lemma SaveOfLoad(db: Scenario, rank: string -> real)
    ensures Saved(Loaded(db, rank)).headers == DropEmpty(db.headers)
    ensures Saved(Loaded(db, rank)).variables == NormalVariables(db.variables, rank)
    ensures |Saved(Loaded(db, rank)).steps| == |Sort(db.steps, ByNo())|
    ensures forall i :: 0 <= i < |Sort(db.steps, ByNo())| ==>
      Saved(Loaded(db, rank)).steps[i] == NormalStep(i + 1, Sort(db.steps, ByNo())[i], rank)
  {
    var fields := ScenarioFields(db, rank);
    SelectFieldPairs(1, fields, Headers);
    SelectFieldPairs(1, fields, Variables);
    FilledOfTwo(fields[0], fields[1], Headers);
    FilledOfTwo(fields[0], fields[1], Variables);
    SaveOfLoadedSteps(1 + |FieldPairs(1, fields)|, Sort(db.steps, ByNo()), rank);
  }

  // ----- when nothing changes

  predicate AllFilled(pairs: seq<Pair>) { forall i :: 0 <= i < |pairs| ==> NotEmpty(pairs[i]) }

  predicate CleanVariables(variables: seq<Pair>, rank: string -> real) {
    && AllFilled(variables) && SortedBy(variables, ByName(rank))
    && forall i :: 0 <= i < |variables| ==> Trim(variables[i].name) == variables[i].name
  }

  predicate CleanStep(s: Step, rank: string -> real) {
    && AllFilled(s.headers) && CleanVariables(s.variables, rank) && AllFilled(s.queryFields)
    && (s.posts.FormPosts? ==> AllFilled(s.posts.fields))
  }

  /** Steps are numbered 1, 2, ...; variables are in name order with trimmed names; no pair is empty. */
  predicate Clean(db: Scenario, rank: string -> real) {
    && AllFilled(db.headers) && CleanVariables(db.variables, rank)
    && forall i :: 0 <= i < |db.steps| ==> db.steps[i].no == i + 1 && CleanStep(db.steps[i], rank)
  }

  lemma {:induction false} DropEmptyIs(pairs: seq<Pair>)
    ensures |DropEmpty(pairs)| <= |pairs|
    ensures |DropEmpty(pairs)| == |pairs| <==> AllFilled(pairs)
    ensures DropEmpty(pairs) == pairs <==> AllFilled(pairs)
  {
    if pairs != [] {
      DropEmptyIs(pairs[..|pairs| - 1]);
      assert pairs == pairs[..|pairs| - 1] + [pairs[|pairs| - 1]];
    }
  }

  /** `dropped` and `trimmed` stand for the sorted list without empty pairs, before and after trimming. */
  lemma NormalOf(v: seq<Pair>, sorted: seq<Pair>, dropped: seq<Pair>, trimmed: seq<Pair>)
    requires multiset(sorted) == multiset(v) && |sorted| == |v|
    requires |dropped| <= |sorted| && (|dropped| == |sorted| <==>
      AllFilled(sorted)) && (AllFilled(sorted) ==> dropped == sorted)
    requires |trimmed| == |dropped| && forall i :: 0 <= i < |dropped| ==>
      trimmed[i] == dropped[i].(name := Trim(dropped[i].name))
    ensures trimmed == v <==>
      sorted == v && AllFilled(v) && forall i :: 0 <= i < |v| ==> Trim(v[i].name) == v[i].name
  {
    if trimmed == v {
      assert dropped == sorted;
      forall i | 0 <= i < |v| ensures Trim(v[i].name) == v[i].name { TrimFacts(sorted[i].name); }
      forall i | 0 <= i < |sorted| ensures Trim(sorted[i].name) == sorted[i].name {
        assert sorted[i] in multiset(v);
        assert sorted[i] in v;
      }
      assert sorted == v;
    }
  }

  lemma NormalVariablesIs(v: seq<Pair>, rank: string -> real)
    ensures NormalVariables(v, rank) == v <==> CleanVariables(v, rank)
  {
    SortIsSortedPermutation(v, ByName(rank));
    var sorted := Sort(v, ByName(rank));
    DropEmptyIs(sorted);
    NormalOf(v, sorted, DropEmpty(sorted), TrimNames(DropEmpty(sorted)));
    if CleanVariables(v, rank) { SortOfSorted(v, ByName(rank)); }
  }

  lemma NormalStepIs(no: nat, s: Step, rank: string -> real)
    ensures NormalStep(no, s, rank) == s <==> s.no == no && CleanStep(s, rank)
  {
    DropEmptyIs(s.headers);
    DropEmptyIs(s.queryFields);
    NormalVariablesIs(s.variables, rank);
    if s.posts.FormPosts? { DropEmptyIs(s.posts.fields); }
  }

  /** Saving the form of a loaded scenario without touching it gives the scenario back exactly when the
      scenario is clean. */
  lemma UntouchedFormKeepsScenario(db: Scenario, rank: string -> real)
    ensures Saved(Loaded(db, rank)) == db <==> Clean(db, rank)
  {
    SaveOfLoad(db, rank);
    NormalScenario(db, Saved(Loaded(db, rank)), rank);
  }

  lemma NormalScenario(db: Scenario, saved: Scenario, rank: string -> real)
    requires saved.headers == DropEmpty(db.headers)
    requires saved.variables == NormalVariables(db.variables, rank)
    requires |saved.steps| == |Sort(db.steps, ByNo())|
    requires forall i :: 0 <= i < |saved.steps| ==> saved.steps[i] == NormalStep(i + 1, Sort(db.steps, ByNo())[i], rank)
    ensures saved == db <==> Clean(db, rank)
  {
    SortIsSortedPermutation(db.steps, ByNo());
    DropEmptyIs(db.headers);
    NormalVariablesIs(db.variables, rank);
    NormalSteps(db.steps, saved.steps, rank);
  }

  lemma NormalSteps(steps: seq<Step>, saved: seq<Step>, rank: string -> real)
    requires |saved| == |steps| == |Sort(steps, ByNo())|
    requires forall i :: 0 <= i < |steps| ==> saved[i] == NormalStep(i + 1, Sort(steps, ByNo())[i], rank)
    ensures saved == steps <==>
      forall i :: 0 <= i < |steps| ==> steps[i].no == i + 1 && CleanStep(steps[i], rank)
  {
    if forall i :: 0 <= i < |steps| ==> steps[i].no == i + 1 {
      SortOfSorted(steps, ByNo());
      forall i | 0 <= i < |steps| ensures saved[i] == steps[i] <==> CleanStep(steps[i], rank) {
        NormalStepIs(i + 1, steps[i], rank);
      }
    } else {
      var i :| 0 <= i < |steps| && steps[i].no != i + 1;
      assert saved[i].no == i + 1;
    }
  }

  // ----- what the API accepts

  const MAX_NAME_LENGTH := 255

  /** `{`, something without braces, `}`. */
  predicate Braced(name: string) {
    |name| >= 3 && name[0] == '{' && name[|name| - 1] == '}'
    && forall i :: 0 < i < |name| - 1 ==> name[i] != '{' && name[i] != '}'
  }

  /** validateVariableName; `$` in its pattern also matches before a newline at the end. */
  predicate IsVariableName(name: string) {
    |name| <= MAX_NAME_LENGTH &&
    (Braced(name) || (name != "" && name[|name| - 1] == '\n' && Braced(name[..|name| - 1])))
  }

  /** Every variable has a valid name, and no two have the same. */
  predicate NamesAccepted(variables: seq<Pair>) {
    && (forall i :: 0 <= i < |variables| ==> IsVariableName(variables[i].name))
    && forall i, j :: 0 <= i < j < |variables| ==> variables[i].name != variables[j].name
  }

  predicate IsVariable(p: FormPair) { p.pairType == Some(Variables) && Filled(p) }

  function SentName(p: FormPair): string { Trim(Text(p.name)) }

  /** Pair `k` of the form, if it is a filled variable, has a valid name that no earlier one has. */
  predicate VariableAccepted(pairs: seq<FormPair>, k: nat) {
    k < |pairs| &&
    (IsVariable(pairs[k]) ==>
       IsVariableName(SentName(pairs[k]))
       && forall i :: 0 <= i < k && IsVariable(pairs[i]) ==> SentName(pairs[i]) != SentName(pairs[k]))
  }

  /** The variables sent to the API. */
  function SentVariables(pairs: seq<FormPair>): seq<Pair> { TrimNames(Select(pairs, Variables)) }

  lemma {:induction false} TrimNamesAppend(a: seq<Pair>, p: Pair)
    ensures TrimNames(a + [p]) == TrimNames(a) + [p.(name := Trim(p.name))]
  {
    assert forall i :: 0 <= i < |a| ==> (a + [p])[i] == a[i];
  }

  lemma SentStep(pairs: seq<FormPair>)
    requires pairs != []
    ensures var n := |pairs| - 1;
      SentVariables(pairs) == SentVariables(pairs[..n])
        + if IsVariable(pairs[n]) then [Pair(SentName(pairs[n]), Text(pairs[n].value))] else []
  {
    var n := |pairs| - 1;
    TrimNamesAppend(Select(pairs[..n], Variables), Pair(Text(pairs[n].name), Text(pairs[n].value)));
  }

  lemma SentIs(pairs: seq<FormPair>)
    ensures forall q :: q in SentVariables(pairs) <==>
      exists p :: p in pairs && IsVariable(p) && q == Pair(SentName(p), Text(p.value))
  {
    var variables := Select(pairs, Variables);
    SelectIs(pairs, Variables);
    forall p | p in pairs && IsVariable(p) ensures Pair(SentName(p), Text(p.value)) in SentVariables(pairs) {
      assert Pair(Text(p.name), Text(p.value)) in variables;
      var i :| 0 <= i < |variables| && variables[i] == Pair(Text(p.name), Text(p.value));
      assert SentVariables(pairs)[i] == Pair(SentName(p), Text(p.value));
    }
    forall q | q in SentVariables(pairs)
      ensures exists p :: p in pairs && IsVariable(p) && q == Pair(SentName(p), Text(p.value)) {
      var i :| 0 <= i < |SentVariables(pairs)| && SentVariables(pairs)[i] == q;
      assert variables[i] in variables;
    }
  }

  /** The API accepts the variable names of a form exactly when every filled variable has, after
      trimming, a name in braces of its own. */
  lemma {:induction false} VariablesAccepted(pairs: seq<FormPair>)
    ensures NamesAccepted(SentVariables(pairs)) <==>
      forall k :: 0 <= k < |pairs| ==> VariableAccepted(pairs, k)
  {
    hide NamesAccepted, SentVariables, VariableAccepted;
    if pairs == [] {
      SentNothing();
    } else {
      var n := |pairs| - 1;
      VariablesAccepted(pairs[..n]);
      SentStep(pairs);
      LastAccepted(pairs);
      forall k | 0 <= k < n ensures VariableAccepted(pairs[..n], k) <==> VariableAccepted(pairs, k) {
        SameAccepted(pairs, n, k);
      }
    }
  }

  lemma SameAccepted(pairs: seq<FormPair>, n: nat, k: nat)
    requires k < n <= |pairs|
    ensures VariableAccepted(pairs[..n], k) <==> VariableAccepted(pairs, k)
  {
    assert forall i :: 0 <= i < n ==> pairs[..n][i] == pairs[i];
  }

  lemma LastAccepted(pairs: seq<FormPair>)
    requires pairs != []
    ensures NamesAccepted(SentVariables(pairs)) <==>
      NamesAccepted(SentVariables(pairs[..|pairs| - 1])) && VariableAccepted(pairs, |pairs| - 1)
  {
    hide IsVariableName, IsVariable, SentVariables;
    var n := |pairs| - 1;
    var sent := SentVariables(pairs[..n]);
    SentStep(pairs);
    if IsVariable(pairs[n]) {
      NamesStep(sent, Pair(SentName(pairs[n]), Text(pairs[n].value)));
      NameSent(pairs[..n], SentName(pairs[n]));
      assert forall i :: 0 <= i < n ==> pairs[..n][i] == pairs[i];
    } else {
      assert sent + [] == sent;
    }
  }

  lemma NamesStep(sent: seq<Pair>, q: Pair)
    ensures NamesAccepted(sent + [q]) <==>
      NamesAccepted(sent) && IsVariableName(q.name) && forall x :: x in sent ==> x.name != q.name
  {
    hide IsVariableName;
    var all := sent + [q];
    assert all[|sent|] == q && forall i :: 0 <= i < |sent| ==> all[i] == sent[i];
    if NamesAccepted(all) {
      forall x | x in sent ensures x.name != q.name {
        var i :| 0 <= i < |sent| && sent[i] == x;
        assert all[i].name != all[|sent|].name;
      }
    }
  }

  lemma NameSent(pairs: seq<FormPair>, name: string)
    ensures (forall x :: x in SentVariables(pairs) ==> x.name != name) <==>
      forall i :: 0 <= i < |pairs| && IsVariable(pairs[i]) ==> SentName(pairs[i]) != name
  {
    hide IsVariable, SentVariables, SentName;
    SentIs(pairs);
    forall i | 0 <= i < |pairs| && IsVariable(pairs[i])
      ensures Pair(SentName(pairs[i]), Text(pairs[i].value)) in SentVariables(pairs)
    {
      assert pairs[i] in pairs;
    }
  }

  lemma SentNothing()
    ensures NamesAccepted(SentVariables([]))
  {
  }

  /** A variable whose name is only blanks counts as filled, but its name is trimmed after that test: an
      empty pair is sent exactly when there is one without a value, and the API then refuses it. */
  lemma BlankVariableRefused(pairs: seq<FormPair>)
    ensures !AllFilled(SentVariables(pairs)) <==>
      exists p :: p in pairs && TurnsEmpty(p)
    ensures (exists p :: p in pairs && TurnsEmpty(p)) ==>
      !NamesAccepted(SentVariables(pairs))
  {
    var sent := SentVariables(pairs);
    SentIs(pairs);
    forall p | p in pairs && TurnsEmpty(p) ensures !AllFilled(sent) && !NamesAccepted(sent) {
      assert IsVariable(p) && Pair("", "") in sent;
      var i :| 0 <= i < |sent| && sent[i] == Pair("", "");
      assert !NotEmpty(sent[i]) && !IsVariableName(sent[i].name);
    }
    if !AllFilled(sent) {
      var i :| 0 <= i < |sent| && !NotEmpty(sent[i]);
      assert sent[i] in sent;
      var p :| p in pairs && IsVariable(p) && sent[i] == Pair(SentName(p), Text(p.value));
      assert TurnsEmpty(p);
    }
  }

  predicate TurnsEmpty(p: FormPair) {
    p.pairType == Some(Variables) && Text(p.name) != "" && Trim(Text(p.name)) == "" && Text(p.value) == ""
  }

  lemma {:induction false} SelectIs(pairs: seq<FormPair>, t: FieldType)
    ensures forall q :: q in Select(pairs, t) <==>
      exists p :: p in pairs && p.pairType == Some(t) && Filled(p) && q == Pair(Text(p.name), Text(p.value))
  {
    if pairs != [] {
      var n := |pairs| - 1;
      SelectIs(pairs[..n], t);
      assert pairs == pairs[..n] + [pairs[n]];
      assert forall p :: p in pairs <==> p in pairs[..n] || p == pairs[n];
    }
  }

  // ----- ids

  function StepIds(steps: seq<FormStep>): seq<nat> {
    if steps == [] then [] else StepIds(steps[..|steps| - 1]) + Ids(steps[|steps| - 1].pairs)
  }

  function Ids(pairs: seq<FormPair>): (ids: seq<nat>)
    ensures |ids| == |pairs|
    ensures forall i :: 0 <= i < |ids| ==> ids[i] == pairs[i].id
  {
    seq(|pairs|, i requires 0 <= i < |pairs| => pairs[i].id)
  }

  predicate CountsFrom(ids: seq<nat>, first: nat) { forall i :: 0 <= i < |ids| ==> ids[i] == first + i }

  lemma {:induction false} FieldIds(id: nat, fields: seq<Field>)
    ensures CountsFrom(Ids(FieldPairs(id, fields)), id)
  {
    if fields != [] {
      var n := |fields| - 1;
      var before := FieldPairs(id, fields[..n]);
      FieldIds(id, fields[..n]);
      PairsOfLength(id + |before|, fields[n].fieldType, fields[n].pairs);
      assert forall i :: 0 <= i < |before| ==> Ids(before)[i] == before[i].id;
    }
  }

  lemma {:induction false} StepsIds(id: nat, steps: seq<ReadyStep>)
    ensures CountsFrom(StepIds(LoadedSteps(id, steps)), id)
    ensures |StepIds(LoadedSteps(id, steps))| == PairCount(LoadedSteps(id, steps))
  {
    if steps != [] {
      var n := |steps| - 1;
      var before := LoadedSteps(id, steps[..n]);
      var all := LoadedSteps(id, steps);
      StepsIds(id, steps[..n]);
      FieldIds(id + PairCount(before), steps[n].fields);
      assert all[..|all| - 1] == before;
    }
  }

  /** Pair ids are unique across the scenario and all its steps: read in order they are 1, 2, 3, ... */
  lemma LoadedIds(db: Scenario, rank: string -> real)
    ensures CountsFrom(Ids(Loaded(db, rank).pairs) + StepIds(Loaded(db, rank).steps), 1)
  {
    hide Sort, FieldPairs, LoadedSteps, StepIds, AllReady;
    var pairs := FieldPairs(1, ScenarioFields(db, rank));
    FieldIds(1, ScenarioFields(db, rank));
    StepsIds(1 + |pairs|, AllReady(Sort(db.steps, ByNo()), rank));
  }

  // ----- the form, pair by pair

  /** A saved list has exactly the pairs of its type that have a name or a value, missing ones read as
      empty. */
  lemma SavedFieldIs(pairs: seq<FormPair>, t: FieldType, q: Pair)
    ensures q in Select(pairs, t) <==>
      && q != Pair("", "")
      && exists p :: p in pairs && p.pairType == Some(t)
                     && q.name == (if p.name.Some? then p.name.value else "")
                     && q.value == (if p.value.Some? then p.value.value else "")
  {
    SelectIs(pairs, t);
    if p :| p in pairs && p.pairType == Some(t) && q == Pair(Text(p.name), Text(p.value)) {
      assert Filled(p) <==> q != Pair("", "");
    }
  }

  /** A variable name is a text without braces, in braces, of at most 255 characters in all; a newline may
      follow. */
  lemma VariableNameIs(text: string)
    ensures IsVariableName("{" + text + "}") <==>
      0 < |text| <= 253 && '{' !in text && '}' !in text
    ensures IsVariableName(text) ==>
      exists inner: string :: inner != "" && '{' !in inner && '}' !in inner
                              && (text == "{" + inner + "}" || text == "{" + inner + "}\n")
  {
    var name := "{" + text + "}";
    BracedIs(text);
    assert name[|name| - 1] == '}';
    if IsVariableName(text) {
      var body := if Braced(text) then text else text[..|text| - 1];
      var inner := body[1..|body| - 1];
      assert body == "{" + inner + "}";
      BracedIs(inner);
      assert body == text || body + "\n" == text;
    }
  }

  lemma BracedIs(text: string)
    ensures Braced("{" + text + "}") <==> text != "" && '{' !in text && '}' !in text
  {
    var name := "{" + text + "}";
    assert forall i :: 0 < i < |name| - 1 ==> name[i] == text[i - 1];
    assert name[0] == '{' && name[|name| - 1] == '}';
    if Braced(name) {
      forall c | c in text ensures c != '{' && c != '}' {
        var i :| 0 <= i < |text| && text[i] == c;
        assert name[i + 1] == c;
      }
    }
  }

  /** A pair of the form without its id. */
  datatype Shown = Shown(pairType: Option<FieldType>, name: Option<string>, value: Option<string>)

  function Contents(pairs: seq<FormPair>): (r: seq<Shown>)
    ensures |r| == |pairs|
  {
    seq(|pairs|, i requires 0 <= i < |pairs| => Shown(pairs[i].pairType, pairs[i].name, pairs[i].value))
  }

  /** The pairs of a list as the form shows them under a type. */
  function AsType(t: FieldType, list: seq<Pair>): (r: seq<Shown>)
    ensures |r| == |list|
  {
    seq(|list|, i requires 0 <= i < |list| => Shown(Some(t), Some(list[i].name), Some(list[i].value)))
  }

  /** `sorted` is `variables` in the order of their names. */
  predicate InNameOrder(sorted: seq<Pair>, variables: seq<Pair>, rank: string -> real) {
    multiset(sorted) == multiset(variables)
    && forall i, j :: 0 <= i < j < |sorted| ==> rank(sorted[i].name) <= rank(sorted[j].name)
  }

  lemma SortedVariables(variables: seq<Pair>, rank: string -> real)
    ensures InNameOrder(Sort(variables, ByName(rank)), variables, rank)
  {
    var sorted := Sort(variables, ByName(rank));
    SortIsSortedPermutation(variables, ByName(rank));
    forall i, j | 0 <= i < j < |sorted| ensures rank(sorted[i].name) <= rank(sorted[j].name) {
      assert ByName(rank)(sorted[i]) <= ByName(rank)(sorted[j]);
    }
  }

  lemma {:induction false} PairsOfContents(id: nat, t: FieldType, pairs: seq<Pair>)
    ensures Contents(PairsOf(id, t, pairs)) == AsType(t, pairs)
  {
    if pairs != [] {
      var n := |pairs| - 1;
      var form := PairsOf(id, t, pairs[..n]);
      PairsOfContents(id, t, pairs[..n]);
      assert Contents(PairsOf(id, t, pairs)) == Contents(form) + [Shown(Some(t), Some(pairs[n].name), Some(pairs[n].value))];
      assert AsType(t, pairs) == AsType(t, pairs[..n]) + [Shown(Some(t), Some(pairs[n].name), Some(pairs[n].value))];
    }
  }

  lemma NextContents(id: nat, fields: seq<Field>, f: Field)
    ensures Contents(FieldPairs(id, fields + [f])) == Contents(FieldPairs(id, fields)) + AsType(f.fieldType, f.pairs)
  {
    var before := FieldPairs(id, fields);
    PairsOfContents(id + |before|, f.fieldType, f.pairs);
    assert (fields + [f])[..|fields|] == fields;
  }

  /** The scenario's pairs: its headers as they are, then its variables in name order. */
  lemma ScenarioShown(db: Scenario, rank: string -> real) returns (variables: seq<Pair>)
    ensures InNameOrder(variables, db.variables, rank)
    ensures Contents(Loaded(db, rank).pairs) == AsType(Headers, db.headers) + AsType(Variables, variables)
  {
    variables := Sort(db.variables, ByName(rank));
    SortedVariables(db.variables, rank);
    TwoContents(1, Field(Headers, db.headers), Field(Variables, variables));
  }

  /** The steps are shown by their number. */
  lemma StepsShown(db: Scenario, rank: string -> real)
    ensures var steps := Sort(db.steps, ByNo());
      && multiset(steps) == multiset(db.steps) && |Loaded(db, rank).steps| == |steps|
      && forall i, j :: 0 <= i < j < |steps| ==> steps[i].no <= steps[j].no
  {
    SortIsSortedPermutation(db.steps, ByNo());
    var steps := Sort(db.steps, ByNo());
    forall i, j | 0 <= i < j < |steps| ensures steps[i].no <= steps[j].no {
      assert ByNo()(steps[i]) <= ByNo()(steps[j]);
    }
  }

  /** A step with its headers, its variables in the given order, its query fields and, if it posts a form,
      its post fields; a raw post is kept as text instead. */
  function ShownStep(s: Step, variables: seq<Pair>): (bool, string, seq<Shown>) {
    var lists := AsType(Headers, s.headers) + AsType(Variables, variables) + AsType(QueryFields, s.queryFields);
    match s.posts
    case FormPosts(fields) => (true, "", lists + AsType(PostFields, fields))
    case RawPosts(text) => (false, text, lists)
  }

  /** Every step is shown with its variables in name order. */
  lemma StepShown(db: Scenario, rank: string -> real, i: nat) returns (variables: seq<Pair>)
    requires i < |Sort(db.steps, ByNo())| == |Loaded(db, rank).steps|
    ensures InNameOrder(variables, Sort(db.steps, ByNo())[i].variables, rank)
    ensures var shown := Loaded(db, rank).steps[i];
      (shown.isForm, shown.posts, Contents(shown.pairs)) == ShownStep(Sort(db.steps, ByNo())[i], variables)
  {
    var steps := Sort(db.steps, ByNo());
    var first := LoadedStepsAt(1 + |Loaded(db, rank).pairs|, AllReady(steps, rank), i);
    variables := Sort(steps[i].variables, ByName(rank));
    SortedVariables(steps[i].variables, rank);
    ReadyStepShown(first, steps[i], rank);
  }

  lemma FourContents(id: nat, a: Field, b: Field, c: Field, d: Field)
    ensures Contents(FieldPairs(id, [a, b, c, d])) == AsType(a.fieldType, a.pairs) + AsType(b.fieldType, b.pairs)
                                                    + AsType(c.fieldType, c.pairs) + AsType(d.fieldType, d.pairs)
  {
    hide AsType, FieldPairs, Contents;
    TwoContents(id, a, b);
    NextContents(id, [a, b], c);
    NextContents(id, [a, b, c], d);
    assert [a, b] + [c] == [a, b, c] && [a, b, c] + [d] == [a, b, c, d];
  }

  lemma TwoContents(id: nat, a: Field, b: Field)
    ensures Contents(FieldPairs(id, [a, b])) == AsType(a.fieldType, a.pairs) + AsType(b.fieldType, b.pairs)
  {
    hide AsType, FieldPairs, Contents;
    NextContents(id, [], a);
    NextContents(id, [a], b);
    NoContents(id);
    assert [] + [a] == [a] && [a] + [b] == [a, b];
  }

  lemma NoContents(id: nat)
    ensures Contents(FieldPairs(id, [])) == []
  {
  }

  lemma ReadyStepShown(id: nat, s: Step, rank: string -> real)
    ensures var shown := LoadedStep(id, Ready(s, rank));
      (shown.isForm, shown.posts, Contents(shown.pairs)) == ShownStep(s, Sort(s.variables, ByName(rank)))
  {
    var fields := StepFields(s, rank);
    FourContents(id, fields[0], fields[1], fields[2], fields[3]);
    if s.posts.RawPosts? {
      var lists := AsType(Headers, s.headers) + AsType(Variables, fields[1].pairs) + AsType(QueryFields, s.queryFields);
      assert AsType(PostFields, []) == [] && lists + [] == lists;
    }
  }
}
