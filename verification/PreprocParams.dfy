/** Item preprocessing steps: the form's list of parameters is saved as one string and loaded back
    into a list (ui/items.php).  Parameters are joined with newlines, so what survives a
    load and a second save depends on the step type and on newlines and blanks in the string. */
module PreprocParams {
  import opened Wrappers
  import opened Strings

  datatype StepType =
    | Multiplier | Rtrim | Ltrim | TrimBoth | Regsub | Xpath | Jsonpath
    | ValidateRange | ValidateRegex | ValidateNotRegex
    | ErrorFieldJson | ErrorFieldXml | ErrorFieldRegex
    | ThrottleTimedValue | Script | PrometheusPattern | PrometheusToJson | CsvToJson | StrReplace
    | OtherType

  /** `params` is a list in the form and a string in the database. */
  datatype Params = Fields(fields: seq<string>) | Stored(text: string)

  datatype Step = Step(stepType: StepType, params: Params, errorHandler: Option<int>,
    errorHandlerParams: Option<string>)

  const ZBX_PREPROC_FAIL_DEFAULT := 0
  const ZBX_PREPROC_CSV_NO_HEADER := "0"

  // ----- joining and splitting

  /** implode("\n", fields) */
  function Implode(fields: seq<string>): string {
    if fields == [] then "" else if |fields| == 1 then fields[0] else fields[0] + "\n" + Implode(fields[1..])
  }

  /** explode("\n", s) */
  function Explode(s: string): (lines: seq<string>)
    ensures lines != []
  {
    if s == "" then [""]
    else if s[0] == '\n' then [""] + Explode(s[1..])
    else
      var rest := Explode(s[1..]);
      [[s[0]] + rest[0]] + rest[1..]
  }

  predicate AllOneLine(fields: seq<string>) { forall f :: f in fields ==> OneLine(f) }

  function TrimAll(fields: seq<string>): (r: seq<string>)
    ensures |r| == |fields|
    ensures forall i :: 0 <= i < |r| ==> r[i] == Trim(fields[i])
  {
    if fields == [] then [] else [Trim(fields[0])] + TrimAll(fields[1..])
  }

  /** `$params[0]`; an absent entry reads as null, which is stored as the empty string. */
  function First(fields: seq<string>): string { if fields == [] then "" else fields[0] }

  // ----- saving and loading

  function SaveParams(t: StepType, fields: seq<string>): string {
    match t
    case Multiplier | PrometheusToJson => Trim(First(fields))
    case Rtrim | Ltrim | TrimBoth | Xpath | Jsonpath | ValidateRegex | ValidateNotRegex | ErrorFieldJson
       | ErrorFieldXml | ThrottleTimedValue | Script => First(fields)
    case ValidateRange | PrometheusPattern => Implode(TrimAll(fields))
    case Regsub | ErrorFieldRegex | StrReplace => Implode(fields)
    case CsvToJson => Implode(WithHeaderFlag(fields))
    case OtherType => ""
  }

  function LoadParams(t: StepType, text: string): seq<string> {
    if t == Script then [text, ""] else Explode(text)
  }

  function SaveStep(step: Step): (r: Step)
    requires step.params.Fields?
  {
    Step(step.stepType, Stored(SaveParams(step.stepType, step.params.fields)),
         if step.errorHandler.Some? then step.errorHandler else Some(ZBX_PREPROC_FAIL_DEFAULT),
         if step.errorHandlerParams.Some? then step.errorHandlerParams else Some(""))
  }

  function LoadStep(step: Step): (r: Step)
    requires step.params.Stored?
  {
    step.(params := Fields(LoadParams(step.stepType, step.params.text)))
  }

  method SavePreprocessing(preprocessing: array<Step>)
    requires forall i :: 0 <= i < preprocessing.Length ==> preprocessing[i].params.Fields?
    modifies preprocessing
    ensures forall i :: 0 <= i < preprocessing.Length ==>
      preprocessing[i] == SaveStep(old(preprocessing[i]))
  {
    for i := 0 to preprocessing.Length
      invariant forall k :: 0 <= k < i ==> preprocessing[k] == SaveStep(old(preprocessing[k]))
      invariant forall k :: i <= k < preprocessing.Length ==> preprocessing[k] == old(preprocessing[k])
    {
      var step := preprocessing[i];
      var params := step.params.fields;
      match step.stepType {
        case Multiplier | PrometheusToJson =>
          step := step.(params := Stored(Trim(First(params))));
        case Rtrim | Ltrim | TrimBoth | Xpath | Jsonpath | ValidateRegex | ValidateNotRegex | ErrorFieldJson
           | ErrorFieldXml | ThrottleTimedValue | Script =>
          step := step.(params := Stored(First(params)));
        case ValidateRange | PrometheusPattern =>
          for p := 0 to |params|
            invariant |params| == |step.params.fields|
            invariant forall k :: 0 <= k < p ==> params[k] == Trim(step.params.fields[k])
            invariant forall k :: p <= k < |params| ==> params[k] == step.params.fields[k]
          {
            params := params[p := Trim(params[p])];
          }
          assert params == TrimAll(step.params.fields);
          step := step.(params := Stored(Implode(params)));
        case Regsub | ErrorFieldRegex | StrReplace =>
          step := step.(params := Stored(Implode(params)));
        case CsvToJson =>
          if |params| <= 2 {
            params := params + [ZBX_PREPROC_CSV_NO_HEADER];
          }
          step := step.(params := Stored(Implode(params)));
        case OtherType =>
          step := step.(params := Stored(""));
      }
      if step.errorHandler.None? {
        step := step.(errorHandler := Some(ZBX_PREPROC_FAIL_DEFAULT));
      }
      if step.errorHandlerParams.None? {
        step := step.(errorHandlerParams := Some(""));
      }
      preprocessing[i] := step;
    }
  }

  method LoadPreprocessing(preprocessing: array<Step>)
    requires forall i :: 0 <= i < preprocessing.Length ==> preprocessing[i].params.Stored?
    modifies preprocessing
    ensures forall i :: 0 <= i < preprocessing.Length ==>
      preprocessing[i] == LoadStep(old(preprocessing[i]))
  {
    for i := 0 to preprocessing.Length
      invariant forall k :: 0 <= k < i ==> preprocessing[k] == LoadStep(old(preprocessing[k]))
      invariant forall k :: i <= k < preprocessing.Length ==> preprocessing[k] == old(preprocessing[k])
    {
      var step := preprocessing[i];
      if step.stepType == Script {
        preprocessing[i] := step.(params := Fields([step.params.text, ""]));
      } else {
        preprocessing[i] := step.(params := Fields(Explode(step.params.text)));
      }
    }
  }

  // ----- join and split

  lemma {:induction false} ImplodeExplode(s: string)
    ensures Implode(Explode(s)) == s
    ensures AllOneLine(Explode(s))
  {
    if s != "" {
      var rest := Explode(s[1..]);
      ImplodeExplode(s[1..]);
      ImplodeCons(s[0], rest);
      OneLineCons(s[0], rest);
      assert s == [s[0]] + s[1..];
    }
  }

  lemma ImplodeCons(c: char, lines: seq<string>)
    requires lines != []
    ensures Implode([""] + lines) == "\n" + Implode(lines)
    ensures Implode([[c] + lines[0]] + lines[1..]) == [c] + Implode(lines)
  {
    ImplodeParts("", lines);
    if |lines| == 1 {
      assert [[c] + lines[0]] + lines[1..] == [[c] + lines[0]];
    } else {
      var head, tail := lines[0], lines[1..];
      ImplodeParts(head, tail);
      ImplodeParts([c] + head, tail);
      assert lines == [head] + tail;
      Associate(c, head, "\n" + Implode(tail));
    }
  }

  lemma ImplodeParts(head: string, tail: seq<string>)
    requires tail != []
    ensures Implode([head] + tail) == head + ("\n" + Implode(tail))
  {
    assert ([head] + tail)[1..] == tail;
    assert head + "\n" + Implode(tail) == head + ("\n" + Implode(tail));
  }

  lemma Associate(c: char, a: string, b: string)
    ensures [c] + (a + b) == ([c] + a) + b
  {
  }

  lemma OneLineCons(c: char, lines: seq<string>)
    requires lines != [] && AllOneLine(lines)
    ensures AllOneLine([""] + lines)
    ensures c != '\n' ==> AllOneLine([[c] + lines[0]] + lines[1..])
  {
    assert lines[0] in lines;
    forall f | f in lines[1..] ensures f in lines {}
    if c != '\n' { assert OneLine([c] + lines[0]); }
  }

  lemma {:induction false} ExplodePrefix(f: string, s: string)
    requires OneLine(f)
    ensures Explode(f + s) == [f + Explode(s)[0]] + Explode(s)[1..]
  {
    if f == "" {
      assert f + s == s && f + Explode(s)[0] == Explode(s)[0];
    } else {
      assert (f + s)[1..] == f[1..] + s;
      assert OneLine(f[1..]);
      ExplodePrefix(f[1..], s);
      var rest := Explode(f[1..] + s);
      assert (f + s)[0] == f[0] && f[0] in f;
      assert [f[0]] + (f[1..] + Explode(s)[0]) == f + Explode(s)[0];
    }
  }

  lemma {:induction false} ExplodeImplodeOneLine(fields: seq<string>)
    requires fields != [] && AllOneLine(fields)
    ensures Explode(Implode(fields)) == fields
  {
    var f := fields[0];
    if |fields| == 1 {
      ExplodePrefix(f, "");
      assert f + "" == f;
    } else {
      ExplodeImplodeOneLine(fields[1..]);
      var tail := Implode(fields[1..]);
      assert f + "\n" + tail == f + ("\n" + tail);
      assert ("\n" + tail)[1..] == tail;
      ExplodePrefix(f, "\n" + tail);
      assert f + "" == f;
    }
  }

  /** Splitting a joined list gives the list back exactly when it has an entry and no entry holds a
      newline. */
  lemma ExplodeImplode(fields: seq<string>)
    ensures Explode(Implode(fields)) == fields <==>
      fields != [] && forall f :: f in fields ==> '\n' !in f
  {
    ImplodeExplode(Implode(fields));
    if fields != [] && AllOneLine(fields) { ExplodeImplodeOneLine(fields); }
  }

  // ----- saving what was loaded

  /** The stored strings that the form gives back unchanged. */
  predicate Canonical(t: StepType, text: string) {
    match t
    case Multiplier | PrometheusToJson => OneLine(text) && Trim(text) == text
    case Rtrim | Ltrim | TrimBoth | Xpath | Jsonpath | ValidateRegex | ValidateNotRegex | ErrorFieldJson
       | ErrorFieldXml | ThrottleTimedValue => OneLine(text)
    case ValidateRange | PrometheusPattern => forall line :: line in Explode(text) ==> Trim(line) == line
    case CsvToJson => |Explode(text)| >= 3
    case Script | Regsub | ErrorFieldRegex | StrReplace => true
    case OtherType => text == ""
  }

  lemma {:induction false} FirstLine(s: string)
    ensures Explode(s)[0] == s <==> OneLine(s)
    ensures !OneLine(s) ==> |Explode(s)[0]| < |s|
  {
    if s != "" && s[0] != '\n' {
      FirstLine(s[1..]);
      assert s == [s[0]] + s[1..];
    }
  }

  lemma TrimmedLines(text: string)
    ensures Implode(TrimAll(Explode(text))) == text <==>
      forall line :: line in Explode(text) ==> Trim(line) == line
  {
    var lines := Explode(text);
    var trimmed := TrimAll(lines);
    ImplodeExplode(text);
    forall i | 0 <= i < |lines| ensures OneLine(trimmed[i]) {
      assert lines[i] in lines;
      TrimFacts(lines[i]);
    }
    ExplodeImplodeOneLine(trimmed);
    assert Implode(trimmed) == text <==> trimmed == lines;
    assert trimmed == lines <==> forall i :: 0 <= i < |lines| ==> Trim(lines[i]) == lines[i];
  }

  lemma TrimmedFirstLine(text: string)
    ensures Trim(Explode(text)[0]) == text <==> OneLine(text) && Trim(text) == text
  {
    FirstLine(text);
    TrimFacts(Explode(text)[0]);
  }

  function WithHeaderFlag(fields: seq<string>): seq<string> {
    if |fields| <= 2 then fields + [ZBX_PREPROC_CSV_NO_HEADER] else fields
  }

  lemma FlaggedLines(text: string)
    ensures Implode(WithHeaderFlag(Explode(text))) == text <==> |Explode(text)| >= 3
  {
    ImplodeExplode(text);
    if |Explode(text)| <= 2 { ImplodeLonger(Explode(text), ZBX_PREPROC_CSV_NO_HEADER); }
  }

  /** Loading a stored string into the form and saving it gives the same string back exactly when it
      is canonical for its step type, whatever was stored. */
  lemma LoadThenSave(t: StepType, text: string)
    ensures SaveParams(t, LoadParams(t, text)) == text <==> Canonical(t, text)
  {
    hide TrimAll, Implode, WithHeaderFlag, Trim;
    match t
    case Multiplier | PrometheusToJson => TrimmedFirstLine(text);
    case ValidateRange | PrometheusPattern => TrimmedLines(text);
    case CsvToJson => FlaggedLines(text);
    case Regsub | ErrorFieldRegex | StrReplace => ImplodeExplode(text);
    case Script =>
    case OtherType =>
    case _ => FirstLine(text);
  }

  lemma {:induction false} ImplodeLonger(fields: seq<string>, more: string)
    requires fields != []
    ensures |Implode(fields + [more])| == |Implode(fields)| + 1 + |more|
  {
    if |fields| == 1 {
      assert (fields + [more])[1..] == [more];
    } else {
      ImplodeLonger(fields[1..], more);
      assert (fields + [more])[1..] == fields[1..] + [more];
    }
  }

  /** The requests whose saved string is canonical. */
  predicate Resavable(t: StepType, fields: seq<string>) {
    match t
    case Multiplier | PrometheusToJson => OneLine(Trim(First(fields)))
    case Rtrim | Ltrim | TrimBoth | Xpath | Jsonpath | ValidateRegex | ValidateNotRegex | ErrorFieldJson
       | ErrorFieldXml | ThrottleTimedValue => OneLine(First(fields))
    case ValidateRange | PrometheusPattern =>
      forall f, line :: f in fields && line in Explode(Trim(f)) ==> Trim(line) == line
    case CsvToJson => |fields| >= 2 || (|fields| == 1 && !OneLine(fields[0]))
    case Script | Regsub | ErrorFieldRegex | StrReplace | OtherType => true
  }

  lemma TrimmedRequestLines(fields: seq<string>)
    ensures (forall line :: line in Explode(Implode(TrimAll(fields))) ==>
      Trim(line) == line)
       <==> forall f, line :: f in fields && line in Explode(Trim(f)) ==> Trim(line) == line
  {
    var trimmed := TrimAll(fields);
    if fields == [] {
      assert Explode(Implode(trimmed)) == [""] && Trim("") == "";
    } else {
      LinesOfImplode(trimmed);
      forall f | f in fields ensures Trim(f) in trimmed {
        var i :| 0 <= i < |fields| && fields[i] == f;
        assert trimmed[i] == Trim(f);
      }
      forall g | g in trimmed ensures exists f :: f in fields && g == Trim(f) {
        var i :| 0 <= i < |trimmed| && trimmed[i] == g;
        assert fields[i] in fields;
      }
    }
  }

  lemma FlaggedRequestLines(fields: seq<string>)
    ensures |Explode(Implode(WithHeaderFlag(fields)))| >= 3
       <==> |fields| >= 2 || (|fields| == 1 && !OneLine(fields[0]))
  {
    var all := WithHeaderFlag(fields);
    CountLines(all);
    OneLineCount("0");
    if |fields| == 1 {
      assert all[1..] == ["0"] && all[0] == fields[0] && ["0"][1..] == [];
      assert LineCount(["0"]) == 1;
      OneLineCount(fields[0]);
    } else if fields == [] {
      assert all == ["0"];
    }
  }

  /** Saving, loading and saving again gives the string of the first save exactly for the resavable
      requests. */
  lemma SaveLoadSave(t: StepType, fields: seq<string>)
    ensures SaveParams(t, LoadParams(t, SaveParams(t, fields))) == SaveParams(t, fields) <==> Resavable(t, fields)
  {
    hide LoadParams, Explode, Implode, Trim, TrimAll, WithHeaderFlag;
    LoadThenSave(t, SaveParams(t, fields));
    match t
    case Multiplier | PrometheusToJson => TrimFacts(First(fields));
    case ValidateRange | PrometheusPattern => TrimmedRequestLines(fields);
    case CsvToJson => FlaggedRequestLines(fields);
    case _ =>
  }

  lemma {:induction false} OneLineCount(s: string)
    ensures |Explode(s)| == 1 <==> OneLine(s)
  {
    ImplodeExplode(s);
    if |Explode(s)| == 1 { assert Explode(s)[0] in Explode(s); }
    if OneLine(s) {
      ExplodePrefix(s, "");
      assert s + "" == s;
    }
  }

  function LineCount(fields: seq<string>): nat {
    if fields == [] then 0 else |Explode(fields[0])| + LineCount(fields[1..])
  }

  lemma ExplodeCons(c: char, s: string)
    ensures Explode([c] + s) == if c == '\n' then [""] + Explode(s) else [[c] + Explode(s)[0]] + Explode(s)[1..]
  {
    assert ([c] + s)[1..] == s;
  }

  lemma {:induction false} ExplodeJoin(a: string, b: string)
    ensures Explode(a + "\n" + b) == Explode(a) + Explode(b)
  {
    if a == "" {
      ExplodeCons('\n', b);
      assert a + "\n" + b == ['\n'] + b;
    } else {
      var rest := a[1..];
      ExplodeJoin(rest, b);
      ExplodeCons(a[0], rest);
      ExplodeCons(a[0], rest + "\n" + b);
      assert a == [a[0]] + rest && a + "\n" + b == [a[0]] + (rest + "\n" + b);
      JoinParts(a[0], Explode(rest), Explode(b));
    }
  }

  lemma JoinParts(c: char, a: seq<string>, b: seq<string>)
    requires a != []
    ensures [""] + (a + b) == ([""] + a) + b
    ensures [[c] + (a + b)[0]] + (a + b)[1..] == ([[c] + a[0]] + a[1..]) + b
  {
  }

  lemma {:induction false} CountLines(fields: seq<string>)
    requires fields != []
    ensures |Explode(Implode(fields))| == LineCount(fields) >= |fields|
  {
    if |fields| == 1 {
      assert fields[1..] == [];
    } else {
      CountLines(fields[1..]);
      ExplodeJoin(fields[0], Implode(fields[1..]));
    }
  }

  lemma {:induction false} LinesOfImplode(fields: seq<string>)
    requires fields != []
    ensures forall line :: line in Explode(Implode(fields)) <==>
      exists f :: f in fields && line in Explode(f)
  {
    if |fields| == 1 {
      assert fields == [fields[0]];
      assert fields[0] in fields;
    } else {
      LinesOfImplode(fields[1..]);
      ExplodeJoin(fields[0], Implode(fields[1..]));
      assert fields == [fields[0]] + fields[1..];
      assert forall f :: f in fields <==> f == fields[0] || f in fields[1..];
    }
  }

  /** Newline-free parameters survive for every type; CSV needs its first two parameters. */
  lemma OneLineRequestsSurvive(t: StepType, fields: seq<string>)
    requires AllOneLine(fields)
    requires t == CsvToJson ==> |fields| >= 2
    ensures SaveParams(t, LoadParams(t, SaveParams(t, fields))) == SaveParams(t, fields)
  {
    hide LoadParams, SaveParams, Implode;
    SaveLoadSave(t, fields);
    TrimFacts(First(fields));
    forall f, line | f in fields && line in Explode(Trim(f)) ensures Trim(line) == line {
      TrimFacts(f);
      FirstLine(Trim(f));
      OneLineCount(Trim(f));
    }
  }

  // ----- loading what was saved

  /** The form shows again what was entered, for parameters without newlines: the first parameter, or all
      of them, trimmed for some types; a script has an empty second one, CSV a third. */
  lemma SaveThenLoad(t: StepType, fields: seq<string>)
    requires fields != [] && forall f :: f in fields ==> '\n' !in f
    ensures var shown := LoadParams(t, SaveParams(t, fields));
      match t
      case Multiplier | PrometheusToJson => shown == [Trim(fields[0])]
      case Rtrim | Ltrim | TrimBoth | Xpath | Jsonpath | ValidateRegex | ValidateNotRegex | ErrorFieldJson
         | ErrorFieldXml | ThrottleTimedValue => shown == [fields[0]]
      case Script => shown == [fields[0], ""]
      case ValidateRange | PrometheusPattern =>
        |shown| == |fields| && forall i :: 0 <= i < |fields| ==> shown[i] == Trim(fields[i])
      case Regsub | ErrorFieldRegex | StrReplace => shown == fields
      case CsvToJson => shown == if |fields| <= 2 then fields + ["0"] else fields
      case OtherType => shown == [""]
  {
    assert fields[0] in fields;
    forall f | f in fields ensures OneLine(f) {}
    match t
    case Multiplier | PrometheusToJson =>
      TrimFacts(fields[0]);
      ExplodeImplodeOneLine([Trim(fields[0])]);
    case ValidateRange | PrometheusPattern =>
      forall f | f in TrimAll(fields) ensures OneLine(f) {
        var i :| 0 <= i < |fields| && TrimAll(fields)[i] == f;
        assert fields[i] in fields;
        TrimFacts(fields[i]);
      }
      ExplodeImplodeOneLine(TrimAll(fields));
    case Regsub | ErrorFieldRegex | StrReplace => ExplodeImplodeOneLine(fields);
    case CsvToJson => ExplodeImplodeOneLine(WithHeaderFlag(fields));
    case Script =>
    case OtherType =>
    case _ => ExplodeImplodeOneLine([fields[0]]);
  }

  /** A script is stored and shown whole, newlines included. */
  lemma ScriptKept(script: string, rest: seq<string>)
    ensures SaveParams(Script, [script] + rest) == script
    ensures LoadParams(Script, script) == [script, ""]
  {
  }

  /** Error handling given with a step is kept; a step without it gets the default, 0 and no parameters. */
  lemma HandlersKept(step: Step)
    requires step.params.Fields?
    ensures SaveStep(step).stepType == step.stepType && SaveStep(step).params.Stored?
    ensures SaveStep(step).errorHandler == if step.errorHandler.Some? then step.errorHandler else Some(0)
    ensures SaveStep(step).errorHandlerParams ==
      if step.errorHandlerParams.Some? then step.errorHandlerParams else Some("")
  {
  }

}
