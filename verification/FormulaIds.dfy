/** Formula ids of conditions (ui/include/classes/helpers/CConditionHelper.php): A, B, ..., Z, AA, AB, ...

    The ids are numerals of bijective base 26, and the next id is the numeral after the largest used
    one, so it is never in use. */
module FormulaIds {

  predicate Letters(s: string) { forall i :: 0 <= i < |s| ==> 'A' <= s[i] <= 'Z' }

  predicate IsFormulaId(id: string) { id != "" && Letters(id) }

  predicate AllIds(ids: seq<string>) { forall id :: id in ids ==> IsFormulaId(id) }

  function StrCmp(a: string, b: string): int {
    if a == "" && b == "" then 0
    else if a == "" then -1
    else if b == "" then 1
    else if a[0] != b[0] then (if a[0] < b[0] then -1 else 1)
    else StrCmp(a[1..], b[1..])
  }

  /** compareFormulaIds: shorter ids first, then strcmp. */
  function Compare(a: string, b: string): int {
    if |a| == |b| then StrCmp(a, b) else if |a| < |b| then -1 else 1
  }

  /** The id that sorting by `Compare` puts last. */
  function LastOf(ids: seq<string>): (last: string)
    requires ids != []
    ensures last in ids
  {
    if |ids| == 1 then ids[0]
    else
      var rest := LastOf(ids[1..]);
      if Compare(ids[0], rest) <= 0 then rest else ids[0]
  }

  function Next(id: string): string
    requires IsFormulaId(id)
  {
    var head, tail := id[..|id| - 1], id[|id| - 1];
    if tail == 'Z' then (if head != "" then Next(head) + "A" else "AA")
    else head + [tail + 1 as char]
  }

  function GetNextFormulaId(ids: seq<string>): string
    requires AllIds(ids)
  {
    if ids == [] then "A" else Next(LastOf(ids))
  }

  // ----- the ids as numbers

  function Value(s: string): int
    requires Letters(s)
  {
    if s == "" then 0 else 26 * Value(s[..|s| - 1]) + (s[|s| - 1] - 'A') as int + 1
  }

  lemma {:induction false} ValueBounds(s: string)
    requires Letters(s)
    ensures Value(s) >= |s|
  {
    if s != "" { ValueBounds(s[..|s| - 1]); }
  }

  /** The next id is a formula id and its number is one more. */
  lemma {:induction false} NextIsSuccessor(id: string)
    requires IsFormulaId(id)
    ensures IsFormulaId(Next(id))
    ensures Value(Next(id)) == Value(id) + 1
  {
    var head, tail := id[..|id| - 1], id[|id| - 1];
    var next := Next(id);
    if tail == 'Z' {
      if head != "" {
        NextIsSuccessor(head);
        assert next[..|next| - 1] == Next(head);
      } else {
        assert Value("A") == 1 && "AA"[..1] == "A";
      }
    } else {
      assert next[..|next| - 1] == head;
    }
  }

  lemma {:induction false} StrCmpLast(a: string, b: string)
    requires |a| == |b| > 0
    ensures StrCmp(a, b) ==
      if StrCmp(a[..|a| - 1], b[..|b| - 1]) != 0 then StrCmp(a[..|a| - 1], b[..|b| - 1])
      else if a[|a| - 1] == b[|b| - 1] then 0
      else if a[|a| - 1] < b[|b| - 1] then -1
      else 1
  {
    if |a| > 1 && a[0] == b[0] {
      StrCmpLast(a[1..], b[1..]);
      assert a[..|a| - 1][1..] == a[1..][..|a| - 2] && b[..|b| - 1][1..] == b[1..][..|b| - 2];
    }
  }

  /** Comparing ids compares their numbers, and different ids have different numbers. */
  lemma {:induction false} CompareIsValue(a: string, b: string)
    requires Letters(a) && Letters(b)
    ensures Compare(a, b) < 0 <==> Value(a) < Value(b)
    ensures Compare(a, b) == 0 <==> Value(a) == Value(b)
    ensures Value(a) == Value(b) ==> a == b
  {
    ValueBounds(a);
    ValueBounds(b);
    if a == "" || b == "" {
    } else {
      var a', b' := a[..|a| - 1], b[..|b| - 1];
      CompareIsValue(a', b');
      assert a == a' + [a[|a| - 1]] && b == b' + [b[|b| - 1]];
      if |a| == |b| { StrCmpLast(a, b); }
    }
  }

  lemma {:induction false} LastIsLargest(ids: seq<string>, id: string)
    requires AllIds(ids) && id in ids
    ensures Value(id) <= Value(LastOf(ids))
  {
    if |ids| > 1 {
      assert ids == [ids[0]] + ids[1..];
      assert IsFormulaId(ids[0]) && IsFormulaId(LastOf(ids[1..]));
      CompareIsValue(ids[0], LastOf(ids[1..]));
      if id in ids[1..] { LastIsLargest(ids[1..], id); }
    }
  }

  /** The id handed out is new: it is a formula id numbered above every id in use, and the one right
      after the largest. */
  lemma NextIsNew(ids: seq<string>)
    requires AllIds(ids)
    ensures IsFormulaId(GetNextFormulaId(ids))
    ensures GetNextFormulaId(ids) !in ids
    ensures forall id :: id in ids ==> Value(id) < Value(GetNextFormulaId(ids))
    ensures Value(GetNextFormulaId(ids)) == if ids == [] then 1 else Value(LastOf(ids)) + 1
  {
    if ids != [] {
      NextIsSuccessor(LastOf(ids));
      forall id | id in ids ensures Value(id) < Value(GetNextFormulaId(ids)) { LastIsLargest(ids, id); }
    }
  }

  /** A, ..., Z, AA, AB, ..., AZ, BA, ..., ZZ, AAA */
  lemma NextExamples()
    ensures GetNextFormulaId([]) == "A"
    ensures Next("A") == "B" && Next("Z") == "AA" && Next("AZ") == "BA" && Next("ZZ") == "AAA"
  {
    assert "AZ"[..1] == "A" && "ZZ"[..1] == "Z" && "Z"[..0] == "" && "A"[..0] == "";
    assert Next("A") == "B" && Next("Z") == "AA";
  }
}
