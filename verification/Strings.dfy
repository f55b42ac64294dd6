/** trim and single-line strings. */
module Strings {
  predicate IsBlank(c: char) { c == ' ' || c == '\t' || c == '\n' || c == '\r' || c == '\0' || c == '\U{0B}' }

  function TrimLeft(s: string): string {
    if s != "" && IsBlank(s[0]) then TrimLeft(s[1..]) else s
  }

  function TrimRight(s: string): string {
    if s != "" && IsBlank(s[|s| - 1]) then TrimRight(s[..|s| - 1]) else s
  }

  function Trim(s: string): string { TrimRight(TrimLeft(s)) }

  predicate OneLine(s: string) { '\n' !in s }

  /** The blanks that are taken off the left, and off the right. */
  lemma {:induction false} TrimLeftIs(s: string) returns (lead: string)
    ensures s == lead + TrimLeft(s) && forall c :: c in lead ==> IsBlank(c)
    ensures TrimLeft(s) != "" ==> !IsBlank(TrimLeft(s)[0])
  {
    if s != "" && IsBlank(s[0]) {
      lead := TrimLeftIs(s[1..]);
      lead := [s[0]] + lead;
    } else {
      lead := "";
    }
  }

  lemma {:induction false} TrimRightIs(s: string) returns (tail: string)
    ensures s == TrimRight(s) + tail && forall c :: c in tail ==> IsBlank(c)
    ensures TrimRight(s) != "" ==> !IsBlank(TrimRight(s)[|TrimRight(s)| - 1])
  {
    if s != "" && IsBlank(s[|s| - 1]) {
      tail := TrimRightIs(s[..|s| - 1]);
      tail := tail + [s[|s| - 1]];
    } else {
      tail := "";
    }
  }

  lemma TrimFacts(s: string)
    ensures Trim(Trim(s)) == Trim(s)
    ensures |Trim(s)| <= |s|
    ensures OneLine(s) ==> OneLine(Trim(s))
  {
    var lead := TrimLeftIs(s);
    var tail := TrimRightIs(TrimLeft(s));
    var t := Trim(s);
    assert s == lead + (t + tail);
    if t != "" { assert t[0] == TrimLeft(s)[0]; }
    assert TrimLeft(t) == t && TrimRight(t) == t;
  }

  /** Trimming takes off blanks at both ends, all of them and nothing else; blanks are space, tab,
      newline, carriage return, NUL and vertical tab. */
  lemma TrimIs(s: string)
    returns (lead: string, tail: string)
    ensures s == lead + Trim(s) + tail
    ensures forall c :: c in lead || c in tail ==> c in " \t\n\r\0\U{0B}"
    ensures Trim(s) != "" ==>
      Trim(s)[0] !in " \t\n\r\0\U{0B}" && Trim(s)[|Trim(s)| - 1] !in " \t\n\r\0\U{0B}"
  {
    BlanksAre();
    lead := TrimLeftIs(s);
    tail := TrimRightIs(TrimLeft(s));
    if Trim(s) != "" { assert Trim(s)[0] == TrimLeft(s)[0]; }
  }

  lemma BlanksAre()
    ensures forall c :: IsBlank(c) <==> c in " \t\n\r\0\U{0B}"
  {
    var blanks := " \t\n\r\0\U{0B}";
    assert blanks[0] == ' ' && blanks[1] == '\t' && blanks[2] == '\n' && blanks[3] == '\r' && blanks[4] == '\0';
    assert blanks[5] == '\U{0B}';
  }
}
