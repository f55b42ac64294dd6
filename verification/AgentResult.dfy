/** The result of an agent check (include/sysinfo.h, include/module.h): which allocations its flags own,
    and who frees them.

    A pointer is the number of its allocation, counted from 1; NULL is 0.  The contents of strings are
    not modelled; what converting them to numbers yields is a parameter. */
module AgentResult {
  import opened Wrappers

  datatype Kind = UInt64 | Double | String | Text | LogRecord | Message | Meta

  /** AR_UINT64, AR_DOUBLE, ... are single bits of the type. */
  type Flags = set<Kind>

  const VALUES: Flags := {UInt64, Double, String, Text, LogRecord}

  /** ISSET_VALUE */
  predicate HasValue(flags: Flags) { !(flags !! VALUES) }

  /** A log record owns its source and its value. */
  datatype Log = NoLog | LogAt(self: nat, source: nat, value: nat)

  datatype State = State(
    flags: Flags, ui64: nat, dbl: real, str: nat, text: nat, msg: nat, log: Log,
    next: nat, freed: seq<nat>)

  function NonNull(p: nat): seq<nat> { if p == 0 then [] else [p] }

  /** The allocations behind a field, in the order they are freed. */
  function Blocks(s: State, k: Kind): seq<nat> {
    match k
    case String => NonNull(s.str)
    case Text => NonNull(s.text)
    case Message => NonNull(s.msg)
    case LogRecord => if s.log.NoLog? then [] else NonNull(s.log.source) + NonNull(s.log.value) + NonNull(s.log.self)
    case _ => []
  }

  /** The allocations owned under a flag. */
  function Held(s: State, k: Kind): seq<nat> { if k in s.flags then Blocks(s, k) else [] }

  function Owned(s: State): seq<nat> { Held(s, String) + Held(s, Text) + Held(s, LogRecord) + Held(s, Message) }

  /** A flag is set exactly when its field points to something. */
  predicate Linked(s: State) {
    && s.next > 0
    && (String in s.flags <==> s.str != 0)
    && (Text in s.flags <==> s.text != 0)
    && (Message in s.flags <==> s.msg != 0)
    && (LogRecord in s.flags <==> s.log.LogAt?)
    && (s.log.LogAt? ==> s.log.self != 0)
  }

  /** All allocations made so far. */
  function Allocated(next: nat): multiset<nat> {
    if next <= 1 then multiset{} else Allocated(next - 1) + multiset{next - 1}
  }

  /** Freed, owned and `lost` are all allocations, each counted once. */
  predicate Accounts(s: State, lost: multiset<nat>) {
    multiset(s.freed) + multiset(Owned(s)) + lost == Allocated(s.next)
  }

  /** No allocation is freed or owned more than once. */
  predicate Accounted(s: State) { multiset(s.freed) + multiset(Owned(s)) <= Allocated(s.next) }

  // ----- the macros on values

  function SetUi64(s: State, v: nat): State { s.(flags := s.flags + {UInt64}, ui64 := v) }

  function SetDbl(s: State, v: real): State { s.(flags := s.flags + {Double}, dbl := v) }

  /** A newly allocated string is set. */
  function SetPtr(s: State, k: Kind): State
    requires k.String? || k.Text? || k.Message?
  {
    var t := s.(flags := s.flags + {k}, next := s.next + 1);
    match k
    case String => t.(str := s.next)
    case Text => t.(text := s.next)
    case Message => t.(msg := s.next)
  }

  function SetLog(s: State, hasSource: bool, hasValue: bool): State {
    var source := if hasSource then s.next + 1 else 0;
    var value := if !hasValue then 0 else if hasSource then s.next + 2 else s.next + 1;
    s.(flags := s.flags + {LogRecord}, log := LogAt(s.next, source, value),
       next := s.next + 1 + (if hasSource then 1 else 0) + (if hasValue then 1 else 0))
  }

  function Released(s: State, k: Kind): State { s.(flags := s.flags - {k}, freed := s.freed + Blocks(s, k)) }

  function Unset(s: State, k: Kind): State {
    match k
    case UInt64 => s.(flags := s.flags - {UInt64}, ui64 := 0)
    case Double => s.(flags := s.flags - {Double}, dbl := 0.0)
    case String => if k in s.flags then Released(s, k).(str := 0) else s
    case Text => if k in s.flags then Released(s, k).(text := 0) else s
    case LogRecord => if k in s.flags then Released(s, k).(log := NoLog) else s
    case Message => if k in s.flags then Released(s, k).(msg := 0) else s
    case Meta => s
  }

  function UnsetUnless(s: State, exc: Flags, k: Kind): State { if k in exc then s else Unset(s, k) }

  function UnsetExcluding(s: State, exc: Flags): State {
    var s1 := UnsetUnless(s, exc, UInt64);
    var s2 := UnsetUnless(s1, exc, Double);
    var s3 := UnsetUnless(s2, exc, String);
    var s4 := UnsetUnless(s3, exc, Text);
    var s5 := UnsetUnless(s4, exc, LogRecord);
    UnsetUnless(s5, exc, Message)
  }

  /** What converting the result to a number yields. */
  datatype Numbers = Numbers(castUi64: nat, parsedUi64: Option<nat>, castDbl: real, parsedDbl: Option<real>)

  /** get_result_value_by_type: a missing value is converted from another one and kept. */
  function Get(s: State, k: Kind, n: Numbers): State {
    if k in s.flags then s
    else match k
      case UInt64 =>
        if Double in s.flags then SetUi64(s, n.castUi64)
        else if (String in s.flags || Text in s.flags) && n.parsedUi64.Some? then SetUi64(s, n.parsedUi64.value)
        else s
      case Double =>
        if UInt64 in s.flags then SetDbl(s, n.castDbl)
        else if (String in s.flags || Text in s.flags) && n.parsedDbl.Some? then SetDbl(s, n.parsedDbl.value)
        else s
      case String =>
        if Text in s.flags || UInt64 in s.flags || Double in s.flags then SetPtr(s, String) else s
      case Text =>
        if String in s.flags || UInt64 in s.flags || Double in s.flags then SetPtr(s, Text) else s
      case LogRecord => if HasValue(s.flags) then SetLog(s, false, true) else s
      case _ => s
  }

  // ----- the result and the memory

  class Memory {
    var next: nat
    var freed: seq<nat>

    constructor ()
      ensures next == 1 && freed == []
    {
      next, freed := 1, [];
    }

    predicate Live(p: nat) reads this { 0 < p < next && p !in freed }

    method Malloc() returns (p: nat)
      modifies this
      ensures p == old(next) && next == p + 1 && freed == old(freed)
    {
      p := next;
      next := next + 1;
    }

    /** Only live memory may be freed. */
    method Free(p: nat)
      requires Live(p)
      modifies this
      ensures freed == old(freed) + [p] && next == old(next)
    {
      freed := freed + [p];
    }

    /** zbx_free, up to the assignment of NULL. */
    method FreeIfSet(p: nat)
      requires p != 0 ==> Live(p)
      modifies this
      ensures freed == old(freed) + NonNull(p) && next == old(next)
    {
      if p != 0 { Free(p); }
    }
  }

  class Result {
    var flags: Flags
    var ui64: nat
    var dbl: real
    var str: nat
    var text: nat
    var msg: nat
    var log: Log
    const memory: Memory

    function Value(): State
      reads this, memory
    {
      State(flags, ui64, dbl, str, text, msg, log, memory.next, memory.freed)
    }

    /** Nothing owned was freed before, and nothing is owned twice. */
    predicate Safe()
      reads this, memory
    {
      Linked(Value()) && Accounted(Value())
    }

    /** init_result */
    constructor ()
      ensures fresh(memory) && Value() == Init()
    {
      flags, ui64, dbl, str, text, msg, log := {}, 0, 0.0, 0, 0, 0, NoLog;
      memory := new Memory();
    }

    method SetUi64Result(v: nat)
      modifies this
      ensures Value() == SetUi64(old(Value()), v)
    {
      flags, ui64 := flags + {UInt64}, v;
    }

    method SetDblResult(v: real)
      modifies this
      ensures Value() == SetDbl(old(Value()), v)
    {
      flags, dbl := flags + {Double}, v;
    }

    method SetStrResult()
      modifies this, memory
      ensures Value() == SetPtr(old(Value()), String)
    {
      var val := memory.Malloc();
      flags, str := flags + {String}, val;
    }

    method SetTextResult()
      modifies this, memory
      ensures Value() == SetPtr(old(Value()), Text)
    {
      var val := memory.Malloc();
      flags, text := flags + {Text}, val;
    }

    method SetMsgResult()
      modifies this, memory
      ensures Value() == SetPtr(old(Value()), Message)
    {
      var val := memory.Malloc();
      flags, msg := flags + {Message}, val;
    }

    method SetLogResult(hasSource: bool, hasValue: bool)
      modifies this, memory
      ensures Value() == SetLog(old(Value()), hasSource, hasValue)
    {
      var self := memory.Malloc();
      var source, value := 0, 0;
      if hasSource { source := memory.Malloc(); }
      if hasValue { value := memory.Malloc(); }
      flags, log := flags + {LogRecord}, LogAt(self, source, value);
    }

    method UnsetUi64()
      modifies this
      ensures Value() == Unset(old(Value()), UInt64)
    {
      flags, ui64 := flags - {UInt64}, 0;
    }

    method UnsetDbl()
      modifies this
      ensures Value() == Unset(old(Value()), Double)
    {
      flags, dbl := flags - {Double}, 0.0;
    }

    method UnsetStr()
      requires Safe()
      modifies this, memory
      ensures Value() == Unset(old(Value()), String)
    {
      HeldIsLive(Value(), String);
      if String in flags {
        assert Held(Value(), String) == NonNull(str) && str in NonNull(str);
        memory.FreeIfSet(str);
        str := 0;
        flags := flags - {String};
      }
    }

    method UnsetText()
      requires Safe()
      modifies this, memory
      ensures Value() == Unset(old(Value()), Text)
    {
      HeldIsLive(Value(), Text);
      if Text in flags {
        assert Held(Value(), Text) == NonNull(text) && text in NonNull(text);
        memory.FreeIfSet(text);
        text := 0;
        flags := flags - {Text};
      }
    }

    method UnsetLog()
      requires Safe()
      modifies this, memory
      ensures Value() == Unset(old(Value()), LogRecord)
    {
      hide Accounted, NonNull, NoRepeats;
      HeldIsLive(Value(), LogRecord);
      if LogRecord in flags {
        LogApart(log.source, log.value, log.self, memory.next, memory.freed);
        memory.FreeIfSet(log.source);
        memory.FreeIfSet(log.value);
        memory.FreeIfSet(log.self);
        log := NoLog;
        flags := flags - {LogRecord};
      }
    }

    method UnsetMsg()
      requires Safe()
      modifies this, memory
      ensures Value() == Unset(old(Value()), Message)
    {
      HeldIsLive(Value(), Message);
      if Message in flags {
        assert Held(Value(), Message) == NonNull(msg) && msg in NonNull(msg);
        memory.FreeIfSet(msg);
        msg := 0;
        flags := flags - {Message};
      }
    }

    method UnsetResultExcluding(exc: Flags)
      requires Safe()
      modifies this, memory
      ensures Value() == UnsetExcluding(old(Value()), exc) && Safe()
    {
      hide Unset, Linked, Accounted;
      UnsetSafe(Value(), UInt64);
      if UInt64 !in exc { UnsetUi64(); }
      UnsetSafe(Value(), Double);
      if Double !in exc { UnsetDbl(); }
      UnsetSafe(Value(), String);
      if String !in exc { UnsetStr(); }
      UnsetSafe(Value(), Text);
      if Text !in exc { UnsetText(); }
      UnsetSafe(Value(), LogRecord);
      if LogRecord !in exc { UnsetLog(); }
      UnsetSafe(Value(), Message);
      if Message !in exc { UnsetMsg(); }
    }

    /** free_result */
    method FreeResult()
      requires Safe()
      modifies this, memory
      ensures Value() == UnsetExcluding(old(Value()), {}) && Safe()
    {
      UnsetResultExcluding({});
    }

    method GetUi64(n: Numbers) returns (found: bool)
      modifies this
      ensures Value() == Get(old(Value()), UInt64, n) && found == (UInt64 in flags)
    {
      if UInt64 in flags {
      } else if Double in flags {
        SetUi64Result(n.castUi64);
      } else if String in flags || Text in flags {
        if n.parsedUi64.None? { return false; }
        SetUi64Result(n.parsedUi64.value);
      }
      found := UInt64 in flags;
    }

    method GetDbl(n: Numbers) returns (found: bool)
      modifies this
      ensures Value() == Get(old(Value()), Double, n) && found == (Double in flags)
    {
      if Double in flags {
      } else if UInt64 in flags {
        SetDblResult(n.castDbl);
      } else if String in flags || Text in flags {
        if n.parsedDbl.None? { return false; }
        SetDblResult(n.parsedDbl.value);
      }
      found := Double in flags;
    }

    method GetStr(n: Numbers) returns (p: nat)
      requires Linked(Value())
      modifies this, memory
      ensures Value() == Get(old(Value()), String, n)
      ensures p == str && (p != 0 <==> String in flags)
    {
      GetKeepsLinks(Value(), String, n);
      if String in flags {
      } else if Text in flags {
        SetStrResult();
      } else if UInt64 in flags {
        SetStrResult();
      } else if Double in flags {
        SetStrResult();
      }
      p := if String in flags then str else 0;
    }

    method GetText(n: Numbers) returns (p: nat)
      requires Linked(Value())
      modifies this, memory
      ensures Value() == Get(old(Value()), Text, n)
      ensures p == text && (p != 0 <==> Text in flags)
    {
      GetKeepsLinks(Value(), Text, n);
      if Text in flags {
      } else if String in flags {
        SetTextResult();
      } else if UInt64 in flags {
        SetTextResult();
      } else if Double in flags {
        SetTextResult();
      }
      p := if Text in flags then text else 0;
    }

    /** The field is NULL before it is allocated, as zbx_malloc demands. */
    method GetLog(n: Numbers) returns (l: Log)
      requires Linked(Value())
      modifies this, memory
      ensures Value() == Get(old(Value()), LogRecord, n)
      ensures l == log && (l.LogAt? <==> LogRecord in flags)
    {
      GetKeepsLinks(Value(), LogRecord, n);
      if LogRecord in flags { return log; }
      if HasValue(flags) {
        assert log.NoLog?;
        var self := memory.Malloc();
        log := LogAt(self, 0, 0);
        if String in flags || Text in flags || UInt64 in flags || Double in flags {
          var value := memory.Malloc();
          log := log.(value := value);
        }
        flags := flags + {LogRecord};
        return log;
      }
      l := NoLog;
    }
  }

  // ----- what is owned

  lemma GetKeepsLinks(s: State, k: Kind, n: Numbers)
    requires Linked(s)
    ensures Linked(Get(s, k, n))
  {
  }

  function Init(): State { State({}, 0, 0.0, 0, 0, 0, NoLog, 1, []) }

  lemma {:induction false} AllocatedOnce(next: nat, b: nat)
    ensures Allocated(next)[b] == if 0 < b < next then 1 else 0
  {
    if next > 1 { AllocatedOnce(next - 1, b); }
  }

  predicate NoRepeats(s: seq<nat>) { forall i, j :: 0 <= i < j < |s| ==> s[i] != s[j] }

  lemma {:induction false} CountsGiveNoRepeats(s: seq<nat>)
    requires forall b: nat :: multiset(s)[b] <= 1
    ensures NoRepeats(s)
  {
    if s != [] {
      assert s == [s[0]] + s[1..];
      assert multiset(s) == multiset{s[0]} + multiset(s[1..]);
      forall b: nat ensures multiset(s[1..])[b] <= 1 { assert multiset(s)[b] <= 1; }
      CountsGiveNoRepeats(s[1..]);
      forall j | 0 < j < |s| ensures s[j] != s[0] {
        assert s[1..][j - 1] in multiset(s[1..]);
        assert multiset(s)[s[0]] <= 1;
      }
    }
  }

  /** What is owned was never freed and is owned once. */
  lemma OwnedIsLive(s: State, blocks: seq<nat>)
    requires Accounted(s) && multiset(blocks) <= multiset(Owned(s))
    ensures NoRepeats(blocks)
    ensures forall b :: b in blocks ==> 0 < b < s.next && b !in s.freed
  {
    forall b: nat ensures multiset(s.freed)[b] + multiset(blocks)[b] <= if 0 < b < s.next then 1 else 0 {
      AllocatedOnce(s.next, b);
      assert (multiset(s.freed) + multiset(Owned(s)))[b] <= Allocated(s.next)[b];
    }
    CountsGiveNoRepeats(blocks);
    forall b | b in blocks ensures 0 < b < s.next && b !in s.freed { assert b in multiset(blocks); }
  }

  lemma HeldIsLive(s: State, k: Kind)
    requires Accounted(s)
    ensures NoRepeats(Held(s, k))
    ensures forall b :: b in Held(s, k) ==> 0 < b < s.next && b !in s.freed
  {
    OwnedIsLive(s, Held(s, k));
  }

  /** The three parts of a log record can be freed one after the other. */
  lemma LogApart(source: nat, value: nat, self: nat, next: nat, freed: seq<nat>)
    requires NoRepeats(NonNull(source) + NonNull(value) + NonNull(self))
    requires forall b :: b in NonNull(source) + NonNull(value) + NonNull(self) ==> 0 < b < next && b !in freed
    ensures source != 0 ==> source < next && source !in freed
    ensures value != 0 ==> value < next && value !in freed + NonNull(source)
    ensures self != 0 ==>
      self < next && self !in freed + NonNull(source) + NonNull(value)
  {
    var a, b, c := NonNull(source), NonNull(value), NonNull(self);
    var all := a + b + c;
    if source != 0 { assert all[0] == source && source in all; }
    if value != 0 { assert all[|a|] == value && value in all; }
    if self != 0 { assert all[|a + b|] == self && self in all; }
  }

  /** Unsetting a flag frees what it held and touches no other flag's allocations. */
  lemma UnsetIs(s: State, k: Kind)
    ensures Unset(s, k).freed == s.freed + Held(s, k) && Unset(s, k).next == s.next
    ensures Held(Unset(s, k), k) == []
    ensures forall o :: o != k ==> Held(Unset(s, k), o) == Held(s, o)
    ensures Linked(s) ==> Linked(Unset(s, k))
  {
  }

  /** Unsetting loses nothing. */
  lemma UnsetAccounts(s: State, k: Kind, lost: multiset<nat>)
    ensures Accounts(Unset(s, k), lost) <==> Accounts(s, lost)
    ensures Accounted(Unset(s, k)) <==> Accounted(s)
  {
    UnsetIs(s, k);
    UnsetMovesOwned(s, Unset(s, k), k);
  }

  lemma OwnedParts(s: State)
    ensures multiset(Owned(s)) == multiset(Held(s, String)) + multiset(Held(s, Text)) + multiset(Held(s, LogRecord))
                                + multiset(Held(s, Message))
    ensures Held(s, UInt64) == Held(s, Double) == Held(s, Meta) == []
  {
  }

  lemma UnsetMovesOwned(s: State, t: State, k: Kind)
    requires t.freed == s.freed + Held(s, k) && Held(t, k) == [] && forall o :: o != k ==> Held(t, o) == Held(s, o)
    ensures multiset(t.freed) + multiset(Owned(t)) == multiset(s.freed) + multiset(Owned(s))
  {
    hide Held, Owned;
    OwnedParts(s);
    OwnedParts(t);
    match k { case _ => }
  }

  lemma UnsetSafe(s: State, k: Kind)
    requires Linked(s) && Accounted(s)
    ensures Linked(Unset(s, k)) && Accounted(Unset(s, k))
  {
    UnsetIs(s, k);
    UnsetAccounts(s, k, multiset{});
  }

  // ----- dropping all but some types

  /** What is freed, in order. */
  function Dropped(s: State, exc: Flags): seq<nat> {
    HeldUnless(s, exc, String) + HeldUnless(s, exc, Text) + HeldUnless(s, exc, LogRecord) + HeldUnless(s, exc, Message)
  }

  function HeldUnless(s: State, exc: Flags, k: Kind): seq<nat> { if k in exc then [] else Held(s, k) }

  lemma UnsetUnlessIs(s: State, exc: Flags, k: Kind)
    ensures UnsetUnless(s, exc, k).freed == s.freed + HeldUnless(s, exc, k)
    ensures forall o ::
      Held(UnsetUnless(s, exc, k), o) == if o == k && k !in exc then [] else Held(s, o)
  {
    hide Held, Blocks;
    UnsetIs(s, k);
  }

  /** UNSET_RESULT_EXCLUDING leaves the allocations of the excluded types alone and drops all others. */
  lemma ExcludingHeld(s: State, exc: Flags, k: Kind)
    ensures Held(UnsetExcluding(s, exc), k) == if k in exc then Held(s, k) else []
  {
    hide Unset, Held, UnsetUnless, HeldUnless;
    OwnedParts(s);
    var s1 := UnsetUnless(s, exc, UInt64);
    var s2 := UnsetUnless(s1, exc, Double);
    var s3 := UnsetUnless(s2, exc, String);
    var s4 := UnsetUnless(s3, exc, Text);
    var s5 := UnsetUnless(s4, exc, LogRecord);
    UnsetUnlessIs(s, exc, UInt64);
    UnsetUnlessIs(s1, exc, Double);
    UnsetUnlessIs(s2, exc, String);
    UnsetUnlessIs(s3, exc, Text);
    UnsetUnlessIs(s4, exc, LogRecord);
    UnsetUnlessIs(s5, exc, Message);
  }

  lemma FreesNext(s: State, t: State, exc: Flags, k: Kind, done: seq<nat>)
    requires t.freed == s.freed + done && forall o :: o == k || NotYet(k, o) ==> Held(t, o) == Held(s, o)
    ensures UnsetUnless(t, exc, k).freed == s.freed + (done + HeldUnless(s, exc, k))
    ensures forall o :: NotYet(k, o) ==>
      Held(UnsetUnless(t, exc, k), o) == Held(s, o)
  {
    hide Held, UnsetUnless;
    UnsetUnlessIs(t, exc, k);
  }

  /** `o` is unset after `k`. */
  predicate NotYet(k: Kind, o: Kind) {
    match k
    case UInt64 => o != UInt64
    case Double => o != UInt64 && o != Double
    case String => o == Text || o == LogRecord || o == Message
    case Text => o == LogRecord || o == Message
    case LogRecord => o == Message
    case _ => false
  }

  /** It frees exactly what the dropped types held. */
  lemma ExcludingFrees(s: State, exc: Flags)
    ensures UnsetExcluding(s, exc).freed == s.freed + Dropped(s, exc)
  {
    hide Held, UnsetUnless, HeldUnless;
    var s1 := UnsetUnless(s, exc, UInt64);
    var s2 := UnsetUnless(s1, exc, Double);
    var s3 := UnsetUnless(s2, exc, String);
    var s4 := UnsetUnless(s3, exc, Text);
    var s5 := UnsetUnless(s4, exc, LogRecord);
    var u, d := HeldUnless(s, exc, UInt64), HeldUnless(s, exc, Double);
    var a, b, c := HeldUnless(s, exc, String), HeldUnless(s, exc, Text), HeldUnless(s, exc, LogRecord);
    FreesNext(s, s, exc, UInt64, []);
    FreesNext(s, s1, exc, Double, [] + u);
    FreesNext(s, s2, exc, String, [] + u + d);
    FreesNext(s, s3, exc, Text, [] + u + d + a);
    FreesNext(s, s4, exc, LogRecord, [] + u + d + a + b);
    FreesNext(s, s5, exc, Message, [] + u + d + a + b + c);
    NumbersHoldNothing(s, exc);
    assert [] + u + d + a + b + c == a + b + c;
  }

  lemma NumbersHoldNothing(s: State, exc: Flags)
    ensures HeldUnless(s, exc, UInt64) == HeldUnless(s, exc, Double) == []
  {
  }

  lemma FlagLeft(s: State, exc: Flags, k: Kind, o: Kind)
    requires k != Meta
    ensures o in UnsetUnless(s, exc, k).flags <==>
      o in s.flags && (o != k || k in exc)
  {
  }

  /** The flags are cut to the excluded ones and AR_META. */
  lemma ExcludingFlags(s: State, exc: Flags)
    ensures UnsetExcluding(s, exc).flags == s.flags * (exc + {Meta})
  {
    hide Unset, Held, UnsetUnless, HeldUnless;
    var s1 := UnsetUnless(s, exc, UInt64);
    var s2 := UnsetUnless(s1, exc, Double);
    var s3 := UnsetUnless(s2, exc, String);
    var s4 := UnsetUnless(s3, exc, Text);
    var s5 := UnsetUnless(s4, exc, LogRecord);
    var after := UnsetExcluding(s, exc);
    forall o ensures o in after.flags <==> o in s.flags && (o in exc || o == Meta) {
      FlagLeft(s, exc, UInt64, o);
      FlagLeft(s1, exc, Double, o);
      FlagLeft(s2, exc, String, o);
      FlagLeft(s3, exc, Text, o);
      FlagLeft(s4, exc, LogRecord, o);
      FlagLeft(s5, exc, Message, o);
      match o { case _ => }
    }
  }

  /** Every dropped allocation is freed exactly once, and none of them was freed before. */
  lemma DroppedOnce(s: State, exc: Flags)
    requires Accounted(s)
    ensures NoRepeats(Dropped(s, exc))
    ensures forall b :: b in Dropped(s, exc) ==> b !in s.freed
  {
    hide Held, Owned;
    OwnedParts(s);
    assert multiset(Dropped(s, exc)) == multiset(HeldUnless(s, exc, String)) + multiset(HeldUnless(s, exc, Text))
                                      + multiset(HeldUnless(s, exc, LogRecord)) + multiset(HeldUnless(s, exc, Message));
    OwnedIsLive(s, Dropped(s, exc));
  }

  /** A dropped number becomes zero, whether or not it was set; an excluded one stays. */
  lemma NumbersDropped(s: State, exc: Flags)
    ensures UnsetExcluding(s, exc).ui64 == if UInt64 in exc then s.ui64 else 0
    ensures UnsetExcluding(s, exc).dbl == if Double in exc then s.dbl else 0.0
  {
  }

  /** free_result on a result that holds everything: the order in which memory is given back. */
  lemma AllDropped(s: State)
    requires Linked(s) && {String, Text, LogRecord, Message} <= s.flags && s.log.source != 0 && s.log.value != 0
    ensures UnsetExcluding(s, {}).freed == s.freed + [s.str, s.text, s.log.source, s.log.value, s.log.self, s.msg]
  {
    ExcludingFrees(s, {});
    assert String in s.flags && Text in s.flags && LogRecord in s.flags && Message in s.flags;
  }

  /** A second call frees nothing and changes nothing. */
  lemma ExcludingTwice(s: State, exc: Flags)
    ensures UnsetExcluding(UnsetExcluding(s, exc), exc).freed == UnsetExcluding(s, exc).freed
    ensures UnsetExcluding(UnsetExcluding(s, exc), exc).flags == UnsetExcluding(s, exc).flags
  {
    hide Held, UnsetExcluding;
    var once := UnsetExcluding(s, exc);
    ExcludingFlags(s, exc);
    ExcludingFlags(once, exc);
    ExcludingFrees(once, exc);
    forall k ensures Held(once, k) == if k in exc then Held(s, k) else [] { ExcludingHeld(s, exc, k); }
  }

  // ----- whole runs

  datatype Op =
    | PutUi64(ui64: nat) | PutDbl(dbl: real) | PutStr | PutText | PutMsg | PutLog(hasSource: bool, hasValue: bool)
    | Drop(kind: Kind) | Exclude(exc: Flags) | Take(kind: Kind, numbers: Numbers)

  function Step(s: State, op: Op): State {
    match op
    case PutUi64(v) => SetUi64(s, v)
    case PutDbl(v) => SetDbl(s, v)
    case PutStr => SetPtr(s, String)
    case PutText => SetPtr(s, Text)
    case PutMsg => SetPtr(s, Message)
    case PutLog(hasSource, hasValue) => SetLog(s, hasSource, hasValue)
    case Drop(k) => Unset(s, k)
    case Exclude(exc) => UnsetExcluding(s, exc)
    case Take(k, n) => Get(s, k, n)
  }

  function Target(op: Op): Option<Kind> {
    match op
    case PutStr => Some(String)
    case PutText => Some(Text)
    case PutMsg => Some(Message)
    case PutLog(_, _) => Some(LogRecord)
    case _ => None
  }

  /** What a SET overwrites without freeing it. */
  function Overwritten(s: State, op: Op): seq<nat> { if Target(op).Some? then Held(s, Target(op).value) else [] }

  /** The state after the first `n` operations on a fresh result. */
  function Run(ops: seq<Op>, n: nat): State
    requires n <= |ops|
  {
    if n == 0 then Init() else Step(Run(ops, n - 1), ops[n - 1])
  }

  /** Everything a run overwrote. */
  function Lost(ops: seq<Op>, n: nat): multiset<nat>
    requires n <= |ops|
  {
    if n == 0 then multiset{} else Lost(ops, n - 1) + multiset(Overwritten(Run(ops, n - 1), ops[n - 1]))
  }

  /** Every SET on a pointer type starts from a clear flag. */
  predicate SetsClear(ops: seq<Op>) {
    forall i :: 0 <= i < |ops| && Target(ops[i]).Some? ==> Target(ops[i]).value !in Run(ops, i).flags
  }

  /** New allocations take the place of what a flag held. */
  lemma SetAccounts(s: State, t: State, k: Kind, more: multiset<nat>, lost: multiset<nat>)
    requires Accounts(s, lost) && k in {String, Text, LogRecord, Message}
    requires t.freed == s.freed && forall o :: o != k ==> Held(t, o) == Held(s, o)
    requires multiset(Held(t, k)) == more && Allocated(t.next) == Allocated(s.next) + more
    ensures Accounts(t, lost + multiset(Held(s, k)))
  {
    hide Held, Owned, Allocated;
    OwnedParts(s);
    OwnedParts(t);
    match k { case _ => }
  }

  lemma SetPtrIs(s: State, k: Kind)
    requires Linked(s) && (k.String? || k.Text? || k.Message?)
    ensures Linked(SetPtr(s, k)) && Held(SetPtr(s, k), k) == [s.next]
    ensures forall o :: o != k ==> Held(SetPtr(s, k), o) == Held(s, o)
  {
  }

  lemma SetLogIs(s: State, hasSource: bool, hasValue: bool)
    requires Linked(s)
    ensures Linked(SetLog(s, hasSource, hasValue))
    ensures forall o :: o != LogRecord ==>
      Held(SetLog(s, hasSource, hasValue), o) == Held(s, o)
    ensures Held(SetLog(s, hasSource, hasValue), LogRecord) ==
      (if hasSource then [s.next + 1] else []) +
      (if !hasValue then [] else if hasSource then [s.next + 2] else [s.next + 1]) + [s.next]
  {
  }

  lemma AllocatedNext(next: nat)
    requires next > 0
    ensures Allocated(next + 1) == Allocated(next) + multiset{next}
    ensures Allocated(next + 2) == Allocated(next) + multiset{next, next + 1}
    ensures Allocated(next + 3) == Allocated(next) + multiset{next, next + 1, next + 2}
  {
    assert Allocated(next + 1) == Allocated(next) + multiset{next};
    assert Allocated(next + 2) == Allocated(next + 1) + multiset{next + 1};
  }

  lemma SetPtrAccounts(s: State, k: Kind, lost: multiset<nat>)
    requires Linked(s) && Accounts(s, lost) && (k.String? || k.Text? || k.Message?)
    ensures Linked(SetPtr(s, k)) && Accounts(SetPtr(s, k), lost + multiset(Held(s, k)))
  {
    hide Accounts, Owned, Allocated, Held;
    AllocatedNext(s.next);
    SetPtrIs(s, k);
    SetAccounts(s, SetPtr(s, k), k, multiset{s.next}, lost);
  }

  lemma SetLogAccounts(s: State, hasSource: bool, hasValue: bool, lost: multiset<nat>)
    requires Linked(s) && Accounts(s, lost)
    ensures Linked(SetLog(s, hasSource, hasValue))
    ensures Accounts(SetLog(s, hasSource, hasValue), lost + multiset(Held(s, LogRecord)))
  {
    hide Accounts, Owned, Allocated, Held;
    var t := SetLog(s, hasSource, hasValue);
    AllocatedNext(s.next);
    SetLogIs(s, hasSource, hasValue);
    SetAccounts(s, t, LogRecord, multiset(Held(t, LogRecord)), lost);
  }

  /** A number owns nothing. */
  lemma NumberIs(s: State, u: nat, d: real)
    ensures Linked(SetUi64(s, u)) == Linked(SetDbl(s, d)) == Linked(s)
    ensures forall o ::
      Held(SetUi64(s, u), o) == Held(SetDbl(s, d), o) == Held(s, o)
  {
  }

  lemma NumberAccounts(s: State, u: nat, d: real, lost: multiset<nat>)
    ensures Linked(SetUi64(s, u)) == Linked(SetDbl(s, d)) == Linked(s)
    ensures Accounts(SetUi64(s, u), lost) == Accounts(SetDbl(s, d), lost) == Accounts(s, lost)
  {
    hide Held, Linked;
    NumberIs(s, u, d);
  }

  /** Fetching a value in another type only fills clear flags, so it loses nothing. */
  lemma GetAccounts(s: State, k: Kind, n: Numbers, lost: multiset<nat>)
    requires Linked(s) && Accounts(s, lost)
    ensures Linked(Get(s, k, n)) && Accounts(Get(s, k, n), lost)
  {
    hide Accounts, Linked, SetPtr, SetLog;
    if k !in s.flags {
      assert lost + multiset(Held(s, k)) == lost;
      match k
      case String | Text => SetPtrAccounts(s, k, lost);
      case LogRecord => SetLogAccounts(s, false, true, lost);
      case UInt64 =>
        NumberAccounts(s, n.castUi64, 0.0, lost);
        if n.parsedUi64.Some? { NumberAccounts(s, n.parsedUi64.value, 0.0, lost); }
      case Double =>
        NumberAccounts(s, 0, n.castDbl, lost);
        if n.parsedDbl.Some? { NumberAccounts(s, 0, n.parsedDbl.value, lost); }
      case _ =>
    }
  }

  /** A whole number is fetched from a whole number, a double, or a string or text that can be parsed as
      one; what is stored is the number itself, the cast or the parsed value. */
  lemma WholeFetched(s: State, n: Numbers)
    ensures UInt64 in Get(s, UInt64, n).flags <==>
      UInt64 in s.flags || Double in s.flags || ((String in s.flags || Text in s.flags) && n.parsedUi64.Some?)
    ensures UInt64 in Get(s, UInt64, n).flags ==>
      Get(s, UInt64, n).ui64 ==
        if UInt64 in s.flags then s.ui64 else if Double in s.flags then n.castUi64 else n.parsedUi64.value
  {
  }

  /** The same for a double. */
  lemma DoubleFetched(s: State, n: Numbers)
    ensures Double in Get(s, Double, n).flags <==>
      Double in s.flags || UInt64 in s.flags || ((String in s.flags || Text in s.flags) && n.parsedDbl.Some?)
    ensures Double in Get(s, Double, n).flags ==>
      Get(s, Double, n).dbl ==
        if Double in s.flags then s.dbl else if UInt64 in s.flags then n.castDbl else n.parsedDbl.value
  {
  }

  /** Setting a number sets its flag and its value and nothing else. */
  lemma NumberSet(s: State, u: nat, d: real)
    ensures SetUi64(s, u) == s.(flags := s.flags + {UInt64}, ui64 := u)
    ensures SetDbl(s, d) == s.(flags := s.flags + {Double}, dbl := d)
  {
  }

  /** A log record fetched from another value has that value and no source. */
  lemma LogFetched(s: State, n: Numbers)
    requires Linked(s) && LogRecord !in s.flags && LogRecord in Get(s, LogRecord, n).flags
    ensures var l := Get(s, LogRecord, n).log;
      l.LogAt? && l.source == 0 && l.self != 0 && l.value != 0 && l.value != l.self && l.self >= s.next &&
        l.value >= s.next
  {
  }

  /** Every value can be fetched as a log record; as a string or a text, every value but a log record. */
  lemma Fetchable(s: State, n: Numbers)
    ensures LogRecord in Get(s, LogRecord, n).flags <==>
      LogRecord in s.flags || UInt64 in s.flags || Double in s.flags || String in s.flags || Text in s.flags
    ensures String in Get(s, String, n).flags <==>
      String in s.flags || UInt64 in s.flags || Double in s.flags || Text in s.flags
    ensures Text in Get(s, Text, n).flags <==>
      Text in s.flags || UInt64 in s.flags || Double in s.flags || String in s.flags
    ensures Message in Get(s, Message, n).flags <==> Message in s.flags
  {
    assert forall k :: k in VALUES <==> k == UInt64 || k == Double || k == String || k == Text || k == LogRecord;
  }

  /** Fetching one type leaves the others as they are. */
  lemma GetKeepsOthers(s: State, k: Kind, n: Numbers, o: Kind)
    requires o != k && Linked(s)
    ensures o in Get(s, k, n).flags <==> o in s.flags
    ensures Held(Get(s, k, n), o) == Held(s, o)
    ensures Get(s, k, n).freed == s.freed
  {
    hide HasValue;
  }

  lemma UnsetUnlessAccounts(s: State, exc: Flags, k: Kind, lost: multiset<nat>)
    requires Linked(s) && Accounts(s, lost)
    ensures Linked(UnsetUnless(s, exc, k)) && Accounts(UnsetUnless(s, exc, k), lost)
  {
    hide Unset, Accounts, Linked;
    UnsetIs(s, k);
    UnsetAccounts(s, k, lost);
  }

  lemma ExcludingAccounts(s: State, exc: Flags, lost: multiset<nat>)
    requires Linked(s) && Accounts(s, lost)
    ensures Linked(UnsetExcluding(s, exc)) && Accounts(UnsetExcluding(s, exc), lost)
  {
    hide UnsetUnless, Accounts, Linked;
    var s1 := UnsetUnless(s, exc, UInt64);
    var s2 := UnsetUnless(s1, exc, Double);
    var s3 := UnsetUnless(s2, exc, String);
    var s4 := UnsetUnless(s3, exc, Text);
    var s5 := UnsetUnless(s4, exc, LogRecord);
    UnsetUnlessAccounts(s, exc, UInt64, lost);
    UnsetUnlessAccounts(s1, exc, Double, lost);
    UnsetUnlessAccounts(s2, exc, String, lost);
    UnsetUnlessAccounts(s3, exc, Text, lost);
    UnsetUnlessAccounts(s4, exc, LogRecord, lost);
    UnsetUnlessAccounts(s5, exc, Message, lost);
  }

  lemma StepAccounts(s: State, op: Op, lost: multiset<nat>)
    requires Linked(s) && Accounts(s, lost)
    ensures Linked(Step(s, op)) && Accounts(Step(s, op), lost + multiset(Overwritten(s, op)))
  {
    hide Accounts, Linked, SetPtr, SetLog, Unset, UnsetExcluding, Get, Held;
    assert lost + multiset{} == lost;
    match op
    case PutUi64(v) => NumberAccounts(s, v, 0.0, lost);
    case PutDbl(v) => NumberAccounts(s, 0, v, lost);
    case PutStr => SetPtrAccounts(s, String, lost);
    case PutText => SetPtrAccounts(s, Text, lost);
    case PutMsg => SetPtrAccounts(s, Message, lost);
    case PutLog(hasSource, hasValue) => SetLogAccounts(s, hasSource, hasValue, lost);
    case Drop(k) =>
      UnsetIs(s, k);
      UnsetAccounts(s, k, lost);
    case Exclude(exc) => ExcludingAccounts(s, exc, lost);
    case Take(k, n) => GetAccounts(s, k, n, lost);
  }

  /** Over every run, a pointer flag is set exactly when its field points to something, and every
      allocation made is, exactly once, either freed, or owned under a set flag, or was overwritten by
      a SET on a set flag. */
  lemma {:induction false} RunAccounts(ops: seq<Op>, n: nat)
    requires n <= |ops|
    ensures Linked(Run(ops, n)) && Accounts(Run(ops, n), Lost(ops, n))
  {
    hide Accounts, Linked, Step, Overwritten;
    if n > 0 {
      RunAccounts(ops, n - 1);
      StepAccounts(Run(ops, n - 1), ops[n - 1], Lost(ops, n - 1));
    } else {
      InitAccounts();
    }
  }

  lemma InitAccounts()
    ensures Linked(Init()) && Accounts(Init(), multiset{})
  {
  }

  /** Nothing is lost exactly when every SET on a pointer type starts from a clear flag. */
  lemma NothingLost(ops: seq<Op>)
    ensures Lost(ops, |ops|) == multiset{} <==> SetsClear(ops)
  {
    LostIs(ops, |ops|);
  }

  lemma NothingOverwritten(s: State, op: Op)
    requires Linked(s)
    ensures multiset(Overwritten(s, op)) == multiset{} <==>
      (Target(op).Some? ==> Target(op).value !in s.flags)
  {
    assert Target(op).Some? ==> (Target(op).value in s.flags <==> Held(s, Target(op).value) != []);
    var blocks := Overwritten(s, op);
    assert blocks != [] ==> blocks[0] in multiset(blocks);
  }

  lemma {:induction false} LostIs(ops: seq<Op>, n: nat)
    requires n <= |ops|
    ensures Lost(ops, n) == multiset{} <==>
      forall i :: 0 <= i < n && Target(ops[i]).Some? ==> Target(ops[i]).value !in Run(ops, i).flags
  {
    hide Run, Linked, Accounts, Overwritten;
    if n > 0 {
      LostIs(ops, n - 1);
      RunAccounts(ops, n - 1);
      NothingOverwritten(Run(ops, n - 1), ops[n - 1]);
    }
  }

  /** Setting a string twice loses the first one. */
  lemma SecondSetLosesFirst()
    ensures Lost([PutStr, PutStr], 2) == multiset{1} && Run([PutStr, PutStr], 2).freed == []
  {
    var ops := [PutStr, PutStr];
    assert Run(ops, 0) == Init() && Lost(ops, 0) == multiset{};
    assert Run(ops, 1) == SetPtr(Init(), String);
    assert Overwritten(Init(), PutStr) == [] && Overwritten(Run(ops, 1), PutStr) == [1];
    assert Lost(ops, 1) == multiset{};
  }

  /** If every SET starts from a clear flag, free_result at the end leaves every allocation of the run
      freed exactly once. */
  lemma FreedAtTheEnd(ops: seq<Op>, b: nat)
    requires SetsClear(ops)
    ensures var after := UnsetExcluding(Run(ops, |ops|), {});
            multiset(after.freed)[b] == if 0 < b < after.next then 1 else 0
  {
    hide UnsetExcluding, Held, Linked, Run, Lost;
    var end := Run(ops, |ops|);
    var after := UnsetExcluding(end, {});
    RunAccounts(ops, |ops|);
    NothingLost(ops);
    ExcludingAccounts(end, {}, multiset{});
    forall k ensures Held(after, k) == [] { ExcludingHeld(end, {}, k); }
    AllocatedOnce(after.next, b);
    assert multiset(after.freed) == Allocated(after.next);
  }

  /** What a run holds at any time can be freed safely: it was allocated, never freed, and is owned once. */
  lemma RunHoldsLive(ops: seq<Op>, n: nat, k: Kind)
    requires n <= |ops|
    ensures NoRepeats(Held(Run(ops, n), k))
    ensures forall b :: b in Held(Run(ops, n), k) ==>
      0 < b < Run(ops, n).next && b !in Run(ops, n).freed
  {
    hide Run, Linked, Held;
    RunAccounts(ops, n);
    HeldIsLive(Run(ops, n), k);
  }
}
