/** The IPC wire codec (include/zbxserialize.h).

    Fixed-size values are copied byte by byte; strings are stored as a 32-bit length that counts the
    terminating NUL, followed by the characters and the NUL.  A NULL string has length zero.  Numbers
    are stored in the byte order of the host, taken to be little-endian. */
module Serialize {
  import opened Wrappers

  type Byte = x: int | 0 <= x < 256

  /** Assignment to a 32-bit unsigned variable. */
  function Wrap32(n: nat): (r: nat)
    ensures r < 0x1_0000_0000
  {
    n % 0x1_0000_0000
  }

  const SIZEOF_UINT32 := 4

  /** A value of a fixed size (uint64, int, short, double, char, ...), or a string without NULs. */
  datatype Field = Value(bytes: seq<Byte>) | Str(text: Option<seq<Byte>>)

  /** What a reader of a message knows of a field. */
  datatype Shape = ValueOf(size: nat) | String

  // ----- numbers

  function LittleEndian(n: nat, width: nat): (bytes: seq<Byte>)
    ensures |bytes| == width
  {
    if width == 0 then [] else [n % 256] + LittleEndian(n / 256, width - 1)
  }

  function FromLittleEndian(bytes: seq<Byte>): nat {
    if bytes == [] then 0 else bytes[0] as int + 256 * FromLittleEndian(bytes[1..])
  }

  function Pow256(width: nat): nat { if width == 0 then 1 else 256 * Pow256(width - 1) }

  lemma {:induction false} LittleEndianRoundTrip(n: nat, width: nat)
    requires n < Pow256(width)
    ensures FromLittleEndian(LittleEndian(n, width)) == n
  {
    if width > 0 {
      LittleEndianRoundTrip(n / 256, width - 1);
      assert LittleEndian(n, width)[1..] == LittleEndian(n / 256, width - 1);
    }
  }

  /** memcpy of a 32-bit length. */
  function EncodeU32(n: nat): (bytes: seq<Byte>)
    requires n < 0x1_0000_0000
    ensures |bytes| == SIZEOF_UINT32
  {
    LittleEndian(n, SIZEOF_UINT32)
  }

  function DecodeU32(bytes: seq<Byte>): (n: nat)
    requires |bytes| == SIZEOF_UINT32
  {
    FromLittleEndian(bytes)
  }

  lemma U32RoundTrip(n: nat)
    requires n < 0x1_0000_0000
    ensures DecodeU32(EncodeU32(n)) == n
  {
    assert Pow256(4) == 256 * (256 * (256 * (256 * Pow256(0))));
    LittleEndianRoundTrip(n, SIZEOF_UINT32);
  }

  // ----- what is written

  /** A 32-bit length variable set to strlen + 1. */
  function StrLen(text: Option<seq<Byte>>): (len: nat)
    ensures len < 0x1_0000_0000
  {
    if text.Some? then Wrap32(|text.value| + 1) else 0
  }

  function EncodeStr(text: Option<seq<Byte>>): seq<Byte> {
    if StrLen(text) == 0 then [0, 0, 0, 0] else EncodeU32(StrLen(text)) + (text.value + [0])[..StrLen(text)]
  }

  function Encode(f: Field): seq<Byte> {
    match f
    case Value(bytes) => bytes
    case Str(text) => EncodeStr(text)
  }

  /** The bytes of each field. */
  function Parts(fields: seq<Field>): (r: seq<seq<Byte>>)
    ensures |r| == |fields| && forall i :: 0 <= i < |r| ==>
      r[i] == Encode(fields[i])
  {
    seq(|fields|, i requires 0 <= i < |fields| => Encode(fields[i]))
  }

  /** The first `n` parts one after the other. */
  function Join(parts: seq<seq<Byte>>, n: nat): seq<Byte>
    requires n <= |parts|
  {
    if n == 0 then [] else Join(parts, n - 1) + parts[n - 1]
  }

  function EncodeAll(fields: seq<Field>): seq<Byte> { Join(Parts(fields), |fields|) }

  lemma {:induction false} JoinGrows(parts: seq<seq<Byte>>, i: nat, n: nat)
    requires i <= n <= |parts|
    ensures |Join(parts, i)| <= |Join(parts, n)|
  {
    if i < n { JoinGrows(parts, i, n - 1); }
  }

  /** `buffer` with `bytes` written at `at`. */
  function Written(buffer: seq<Byte>, at: nat, bytes: seq<Byte>): seq<Byte>
    requires at + |bytes| <= |buffer|
  {
    buffer[..at] + bytes + buffer[at + |bytes|..]
  }

  // ----- the prepare macros

  method PrepareField(len0: nat, f: Field) returns (len: nat, strLen: nat)
    ensures len == Wrap32(len0 + |Encode(f)|)
    ensures f.Str? ==> strLen == StrLen(f.text)
  {
    match f {
      case Value(bytes) =>
        len, strLen := Wrap32(len0 + |bytes|), 0;
      case Str(text) =>
        strLen := if text.Some? then Wrap32(|text.value| + 1) else 0;
        EncodeStrLength(text);
        len := Wrap32(len0 + (strLen + SIZEOF_UINT32));
    }
  }

  /** The string lengths as zbx_serialize_prepare_str sets them. */
  predicate Prepared(fields: seq<Field>, strLens: seq<nat>) {
    forall i :: 0 <= i < |strLens| && i < |fields| && fields[i].Str? ==> strLens[i] == StrLen(fields[i].text)
  }

  /** zbx_serialize_prepare_str and zbx_serialize_prepare_value over a list of fields: `len` and the
      string lengths are 32-bit variables of the caller. */
  method Prepare(fields: seq<Field>) returns (len: nat, strLens: seq<nat>)
    ensures len == Wrap32(|EncodeAll(fields)|)
    ensures len == |EncodeAll(fields)| <==> |EncodeAll(fields)| < 0x1_0000_0000
    ensures |strLens| == |fields| && Prepared(fields, strLens)
  {
    hide Encode, StrLen;
    len, strLens := 0, [];
    ghost var parts := Parts(fields);
    for i := 0 to |fields|
      invariant len == Wrap32(|Join(parts, i)|)
      invariant |strLens| == i && Prepared(fields, strLens)
    {
      WrapAdd(|Join(parts, i)|, |parts[i]|);
      var strLen;
      len, strLen := PrepareField(len, fields[i]);
      strLens := strLens + [strLen];
    }
  }

  lemma WrapAdd(a: nat, b: nat)
    ensures Wrap32(Wrap32(a) + b) == Wrap32(a + b)
  {
  }

  lemma EncodeStrLength(text: Option<seq<Byte>>)
    ensures |EncodeStr(text)| == StrLen(text) + SIZEOF_UINT32
  {
  }

  // ----- the serialize macros

  method Memcpy(buffer: array<Byte>, at: nat, bytes: seq<Byte>)
    requires at + |bytes| <= buffer.Length
    modifies buffer
    ensures buffer[..] == Written(old(buffer[..]), at, bytes)
  {
    for i := 0 to |bytes|
      invariant forall k :: 0 <= k < i ==> buffer[at + k] == bytes[k]
      invariant forall k :: 0 <= k < buffer.Length && !(at <= k < at + i) ==> buffer[k] == old(buffer[k])
    {
      buffer[at + i] := bytes[i];
    }
  }

  method SerializeValue(buffer: array<Byte>, at: nat, value: seq<Byte>) returns (advance: nat)
    requires at + |value| <= buffer.Length
    modifies buffer
    ensures buffer[..] == Written(old(buffer[..]), at, value)
    ensures advance == |value|
  {
    Memcpy(buffer, at, value);
    advance := |value|;
  }

  method SerializeStr(buffer: array<Byte>, at: nat, text: Option<seq<Byte>>, len: nat) returns (advance: nat)
    requires len == StrLen(text) && at + |EncodeStr(text)| <= buffer.Length
    modifies buffer
    ensures buffer[..] == Written(old(buffer[..]), at, EncodeStr(text))
    ensures advance == |EncodeStr(text)|
  {
    EncodeStrLength(text);
    if len == 0 {
      Memcpy(buffer, at, [0, 0, 0, 0]);
    } else {
      var chars: seq<Byte> := (text.value + [0])[..len];
      WrittenTwice(buffer[..], at, EncodeU32(len), chars);
      Memcpy(buffer, at, EncodeU32(len));
      Memcpy(buffer, at + SIZEOF_UINT32, chars);
    }
    advance := len + SIZEOF_UINT32;
  }

  method SerializeField(buffer: array<Byte>, at: nat, f: Field, strLen: nat) returns (advance: nat)
    requires f.Str? ==> strLen == StrLen(f.text)
    requires at + |Encode(f)| <= buffer.Length
    modifies buffer
    ensures buffer[..] == Written(old(buffer[..]), at, Encode(f))
    ensures advance == |Encode(f)|
  {
    match f {
      case Value(bytes) => advance := SerializeValue(buffer, at, bytes);
      case Str(text) => advance := SerializeStr(buffer, at, text, strLen);
    }
  }

  /** A sequence of `ptr += zbx_serialize_...` statements: the advances add up to the encoded length, and
      nothing outside that range is written. */
  method SerializeAll(buffer: array<Byte>, at: nat, fields: seq<Field>, strLens: seq<nat>) returns (advance: nat)
    requires at + |EncodeAll(fields)| <= buffer.Length
    requires |strLens| == |fields| && Prepared(fields, strLens)
    modifies buffer
    ensures buffer[..] == Written(old(buffer[..]), at, EncodeAll(fields))
    ensures advance == |EncodeAll(fields)|
  {
    hide Encode, StrLen, Written;
    var ptr := at;
    ghost var before, parts := buffer[..], Parts(fields);
    WrittenNothing(before, at);
    for i := 0 to |fields|
      invariant at + |Join(parts, i)| == ptr <= buffer.Length
      invariant buffer[..] == Written(before, at, Join(parts, i))
    {
      JoinGrows(parts, i + 1, |fields|);
      WrittenNext(before, at, parts, i);
      var step := SerializeField(buffer, ptr, fields[i], strLens[i]);
      ptr := ptr + step;
    }
    advance := ptr - at;
  }

  lemma WrittenTwice(buffer: seq<Byte>, at: nat, a: seq<Byte>, b: seq<Byte>)
    requires at + |a| + |b| <= |buffer|
    ensures Written(Written(buffer, at, a), at + |a|, b) == Written(buffer, at, a + b)
  {
  }

  lemma WrittenNothing(buffer: seq<Byte>, at: nat)
    requires at <= |buffer|
    ensures Written(buffer, at, []) == buffer
  {
  }

  lemma WrittenNext(buffer: seq<Byte>, at: nat, parts: seq<seq<Byte>>, i: nat)
    requires i < |parts| && at + |Join(parts, i + 1)| <= |buffer|
    ensures Written(Written(buffer, at, Join(parts, i)), at + |Join(parts, i)|, parts[i])
         == Written(buffer, at, Join(parts, i + 1))
    ensures |Join(parts, i + 1)| == |Join(parts, i)| + |parts[i]|
  {
    WrittenTwice(buffer, at, Join(parts, i), parts[i]);
  }

  /** Prepare, allocate and serialize, as the callers do: the message fills its buffer exactly. */
  method Message(fields: seq<Field>) returns (data: array<Byte>)
    requires |EncodeAll(fields)| < 0x1_0000_0000
    ensures fresh(data) && data[..] == EncodeAll(fields)
  {
    var len, strLens := Prepare(fields);
    data := new Byte[len](_ => 0);
    var advance := SerializeAll(data, 0, fields, strLens);
    assert data[..] == EncodeAll(fields);
  }

  // ----- reading strings

  /** What a reader of a C string gets; `Unterminated` means that no NUL follows in the buffer. */
  datatype Text = Null | Chars(chars: seq<Byte>) | Unterminated

  /** The characters up to the first NUL. */
  function CString(memory: seq<Byte>): Text {
    if memory == [] then Unterminated
    else if memory[0] == 0 then Chars([])
    else
      var rest := CString(memory[1..]);
      if rest.Chars? then Chars([memory[0]] + rest.chars) else rest
  }

  predicate HasLength(buffer: seq<Byte>, at: nat) { at + SIZEOF_UINT32 <= |buffer| }

  function LengthAt(buffer: seq<Byte>, at: nat): nat
    requires HasLength(buffer, at)
  {
    DecodeU32(buffer[at..at + SIZEOF_UINT32])
  }

  /** The buffer holds a length and that many bytes. */
  predicate HasStr(buffer: seq<Byte>, at: nat) {
    HasLength(buffer, at) && at + SIZEOF_UINT32 + LengthAt(buffer, at) <= |buffer|
  }

  function Payload(buffer: seq<Byte>, at: nat): seq<Byte>
    requires HasStr(buffer, at)
  {
    buffer[at + SIZEOF_UINT32..at + SIZEOF_UINT32 + LengthAt(buffer, at)]
  }

  /** zbx_deserialize_str: a terminated copy, or NULL. */
  function CopiedText(buffer: seq<Byte>, at: nat): Text
    requires HasStr(buffer, at)
  {
    if LengthAt(buffer, at) == 0 then Null else CString(Payload(buffer, at) + [0])
  }

  /** zbx_deserialize_str_s: a terminated copy in the caller's buffer. */
  function FixedText(buffer: seq<Byte>, at: nat): Text
    requires HasStr(buffer, at)
  {
    CString(Payload(buffer, at) + [0])
  }

  /** zbx_deserialize_str_ptr: a pointer into the message, read on to the next NUL. */
  function PointedText(buffer: seq<Byte>, at: nat): Text
    requires HasStr(buffer, at)
  {
    if LengthAt(buffer, at) == 0 then Null else CString(buffer[at + SIZEOF_UINT32..])
  }

  function StrAdvance(buffer: seq<Byte>, at: nat): nat
    requires HasLength(buffer, at)
  {
    LengthAt(buffer, at) + SIZEOF_UINT32
  }

  // ----- the deserialize macros

  method DeserializeValue(buffer: array<Byte>, at: nat, size: nat) returns (value: seq<Byte>, advance: nat)
    requires at + size <= buffer.Length
    ensures value == buffer[at..at + size] && advance == size
  {
    value := buffer[at..at + size];
    advance := size;
  }

  method DeserializeStr(buffer: array<Byte>, at: nat) returns (value: array?<Byte>, advance: nat)
    requires HasStr(buffer[..], at)
    ensures advance == StrAdvance(buffer[..], at)
    ensures value == null <==> CopiedText(buffer[..], at) == Null
    ensures value != null ==>
      fresh(value) && value[..] == Payload(buffer[..], at) + [0]
    ensures value != null ==> CString(value[..]) == CopiedText(buffer[..], at)
  {
    ghost var message := buffer[..];
    var len := DecodeU32(buffer[at..at + SIZEOF_UINT32]);
    assert message[at..at + SIZEOF_UINT32] == buffer[at..at + SIZEOF_UINT32];
    if len > 0 {
      var copy := new Byte[len + 1](_ => 0);
      Memcpy(copy, 0, buffer[at + SIZEOF_UINT32..at + SIZEOF_UINT32 + len]);
      copy[len] := 0;
      assert copy[..] == Payload(message, at) + [0];
      Terminated(Payload(message, at));
      value := copy;
    } else {
      value := null;
    }
    assert buffer[..] == message;
    advance := len + SIZEOF_UINT32;
  }

  method DeserializeStrS(buffer: array<Byte>, at: nat, value: array<Byte>) returns (advance: nat)
    requires buffer != value
    requires HasStr(buffer[..], at) && LengthAt(buffer[..], at) + 1 <= value.Length
    modifies value
    ensures advance == StrAdvance(buffer[..], at)
    ensures value[..] == Written(old(value[..]), 0, Payload(buffer[..], at) + [0])
    ensures CString(value[..]) == FixedText(buffer[..], at)
  {
    ghost var message := buffer[..];
    ghost var was := value[..];
    var len := DecodeU32(buffer[at..at + SIZEOF_UINT32]);
    assert message[at..at + SIZEOF_UINT32] == buffer[at..at + SIZEOF_UINT32];
    Memcpy(value, 0, buffer[at + SIZEOF_UINT32..at + SIZEOF_UINT32 + len]);
    ghost var copied := value[..];
    assert copied == Payload(message, at) + was[len..];
    value[len] := 0;
    assert value[..] == copied[len := 0];
    assert value[..] == Payload(message, at) + [0] + was[len + 1..];
    Terminated(Payload(message, at));
    CStringExtend(Payload(message, at) + [0], was[len + 1..]);
    advance := len + SIZEOF_UINT32;
  }

  method DeserializeStrPtr(buffer: array<Byte>, at: nat) returns (value: Option<nat>, advance: nat)
    requires HasStr(buffer[..], at)
    ensures advance == StrAdvance(buffer[..], at)
    ensures value.None? <==> PointedText(buffer[..], at) == Null
    ensures value.Some? ==> value.value <= buffer.Length
    ensures value.Some? ==>
      CString(buffer[value.value..]) == PointedText(buffer[..], at)
  {
    var len := DecodeU32(buffer[at..at + SIZEOF_UINT32]);
    assert buffer[..][at..at + SIZEOF_UINT32] == buffer[at..at + SIZEOF_UINT32];
    CStringNeverNull(buffer[at + SIZEOF_UINT32..]);
    value := if len > 0 then Some(at + SIZEOF_UINT32) else None;
    assert buffer[..][at + SIZEOF_UINT32..] == buffer[at + SIZEOF_UINT32..];
    advance := len + SIZEOF_UINT32;
  }

  /** zbx_deserialize_bin: the copy keeps the length in front, so it can be read like the message. */
  method DeserializeBin(buffer: array<Byte>, at: nat) returns (value: array<Byte>, advance: nat)
    requires HasStr(buffer[..], at)
    ensures fresh(value) && advance == StrAdvance(buffer[..], at) == value.Length
    ensures value[..] == buffer[at..at + advance]
    ensures HasStr(value[..], 0) && Payload(value[..], 0) == Payload(buffer[..], at)
  {
    hide FromLittleEndian;
    ghost var message := buffer[..];
    var len := DecodeU32(buffer[at..at + SIZEOF_UINT32]);
    assert message[at..at + SIZEOF_UINT32] == buffer[at..at + SIZEOF_UINT32];
    advance := len + SIZEOF_UINT32;
    value := new Byte[advance](_ => 0);
    Memcpy(value, 0, buffer[at..at + advance]);
    assert value[..] == message[at..at + advance];
    CopiedBin(message, at);
  }

  /** A counted string read out of its copy. */
  lemma CopiedBin(message: seq<Byte>, at: nat)
    requires HasStr(message, at)
    ensures var copy := message[at..at + StrAdvance(message, at)];
      HasStr(copy, 0) && Payload(copy, 0) == Payload(message, at)
  {
    var copy := message[at..at + StrAdvance(message, at)];
    assert copy[0..0 + SIZEOF_UINT32] == message[at..at + SIZEOF_UINT32];
  }

  // ----- C strings

  lemma {:induction false} CStringNeverNull(memory: seq<Byte>)
    ensures CString(memory) != Null
  {
    if memory != [] { CStringNeverNull(memory[1..]); }
  }

  lemma {:induction false} Terminated(payload: seq<Byte>)
    ensures CString(payload + [0]).Chars? && |CString(payload + [0]).chars| <= |payload|
  {
    if payload != [] {
      Terminated(payload[1..]);
      assert (payload + [0])[1..] == payload[1..] + [0];
    }
  }

  lemma {:induction false} CStringExtend(memory: seq<Byte>, more: seq<Byte>)
    requires CString(memory).Chars?
    ensures CString(memory + more) == CString(memory)
  {
    if memory[0] != 0 {
      CStringExtend(memory[1..], more);
      assert (memory + more)[1..] == memory[1..] + more;
    }
  }

  lemma {:induction false} CStringOf(text: seq<Byte>)
    requires 0 !in text
    ensures CString(text + [0]) == Chars(text)
  {
    if text != [] {
      assert text == [text[0]] + text[1..];
      CStringOf(text[1..]);
      assert (text + [0])[1..] == text[1..] + [0];
    }
  }

  /** Where the string ends does not matter as long as a NUL comes first. */
  lemma {:induction false} CStringLimits(memory: seq<Byte>, len: nat)
    requires len <= |memory|
    ensures CString(memory) == CString(memory[..len] + [0]) <==>
      exists i :: 0 <= i <= len && i < |memory| && memory[i] == 0
    ensures !(exists i :: 0 <= i <= len && i < |memory| && memory[i] == 0) ==>
      CString(memory).Unterminated? || (CString(memory).Chars? && |CString(memory).chars| > len)
  {
    Terminated(memory[..len]);
    if memory == [] {
    } else if memory[0] == 0 {
      if len > 0 { assert (memory[..len] + [0])[0] == 0; }
    } else if len == 0 {
      CStringNeverNull(memory[1..]);
      assert memory[..0] + [0] == [0];
    } else {
      CStringLimits(memory[1..], len - 1);
      CStringNeverNull(memory[1..]);
      Terminated(memory[1..][..len - 1]);
      assert (memory[..len] + [0])[1..] == memory[1..][..len - 1] + [0];
      assert (exists i :: 0 <= i <= len && i < |memory| && memory[i] == 0) <==>
        exists i :: 0 <= i <= len - 1 && i < |memory[1..]| && memory[1..][i] == 0 by {
        if i :| 0 <= i <= len && i < |memory| && memory[i] == 0 { assert memory[1..][i - 1] == 0; }
        if i :| 0 <= i <= len - 1 && i < |memory[1..]| && memory[1..][i] == 0 { assert memory[i + 1] == 0; }
      }
    }
  }

  /** A NUL comes no later than right after the counted bytes. */
  predicate EndsInTime(buffer: seq<Byte>, at: nat)
    requires HasStr(buffer, at)
  {
    exists i :: at + SIZEOF_UINT32 <= i <= at + SIZEOF_UINT32 + LengthAt(buffer, at) && i < |buffer| && buffer[i] == 0
  }

  /** On any buffer the zero-copy decoder reads the string of the copying one exactly when the string is
      NULL or a NUL comes no later than right after the counted bytes. */
  lemma PointerAgreesWithCopy(buffer: seq<Byte>, at: nat)
    requires HasStr(buffer, at)
    ensures PointedText(buffer, at) == CopiedText(buffer, at) <==>
      LengthAt(buffer, at) == 0 || EndsInTime(buffer, at)
  {
    var first, len := at + SIZEOF_UINT32, LengthAt(buffer, at);
    var memory := buffer[first..];
    CStringLimits(memory, len);
    assert memory[..len] == Payload(buffer, at);
    if EndsInTime(buffer, at) {
      var i :| first <= i <= first + len && i < |buffer| && buffer[i] == 0;
      assert memory[i - first] == 0;
    }
    if i :| 0 <= i <= len && i < |memory| && memory[i] == 0 { assert buffer[first + i] == 0; }
  }

  /** The fixed-buffer decoder reads the copied string, and the empty string for NULL. */
  lemma FixedAgreesWithCopy(buffer: seq<Byte>, at: nat)
    requires HasStr(buffer, at)
    ensures FixedText(buffer, at) == if CopiedText(buffer, at) == Null then Chars([]) else CopiedText(buffer, at)
  {
    CStringNeverNull(Payload(buffer, at) + [0]);
  }

  // ----- reading back what was written

  predicate NulFree(f: Field) { f.Str? && f.text.Some? ==> 0 !in f.text.value }

  predicate AllNulFree(fields: seq<Field>) { forall f :: f in fields ==> NulFree(f) }

  /** A string whose length, counting its NUL, fits the 32-bit prefix. */
  predicate Fits(f: Field) { f.Str? && f.text.Some? ==> |f.text.value| + 1 < 0x1_0000_0000 }

  /** What a reader gets of a field. */
  datatype Got = GotValue(bytes: seq<Byte>) | GotText(text: Text)

  function Original(f: Field): Got {
    match f
    case Value(bytes) => GotValue(bytes)
    case Str(text) => GotText(if text.Some? then Chars(text.value) else Null)
  }

  /** The field after a trip through the message: a string is cut to its length modulo 2^32. */
  function Kept(f: Field): Got {
    match f
    case Value(bytes) => GotValue(bytes)
    case Str(text) =>
      GotText(if StrLen(text) == 0 then Null
              else Chars(if StrLen(text) <= |text.value| then text.value[..StrLen(text)] else text.value))
  }

  lemma KeptIsOriginal(f: Field)
    ensures Kept(f) == Original(f) <==> Fits(f)
  {
    if f.Str? && f.text.Some? && !Fits(f) {
      assert Wrap32(|f.text.value| + 1) < |f.text.value|;
    }
  }

  /** A string of 2^32 - 1 characters has a stored length of zero, and comes back as NULL. */
  lemma LongStringBecomesNull(text: seq<Byte>)
    requires |text| == 0xFFFF_FFFF
    ensures EncodeStr(Some(text)) == [0, 0, 0, 0] && Kept(Str(Some(text))) == GotText(Null)
    ensures Original(Str(Some(text))) == GotText(Chars(text))
  {
    assert StrLen(Some(text)) == 0;
  }

  /** `bytes` stand at position `at` of the message. */
  predicate StandsAt(message: seq<Byte>, at: nat, bytes: seq<Byte>) {
    at + |bytes| <= |message| && message[at..at + |bytes|] == bytes
  }

  lemma StandsInParts(message: seq<Byte>, at: nat, a: seq<Byte>, b: seq<Byte>)
    requires StandsAt(message, at, a + b)
    ensures StandsAt(message, at, a) && StandsAt(message, at + |a|, b)
  {
    var all := message[at..at + |a + b|];
    assert all[..|a|] == a && all[|a|..] == b;
    assert message[at..at + |a|] == all[..|a|];
    assert message[at + |a|..at + |a| + |b|] == all[|a|..];
  }

  /** A string written anywhere in a message: its length, its extent and its (kept) text are read back. */
  lemma StrReadBack(message: seq<Byte>, at: nat, f: Field)
    requires f.Str? && NulFree(f) && StandsAt(message, at, EncodeStr(f.text))
    ensures HasStr(message, at)
    ensures LengthAt(message, at) == StrLen(f.text)
    ensures StrAdvance(message, at) == |EncodeStr(f.text)|
    ensures GotText(CopiedText(message, at)) == Kept(f)
  {
    var len := StrLen(f.text);
    EncodeStrLength(f.text);
    if len == 0 {
      U32RoundTrip(0);
      assert message[at..at + SIZEOF_UINT32] == [0, 0, 0, 0] == EncodeU32(0);
    } else {
      U32RoundTrip(len);
      var chars: seq<Byte> := (f.text.value + [0])[..len];
      StandsInParts(message, at, EncodeU32(len), chars);
      assert Payload(message, at) == chars;
      if len <= |f.text.value| {
        assert chars == f.text.value[..len];
        CStringOf(chars);
      } else {
        assert chars == f.text.value + [0];
        CStringOf(f.text.value);
        CStringExtend(chars, [0]);
      }
    }
  }

  /** NULL and the empty string stay apart. */
  lemma NullIsNotEmpty()
    ensures EncodeStr(None) == [0, 0, 0, 0]
    ensures EncodeStr(Some([])) == [1, 0, 0, 0, 0]
    ensures Kept(Str(None)) == GotText(Null) && Kept(Str(Some([]))) == GotText(Chars([]))
  {
  }

  /** On a string that fits, wherever it was written, all three decoders agree and advance alike; only
      NULL reads as empty in the fixed buffer. */
  lemma DecodersAgree(message: seq<Byte>, at: nat, f: Field)
    requires f.Str? && NulFree(f) && Fits(f) && StandsAt(message, at, EncodeStr(f.text))
    ensures HasStr(message, at)
    ensures GotText(CopiedText(message, at)) == GotText(PointedText(message, at)) == Original(f)
    ensures FixedText(message, at) == Chars(if f.text.Some? then f.text.value else [])
  {
    hide EncodeStr, CString, CopiedText, PointedText, FixedText, EndsInTime;
    StrReadBack(message, at, f);
    KeptIsOriginal(f);
    PointerAgreesWithCopy(message, at);
    FixedAgreesWithCopy(message, at);
    if f.text.Some? { WrittenStrEnds(message, at, f); }
  }

  lemma WrittenStrEnds(message: seq<Byte>, at: nat, f: Field)
    requires f.Str? && f.text.Some? && NulFree(f) && Fits(f) && StandsAt(message, at, EncodeStr(f.text))
    ensures HasStr(message, at) && EndsInTime(message, at)
  {
    StrReadBack(message, at, f);
    var chars: seq<Byte> := f.text.value + [0];
    EncodedFits(f);
    hide EncodeStr, HasStr, LengthAt;
    StandsInParts(message, at, EncodeU32(|chars|), chars);
    StandsIndex(message, at + SIZEOF_UINT32, chars, |chars| - 1);
  }

  lemma EncodedFits(f: Field)
    requires f.Str? && f.text.Some? && Fits(f)
    ensures StrLen(f.text) == |f.text.value| + 1
    ensures EncodeStr(f.text) == EncodeU32(|f.text.value| + 1) + (f.text.value + [0])
  {
    var chars := f.text.value + [0];
    assert chars[..|chars|] == chars;
  }

  lemma StandsIndex(message: seq<Byte>, at: nat, bytes: seq<Byte>, k: nat)
    requires StandsAt(message, at, bytes) && k < |bytes|
    ensures at + k < |message| && message[at + k] == bytes[k]
  {
    assert message[at..at + |bytes|][k] == bytes[k];
  }

  function ShapeOf(f: Field): Shape { if f.Value? then ValueOf(|f.bytes|) else String }

  function Shapes(fields: seq<Field>): (r: seq<Shape>)
    ensures |r| == |fields| && forall i :: 0 <= i < |r| ==>
      r[i] == ShapeOf(fields[i])
  {
    seq(|fields|, i requires 0 <= i < |fields| => ShapeOf(fields[i]))
  }

  function KeptAll(fields: seq<Field>): (r: seq<Got>)
    ensures |r| == |fields| && forall i :: 0 <= i < |r| ==> r[i] == Kept(fields[i])
  {
    seq(|fields|, i requires 0 <= i < |fields| => Kept(fields[i]))
  }

  function Originals(fields: seq<Field>): (r: seq<Got>)
    ensures |r| == |fields| && forall i :: 0 <= i < |r| ==>
      r[i] == Original(fields[i])
  {
    seq(|fields|, i requires 0 <= i < |fields| => Original(fields[i]))
  }

  /** The fields read and the position after them. */
  datatype Reading = Reading(fields: seq<Got>, next: nat)

  /** One field and the position after it. */
  datatype Step = Step(got: Got, next: nat)

  function ReadField(buffer: seq<Byte>, at: nat, shape: Shape): Option<Step> {
    match shape
    case ValueOf(size) =>
      if at + size <= |buffer| then Some(Step(GotValue(buffer[at..at + size]), at + size)) else None
    case String =>
      if HasStr(buffer, at) then Some(Step(GotText(CopiedText(buffer, at)), at + StrAdvance(buffer, at))) else None
  }

  /** The first `n` of a sequence of `data += zbx_deserialize_...` statements; None if the message is
      too short. */
  function ReadTo(buffer: seq<Byte>, at: nat, shapes: seq<Shape>, n: nat): Option<Reading>
    requires n <= |shapes|
  {
    if n == 0 then Some(Reading([], at))
    else
      var before := ReadTo(buffer, at, shapes, n - 1);
      if before.None? then None
      else
        var step := ReadField(buffer, before.value.next, shapes[n - 1]);
        if step.None? then None else Some(Reading(before.value.fields + [step.value.got], step.value.next))
  }

  function ReadAll(buffer: seq<Byte>, at: nat, shapes: seq<Shape>): Option<Reading> {
    ReadTo(buffer, at, shapes, |shapes|)
  }

  method DeserializeField(buffer: array<Byte>, at: nat, shape: Shape) returns (got: Got, advance: nat)
    requires ReadField(buffer[..], at, shape).Some?
    ensures ReadField(buffer[..], at, shape) == Some(Step(got, at + advance))
  {
    ghost var message := buffer[..];
    match shape {
      case ValueOf(size) =>
        var value;
        value, advance := DeserializeValue(buffer, at, size);
        assert message[at..at + size] == value;
        got := GotValue(value);
      case String =>
        var value;
        value, advance := DeserializeStr(buffer, at);
        got := GotText(if value == null then Null else CString(value[..]));
    }
  }

  method DeserializeAll(buffer: array<Byte>, at: nat, shapes: seq<Shape>) returns (r: Reading)
    requires ReadAll(buffer[..], at, shapes).Some?
    ensures ReadAll(buffer[..], at, shapes) == Some(r)
  {
    hide ReadField;
    r := Reading([], at);
    ghost var message := buffer[..];
    for i := 0 to |shapes|
      invariant buffer[..] == message && ReadTo(message, at, shapes, i) == Some(r)
    {
      ReadPrefix(message, at, shapes, i + 1, |shapes|);
      assert ReadField(message, r.next, shapes[i]).Some?;
      var got, advance := DeserializeField(buffer, r.next, shapes[i]);
      r := Reading(r.fields + [got], r.next + advance);
    }
  }

  lemma {:induction false} ReadPrefix(buffer: seq<Byte>, at: nat, shapes: seq<Shape>, i: nat, n: nat)
    requires i <= n <= |shapes| && ReadTo(buffer, at, shapes, n).Some?
    ensures ReadTo(buffer, at, shapes, i).Some?
  {
    if i < n { ReadPrefix(buffer, at, shapes, i, n - 1); }
  }

  /** At position `at` a reader of the given shape gets `got` and advances by the part's length. */
  predicate ReadsAs(message: seq<Byte>, at: nat, part: seq<Byte>, shape: Shape, got: Got) {
    ReadField(message, at, shape) == Some(Step(got, at + |part|))
  }

  lemma FieldReadsAs(message: seq<Byte>, at: nat, f: Field)
    requires NulFree(f) && StandsAt(message, at, Encode(f))
    ensures ReadsAs(message, at, Encode(f), ShapeOf(f), Kept(f))
  {
    if f.Str? { StrReadBack(message, at, f); }
  }

  lemma {:induction false} PartStandsAt(message: seq<Byte>, at: nat, parts: seq<seq<Byte>>, i: nat, n: nat)
    requires i < n <= |parts| && StandsAt(message, at, Join(parts, n))
    ensures StandsAt(message, at + |Join(parts, i)|, parts[i])
  {
    StandsInParts(message, at, Join(parts, n - 1), parts[n - 1]);
    if i < n - 1 { PartStandsAt(message, at, parts, i, n - 1); }
  }

  /** Part `k` can be read where it stands. */
  predicate PartRead(message: seq<Byte>, at: nat, parts: seq<seq<Byte>>, shapes: seq<Shape>, got: seq<Got>, k: nat) {
    && k < |parts| == |shapes| == |got|
    && ReadsAs(message, at + |Join(parts, k)|, parts[k], shapes[k], got[k])
  }

  lemma FieldReadBack(message: seq<Byte>, at: nat, fields: seq<Field>, k: nat)
    requires AllNulFree(fields) && StandsAt(message, at, EncodeAll(fields)) && k < |fields|
    ensures PartRead(message, at, Parts(fields), Shapes(fields), KeptAll(fields), k)
  {
    hide Encode, Join;
    PartStandsAt(message, at, Parts(fields), k, |fields|);
    FieldReadsAs(message, at + |Join(Parts(fields), k)|, fields[k]);
  }

  /** Reads that follow each other. */
  lemma {:induction false} ReadSteps(
    message: seq<Byte>, at: nat, parts: seq<seq<Byte>>, shapes: seq<Shape>, got: seq<Got>, n: nat)
    requires |parts| == |shapes| == |got| && n <= |got|
    requires forall k :: 0 <= k < |got| ==> PartRead(message, at, parts, shapes, got, k)
    ensures ReadTo(message, at, shapes, n) == Some(Reading(got[..n], at + |Join(parts, n)|))
  {
    hide ReadField;
    if n > 0 {
      ReadSteps(message, at, parts, shapes, got, n - 1);
      assert PartRead(message, at, parts, shapes, got, n - 1);
      assert got[..n] == got[..n - 1] + [got[n - 1]];
    }
  }

  /** Reading a message in order gives every field as kept, and ends where the fields end. */
  lemma ReadBack(message: seq<Byte>, at: nat, fields: seq<Field>)
    requires AllNulFree(fields) && StandsAt(message, at, EncodeAll(fields))
    ensures ReadAll(message, at, Shapes(fields)) == Some(Reading(KeptAll(fields), at + |EncodeAll(fields)|))
  {
    hide PartRead, ReadTo;
    forall k | 0 <= k < |fields| ensures PartRead(message, at, Parts(fields), Shapes(fields), KeptAll(fields), k) {
      FieldReadBack(message, at, fields, k);
    }
    ReadSteps(message, at, Parts(fields), Shapes(fields), KeptAll(fields), |fields|);
    assert KeptAll(fields)[..|fields|] == KeptAll(fields);
  }

  /** Any list of fields is read back unchanged, at the offsets it was written at, exactly when every
      string fits its length prefix. */
  lemma ReadBackExactly(message: seq<Byte>, at: nat, fields: seq<Field>)
    requires AllNulFree(fields) && StandsAt(message, at, EncodeAll(fields))
    ensures ReadAll(message, at, Shapes(fields)) == Some(Reading(Originals(fields), at + |EncodeAll(fields)|))
       <==> forall i :: 0 <= i < |fields| ==> Fits(fields[i])
  {
    ReadBack(message, at, fields);
    forall i | 0 <= i < |fields| ensures KeptAll(fields)[i] == Originals(fields)[i] <==> Fits(fields[i]) {
      KeptIsOriginal(fields[i]);
    }
    assert KeptAll(fields) == Originals(fields) <==>
      forall i :: 0 <= i < |fields| ==> KeptAll(fields)[i] == Originals(fields)[i];
  }
}
