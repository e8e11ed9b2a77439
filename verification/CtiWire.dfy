// The values and frames of the Concise Thread Interface on the wire
// (ServiceRegistration/cti-proto.c).

module CtiWire {
  import opened Bytes

  // ----- Host and network order -------------------------------------------------------------

  function Reversed<T>(s: seq<T>): (r: seq<T>)
    ensures |r| == |s|
    ensures forall i :: 0 <= i < |s| ==> r[i] == s[|s| - 1 - i]
  {
    seq(|s|, i requires 0 <= i < |s| => s[|s| - 1 - i])
  }

  /** The octets of an n-octet integer as a host stores it. */
  function HostBytes(littleEndian: bool, v: nat, n: nat): (s: seq<byte>)
    ensures |s| == n
  {
    if littleEndian then Reversed(BigEndian(v, n)) else BigEndian(v, n)
  }

  /** The integer a host reads from octets in memory. */
  function HostValue(littleEndian: bool, s: seq<byte>): (v: nat)
    ensures v < Pow256(|s|)
  {
    FromBigEndianBound(s);
    FromBigEndianBound(Reversed(s));
    FromBigEndian(if littleEndian then Reversed(s) else s)
  }

  /** htons, htonl and their inverses: the octets of v reversed on a little-endian host. */
  function NetOrder(littleEndian: bool, v: nat, n: nat): (r: nat)
    ensures v < Pow256(n) ==> r < Pow256(n)
  {
    FromBigEndianBound(Reversed(BigEndian(v, n)));
    if littleEndian then FromBigEndian(Reversed(BigEndian(v, n))) else v
  }

  lemma {:induction false} ReversedTwice<T>(s: seq<T>)
    ensures Reversed(Reversed(s)) == s
  {
  }

  /** Storing a value put in network order leaves its big-endian octets in memory. */
  lemma {:induction false} NetOrderStored(littleEndian: bool, v: nat, n: nat)
    requires v < Pow256(n)
    ensures HostBytes(littleEndian, NetOrder(littleEndian, v, n), n) == BigEndian(v, n)
  {
    var be := BigEndian(v, n);
    FromBigEndianRoundTrip(Reversed(be));
    ReversedTwice(be);
  }

  /** Loading octets from memory and undoing network order gives their big-endian value. */
  lemma {:induction false} NetOrderLoaded(littleEndian: bool, s: seq<byte>)
    ensures NetOrder(littleEndian, HostValue(littleEndian, s), |s|) == FromBigEndian(s)
  {
    if littleEndian {
      FromBigEndianRoundTrip(Reversed(s));
      ReversedTwice(s);
    }
  }

  // ----- Fields -------------------------------------------------------------------------------

  datatype Field =
    | U8(v8: byte)
    | U16(v16: uint16)
    | U32(v32: uint32)
    | U64(v64: uint64)
    | Flag(b: bool)
    | Data(data: seq<byte>)
    | Str(str: Option<seq<byte>>)

  datatype Kind = KU8 | KU16 | KU32 | KU64 | KFlag | KData | KStr

  function KindOf(f: Field): Kind
  {
    match f
    case U8(_) => KU8
    case U16(_) => KU16
    case U32(_) => KU32
    case U64(_) => KU64
    case Flag(_) => KFlag
    case Data(_) => KData
    case Str(_) => KStr
  }

  /** What the length parameter of the put functions can hold. */
  predicate Puttable(f: Field)
  {
    f.Data? ==> |f.data| < 0x1_0000
  }

  /** The octets a put function appends. A string's length is cut to 16 bits, and 0xffff is NULL. */
  function EncodeField(f: Field): seq<byte>
    requires Puttable(f)
  {
    match f
    case U8(v) => [v]
    case U16(v) => BigEndian(v, 2)
    case U32(v) => BigEndian(v, 4)
    case U64(v) => BigEndian(v, 8)
    case Flag(b) => [if b then 1 else 0]
    case Data(d) => BigEndian(|d|, 2) + d
    case Str(None) => BigEndian(0xffff, 2)
    case Str(Some(s)) => BigEndian(|s| % 0x1_0000, 2) + s[..|s| % 0x1_0000]
  }

  /** Either a field and the cursor after it, or a failure and where it left the cursor. */
  datatype Parse = Got(field: Field, at: nat) | Failed(at: nat)

  /** What a parse function does with its cursor at `at` in a received message. */
  function ParseField(k: Kind, msg: seq<byte>, at: nat): (r: Parse)
    requires at <= |msg|
    ensures at <= r.at <= |msg|
  {
    var left := |msg| - at;
    match k
    case KU8 => if left < 1 then Failed(at) else Got(U8(msg[at]), at + 1)
    case KU16 => if left < 2 then Failed(at) else (NumFits(msg, at); Got(U16(Uint(msg, at, 2)), at + 2))
    case KU32 => if left < 4 then Failed(at) else (NumFits(msg, at); Got(U32(Uint(msg, at, 4)), at + 4))
    case KU64 => if left < 8 then Failed(at) else (NumFits(msg, at); Got(U64(Uint(msg, at, 8)), at + 8))
    case KFlag => if left < 1 then Failed(at) else Got(Flag(msg[at] != 0), at + 1)
    case KData =>
      if left < 2 then Failed(at)
      else
        var n := Uint(msg, at, 2);
        if n > left - 2 then Failed(at + 2) else Got(Data(msg[at + 2..at + 2 + n]), at + 2 + n)
    case KStr =>
      if left < 2 then Failed(at)
      else
        var n := Uint(msg, at, 2);
        if n == 0xffff then Got(Str(None), at + 2)
        else if n > left - 2 then Failed(at + 2)
        else Got(Str(Some(msg[at + 2..at + 2 + n])), at + 2 + n)
  }

  lemma {:induction false} NumFits(msg: seq<byte>, at: nat)
    ensures at + 2 <= |msg| ==> Uint(msg, at, 2) < 0x1_0000
    ensures at + 4 <= |msg| ==> Uint(msg, at, 4) < 0x1_0000_0000
    ensures at + 8 <= |msg| ==> Uint(msg, at, 8) < 0x1_0000_0000_0000_0000
  {
    Pow256Values();
    if at + 2 <= |msg| { FromBigEndianBound(msg[at..at + 2]); }
    if at + 4 <= |msg| { FromBigEndianBound(msg[at..at + 4]); }
    if at + 8 <= |msg| { FromBigEndianBound(msg[at..at + 8]); }
  }

  /** The octets of a number a kind starts with, or of the kind itself when it is fixed. */
  function FixedSize(k: Kind): nat
  {
    match k
    case KU8 => 1 case KU16 => 2 case KU32 => 4 case KU64 => 8 case KFlag => 1 case KData => 2 case KStr => 2
  }

  /**
   * A read past the end of the message fails. It leaves the cursor where it was, unless what runs
   * past the end is the body of a data or string field whose length was read: then the cursor is
   * after that length. Nothing else fails.
   */
  lemma {:induction false} FailsIffPastEnd(k: Kind, msg: seq<byte>, at: nat)
    requires at <= |msg|
    ensures ParseField(k, msg, at) == Failed(at) <==> at + FixedSize(k) > |msg|
    ensures ParseField(k, msg, at).Failed? && ParseField(k, msg, at).at != at <==>
              && (k.KData? || k.KStr?) && at + 2 <= |msg| && at + 2 + Uint(msg, at, 2) > |msg|
              && !(k.KStr? && Uint(msg, at, 2) == 0xffff)
    ensures ParseField(k, msg, at).Failed? && ParseField(k, msg, at).at != at ==> ParseField(k, msg, at).at == at + 2
  {
  }

  /** One field put reads back as the same field, if its message is below the size limit. */
  lemma {:induction false} FieldRoundTrip(f: Field, msg: seq<byte>, at: nat)
    requires Puttable(f)
    requires f.Str? && f.str.Some? ==> |f.str.value| < 0xffff
    requires at + |EncodeField(f)| <= |msg|
    requires msg[at..at + |EncodeField(f)|] == EncodeField(f)
    ensures ParseField(KindOf(f), msg, at) == Got(f, at + |EncodeField(f)|)
  {
    Pow256Values();
    var end := at + |EncodeField(f)|;
    match f
    case U8(v) => assert msg[at] == msg[at..end][0];
    case U16(v) => NumberReads(msg, at, v, 2);
    case U32(v) => NumberReads(msg, at, v, 4);
    case U64(v) => NumberReads(msg, at, v, 8);
    case Flag(b) => assert msg[at] == msg[at..end][0];
    case Data(d) => LengthPrefixed(msg, at, d);
    case Str(None) => NumberReads(msg, at, 0xffff, 2);
    case Str(Some(s)) =>
      assert s[..|s|] == s;
      LengthPrefixed(msg, at, s);
  }

  lemma {:induction false} NumberReads(msg: seq<byte>, at: nat, v: nat, n: nat)
    requires at + n <= |msg| && v < Pow256(n) && msg[at..at + n] == BigEndian(v, n)
    ensures Uint(msg, at, n) == v
  {
    BigEndianRoundTrip(v, n);
  }

  /** The octets a field is read from: its encoding, where any octet but 0 is true and 0xffff is NULL. */
  ghost predicate FieldAtOctets(f: Field, msg: seq<byte>, at: nat, end: nat)
  {
    at <= end <= |msg| && Puttable(f) && (f.Str? && f.str.Some? ==> |f.str.value| < 0xffff)
    && if f.Flag? then end == at + 1 && (f.b <==> msg[at] != 0) else msg[at..end] == EncodeField(f)
  }

  /** A field is read from some octets of a message if and only if they are that field's. */
  lemma {:induction false} FieldReadIff(k: Kind, msg: seq<byte>, at: nat, f: Field, end: nat)
    requires at <= |msg|
    ensures ParseField(k, msg, at) == Got(f, end) <==> KindOf(f) == k && FieldAtOctets(f, msg, at, end)
  {
    if KindOf(f) == k && FieldAtOctets(f, msg, at, end) && !f.Flag? {
      assert |msg[at..end]| == end - at;
      FieldRoundTrip(f, msg, at);
    }
    if ParseField(k, msg, at) == Got(f, end) {
      ReadIsField(k, msg, at, f, end);
    }
  }

  lemma {:induction false} ReadIsField(k: Kind, msg: seq<byte>, at: nat, f: Field, end: nat)
    requires at <= |msg| && ParseField(k, msg, at) == Got(f, end)
    ensures KindOf(f) == k && FieldAtOctets(f, msg, at, end)
  {
    match k
    case KU8 =>
    case KU16 => NumberIs(msg, at, 2);
    case KU32 => NumberIs(msg, at, 4);
    case KU64 => NumberIs(msg, at, 8);
    case KFlag =>
    case KData => PrefixedIs(msg, at, end);
    case KStr => StringIs(msg, at, f, end);
  }

  lemma {:induction false} StringIs(msg: seq<byte>, at: nat, f: Field, end: nat)
    requires at <= |msg| && ParseField(KStr, msg, at) == Got(f, end)
    ensures f.Str? && FieldAtOctets(f, msg, at, end)
  {
    if f.str.Some? {
      PrefixedIs(msg, at, end);
      WholeString(f.str.value);
    } else {
      NumberIs(msg, at, 2);
    }
  }

  lemma {:induction false} WholeString(s: seq<byte>)
    requires |s| < 0x1_0000
    ensures EncodeField(Str(Some(s))) == BigEndian(|s|, 2) + s
  {
    assert s[..|s|] == s;
  }

  lemma {:induction false} NumberIs(msg: seq<byte>, at: nat, n: nat)
    requires at + n <= |msg|
    ensures msg[at..at + n] == BigEndian(Uint(msg, at, n), n)
  {
    FromBigEndianRoundTrip(msg[at..at + n]);
  }

  lemma {:induction false} PrefixedIs(msg: seq<byte>, at: nat, end: nat)
    requires at + 2 <= end <= |msg| && Uint(msg, at, 2) == end - at - 2
    ensures end - at - 2 < 0x1_0000 && msg[at..end] == BigEndian(end - at - 2, 2) + msg[at + 2..end]
  {
    NumFits(msg, at);
    NumberIs(msg, at, 2);
    SliceJoin(msg, at, at + 2, end);
  }

  lemma {:induction false} LengthPrefixed(msg: seq<byte>, at: nat, d: seq<byte>)
    requires |d| < 0x1_0000 && at + 2 + |d| <= |msg|
    requires msg[at..at + 2 + |d|] == BigEndian(|d|, 2) + d
    ensures Uint(msg, at, 2) == |d| && msg[at + 2..at + 2 + |d|] == d
  {
    Pow256Values();
    FieldAt(msg, at, |d|, 2, d);
  }

  function EncodeFields(fields: seq<Field>): seq<byte>
    requires forall f :: f in fields ==> Puttable(f)
  {
    if fields == [] then [] else EncodeField(fields[0]) + EncodeFields(fields[1..])
  }

  /** Reads fields of the given kinds one after the other. */
  function ParseFields(kinds: seq<Kind>, msg: seq<byte>, at: nat): Option<(seq<Field>, nat)>
    requires at <= |msg|
    decreases |kinds|
  {
    if kinds == [] then Some(([], at))
    else
      match ParseField(kinds[0], msg, at)
      case Failed(_) => None
      case Got(f, next) =>
        var (rest, end) :- ParseFields(kinds[1..], msg, next);
        Some(([f] + rest, end))
  }

  function KindsOf(fields: seq<Field>): seq<Kind>
  {
    seq(|fields|, i requires 0 <= i < |fields| => KindOf(fields[i]))
  }

  /** A string whose length a uint16_t holds. */
  predicate KeepsLength(f: Field)
  {
    f.Str? && f.str.Some? ==> |f.str.value| < 0x1_0000
  }

  lemma {:induction false} ParseFieldsStep(fields: seq<Field>, msg: seq<byte>, at: nat, next: nat, end: nat)
    requires fields != [] && at <= next <= |msg|
    requires ParseField(KindOf(fields[0]), msg, at) == Got(fields[0], next)
    requires ParseFields(KindsOf(fields[1..]), msg, next) == Some((fields[1..], end))
    ensures ParseFields(KindsOf(fields), msg, at) == Some((fields, end))
  {
    assert KindsOf(fields)[1..] == KindsOf(fields[1..]);
    assert [fields[0]] + fields[1..] == fields;
  }

  lemma {:induction false} FirstFieldParses(fields: seq<Field>, msg: seq<byte>, at: nat)
    requires fields != [] && forall f :: f in fields ==> Puttable(f) && KeepsLength(f)
    requires at <= |msg| < 0x1_0000 && msg[at..] == EncodeFields(fields)
    ensures var next := at + |EncodeField(fields[0])|;
            && next <= |msg| && msg[next..] == EncodeFields(fields[1..])
            && ParseField(KindOf(fields[0]), msg, at) == Got(fields[0], next)
  {
    SplitRest(msg, at, EncodeField(fields[0]), EncodeFields(fields[1..]));
    StringFits(fields[0]);
    FieldRoundTrip(fields[0], msg, at);
  }

  lemma {:induction false} StringFits(f: Field)
    requires Puttable(f) && KeepsLength(f) && |EncodeField(f)| < 0x1_0000
    ensures f.Str? && f.str.Some? ==> |f.str.value| < 0xffff
  {
  }

  lemma {:induction false} FieldsParse(fields: seq<Field>, msg: seq<byte>, at: nat)
    requires forall f :: f in fields ==> Puttable(f) && KeepsLength(f)
    requires at <= |msg| < 0x1_0000 && msg[at..] == EncodeFields(fields)
    ensures ParseFields(KindsOf(fields), msg, at) == Some((fields, |msg|))
    decreases |fields|
  {
    if fields == [] {
      assert |msg[at..]| == 0;
    } else {
      FirstFieldParses(fields, msg, at);
      var next := at + |EncodeField(fields[0])|;
      FieldsParse(fields[1..], msg, next);
      ParseFieldsStep(fields, msg, at, next, |msg|);
    }
  }

  lemma {:induction false} ParsedStringsAreShort(kinds: seq<Kind>, msg: seq<byte>, at: nat)
    requires at <= |msg| && ParseFields(kinds, msg, at).Some?
    ensures forall f :: f in ParseFields(kinds, msg, at).value.0 ==> KeepsLength(f)
    decreases |kinds|
  {
    if kinds != [] {
      if at + 2 <= |msg| {
        NumFits(msg, at);
      }
      ParsedStringsAreShort(kinds[1..], msg, ParseField(kinds[0], msg, at).at);
    }
  }

  /**
   * Fields put into a message of at most 65535 octets read back identically, leaving the cursor
   * at the end of the message, if and only if no string among them is 65536 octets or longer.
   */
  lemma {:induction false} FieldsRoundTripIff(pre: seq<byte>, fields: seq<Field>)
    requires forall f :: f in fields ==> Puttable(f)
    requires |pre + EncodeFields(fields)| < 0x1_0000
    ensures var msg := pre + EncodeFields(fields);
            ParseFields(KindsOf(fields), msg, |pre|) == Some((fields, |msg|))
            <==> forall f :: f in fields ==> KeepsLength(f)
  {
    var msg := pre + EncodeFields(fields);
    assert msg[|pre|..] == EncodeFields(fields);
    if forall f :: f in fields ==> KeepsLength(f) {
      FieldsParse(fields, msg, |pre|);
    }
    if ParseFields(KindsOf(fields), msg, |pre|) == Some((fields, |msg|)) {
      ParsedStringsAreShort(KindsOf(fields), msg, |pre|);
    }
  }

  /** A string of 65536 octets is put as an empty one. */
  lemma {:induction false} LongStringIsCut(s: seq<byte>)
    requires |s| == 0x1_0000
    ensures EncodeField(Str(Some(s))) == EncodeField(Str(Some([])))
  {
    assert s[..0] == [];
  }

  // ----- The doubly swapped signed integer ----------------------------------------------------

  /** The octets cti_connection_i32_put appends: htonl twice, then stored by the host. */
  function EncodeI32(littleEndian: bool, v: uint32): seq<byte>
  {
    HostBytes(littleEndian, NetOrder(littleEndian, NetOrder(littleEndian, v, 4), 4), 4)
  }

  /** What cti_connection_i32_parse reads, as the unsigned pattern. */
  function DecodeI32(littleEndian: bool, s: seq<byte>): nat
    requires |s| == 4
  {
    NetOrder(littleEndian, HostValue(littleEndian, s), 4)
  }

  /**
   * A signed integer put with i32_put reads back as itself if and only if the host is big-endian
   * or the integer's four octets are the same backwards.
   */
  lemma {:induction false} I32RoundTripsIff(littleEndian: bool, v: uint32)
    ensures DecodeI32(littleEndian, EncodeI32(littleEndian, v)) == v <==>
            !littleEndian || Reversed(BigEndian(v, 4)) == BigEndian(v, 4)
  {
    Pow256Values();
    var be := BigEndian(v, 4);
    BigEndianRoundTrip(v, 4);
    var s := EncodeI32(littleEndian, v);
    NetOrderStored(littleEndian, NetOrder(littleEndian, v, 4), 4);
    NetOrderLoaded(littleEndian, s);
    assert s == BigEndian(NetOrder(littleEndian, v, 4), 4);
    if littleEndian {
      FromBigEndianRoundTrip(Reversed(be));
      assert s == Reversed(be);
      if FromBigEndian(s) == v {
        FromBigEndianRoundTrip(s);
      }
    }
  }

  /** The status 1 does not survive i32_put on a little-endian host: it arrives as 2 to the 24th. */
  lemma {:induction false} I32Swapped()
    ensures DecodeI32(true, EncodeI32(true, 1)) == 0x100_0000
  {
    Pow256Values();
    NetOrderStored(true, NetOrder(true, 1, 4), 4);
    NetOrderLoaded(true, EncodeI32(true, 1));
    OneReversed();
    FromBigEndianRoundTrip([1, 0, 0, 0]);
  }

  lemma {:induction false} OneReversed()
    ensures Reversed(BigEndian(1, 4)) == [1, 0, 0, 0] && FromBigEndian([1, 0, 0, 0]) == 0x100_0000
  {
    BigEndian2(0);
    assert BigEndian(0, 3) == BigEndian(0, 2) + [0];
    assert BigEndian(1, 4) == BigEndian(0, 3) + [1];
    FromBigEndian4([1, 0, 0, 0]);
  }

  // ----- Frames -------------------------------------------------------------------------------

  /** The state of cti_read between calls; got is what input.buffer holds up to input.current. */
  datatype Rx = Rx(expected: nat, messageLength: nat, got: seq<byte>, closed: bool)

  const RX_START := Rx(2, 0, [], false)

  /** The octets the next call asks read() for. */
  function Needed(s: Rx): int
  {
    s.expected - |s.got|
  }

  /**
   * One call that is handed the octets chunk, if it asks for any: the next state and the message
   * given to the datagram callback, if any.
   */
  function RxStep(s: Rx, chunk: seq<byte>): (Rx, Option<seq<byte>>)
  {
    if Needed(s) <= 0 then RxComplete(s)
    else
      var s' := s.(got := s.got + chunk);
      if Needed(s') > 0 then (s', None) else RxComplete(s')
  }

  /** The part of a call after everything expected has arrived. */
  function RxComplete(s: Rx): (Rx, Option<seq<byte>>)
  {
    if s.messageLength == 0 then
      if s.expected != 2 || |s.got| < 2 then (s.(closed := true), None)
      else
        var n := Be16(s.got[0], s.got[1]);
        (Rx(n, n, [], false), None)
    else (RX_START, Some(s.got))
  }

  /** A chunk read() may hand over: between one octet and what is asked for, or none if none is. */
  ghost predicate Legal(s: Rx, chunk: seq<byte>)
  {
    !s.closed && |chunk| <= Needed(s) && (Needed(s) > 0 ==> chunk != [])
  }

  ghost predicate LegalRun(s: Rx, chunks: seq<seq<byte>>)
    decreases |chunks|
  {
    chunks != [] ==> Legal(s, chunks[0]) && LegalRun(RxStep(s, chunks[0]).0, chunks[1..])
  }

  /** The state and the messages delivered after a run of calls. */
  function RxRun(s: Rx, chunks: seq<seq<byte>>): (Rx, seq<seq<byte>>)
    decreases |chunks|
  {
    if chunks == [] then (s, [])
    else
      var (s', out) := RxStep(s, chunks[0]);
      var (end, rest) := RxRun(s', chunks[1..]);
      (end, (if out.Some? then [out.value] else []) + rest)
  }

  function Joined(chunks: seq<seq<byte>>): seq<byte>
  {
    if chunks == [] then [] else chunks[0] + Joined(chunks[1..])
  }

  /**
   * The frames of a stream, and what is left after the last complete one. It says nothing about
   * reads. A zero-length frame ends the stream.
   */
  function Deframe(stream: seq<byte>): (r: (seq<seq<byte>>, seq<byte>))
    decreases |stream|
  {
    if |stream| < 2 then ([], stream)
    else
      var n := Be16(stream[0], stream[1]) as int;
      if n == 0 || |stream| < 2 + n then ([], stream)
      else
        var (frames, rest) := Deframe(stream[2 + n..]);
        ([stream[2..2 + n]] + frames, rest)
  }

  /** The reader's state when rest is what it has consumed of an unfinished frame. */
  ghost predicate StateFor(s: Rx, rest: seq<byte>)
  {
    if |rest| < 2 then s == Rx(2, 0, rest, false)
    else
      var n := Be16(rest[0], rest[1]);
      if n == 0 then s.expected == 0 && s.messageLength == 0 && |s.got| == 0 && |rest| == 2
      else |rest| < 2 + n as int && s == Rx(n, n, rest[2..], false)
  }

  lemma {:induction false} DeframeAppend(a: seq<byte>, b: seq<byte>)
    ensures Deframe(a + b) == (Deframe(a).0 + Deframe(Deframe(a).1 + b).0, Deframe(Deframe(a).1 + b).1)
    decreases |a|
  {
    if |a| < 2 || Be16(a[0], a[1]) == 0 || |a| < 2 + Be16(a[0], a[1]) as int {
      EmptyConcat([], Deframe(a + b).0);
    } else {
      var end := 2 + Be16(a[0], a[1]) as int;
      var after := Deframe(Deframe(a).1 + b);
      FirstFrame(a, end);
      PrefixAppend(a, b, end);
      FirstFrame(a + b, end);
      DeframeAppend(a[end..], b);
      ConcatAssociates([a[2..end]], Deframe(a[end..]).0, after.0);
    }
  }

  lemma {:induction false} FirstFrame(stream: seq<byte>, end: nat)
    requires 2 < end <= |stream| && end == 2 + Be16(stream[0], stream[1]) as int
    ensures Deframe(stream).0 == [stream[2..end]] + Deframe(stream[end..]).0
    ensures Deframe(stream).1 == Deframe(stream[end..]).1
  {
  }

  lemma {:induction false} PrefixAppend(a: seq<byte>, b: seq<byte>, end: nat)
    requires 2 <= end <= |a|
    ensures (a + b)[0] == a[0] && (a + b)[1] == a[1]
    ensures (a + b)[2..end] == a[2..end] && (a + b)[end..] == a[end..] + b
  {
  }

  /** One call consumes its chunk and delivers what that chunk completes. */
  lemma {:induction false} StepDeframes(s: Rx, rest: seq<byte>, chunk: seq<byte>)
    requires StateFor(s, rest) && Legal(s, chunk)
    ensures var (frames, rest') := Deframe(rest + chunk);
            && StateFor(RxStep(s, chunk).0, rest')
            && frames == (if RxStep(s, chunk).1.Some? then [RxStep(s, chunk).1.value] else [])
  {
    if |rest| < 2 {
      LengthStep(s, rest, chunk);
    } else if Be16(rest[0], rest[1]) == 0 {
      ZeroStep(s, rest, chunk);
    } else {
      BodyStep(s, rest, chunk);
    }
  }

  lemma {:induction false} ZeroStep(s: Rx, rest: seq<byte>, chunk: seq<byte>)
    requires |rest| >= 2 && Be16(rest[0], rest[1]) == 0 && StateFor(s, rest) && Legal(s, chunk)
    ensures Deframe(rest + chunk) == ([], rest)
    ensures StateFor(RxStep(s, chunk).0, rest)
    ensures RxStep(s, chunk).1 == None
  {
    EmptyConcat(chunk, rest);
  }

  lemma {:induction false} LengthStep(s: Rx, rest: seq<byte>, chunk: seq<byte>)
    requires |rest| < 2 && StateFor(s, rest) && Legal(s, chunk)
    ensures Deframe(rest + chunk) == ([], rest + chunk)
    ensures StateFor(RxStep(s, chunk).0, rest + chunk)
    ensures RxStep(s, chunk).1 == None
  {
    var all := rest + chunk;
    assert s.got + chunk == all;
    if |all| == 2 {
      assert all[2..] == [] && all == [all[0], all[1]];
    }
  }

  lemma {:induction false} BodyStep(s: Rx, rest: seq<byte>, chunk: seq<byte>)
    requires |rest| >= 2 && Be16(rest[0], rest[1]) != 0 && StateFor(s, rest) && Legal(s, chunk)
    ensures var (frames, rest') := Deframe(rest + chunk);
            && StateFor(RxStep(s, chunk).0, rest')
            && frames == (if RxStep(s, chunk).1.Some? then [RxStep(s, chunk).1.value] else [])
  {
    var all := rest + chunk;
    var n := Be16(rest[0], rest[1]) as int;
    assert all[0] == rest[0] && all[1] == rest[1];
    assert s.got + chunk == all[2..];
    if |all| == 2 + n {
      LastFrame(all, n);
    }
  }

  lemma {:induction false} LastFrame(all: seq<byte>, n: nat)
    requires |all| == 2 + n && n > 0 && Be16(all[0], all[1]) == n
    ensures Deframe(all) == ([all[2..]], [])
  {
    assert all[2 + n..] == [];
    assert Deframe(all[2 + n..]) == ([], []);
    assert all[2..2 + n] == all[2..];
    assert [all[2..]] + [] == [all[2..]];
  }

  lemma {:induction false} RunDeframes(s: Rx, rest: seq<byte>, chunks: seq<seq<byte>>)
    requires StateFor(s, rest) && LegalRun(s, chunks)
    ensures var (frames, rest') := Deframe(rest + Joined(chunks));
            RxRun(s, chunks).1 == frames && StateFor(RxRun(s, chunks).0, rest')
    decreases |chunks|
  {
    if chunks == [] {
      assert rest + Joined(chunks) == rest;
      NothingComplete(s, rest);
    } else {
      var chunk, more := chunks[0], Joined(chunks[1..]);
      StepDeframes(s, rest, chunk);
      RunDeframes(RxStep(s, chunk).0, Deframe(rest + chunk).1, chunks[1..]);
      ConcatAssociates(rest, chunk, more);
      DeframeAppend(rest + chunk, more);
    }
  }

  lemma {:induction false} NothingComplete(s: Rx, rest: seq<byte>)
    requires StateFor(s, rest)
    ensures Deframe(rest) == ([], rest)
  {
  }

  /** However the stream is cut into reads, exactly its frames are delivered. */
  lemma {:induction false} ReadDeliversFrames(chunks: seq<seq<byte>>)
    requires LegalRun(RX_START, chunks)
    ensures RxRun(RX_START, chunks).1 == Deframe(Joined(chunks)).0
    ensures StateFor(RxRun(RX_START, chunks).0, Deframe(Joined(chunks)).1)
  {
    assert [] + Joined(chunks) == Joined(chunks);
    RunDeframes(RX_START, [], chunks);
  }

  lemma {:induction false} AfterZeroLength(chunks: seq<seq<byte>>, rest: seq<byte>)
    requires LegalRun(RX_START, chunks) && rest == Deframe(Joined(chunks)).1
    requires |rest| >= 2 && Be16(rest[0], rest[1]) == 0
    ensures var s := RxRun(RX_START, chunks).0; s.expected == 0 && s.messageLength == 0 && |s.got| == 0
  {
    ReadDeliversFrames(chunks);
  }

  lemma {:induction false} NothingExpectedCloses(s: Rx, chunk: seq<byte>)
    requires s.expected == 0 && s.messageLength == 0 && |s.got| == 0 && Legal(s, chunk)
    ensures chunk == [] && RxStep(s, chunk).0.closed && RxStep(s, chunk).1 == None
  {
  }

  /** Once a zero-length frame was read, the next call reads nothing, delivers nothing and closes. */
  lemma {:induction false} ZeroLengthCloses(chunks: seq<seq<byte>>, rest: seq<byte>, chunk: seq<byte>)
    requires LegalRun(RX_START, chunks) && rest == Deframe(Joined(chunks)).1
    requires |rest| >= 2 && Be16(rest[0], rest[1]) == 0
    requires Legal(RxRun(RX_START, chunks).0, chunk)
    ensures chunk == []
    ensures RxStep(RxRun(RX_START, chunks).0, chunk).0.closed
    ensures RxStep(RxRun(RX_START, chunks).0, chunk).1 == None
  {
    AfterZeroLength(chunks, rest);
    NothingExpectedCloses(RxRun(RX_START, chunks).0, chunk);
  }

  function Frame(payload: seq<byte>): seq<byte>
    requires |payload| < 0x1_0000
  {
    BigEndian(|payload|, 2) + payload
  }

  function Frames(payloads: seq<seq<byte>>): seq<byte>
    requires forall p :: p in payloads ==> 0 < |p| < 0x1_0000
  {
    if payloads == [] then [] else Frame(payloads[0]) + Frames(payloads[1..])
  }

  lemma {:induction false} FrameHead(p: seq<byte>, more: seq<byte>)
    requires |p| < 0x1_0000
    ensures var s := Frame(p) + more;
            |s| >= 2 + |p| && Be16(s[0], s[1]) == |p| && s[2..2 + |p|] == p && s[2 + |p|..] == more
  {
    Pow256Values();
    BigEndianRoundTrip(|p|, 2);
    FromBigEndian2(BigEndian(|p|, 2));
  }

  /** Deframing inverts framing. */
  lemma {:induction false} DeframeFrames(payloads: seq<seq<byte>>)
    requires forall p :: p in payloads ==> 0 < |p| < 0x1_0000
    ensures Deframe(Frames(payloads)) == (payloads, [])
    decreases |payloads|
  {
    if payloads != [] {
      FrameHead(payloads[0], Frames(payloads[1..]));
      DeframeFrames(payloads[1..]);
      assert [payloads[0]] + payloads[1..] == payloads;
    }
  }

  // ----- A message from sender to receiver ------------------------------------------------------

  datatype CtiMessage = CtiMessage(kind: uint16, fields: seq<Field>)

  ghost predicate Sendable(m: CtiMessage)
  {
    && (forall f :: f in m.fields ==> Puttable(f) && KeepsLength(f))
    && 4 + |EncodeFields(m.fields)| < 0x1_0000
  }

  /** The message type and the fields, as they follow the length on the wire. */
  ghost function Payload(m: CtiMessage): (p: seq<byte>)
    requires Sendable(m)
    ensures 0 < |p| < 0x1_0000
  {
    BigEndian(m.kind, 2) + EncodeFields(m.fields)
  }

  ghost function Payloads(ms: seq<CtiMessage>): (ps: seq<seq<byte>>)
    requires forall m :: m in ms ==> Sendable(m)
    ensures |ps| == |ms|
    ensures forall p :: p in ps ==> 0 < |p| < 0x1_0000
  {
    seq(|ms|, i requires 0 <= i < |ms| => Payload(ms[i]))
  }

  /**
   * End to end: whatever messages are sent, and however the stream is cut into reads, the receiver
   * gets them in order and reads back each type and every field.
   */
  lemma {:induction false} SentMessagesArrive(ms: seq<CtiMessage>, chunks: seq<seq<byte>>)
    requires forall m :: m in ms ==> Sendable(m)
    requires LegalRun(RX_START, chunks) && Joined(chunks) == Frames(Payloads(ms))
    ensures var got := RxRun(RX_START, chunks).1;
            && |got| == |ms|
            && forall i :: 0 <= i < |ms| ==>
                 |got[i]| >= 2
                 && Uint(got[i], 0, 2) == ms[i].kind
                 && ParseFields(KindsOf(ms[i].fields), got[i], 2) == Some((ms[i].fields, |got[i]|))
    ensures RxRun(RX_START, chunks).0 == RX_START
  {
    ReadDeliversFrames(chunks);
    DeframeFrames(Payloads(ms));
    var got := RxRun(RX_START, chunks).1;
    forall i | 0 <= i < |ms|
      ensures |got[i]| >= 2 && Uint(got[i], 0, 2) == ms[i].kind
      ensures ParseFields(KindsOf(ms[i].fields), got[i], 2) == Some((ms[i].fields, |got[i]|))
    {
      PayloadReadsBack(ms[i]);
    }
  }

  lemma {:induction false} PayloadReadsBack(m: CtiMessage)
    requires Sendable(m)
    ensures Uint(Payload(m), 0, 2) == m.kind
    ensures ParseFields(KindsOf(m.fields), Payload(m), 2) == Some((m.fields, |Payload(m)|))
  {
    Pow256Values();
    var kind, body := BigEndian(m.kind, 2), EncodeFields(m.fields);
    assert Payload(m)[0..2] == kind;
    BigEndianRoundTrip(m.kind, 2);
    FieldsRoundTripIff(kind, m.fields);
  }
}
