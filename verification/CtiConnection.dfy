// The buffers and the connection of ServiceRegistration/cti-proto.c: growth by copying, the put and
// parse functions, message creation and sending, and the resumable reader.

module CtiConnection {
  import opened Bytes
  import opened CtiWire

  // ----- Growth -------------------------------------------------------------------------------

  /** The capacity cti_make_space leaves for space more octets. */
  function Capacity(size: nat, current: nat, space: nat): nat
  {
    if current + space > size then 2 * size + space else size
  }

  /** The octets cti_make_space moves to a new buffer. */
  function Moved(size: nat, current: nat, space: nat): nat
  {
    if current + space > size then current else 0
  }

  datatype Growth = Growth(size: nat, current: nat, moved: nat)

  /** Capacity, cursor and octets moved after puts of the given lengths. */
  function AfterPuts(start: Growth, lens: seq<nat>): Growth
  {
    if lens == [] then start
    else
      var g := AfterPuts(start, lens[..|lens| - 1]);
      var n := lens[|lens| - 1];
      Growth(Capacity(g.size, g.current, n), g.current + n, g.moved + Moved(g.size, g.current, n))
  }

  /**
   * Over any sequence of puts into one message, growth moves fewer octets in all than twice those
   * written, and never more than the capacity it ends with.
   */
  lemma {:induction false} GrowthIsAmortised(start: Growth, lens: seq<nat>)
    requires start.current <= start.size && start.moved == 0
    ensures var end := AfterPuts(start, lens);
            && end.current <= end.size
            && end.moved <= end.size
            && (end.moved == 0 || end.moved < 2 * end.current)
  {
    if lens != [] {
      GrowthIsAmortised(start, lens[..|lens| - 1]);
    }
  }

  /** Each growth leaves at least twice the capacity and room for what is about to be put. */
  lemma {:induction false} GrowthDoubles(size: nat, current: nat, space: nat)
    requires current <= size
    ensures current + space <= Capacity(size, current, space)
    ensures current + space > size ==>
              Capacity(size, current, space) == 2 * size + space && Moved(size, current, space) == current
    ensures current + space <= size ==> Capacity(size, current, space) == size && Moved(size, current, space) == 0
  {
  }

  class Buffer {
    var expected: nat
    var current: nat
    var size: nat
    var data: array?<byte>
    /** Octets moved by growth since the current message was created. */
    ghost var moved: nat

    ghost predicate Valid()
      reads this
    {
      data != null ==> data.Length == size && current <= size
    }

    /** The octets before the cursor. */
    ghost function Contents(): seq<byte>
      requires Valid()
      reads this, data
    {
      if data == null then [] else data[..current]
    }

    constructor ()
      ensures Valid() && data == null && Contents() == [] && expected == 0
    {
      expected, current, size, data, moved := 0, 0, 0, null, 0;
    }

    method MakeSpace(space: nat)
      requires Valid()
      modifies this
      ensures Valid() && data != null && (fresh(data) || data == old(data))
      ensures expected == old(expected)
      ensures old(data) == null ==> current == 0 && size == space && moved == old(moved)
      ensures old(data) != null ==>
                && current == old(current)
                && size == Capacity(old(size), current, space)
                && moved == old(moved) + Moved(old(size), current, space)
                && (current + space <= old(size) ==> data == old(data))
      ensures current + space <= size
      ensures Contents() == old(Contents())
    {
      if data == null {
        current := 0;
        size := space;
        data := new byte[space];
      }
      if current + space > size {
        var nextIncrement := size * 2;
        if nextIncrement + space > size {
          nextIncrement := nextIncrement + space;
        }
        var newBuf := new byte[nextIncrement];
        forall i | 0 <= i < current {
          newBuf[i] := data[i];
        }
        assert newBuf[..current] == data[..current];
        moved := moved + current;
        data := newBuf;
        size := nextIncrement;
      }
    }

    /** cti_put. */
    method Put(bytes: seq<byte>)
      requires Valid()
      modifies this, data
      ensures Valid() && data != null && (fresh(data) || data == old(data))
      ensures expected == old(expected)
      ensures Contents() == old(Contents()) + bytes
      ensures old(data) != null ==>
                && current == old(current) + |bytes|
                && size == Capacity(old(size), old(current), |bytes|)
                && moved == old(moved) + Moved(old(size), old(current), |bytes|)
      ensures old(data) != null && old(current) + |bytes| <= old(size) ==>
                data == old(data) && forall i :: current <= i < size ==> data[i] == old(data[i])
    {
      MakeSpace(|bytes|);
      ghost var before := data[..current];
      forall i | 0 <= i < |bytes| {
        data[current + i] := bytes[i];
      }
      assert data[..current + |bytes|] == before + bytes;
      current := current + |bytes|;
    }

    /** Makes room for what read() was asked for and stores what it returned after the cursor. */
    method Receive(needed: nat, chunk: seq<byte>)
      requires Valid() && data != null && |chunk| <= needed
      modifies this, data
      ensures Valid() && data != null && (fresh(data) || data == old(data))
      ensures expected == old(expected) && current == old(current) + |chunk|
      ensures Contents() == old(Contents()) + chunk
    {
      MakeSpace(needed);
      ghost var before := data[..current];
      forall i | 0 <= i < |chunk| {
        data[current + i] := chunk[i];
      }
      assert data[..current + |chunk|] == before + chunk;
      current := current + |chunk|;
    }

    method PutU8(v: byte)
      requires Valid() && data != null
      modifies this, data
      ensures Valid() && data != null && (fresh(data) || data == old(data))
      ensures Contents() == old(Contents()) + EncodeField(U8(v))
    {
      Put([v]);
    }

    method PutBool(b: bool)
      requires Valid() && data != null
      modifies this, data
      ensures Valid() && data != null && (fresh(data) || data == old(data))
      ensures Contents() == old(Contents()) + EncodeField(Flag(b))
    {
      Put([if b then 1 else 0]);
    }

    /** The host stores the value it got from htons. */
    method PutU16(littleEndian: bool, v: uint16)
      requires Valid() && data != null
      modifies this, data
      ensures Valid() && data != null && (fresh(data) || data == old(data))
      ensures Contents() == old(Contents()) + EncodeField(U16(v))
      ensures current == old(current) + 2
      ensures old(current) + 2 <= old(size) ==>
                data == old(data) && size == old(size) && moved == old(moved)
                && forall i :: current <= i < size ==> data[i] == old(data[i])
    {
      Pow256Values();
      NetOrderStored(littleEndian, v, 2);
      Put(HostBytes(littleEndian, NetOrder(littleEndian, v, 2), 2));
    }

    method PutU32(littleEndian: bool, v: uint32)
      requires Valid() && data != null
      modifies this, data
      ensures Valid() && data != null && (fresh(data) || data == old(data))
      ensures Contents() == old(Contents()) + EncodeField(U32(v))
    {
      Pow256Values();
      NetOrderStored(littleEndian, v, 4);
      Put(HostBytes(littleEndian, NetOrder(littleEndian, v, 4), 4));
    }

    /** The source swaps here and again in the unsigned put. */
    method PutI32(littleEndian: bool, v: uint32)
      requires Valid() && data != null
      modifies this, data
      ensures Valid() && data != null && (fresh(data) || data == old(data))
      ensures Contents() == old(Contents()) + EncodeI32(littleEndian, v)
    {
      Pow256Values();
      var swapped := NetOrder(littleEndian, v, 4);
      NetOrderStored(littleEndian, swapped, 4);
      PutU32(littleEndian, swapped);
    }

    /** Two 32-bit halves, each in network order. */
    method PutU64(littleEndian: bool, v: uint64)
      requires Valid() && data != null
      modifies this, data
      ensures Valid() && data != null && (fresh(data) || data == old(data))
      ensures Contents() == old(Contents()) + EncodeField(U64(v))
    {
      Pow256Values();
      var hi, lo := v / 0x1_0000_0000, v % 0x1_0000_0000;
      NetOrderStored(littleEndian, hi, 4);
      NetOrderStored(littleEndian, lo, 4);
      HalvesMakeU64(v);
      Put(HostBytes(littleEndian, NetOrder(littleEndian, hi, 4), 4)
          + HostBytes(littleEndian, NetOrder(littleEndian, lo, 4), 4));
    }

    method PutData(littleEndian: bool, d: seq<byte>)
      requires Valid() && data != null && |d| < 0x1_0000
      modifies this, data
      ensures Valid() && data != null && (fresh(data) || data == old(data))
      ensures Contents() == old(Contents()) + EncodeField(Data(d))
    {
      PutU16(littleEndian, |d|);
      Put(d);
    }

    /** A string's octets, without the terminating NUL; the length is stored in a uint16_t. */
    method PutString(littleEndian: bool, s: Option<seq<byte>>)
      requires Valid() && data != null
      modifies this, data
      ensures Valid() && data != null && (fresh(data) || data == old(data))
      ensures Contents() == old(Contents()) + EncodeField(Str(s))
    {
      if s.None? {
        PutU16(littleEndian, 0xffff);
      } else {
        var len := |s.value| % 0x1_0000;
        PutU16(littleEndian, len);
        Put(s.value[..len]);
      }
    }
  }

  lemma {:induction false} HalvesMakeU64(v: uint64)
    ensures BigEndian(v / 0x1_0000_0000, 4) + BigEndian(v % 0x1_0000_0000, 4) == BigEndian(v, 8)
  {
    Pow256Values();
    var hi, lo := BigEndian(v / 0x1_0000_0000, 4), BigEndian(v % 0x1_0000_0000, 4);
    BigEndianRoundTrip(v / 0x1_0000_0000, 4);
    BigEndianRoundTrip(v % 0x1_0000_0000, 4);
    FromBigEndianConcat(hi, lo);
    FromBigEndianRoundTrip(hi + lo);
  }

  // ----- The connection -------------------------------------------------------------------------

  /** What read() returned. */
  datatype ReadResult = ReadError | ReadEof | ReadOctets(chunk: seq<byte>)

  class Connection {
    /** Whether the host stores integers low octet first. */
    const littleEndian: bool
    const input: Buffer
    const output: Buffer
    var messageLength: nat
    var closed: bool
    /** Everything written to the descriptor so far. */
    var sent: seq<byte>

    ghost predicate Valid()
      reads this, input, output
    {
      input != output && input.Valid() && output.Valid() && (input.data == null || input.data != output.data)
    }

    constructor (littleEndian: bool, expectedSize: uint16)
      ensures Valid() && fresh(input) && fresh(output) && fresh(input.data)
      ensures State() == RX_START && sent == []
    {
      this.littleEndian := littleEndian;
      input := new Buffer();
      output := new Buffer();
      messageLength, closed, sent := 0, false, [];
      new;
      input.MakeSpace(expectedSize);
      input.expected := 2;
    }

    /** cti_connection_message_create. */
    method MessageCreate(messageType: int, space: uint16)
      requires Valid()
      modifies output, output.data
      ensures Valid() && output.data != null && (fresh(output.data) || output.data == old(output.data))
      ensures output.current == 4 && output.size >= 4
      ensures output.data[2..4] == BigEndian(messageType % 0x1_0000, 2)
      ensures output.moved == 0
    {
      output.current := 0;
      output.moved := 0;
      if output.data != null {
        if output.size < space {
          output.data := null;
        }
      }
      output.MakeSpace(space + 4);
      output.current := 2;
      ghost var before := output.data[..2];
      output.PutU16(littleEndian, messageType % 0x1_0000);
      assert output.data[..4] == before + BigEndian(messageType % 0x1_0000, 2);
      assert output.data[2..4] == output.data[..4][2..];
    }

    /**
     * cti_connection_message_send. accepted is what write() returns. The length field counts
     * everything after itself.
     */
    method MessageSend(accepted: int) returns (ok: bool)
      requires Valid() && output.data != null && output.current >= 4
      requires accepted <= output.current
      modifies this`closed, this`sent, output, output.data
      ensures Valid()
      ensures ok <==> old(output.current) <= 0xffff && accepted == old(output.current)
      ensures closed == (old(closed) || !ok)
      ensures old(output.current) > 0xffff ==> sent == old(sent)
      ensures ok ==> sent == old(sent) + Frame(old(output.data[2..output.current]))
    {
      var offset := output.current;
      ghost var body := output.data[2..offset];
      output.current := 0;
      if offset > 0xffff {
        closed := true;
        return false;
      }
      output.PutU16(littleEndian, offset - 2);
      assert output.data[2..offset] == body;
      assert output.data[..2] == BigEndian(offset - 2, 2);
      assert output.data[..offset] == output.data[..2] + output.data[2..offset];
      if accepted > 0 {
        sent := sent + output.data[..accepted];
      }
      if accepted != offset {
        closed := true;
        return false;
      }
      return true;
    }

    // ----- Parsing ------------------------------------------------------------------------------

    /** A whole message is in the input buffer, and the cursor is inside it. */
    ghost predicate Parsing()
      reads this, input
    {
      input.Valid() && input.data != null && input.current <= messageLength <= input.size
    }

    ghost function Message(): seq<byte>
      requires Parsing()
      reads this, input, input.data
    {
      input.data[..messageLength]
    }

    /** cti_parse: the next length octets, or a closed connection and an unmoved cursor. */
    method Parse(length: nat) returns (r: Option<seq<byte>>)
      requires Parsing()
      modifies this`closed, input`current
      ensures Parsing() && Message() == old(Message())
      ensures r.Some? <==> old(input.current) + length <= messageLength
      ensures r.Some? ==> input.current == old(input.current) + length
                          && r.value == Message()[old(input.current)..input.current]
                          && closed == old(closed)
      ensures r.None? ==> input.current == old(input.current) && closed
    {
      if length > messageLength - input.current {
        closed := true;
        return None;
      }
      r := Some(input.data[input.current..input.current + length]);
      input.current := input.current + length;
    }

    method ParseU8() returns (v: Option<byte>)
      requires Parsing()
      modifies this`closed, input`current
      ensures Parsing() && Message() == old(Message())
      ensures ParseField(KU8, Message(), old(input.current))
           == (if v.Some? then Got(U8(v.value), input.current) else Failed(input.current))
      ensures closed == (old(closed) || v.None?)
    {
      var s := Parse(1);
      v := if s.None? then None else Some(s.value[0]);
    }

    method ParseBool() returns (v: Option<bool>)
      requires Parsing()
      modifies this`closed, input`current
      ensures Parsing() && Message() == old(Message())
      ensures ParseField(KFlag, Message(), old(input.current))
           == (if v.Some? then Got(Flag(v.value), input.current) else Failed(input.current))
      ensures closed == (old(closed) || v.None?)
    {
      var s := Parse(1);
      v := if s.None? then None else Some(s.value[0] != 0);
    }

    method ParseU16() returns (v: Option<uint16>)
      requires Parsing()
      modifies this`closed, input`current
      ensures Parsing() && Message() == old(Message())
      ensures ParseField(KU16, Message(), old(input.current))
           == (if v.Some? then Got(U16(v.value), input.current) else Failed(input.current))
      ensures closed == (old(closed) || v.None?)
    {
      Pow256Values();
      var s := Parse(2);
      if s.None? { return None; }
      NetOrderLoaded(littleEndian, s.value);
      v := Some(NetOrder(littleEndian, HostValue(littleEndian, s.value), 2));
    }

    method ParseU32() returns (v: Option<uint32>)
      requires Parsing()
      modifies this`closed, input`current
      ensures Parsing() && Message() == old(Message())
      ensures ParseField(KU32, Message(), old(input.current))
           == (if v.Some? then Got(U32(v.value), input.current) else Failed(input.current))
      ensures closed == (old(closed) || v.None?)
    {
      Pow256Values();
      var s := Parse(4);
      if s.None? { return None; }
      NetOrderLoaded(littleEndian, s.value);
      v := Some(NetOrder(littleEndian, HostValue(littleEndian, s.value), 4));
    }

    method ParseU64() returns (v: Option<uint64>)
      requires Parsing()
      modifies this`closed, input`current
      ensures Parsing() && Message() == old(Message())
      ensures ParseField(KU64, Message(), old(input.current))
           == (if v.Some? then Got(U64(v.value), input.current) else Failed(input.current))
      ensures closed == (old(closed) || v.None?)
    {
      Pow256Values();
      var s := Parse(8);
      if s.None? { return None; }
      var a, b := s.value[..4], s.value[4..];
      assert s.value == a + b;
      FromBigEndianConcat(a, b);
      NetOrderLoaded(littleEndian, a);
      NetOrderLoaded(littleEndian, b);
      var hi := NetOrder(littleEndian, HostValue(littleEndian, a), 4);
      var lo := NetOrder(littleEndian, HostValue(littleEndian, b), 4);
      v := Some(hi * 0x1_0000_0000 + lo);
    }

    method ParseData() returns (v: Option<seq<byte>>)
      requires Parsing()
      modifies this`closed, input`current
      ensures Parsing() && Message() == old(Message())
      ensures ParseField(KData, Message(), old(input.current))
           == (if v.Some? then Got(Data(v.value), input.current) else Failed(input.current))
      ensures closed == (old(closed) || v.None?)
    {
      var len := ParseU16();
      if len.None? { return None; }
      if len.value > messageLength - input.current {
        closed := true;
        return None;
      }
      v := Parse(len.value);
    }

    method ParseString() returns (v: Option<Option<seq<byte>>>)
      requires Parsing()
      modifies this`closed, input`current
      ensures Parsing() && Message() == old(Message())
      ensures ParseField(KStr, Message(), old(input.current))
           == (if v.Some? then Got(Str(v.value), input.current) else Failed(input.current))
      ensures closed == (old(closed) || v.None?)
    {
      var len := ParseU16();
      if len.None? { return None; }
      if len.value == 0xffff {
        return Some(None);
      }
      if len.value > messageLength - input.current {
        closed := true;
        return None;
      }
      var s := Parse(len.value);
      v := if s.None? then None else Some(s);
    }

    /** cti_connection_parse_done. */
    method ParseDone() returns (done: bool)
      requires Parsing()
      ensures done <==> input.current == |Message()|
    {
      done := input.current == messageLength;
    }

    // ----- Reading ------------------------------------------------------------------------------

    ghost function State(): Rx
      requires input.Valid()
      reads this, input, input.data
    {
      Rx(input.expected, messageLength, input.Contents(), closed)
    }

    /**
     * cti_read. result is what read() returns if it is called; it is called when octets are
     * missing. delivered is the message the datagram callback is given; callbackCloses says whether
     * the callback closes the connection, as a parse function that fails does.
     */
    method Read(result: ReadResult, callbackCloses: bool) returns (delivered: Option<seq<byte>>)
      requires Valid() && input.data != null
      requires result.ReadOctets? ==> Legal(State(), result.chunk)
      requires !closed && input.current <= input.expected
      modifies this`closed, this`messageLength, input, input.data
      ensures Valid() && input.data != null && (fresh(input.data) || input.data == old(input.data))
      ensures result.ReadOctets? ==>
                var (after, message) := RxStep(old(State()), result.chunk);
                && delivered == message
                && State() == if message.Some? && callbackCloses then after.(closed := true) else after
      ensures !result.ReadOctets? && Needed(old(State())) > 0 ==>
                State() == old(State()).(closed := true) && delivered == None
    {
      var needed := input.expected - input.current;
      delivered := None;
      if needed > 0 {
        if !result.ReadOctets? {
          closed := true;
          return;
        }
        input.Receive(needed, result.chunk);
        if |result.chunk| < needed {
          return;
        }
      }
      delivered := Complete(callbackCloses);
    }

    /** The part of cti_read after everything expected has arrived. */
    method Complete(callbackCloses: bool) returns (delivered: Option<seq<byte>>)
      requires Valid() && input.data != null && !closed && input.current >= input.expected
      modifies this`closed, this`messageLength, input`current, input`expected
      ensures Valid()
      ensures var (after, message) := RxComplete(old(State()));
              && delivered == message
              && State() == if message.Some? && callbackCloses then after.(closed := true) else after
    {
      ghost var got := input.Contents();
      if messageLength == 0 {
        if input.expected != 2 {
          closed := true;
          return None;
        }
        assert input.data[0] == got[0] && input.data[1] == got[1];
        messageLength := Be16(input.data[0], input.data[1]);
        input.current := 0;
        input.expected := messageLength;
        assert input.Contents() == [];
        return None;
      }
      delivered := Some(input.data[..input.current]);
      if callbackCloses {
        closed := true;
      }
      input.expected := 2;
      messageLength := 0;
      input.current := 0;
      assert input.Contents() == [];
    }
  }
}
