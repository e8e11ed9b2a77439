// DSO messages (RFC 8490 section 5.4): the TLV builder and the receive loop of DSO/dso.c and the
// scatter/gather writer of DSO/dso-transport.c.

module DsoTlv {
  import opened Bytes
  import opened Repeats

  /** Additional TLVs kept from a message. */
  const MAX_ADDITLS := 10

  /** Separate pieces a message is written in. */
  const MAX_WRITE_HUNKS := 4

  datatype Tlv = Tlv(opcode: uint16, payload: seq<byte>)

  ghost predicate Fits(tlvs: seq<Tlv>)
  {
    forall i :: 0 <= i < |tlvs| ==> |tlvs[i].payload| < 0x1_0000
  }

  function EncodeTlv(t: Tlv): seq<byte>
  {
    BigEndian(t.opcode, 2) + (BigEndian(|t.payload|, 2) + t.payload)
  }

  function EncodeTlvs(tlvs: seq<Tlv>): seq<byte>
  {
    if tlvs == [] then [] else EncodeTlv(tlvs[0]) + EncodeTlvs(tlvs[1..])
  }

  lemma {:induction false} EncodeTlvsAppend(tlvs: seq<Tlv>, t: Tlv)
    ensures EncodeTlvs(tlvs + [t]) == EncodeTlvs(tlvs) + EncodeTlv(t)
  {
    if tlvs == [] {
      assert tlvs + [t] == [t];
    } else {
      EncodeTlvsAppend(tlvs[1..], t);
      assert (tlvs + [t])[1..] == tlvs[1..] + [t];
    }
  }

  // ----- The receive loop ---------------------------------------------------------------------

  /** The TLVs read, whether the loop ended without an error, and the offset it ended at. */
  datatype TlvRead = TlvRead(tlvs: seq<Tlv>, ok: bool, end: nat)

  /**
   * What the loop reads from offset off on. The message is the first n octets of mem. The loop
   * checks a TLV's length against the end without counting the TLV's own four header octets, so
   * mem has to say what the four octets after the message hold.
   */
  function ReadTlvs(mem: seq<byte>, n: nat, off: nat): TlvRead
    requires n + 4 <= |mem|
    decreases n + 4 - off
  {
    if off >= n then TlvRead([], true, off)
    else
      var opcode := Be16(mem[off], mem[off + 1]);
      var length := Be16(mem[off + 2], mem[off + 3]) as int;
      if length + off > n then TlvRead([], false, off)
      else
        var rest := ReadTlvs(mem, n, off + 4 + length);
        rest.(tlvs := [Tlv(opcode, mem[off + 4..off + 4 + length])] + rest.tlvs)
  }

  /** What a message of n octets leaves in the connection: its primary TLV and the next ten. */
  datatype Parsed = Parsed(primary: Tlv, additl: seq<Tlv>, ok: bool)

  /** The first TLV replaces the primary one and empties the list; later ones are kept up to ten. */
  function Record(before: Parsed, read: TlvRead): Parsed
  {
    if read.tlvs == [] then before.(ok := read.ok)
    else
      var more := read.tlvs[1..];
      Parsed(read.tlvs[0], more[..if |more| < MAX_ADDITLS then |more| else MAX_ADDITLS], read.ok)
  }

  /** What the loop has read, given what it still reads. */
  function Behind(seen: seq<Tlv>, rest: TlvRead): TlvRead
  {
    rest.(tlvs := seen + rest.tlvs)
  }

  method ReceiveTlvs(mem: seq<byte>, n: nat, before: Parsed) returns (after: Parsed, end: nat)
    requires n + 4 <= |mem| && n >= HEADER_SIZE
    ensures after == Record(before, ReadTlvs(mem, n, HEADER_SIZE))
    ensures end == ReadTlvs(mem, n, HEADER_SIZE).end
  {
    after := before.(ok := true);
    var offset := HEADER_SIZE;
    ghost var whole := ReadTlvs(mem, n, HEADER_SIZE);
    ghost var seen: seq<Tlv> := [];
    NoneSeen(whole);
    while offset < n
      invariant offset >= HEADER_SIZE && (offset == HEADER_SIZE <==> seen == [])
      invariant whole == Behind(seen, ReadTlvs(mem, n, offset))
      invariant after == Record(before, TlvRead(seen, true, offset))
      decreases n + 4 - offset
    {
      var opcode := Be16(mem[offset], mem[offset + 1]);
      var length := Be16(mem[offset + 2], mem[offset + 3]);
      if length + offset > n {
        NoneLeft(seen, false, offset);
        after := after.(ok := false);
        end := offset;
        return;
      }
      var tlv := Tlv(opcode, mem[offset + 4..offset + 4 + length]);
      var next := offset + 4 + length;
      OneRead(mem, n, offset, next, seen, tlv);
      RecordOne(before, seen, tlv, offset, next);
      if offset == HEADER_SIZE {
        after := Parsed(tlv, [], true);
      } else if |after.additl| < MAX_ADDITLS {
        after := after.(additl := after.additl + [tlv]);
      }
      seen, offset := seen + [tlv], next;
    }
    NoneLeft(seen, true, offset);
    end := offset;
  }

  lemma {:induction false} NoneSeen(rest: TlvRead)
    ensures Behind([], rest) == rest
  {
    assert [] + rest.tlvs == rest.tlvs;
  }

  lemma {:induction false} NoneLeft(seen: seq<Tlv>, ok: bool, end: nat)
    ensures Behind(seen, TlvRead([], ok, end)) == TlvRead(seen, ok, end)
  {
    assert seen + [] == seen;
  }

  lemma {:induction false} OneRead(mem: seq<byte>, n: nat, off: nat, next: nat, seen: seq<Tlv>, t: Tlv)
    requires n + 4 <= |mem| && off < n && off + Be16(mem[off + 2], mem[off + 3]) <= n
    requires next == off + 4 + Be16(mem[off + 2], mem[off + 3])
    requires t == Tlv(Be16(mem[off], mem[off + 1]), mem[off + 4..next])
    ensures Behind(seen, ReadTlvs(mem, n, off)) == Behind(seen + [t], ReadTlvs(mem, n, next))
  {
    ConcatAssociates(seen, [t], ReadTlvs(mem, n, next).tlvs);
  }

  /** What one more TLV changes in what is recorded. */
  lemma {:induction false} RecordOne(before: Parsed, seen: seq<Tlv>, t: Tlv, off: nat, end: nat)
    ensures var after, next := Record(before, TlvRead(seen, true, off)), Record(before, TlvRead(seen + [t], true, end));
            next == if seen == [] then Parsed(t, [], true)
                    else if |after.additl| < MAX_ADDITLS then after.(additl := after.additl + [t])
                    else after
  {
    if seen == [] {
      assert (seen + [t])[1..] == [];
    } else {
      assert (seen + [t])[1..] == seen[1..] + [t];
    }
  }

  /** The octets from off to end are these TLVs, of which the last begins before n and ends at most four octets after it. */
  ghost predicate EncodedTo(mem: seq<byte>, n: nat, off: nat, tlvs: seq<Tlv>, end: nat)
  {
    && off <= end <= |mem| && n <= end <= n + 4
    && Fits(tlvs) && mem[off..end] == EncodeTlvs(tlvs)
    && (tlvs != [] ==> end < n + 4 + |tlvs[|tlvs| - 1].payload|)
  }

  /** The loop inverts the encoding of TLVs, whatever follows them in memory. */
  lemma {:induction false} ReadInvertsEncode(mem: seq<byte>, n: nat, off: nat, tlvs: seq<Tlv>, end: nat)
    requires n + 4 <= |mem| && EncodedTo(mem, n, off, tlvs, end)
    ensures ReadTlvs(mem, n, off) == TlvRead(tlvs, true, end)
    decreases |tlvs|
  {
    if tlvs != [] {
      var next := off + 4 + |tlvs[0].payload|;
      FirstTlvAt(mem, end, off, tlvs);
      if |tlvs| > 1 {
        LastTlvLength(tlvs[1..]);
        assert next + 4 + |tlvs[|tlvs| - 1].payload| <= end;
      }
      ReadInvertsEncode(mem, n, next, tlvs[1..], end);
      ReadOne(mem, n, off, next, tlvs, end);
    }
  }

  lemma {:induction false} LastTlvLength(tlvs: seq<Tlv>)
    requires tlvs != []
    ensures |EncodeTlvs(tlvs)| >= 4 + |tlvs[|tlvs| - 1].payload|
  {
    if |tlvs| > 1 {
      LastTlvLength(tlvs[1..]);
    }
  }

  lemma {:induction false} ReadOne(mem: seq<byte>, n: nat, off: nat, next: nat, tlvs: seq<Tlv>, end: nat)
    requires n + 4 <= |mem| && off < n && next <= n + 4 && tlvs != [] && next == off + 4 + |tlvs[0].payload|
    requires Be16(mem[off], mem[off + 1]) == tlvs[0].opcode
    requires Be16(mem[off + 2], mem[off + 3]) == |tlvs[0].payload|
    requires mem[off + 4..next] == tlvs[0].payload
    requires ReadTlvs(mem, n, next) == TlvRead(tlvs[1..], true, end)
    ensures ReadTlvs(mem, n, off) == TlvRead(tlvs, true, end)
  {
    assert [tlvs[0]] + tlvs[1..] == tlvs;
  }

  lemma {:induction false} FirstTlvAt(mem: seq<byte>, end: nat, off: nat, tlvs: seq<Tlv>)
    requires off <= end <= |mem| && Fits(tlvs) && tlvs != []
    requires mem[off..end] == EncodeTlvs(tlvs)
    ensures var t, next := tlvs[0], off + 4 + |tlvs[0].payload|;
            && next <= end
            && Be16(mem[off], mem[off + 1]) == t.opcode
            && Be16(mem[off + 2], mem[off + 3]) == |t.payload|
            && mem[off + 4..next] == t.payload
            && mem[next..end] == EncodeTlvs(tlvs[1..])
  {
    SplitRange(mem, off, end, EncodeTlv(tlvs[0]), EncodeTlvs(tlvs[1..]));
    EncodedTlvAt(mem, off, tlvs[0]);
  }

  lemma {:induction false} EncodedTlvAt(mem: seq<byte>, off: nat, t: Tlv)
    requires |t.payload| < 0x1_0000 && off + 4 + |t.payload| <= |mem|
    requires mem[off..off + |EncodeTlv(t)|] == EncodeTlv(t)
    ensures Be16(mem[off], mem[off + 1]) == t.opcode
    ensures Be16(mem[off + 2], mem[off + 3]) == |t.payload|
    ensures mem[off + 4..off + 4 + |t.payload|] == t.payload
  {
    Pow256Values();
    FieldAt(mem, off, t.opcode, 2, BigEndian(|t.payload|, 2) + t.payload);
    FieldAt(mem, off + 2, |t.payload|, 2, t.payload);
    FromBigEndian2(mem[off..off + 2]);
    FromBigEndian2(mem[off + 2..off + 4]);
  }

  /** What the loop accepts is the encoding of what it read. */
  lemma {:induction false} ReadIsEncoding(mem: seq<byte>, n: nat, off: nat)
    requires off <= n + 4 <= |mem| && ReadTlvs(mem, n, off).ok
    ensures EncodedTo(mem, n, off, ReadTlvs(mem, n, off).tlvs, ReadTlvs(mem, n, off).end)
    decreases n + 4 - off
  {
    if off < n {
      var length := Be16(mem[off + 2], mem[off + 3]) as int;
      var next := off + 4 + length;
      ReadIsEncoding(mem, n, next);
      var read, rest := ReadTlvs(mem, n, off), ReadTlvs(mem, n, next);
      TlvOctets(mem, off, read.tlvs[0]);
      OneTlvMore(mem, n, off, next, read.tlvs, rest.tlvs, read.end);
    }
  }

  lemma {:induction false} OneTlvMore(mem: seq<byte>, n: nat, off: nat, next: nat, tlvs: seq<Tlv>, rest: seq<Tlv>, end: nat)
    requires EncodedTo(mem, n, next, rest, end) && off < n && tlvs != [] && tlvs == [tlvs[0]] + rest
    requires next == off + 4 + |tlvs[0].payload| && |tlvs[0].payload| < 0x1_0000
    requires mem[off..next] == EncodeTlv(tlvs[0])
    ensures EncodedTo(mem, n, off, tlvs, end)
  {
    assert tlvs[1..] == rest;
    SliceJoin(mem, off, next, end);
  }

  lemma {:induction false} TlvOctets(mem: seq<byte>, off: nat, t: Tlv)
    requires off + 4 + |t.payload| <= |mem|
    requires t.opcode == Be16(mem[off], mem[off + 1]) && |t.payload| == Be16(mem[off + 2], mem[off + 3])
    requires t.payload == mem[off + 4..off + 4 + |t.payload|]
    ensures mem[off..off + 4 + |t.payload|] == EncodeTlv(t)
  {
    FromBigEndian2(mem[off..off + 2]);
    FromBigEndian2(mem[off + 2..off + 4]);
    FromBigEndianRoundTrip(mem[off..off + 2]);
    FromBigEndianRoundTrip(mem[off + 2..off + 4]);
    ThreeParts(mem, off, off + 4 + |t.payload|);
  }

  lemma {:induction false} ThreeParts(mem: seq<byte>, off: nat, end: nat)
    requires off + 4 <= end <= |mem|
    ensures mem[off..end] == mem[off..off + 2] + (mem[off + 2..off + 4] + mem[off + 4..end])
  {
    SliceJoin(mem, off + 2, off + 4, end);
    SliceJoin(mem, off, off + 2, end);
  }

  /**
   * The loop accepts a message as these TLVs, ending at end, if and only if the octets after the
   * header up to end are their encoding, the last of them begins before the message's end, and end
   * is at most four octets after it.
   */
  lemma {:induction false} AcceptsIff(mem: seq<byte>, n: nat, tlvs: seq<Tlv>, end: nat)
    requires HEADER_SIZE <= n && n + 4 <= |mem|
    ensures ReadTlvs(mem, n, HEADER_SIZE) == TlvRead(tlvs, true, end) <==> EncodedTo(mem, n, HEADER_SIZE, tlvs, end)
  {
    if EncodedTo(mem, n, HEADER_SIZE, tlvs, end) {
      ReadInvertsEncode(mem, n, HEADER_SIZE, tlvs, end);
    }
    if ReadTlvs(mem, n, HEADER_SIZE).ok {
      ReadIsEncoding(mem, n, HEADER_SIZE);
    }
  }

  /**
   * So it accepts a message and ends exactly at its end if and only if the message is its header
   * followed by whole TLVs; what it reads then are those TLVs.
   */
  lemma {:induction false} AcceptsWholeTlvs(mem: seq<byte>, n: nat, tlvs: seq<Tlv>)
    requires HEADER_SIZE <= n && n + 4 <= |mem|
    ensures ReadTlvs(mem, n, HEADER_SIZE) == TlvRead(tlvs, true, n) <==>
            Fits(tlvs) && mem[HEADER_SIZE..n] == EncodeTlvs(tlvs)
    ensures ReadTlvs(mem, n, HEADER_SIZE).ok ==> n <= ReadTlvs(mem, n, HEADER_SIZE).end <= n + 4
  {
    AcceptsIff(mem, n, tlvs, n);
    if ReadTlvs(mem, n, HEADER_SIZE).ok {
      ReadIsEncoding(mem, n, HEADER_SIZE);
    }
  }

  /**
   * The loop also accepts some messages that are not whole TLVs: a last TLV may announce up to
   * four octets more than the message has left, and is then read past the end.
   */
  lemma {:induction false} AcceptsShortLastTlv(mem: seq<byte>)
    requires |mem| == 20 && mem[14] == 0 && mem[15] == 4
    ensures ReadTlvs(mem, 16, HEADER_SIZE) == TlvRead([Tlv(Be16(mem[12], mem[13]), mem[16..20])], true, 20)
  {
    assert ReadTlvs(mem, 16, 20) == TlvRead([], true, 20);
  }

  /** A primary TLV and the first ten more are recorded as they were encoded, in order. */
  lemma {:induction false} RecordsAllTlvs(before: Parsed, mem: seq<byte>, n: nat, primary: Tlv, more: seq<Tlv>)
    requires HEADER_SIZE <= n && n + 4 <= |mem|
    requires Fits([primary] + more)
    requires mem[HEADER_SIZE..n] == EncodeTlvs([primary] + more)
    ensures Record(before, ReadTlvs(mem, n, HEADER_SIZE)) == Parsed(primary, more[..Min(|more|, 10)], true)
  {
    AcceptsWholeTlvs(mem, n, [primary] + more);
    assert ([primary] + more)[1..] == more;
  }

  // ----- The builder ---------------------------------------------------------------------------

  /** The octets of a message: those in the buffer with the no-copy octets in between. */
  ghost function View(raw: seq<byte>, noCopy: seq<byte>, at: nat): seq<byte>
    requires at <= |raw|
  {
    raw[..at] + noCopy + raw[at..]
  }

  lemma {:induction false} ViewAppend(raw: seq<byte>, noCopy: seq<byte>, at: nat, more: seq<byte>)
    requires at <= |raw|
    ensures View(raw + more, noCopy, at) == View(raw, noCopy, at) + more
  {
    assert (raw + more)[..at] == raw[..at];
    assert (raw + more)[at..] == raw[at..] + more;
  }

  /** Where a buffer offset lies in the message. */
  function Shift(p: nat, noCopy: seq<byte>, at: nat): nat
  {
    if p < at then p else p + |noCopy|
  }

  lemma {:induction false} ViewStore(raw: seq<byte>, raw': seq<byte>, noCopy: seq<byte>, at: nat, p: nat, b0: byte, b1: byte)
    requires at <= |raw| && p + 2 <= |raw| && (p + 2 <= at || at <= p)
    requires raw' == raw[p := b0][p + 1 := b1]
    ensures var q := Shift(p, noCopy, at);
            q + 2 <= |View(raw, noCopy, at)|
            && View(raw', noCopy, at) == View(raw, noCopy, at)[..q] + [b0, b1] + View(raw, noCopy, at)[q + 2..]
  {
    if p + 2 <= at {
      assert raw'[..at] == raw[..at][..p] + [b0, b1] + raw[..at][p + 2..];
      assert raw'[at..] == raw[at..];
    } else {
      assert raw'[..at] == raw[..at];
      assert raw'[at..] == raw[at..][..p - at] + [b0, b1] + raw[at..][p - at + 2..];
    }
  }

  /** dso_message_t: a message under construction. */
  class OutMessage {
    const buf: array<byte>
    var cur: nat
    var buildingTlv: bool
    var tlvLen: nat
    var tlvLenOffset: nat
    var noCopyBytes: seq<byte>
    var noCopyBytesOffset: nat

    /** The header, the finished TLVs, and the TLV under construction. */
    ghost const header: seq<byte>
    ghost var done: seq<Tlv>
    ghost var opcode: uint16
    ghost var payload: seq<byte>
    ghost var lengthHole: seq<byte>

    /** The message so far, no-copy octets included. */
    ghost var octets: seq<byte>

    /** How far the message has got, in terms of its TLVs. */
    ghost predicate Shape()
      reads this
    {
      var base := header + EncodeTlvs(done);
      if buildingTlv then
        && |lengthHole| == 2 && tlvLen == |payload|
        && Shift(tlvLenOffset, noCopyBytes, noCopyBytesOffset) == |base| + 2
        && octets == base + (BigEndian(opcode, 2) + (lengthHole + payload))
      else octets == base
    }

    ghost predicate Valid()
      reads this, buf
    {
      && HEADER_SIZE <= cur <= buf.Length && noCopyBytesOffset <= cur && |header| == HEADER_SIZE
      && Fits(done)
      && (buildingTlv ==>
            && HEADER_SIZE + 2 <= tlvLenOffset && tlvLenOffset + 2 <= cur
            && (tlvLenOffset + 2 <= noCopyBytesOffset || noCopyBytesOffset <= tlvLenOffset - 2))
      && octets == View(buf[..cur], noCopyBytes, noCopyBytesOffset)
      && Shape()
    }

    constructor (outbuf: array<byte>, header: seq<byte>)
      requires |header| == HEADER_SIZE <= outbuf.Length
      modifies outbuf
      ensures Valid() && buf == outbuf && this.header == header && done == [] && !buildingTlv
      ensures noCopyBytes == [] && cur == HEADER_SIZE
    {
      buf, this.header, done, octets := outbuf, header, [], header;
      buildingTlv, tlvLen, tlvLenOffset, noCopyBytes, noCopyBytesOffset := false, 0, 0, [], 0;
      opcode, payload, lengthHole := 0, [], [];
      cur := HEADER_SIZE;
      new;
      forall i | 0 <= i < HEADER_SIZE {
        buf[i] := header[i];
      }
      assert buf[..cur] == header;
      assert header + [] == header;
    }

    method StartTlv(opcode: int)
      requires Valid() && !buildingTlv && cur + 4 < buf.Length
      modifies this, buf
      ensures Valid() && buildingTlv && done == old(done) && cur == old(cur) + 4
      ensures this.opcode == opcode % 0x1_0000 && payload == []
      ensures noCopyBytes == old(noCopyBytes)
    {
      ghost var raw := buf[..cur];
      buildingTlv := true;
      tlvLen := 0;
      lengthHole := TlvHeader(opcode % 0x1_0000);
      tlvLenOffset := cur - 2;
      this.opcode := opcode % 0x1_0000;
      payload := [];
      StartedView(raw, noCopyBytes, noCopyBytesOffset, this.opcode, lengthHole);
      octets := octets + (BigEndian(this.opcode, 2) + (lengthHole + payload));
    }

    /** Stores the opcode and leaves room for the length. */
    method TlvHeader(op: uint16) returns (ghost hole: seq<byte>)
      requires cur + 4 < buf.Length
      modifies this`cur, buf
      ensures cur == old(cur) + 4 && |hole| == 2
      ensures buf[..cur] == old(buf[..cur]) + (BigEndian(op, 2) + hole)
    {
      ghost var raw := buf[..cur];
      Append([op / 0x100, op % 0x100]);
      hole := buf[cur..cur + 2];
      cur := cur + 2;
      BigEndian2(op);
      ThreePartsTake(buf[..], raw, BigEndian(op, 2), hole);
    }

    /** Stores octets at the cursor and moves it past them. */
    method Append(bytes: seq<byte>)
      requires cur + |bytes| <= buf.Length
      modifies this`cur, buf
      ensures cur == old(cur) + |bytes| && buf[..cur] == old(buf[..cur]) + bytes
    {
      ghost var raw := buf[..cur];
      forall i | 0 <= i < |bytes| {
        buf[cur + i] := bytes[i];
      }
      cur := cur + |bytes|;
      assert buf[..cur] == raw + bytes;
    }

    /** The TLV's payload grows by octets that stay where they are. */
    method AddBytesNoCopy(bytes: seq<byte>)
      requires Valid() && buildingTlv && noCopyBytes == []
      modifies this
      ensures Valid() && buildingTlv && done == old(done) && opcode == old(opcode)
      ensures payload == old(payload) + bytes
      ensures cur == old(cur) && noCopyBytes == bytes
    {
      noCopyBytes := bytes;
      noCopyBytesOffset := cur;
      tlvLen := tlvLen + |bytes|;
      PayloadGrows(header + EncodeTlvs(done), BigEndian(opcode, 2), lengthHole, payload, bytes);
      ViewEnd(buf[..cur], old(noCopyBytesOffset), bytes);
      payload := payload + bytes;
      octets := octets + bytes;
    }

    /** The TLV's payload grows by octets copied into the buffer. */
    method AddBytes(bytes: seq<byte>)
      requires Valid() && buildingTlv && cur + |bytes| <= buf.Length
      modifies this, buf
      ensures Valid() && buildingTlv && done == old(done) && opcode == old(opcode)
      ensures payload == old(payload) + bytes
      ensures cur == old(cur) + |bytes| && noCopyBytes == old(noCopyBytes)
    {
      ghost var raw := buf[..cur];
      Append(bytes);
      tlvLen := tlvLen + |bytes|;
      PayloadGrows(header + EncodeTlvs(done), BigEndian(opcode, 2), lengthHole, payload, bytes);
      ViewAppend(raw, noCopyBytes, noCopyBytesOffset, bytes);
      payload := payload + bytes;
      octets := octets + bytes;
    }

    method AddByte(b: byte)
      requires Valid() && buildingTlv && cur + 1 <= buf.Length
      modifies this, buf
      ensures Valid() && buildingTlv && done == old(done) && opcode == old(opcode)
      ensures payload == old(payload) + [b]
      ensures cur == old(cur) + 1 && noCopyBytes == old(noCopyBytes)
    {
      AddBytes([b]);
    }

    method AddU16(v: uint16)
      requires Valid() && buildingTlv && cur + 2 <= buf.Length
      modifies this, buf
      ensures Valid() && buildingTlv && done == old(done) && opcode == old(opcode)
      ensures payload == old(payload) + BigEndian(v, 2)
      ensures cur == old(cur) + 2 && noCopyBytes == old(noCopyBytes)
    {
      BigEndian2(v);
      AddBytes([v / 0x100, v % 0x100]);
    }

    method AddU32(v: uint32)
      requires Valid() && buildingTlv && cur + 4 <= buf.Length
      modifies this, buf
      ensures Valid() && buildingTlv && done == old(done) && opcode == old(opcode)
      ensures payload == old(payload) + BigEndian(v, 4)
      ensures cur == old(cur) + 4 && noCopyBytes == old(noCopyBytes)
    {
      BigEndian4(v);
      AddBytes([v / 0x100_0000, v / 0x1_0000 % 0x100, v / 0x100 % 0x100, v % 0x100]);
    }

    method FinishTlv()
      requires Valid() && buildingTlv && tlvLen <= 65535
      modifies this, buf
      ensures Valid() && !buildingTlv && cur == old(cur)
      ensures done == old(done) + [Tlv(old(opcode), old(payload))]
      ensures noCopyBytes == old(noCopyBytes)
    {
      ghost var raw := buf[..cur];
      ghost var base := header + EncodeTlvs(done);
      var hi: byte, lo: byte := tlvLen / 0x100, tlvLen % 0x100;
      buf[tlvLenOffset] := hi;
      buf[tlvLenOffset + 1] := lo;
      tlvLen := 0;
      buildingTlv := false;
      ghost var stored: seq<byte> := raw[tlvLenOffset := hi];
      stored := stored[tlvLenOffset + 1 := lo];
      assert buf[..cur] == stored;
      FinishedView(raw, buf[..cur], noCopyBytes, noCopyBytesOffset, tlvLenOffset, base, opcode, lengthHole, payload);
      EncodeTlvsAppend(done, Tlv(opcode, payload));
      ConcatAssociates(header, EncodeTlvs(done), EncodeTlv(Tlv(opcode, payload)));
      done := done + [Tlv(opcode, payload)];
      octets := header + EncodeTlvs(done);
    }

    /** How many of the three parts a message is written in are not empty. */
    ghost function Pieces(): nat
      requires Valid()
      reads this, buf
    {
      (if noCopyBytesOffset > 0 then 1 else 0) + (if noCopyBytes != [] then 1 else 0)
      + (if noCopyBytesOffset < cur then 1 else 0)
    }

    /** dso_message_length. */
    method Length() returns (n: nat)
      requires Valid()
      ensures n == |octets|
    {
      n := cur + |noCopyBytes|;
    }
  }

  lemma {:induction false} PayloadGrows(base: seq<byte>, op: seq<byte>, hole: seq<byte>, payload: seq<byte>, more: seq<byte>)
    ensures base + (op + (hole + payload)) + more == base + (op + (hole + (payload + more)))
  {
  }

  lemma {:induction false} ViewEnd(raw: seq<byte>, at: nat, bytes: seq<byte>)
    requires at <= |raw|
    ensures View(raw, bytes, |raw|) == raw + bytes
    ensures View(raw, [], at) == raw
  {
  }

  lemma {:induction false} ThreePartsTake(all: seq<byte>, a: seq<byte>, b: seq<byte>, c: seq<byte>)
    requires |a| + |b| + |c| <= |all| && all[..|a| + |b|] == a + b && all[|a| + |b|..|a| + |b| + |c|] == c
    ensures all[..|a| + |b| + |c|] == a + (b + c)
  {
    assert all[..|a| + |b| + |c|] == all[..|a| + |b|] + all[|a| + |b|..|a| + |b| + |c|];
  }

  lemma {:induction false} StartedView(raw: seq<byte>, noCopy: seq<byte>, at: nat, opcode: uint16, hole: seq<byte>)
    requires at <= |raw|
    ensures View(raw + (BigEndian(opcode, 2) + hole), noCopy, at)
         == View(raw, noCopy, at) + (BigEndian(opcode, 2) + (hole + []))
    ensures |View(raw, noCopy, at)| == |raw| + |noCopy|
  {
    assert hole + [] == hole;
    ViewAppend(raw, noCopy, at, BigEndian(opcode, 2) + hole);
  }

  /** Storing the length completes the TLV in the message, wherever the no-copy octets lie. */
  lemma {:induction false} FinishedView(raw: seq<byte>, stored: seq<byte>, noCopy: seq<byte>, at: nat, p: nat,
                     base: seq<byte>, opcode: uint16, hole: seq<byte>, payload: seq<byte>)
    requires at <= |raw| && p + 2 <= |raw| && (p + 2 <= at || at <= p)
    requires |payload| <= 65535 && |hole| == 2
    requires stored == raw[p := |payload| / 0x100][p + 1 := |payload| % 0x100]
    requires Shift(p, noCopy, at) == |base| + 2
    requires View(raw, noCopy, at) == base + (BigEndian(opcode, 2) + (hole + payload))
    ensures View(stored, noCopy, at) == base + EncodeTlv(Tlv(opcode, payload))
  {
    ViewStore(raw, stored, noCopy, at, p, |payload| / 0x100, |payload| % 0x100);
    BigEndian2(|payload|);
    FillHole(base, BigEndian(opcode, 2), hole, payload, BigEndian(|payload|, 2));
  }

  lemma {:induction false} FillHole(base: seq<byte>, op: seq<byte>, hole: seq<byte>, payload: seq<byte>, length: seq<byte>)
    requires |op| == |hole| == |length| == 2
    ensures var s, q := base + (op + (hole + payload)), |base| + 2;
            s[..q] + length + s[q + 2..] == base + (op + (length + payload))
  {
    var s, q := base + (op + (hole + payload)), |base| + 2;
    assert s[..q] == base + op;
    assert s[q + 2..] == payload;
  }

  lemma {:induction false} BigEndian4(v: uint32)
    ensures BigEndian(v, 4) == [v / 0x100_0000, v / 0x1_0000 % 0x100, v / 0x100 % 0x100, v % 0x100]
  {
    BigEndian2(v / 0x1_0000);
    assert v / 0x100 / 0x100 == v / 0x1_0000;
    assert v / 0x1_0000 / 0x100 == v / 0x100_0000;
    assert BigEndian(v / 0x100, 3) == BigEndian(v / 0x100 / 0x100, 2) + [v / 0x100 % 0x100];
  }

  /**
   * What the builder made, the receiver recovers: the primary TLV of a finished message and the
   * first ten more are recorded by the receive loop with the same opcodes and payloads, in order.
   */
  lemma {:induction false} BuiltMessageParses(m: OutMessage, tail: seq<byte>, before: Parsed)
    requires m.Valid() && !m.buildingTlv && |tail| == 4
    requires m.done != []
    ensures var mem, n, more := m.octets + tail, |m.octets|, m.done[1..];
            Record(before, ReadTlvs(mem, n, HEADER_SIZE)) == Parsed(m.done[0], more[..Min(|more|, 10)], true)
  {
    var mem, n := m.octets + tail, |m.octets|;
    assert mem[HEADER_SIZE..n] == EncodeTlvs(m.done);
    assert m.done == [m.done[0]] + m.done[1..];
    RecordsAllTlvs(before, mem, n, m.done[0], m.done[1..]);
  }

  // ----- The writer -----------------------------------------------------------------------------

  /** dso_transport_t, as far as writing uses it; to_write points at octets that do not change. */
  class Transport {
    var connected: bool
    var toWrite: array<seq<byte>>
    var numToWrite: nat
    /** Octets accepted by the connection so far. */
    var wire: seq<byte>
    /** Whether a failed write cancelled the DSO connection. */
    var cancelled: bool

    ghost predicate Valid()
      reads this
    {
      toWrite.Length == 4
    }

    /** The pieces registered so far, joined. */
    ghost function Pending(): seq<byte>
      requires Valid() && numToWrite <= MAX_WRITE_HUNKS
      reads this, toWrite
    {
      Flatten(toWrite[..numToWrite])
    }

    constructor (connected: bool)
      ensures Valid() && fresh(toWrite) && this.connected == connected && wire == [] && !cancelled
    {
      this.connected := connected;
      toWrite := new seq<byte>[MAX_WRITE_HUNKS](_ => []);
      numToWrite, wire, cancelled := 0, [], false;
    }

    /** writable says whether the connection is below its low-water mark. */
    method WriteStart(length: nat, writable: bool) returns (ok: bool)
      requires Valid()
      modifies this`numToWrite, toWrite
      ensures Valid()
      ensures 12 <= length <= 65535 ==>
                ok == writable && numToWrite == 1 && Pending() == BigEndian(length, 2)
      ensures !(12 <= length <= 65535) ==> !ok && numToWrite == old(numToWrite) && toWrite[..] == old(toWrite[..])
    {
      if length < 12 || length > 65535 {
        return false;
      }
      toWrite[0] := [length / 0x100, length % 0x100];
      numToWrite := 1;
      BigEndian2(length);
      assert toWrite[..1] == [toWrite[0]];
      FlattenAppend([], toWrite[0]);
      return writable;
    }

    method Write(octets: seq<byte>)
      requires Valid()
      modifies this`numToWrite, toWrite
      ensures Valid()
      ensures octets == [] ==> numToWrite == old(numToWrite)
      ensures octets != [] ==> numToWrite == old(numToWrite) + 1
      ensures numToWrite <= 4 ==> Pending() == old(if numToWrite <= 4 then Pending() else []) + octets
    {
      if octets == [] {
        return;
      }
      if numToWrite >= MAX_WRITE_HUNKS {
        numToWrite := numToWrite + 1;
        return;
      }
      ghost var before := toWrite[..numToWrite];
      toWrite[numToWrite] := octets;
      numToWrite := numToWrite + 1;
      assert toWrite[..numToWrite] == before + [octets];
      FlattenAppend(before, octets);
    }

    /** result(i, n) is what the platform returns for writing piece i of n octets. */
    method WriteFinish(result: (nat, nat) -> int) returns (ok: bool)
      requires Valid() && forall i, n :: result(i, n) <= n
      modifies this`wire, this`cancelled
      ensures ok <==> numToWrite <= 4 && AllTaken(result, toWrite[..numToWrite])
      ensures ok ==> wire == old(wire) + Pending() && cancelled == old(cancelled)
      ensures !ok ==> cancelled
      ensures numToWrite > 4 ==> wire == old(wire)
    {
      if numToWrite > MAX_WRITE_HUNKS {
        cancelled := true;
        return false;
      }
      ghost var pieces := toWrite[..numToWrite];
      ghost var start := wire;
      NothingJoined(start, pieces);
      for i := 0 to numToWrite
        invariant toWrite[..numToWrite] == pieces
        invariant wire == start + Flatten(pieces[..i]) && cancelled == old(cancelled)
        invariant AllTaken(result, pieces[..i])
      {
        var hunk := toWrite[i];
        assert hunk == pieces[i];
        var n := result(i, |hunk|);
        if n != |hunk| {
          if n > 0 {
            wire := wire + hunk[..n];
          }
          cancelled := true;
          OneNotTaken(result, pieces, i);
          return false;
        }
        wire := wire + hunk;
        OneMoreTaken(result, pieces, i);
        OneMoreJoined(start, pieces, i);
      }
      assert pieces[..numToWrite] == pieces;
      return true;
    }

    /** Registers the buffer up to the no-copy octets, those octets, and the rest of the buffer. */
    method WritePieces(msg: OutMessage)
      requires Valid() && msg.Valid()
      modifies this`numToWrite, toWrite
      ensures Valid() && numToWrite == old(numToWrite) + msg.Pieces()
      ensures numToWrite <= 4 ==> Pending() == old(Pending()) + msg.octets
    {
      ghost var start := if numToWrite <= MAX_WRITE_HUNKS then Pending() else [];
      var a, c := msg.buf[..msg.noCopyBytesOffset], msg.buf[msg.noCopyBytesOffset..msg.cur];
      Write(a);
      Write(msg.noCopyBytes);
      Write(c);
      PiecesInOrder(start, a, msg.noCopyBytes, c);
      assert msg.buf[..msg.cur][..msg.noCopyBytesOffset] == a;
      assert msg.buf[..msg.cur][msg.noCopyBytesOffset..] == c;
    }

    /**
     * dso_message_write. For a length the transport supports the connection gets the two-octet
     * length and then the message, with the no-copy octets in their place, in at most four pieces.
     * Any other length is refused, unless the caller disregards the refusal as if it came from the
     * low-water mark: then the message goes out after the pieces of the write before it, which
     * go out once more, and without a length of its own.
     */
    method MessageWrite(msg: OutMessage, disregardLowWater: bool, writable: bool, result: (nat, nat) -> int)
      returns (ok: bool)
      requires Valid() && msg.Valid()
      requires forall i, n :: result(i, n) <= n
      modifies this`numToWrite, this`wire, this`cancelled, toWrite
      ensures Valid()
      ensures 12 <= |msg.octets| <= 65535 && connected && (writable || disregardLowWater) ==>
                && numToWrite <= 4
                && Pending() == BigEndian(|msg.octets|, 2) + msg.octets
                && (ok ==> wire == old(wire) + BigEndian(|msg.octets|, 2) + msg.octets && cancelled == old(cancelled))
                && (ok <==> AllTaken(result, toWrite[..numToWrite]))
                && (!ok ==> cancelled)
      ensures !connected ==> !ok && wire == old(wire) && cancelled == old(cancelled)
      ensures !(12 <= |msg.octets| <= 65535 && writable) && !disregardLowWater ==>
                !ok && wire == old(wire) && cancelled == old(cancelled)
      ensures !(12 <= |msg.octets| <= 65535) && connected && disregardLowWater ==>
                && numToWrite == old(numToWrite) + msg.Pieces()
                && (numToWrite > 4 ==> !ok && wire == old(wire))
                && (numToWrite <= 4 ==> Pending() == old(Pending()) + msg.octets)
                && (ok ==> wire == old(wire) + old(Pending()) + msg.octets && cancelled == old(cancelled))
                && (ok <==> numToWrite <= 4 && AllTaken(result, toWrite[..numToWrite]))
                && (!ok ==> cancelled)
    {
      if !connected {
        return false;
      }
      var length := msg.Length();
      var started := WriteStart(length, writable);
      if !started && !disregardLowWater {
        return false;
      }
      ghost var before := if numToWrite <= MAX_WRITE_HUNKS then Pending() else [];
      WritePieces(msg);
      ok := WriteFinish(result);
      ConcatAssociates(old(wire), before, msg.octets);
    }
  }

  /** The platform takes every piece whole. */
  ghost predicate AllTaken(result: (nat, nat) -> int, pieces: seq<seq<byte>>)
  {
    forall i :: 0 <= i < |pieces| ==> result(i, |pieces[i]|) == |pieces[i]|
  }

  lemma {:induction false} OneMoreTaken(result: (nat, nat) -> int, pieces: seq<seq<byte>>, i: nat)
    requires i < |pieces| && AllTaken(result, pieces[..i]) && result(i, |pieces[i]|) == |pieces[i]|
    ensures AllTaken(result, pieces[..i + 1])
  {
    assert forall k :: 0 <= k < i ==> pieces[..i + 1][k] == pieces[..i][k];
  }

  lemma {:induction false} OneNotTaken(result: (nat, nat) -> int, pieces: seq<seq<byte>>, i: nat)
    requires i < |pieces| && result(i, |pieces[i]|) != |pieces[i]|
    ensures !AllTaken(result, pieces)
  {
  }

  lemma {:induction false} NothingJoined(start: seq<byte>, pieces: seq<seq<byte>>)
    ensures start + Flatten(pieces[..0]) == start
  {
    assert Flatten(pieces[..0]) == [];
  }

  lemma {:induction false} OneMoreJoined(start: seq<byte>, pieces: seq<seq<byte>>, i: nat)
    requires i < |pieces|
    ensures start + Flatten(pieces[..i]) + pieces[i] == start + Flatten(pieces[..i + 1])
  {
    assert pieces[..i + 1] == pieces[..i] + [pieces[i]];
    FlattenAppend(pieces[..i], pieces[i]);
    ConcatAssociates(start, Flatten(pieces[..i]), pieces[i]);
  }

  lemma {:induction false} PiecesInOrder(start: seq<byte>, a: seq<byte>, b: seq<byte>, c: seq<byte>)
    ensures start + a + b + c == start + (a + b + c)
  {
    assert start + a + b + c == start + (a + b + c);
  }
}
