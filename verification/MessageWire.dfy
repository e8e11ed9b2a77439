// Resource records, EDNS(0) options and whole DNS messages
// (ServiceRegistration/fromwire.c:39-81 and 389-583 and 658-720).

module MessageWire {
  import opened Bytes
  import opened NameWire
  import opened Repeats

  const RR_A: uint16 := 1
  const RR_NS: uint16 := 2
  const RR_CNAME: uint16 := 5
  const RR_PTR: uint16 := 12
  const RR_TXT: uint16 := 16
  const RR_SIG: uint16 := 24
  const RR_KEY: uint16 := 25
  const RR_AAAA: uint16 := 28
  const RR_SRV: uint16 := 33
  const RR_OPT: uint16 := 41

  /** The most records a section may announce. */
  const MAX_RECORDS := 50

  datatype RData =
    | Absent
    | Key(flags: uint16, protocol: byte, algorithm: byte, key: seq<byte>)
    | Sig(covered: uint16, sigAlgorithm: byte, labels: byte, rrttl: uint32, expiry: uint32,
          inception: uint32, keyTag: uint16, signer: Name, start: nat, signature: seq<byte>)
    | Srv(priority: uint16, weight: uint16, port: uint16, target: Name)
    | DomainName(name: Name)
    | A(a: seq<byte>)
    | Aaaa(aaaa: seq<byte>)
    | Txt(txt: seq<byte>)
    | Unparsed(data: seq<byte>)

  datatype RR = RR(name: Name, rtype: uint16, qclass: uint16, ttl: uint32, rdata: RData)

  datatype Edns = Edns(code: uint16, data: seq<byte>)

  datatype Message = Message(
    questions: seq<RR>, answers: seq<RR>, authority: seq<RR>, additional: seq<RR>, edns0: seq<Edns>)

  predicate HasName(rtype: uint16)
  {
    rtype == RR_NS || rtype == RR_PTR || rtype == RR_CNAME
  }

  // ----- Record data ----------------------------------------------------------------------

  /** The record data in buf[off..target], or None where the source returns false. */
  function ParseRData(rtype: uint16, buf: seq<byte>, off: nat, target: nat, rrstart: nat): Option<RData>
    requires off <= target <= |buf|
  {
    if rtype == RR_KEY then
      if off + 4 > target then None
      else Some(Key(Uint16(buf, off), buf[off + 2], buf[off + 3], buf[off + 4..target]))
    else if rtype == RR_SIG then
      if off + 18 > target then None
      else
        var (signer, end) :- ParseName(buf, target, off + 18, off + 18);
        Some(Sig(Uint16(buf, off), buf[off + 2], buf[off + 3], Uint32(buf, off + 4), Uint32(buf, off + 8),
                 Uint32(buf, off + 12), Uint16(buf, off + 16), signer, rrstart, buf[end..target]))
    else if rtype == RR_SRV then
      if off + 6 > target then None
      else
        var (name, end) :- ParseName(buf, target, off + 6, off + 6);
        if end != target then None
        else Some(Srv(Uint16(buf, off), Uint16(buf, off + 2), Uint16(buf, off + 4), name))
    else if HasName(rtype) then
      var (name, end) :- ParseName(buf, target, off, off);
      if end != target then None else Some(DomainName(name))
    else if rtype == RR_A then
      if target - off != 4 then None else Some(A(buf[off..target]))
    else if rtype == RR_AAAA then
      if target - off != 16 then None else Some(Aaaa(buf[off..target]))
    else if rtype == RR_TXT then
      Some(Txt(buf[off..off + (target - off) % 0x100]))
    else
      Some(Unparsed(buf[off..target]))
  }

  function Uint16(buf: seq<byte>, off: nat): uint16
    requires off + 2 <= |buf|
  {
    FromBigEndianBound(buf[off..off + 2]);
    Pow256Values();
    Uint(buf, off, 2)
  }

  function Uint32(buf: seq<byte>, off: nat): uint32
    requires off + 4 <= |buf|
  {
    FromBigEndianBound(buf[off..off + 4]);
    Pow256Values();
    Uint(buf, off, 4)
  }

  method ParseRDataAt(c: Cursor, rtype: uint16, target: nat, rrstart: nat) returns (rd: Option<RData>)
    requires c.off <= target <= |c.buf|
    modifies c`off
    ensures rd == ParseRData(rtype, c.buf, old(c.off), target, rrstart)
    ensures rd.Some? ==> c.off == target
    ensures c.off <= target
  {
    var r := Absent;
    if rtype == RR_KEY {
      r := ParseKey(c, target);
    } else if rtype == RR_SIG {
      r := ParseSig(c, target, rrstart);
    } else if rtype == RR_SRV {
      r := ParseSrv(c, target);
    } else if HasName(rtype) {
      var ok, name;
      ghost var calls;
      ok, name, calls := c.ParseNameIn(target, c.off);
      if ok && c.off == target {
        r := DomainName(name);
      }
    } else if rtype == RR_A {
      if target - c.off == 4 {
        r := A(c.buf[c.off..target]);
        c.off := target;
      }
    } else if rtype == RR_AAAA {
      if target - c.off == 16 {
        r := Aaaa(c.buf[c.off..target]);
        c.off := target;
      }
    } else if rtype == RR_TXT {
      // The kept length is a uint8_t.
      var left := (target - c.off) % 0x100;
      r := Txt(c.buf[c.off..c.off + left]);
      c.off := target;
    } else {
      r := Unparsed(c.buf[c.off..target]);
      c.off := target;
    }
    rd := if r.Absent? then None else Some(r);
  }

  method ParseKey(c: Cursor, target: nat) returns (rd: RData)
    requires c.off <= target <= |c.buf|
    modifies c`off
    ensures (if rd.Absent? then None else Some(rd)) == ParseRData(RR_KEY, c.buf, old(c.off), target, 0)
    ensures !rd.Absent? ==> c.off == target
    ensures c.off <= target
  {
    rd := Absent;
    var flags := c.ParseU16(target);
    if flags.None? { return; }
    var protocol := c.ParseU8(target);
    if protocol.None? { return; }
    var algorithm := c.ParseU8(target);
    if algorithm.None? { return; }
    rd := Key(flags.value, protocol.value, algorithm.value, c.buf[c.off..target]);
    c.off := target;
  }

  method ParseSig(c: Cursor, target: nat, rrstart: nat) returns (rd: RData)
    requires c.off <= target <= |c.buf|
    modifies c`off
    ensures (if rd.Absent? then None else Some(rd)) == ParseRData(RR_SIG, c.buf, old(c.off), target, rrstart)
    ensures !rd.Absent? ==> c.off == target
    ensures c.off <= target
  {
    rd := Absent;
    var covered := c.ParseU16(target);
    if covered.None? { return; }
    var algorithm := c.ParseU8(target);
    if algorithm.None? { return; }
    var labels := c.ParseU8(target);
    if labels.None? { return; }
    var rrttl := c.ParseU32(target);
    if rrttl.None? { return; }
    var expiry := c.ParseU32(target);
    if expiry.None? { return; }
    var inception := c.ParseU32(target);
    if inception.None? { return; }
    var keyTag := c.ParseU16(target);
    if keyTag.None? { return; }
    var ok, signer;
    ghost var calls;
    ok, signer, calls := c.ParseNameIn(target, c.off);
    if !ok { return; }
    rd := Sig(covered.value, algorithm.value, labels.value, rrttl.value, expiry.value,
              inception.value, keyTag.value, signer, rrstart, c.buf[c.off..target]);
    c.off := target;
  }

  method ParseSrv(c: Cursor, target: nat) returns (rd: RData)
    requires c.off <= target <= |c.buf|
    modifies c`off
    ensures (if rd.Absent? then None else Some(rd)) == ParseRData(RR_SRV, c.buf, old(c.off), target, 0)
    ensures !rd.Absent? ==> c.off == target
    ensures c.off <= target
  {
    rd := Absent;
    var priority := c.ParseU16(target);
    if priority.None? { return; }
    var weight := c.ParseU16(target);
    if weight.None? { return; }
    var port := c.ParseU16(target);
    if port.None? { return; }
    var ok, name;
    ghost var calls;
    ok, name, calls := c.ParseNameIn(target, c.off);
    if ok && c.off == target {
      rd := Srv(priority.value, weight.value, port.value, name);
    }
  }

  // ----- Records, sections and messages ----------------------------------------------------

  /** The ttl, the record data's length and the record data itself, at off. */
  function ParseTtlAndData(buf: seq<byte>, len: nat, off: nat, rtype: uint16, rrstart: nat): (r: Option<(uint32, RData, nat)>)
    requires off <= len <= |buf|
    ensures r.Some? ==> off < r.value.2 <= len
  {
    if off + 6 > len then None
    else
      var target := off + 6 + Uint16(buf, off + 4) as int;
      if target > len then None
      else
        var rdata :- ParseRData(rtype, buf, off + 6, target, rrstart);
        Some((Uint32(buf, off), rdata, target))
  }

  method ParseTtlAndDataAt(c: Cursor, len: nat, rtype: uint16, rrstart: nat) returns (r: Option<(uint32, RData)>)
    requires c.off <= len <= |c.buf|
    modifies c`off
    ensures r.Some? <==> ParseTtlAndData(c.buf, len, old(c.off), rtype, rrstart).Some?
    ensures r.Some? ==> ParseTtlAndData(c.buf, len, old(c.off), rtype, rrstart)
                        == Some((r.value.0, r.value.1, c.off))
    ensures c.off <= len
  {
    var ttl := c.ParseU32(len);
    if ttl.None? { return None; }
    var rdlen := c.ParseU16(len);
    if rdlen.None? { return None; }
    var target := c.off + rdlen.value;
    if target > len { return None; }
    var rd := ParseRDataAt(c, rtype, target, rrstart);
    if rd.None? { return None; }
    return Some((ttl.value, rd.value));
  }

  /** One record at off, and the offset after it. */
  function ParseRR(buf: seq<byte>, len: nat, off: nat, rdataExpected: bool): (r: Option<(RR, nat)>)
    requires off <= len <= |buf|
    ensures r.Some? ==> off < r.value.1 <= len
  {
    var (name, at) :- ParseName(buf, len, off, off);
    if at + 4 > len then None
    else
      var rtype, qclass := Uint16(buf, at), Uint16(buf, at + 2);
      if !rdataExpected then Some((RR(name, rtype, qclass, 0, Absent), at + 4))
      else
        var (ttl, rdata, end) :- ParseTtlAndData(buf, len, at + 4, rtype, off);
        Some((RR(name, rtype, qclass, ttl, rdata), end))
  }

  method ParseRRAt(c: Cursor, len: nat, rdataExpected: bool) returns (rr: Option<RR>)
    requires c.off <= len <= |c.buf|
    modifies c`off
    ensures rr.Some? <==> ParseRR(c.buf, len, old(c.off), rdataExpected).Some?
    ensures rr.Some? ==> ParseRR(c.buf, len, old(c.off), rdataExpected) == Some((rr.value, c.off))
    ensures c.off <= len
  {
    var rrstart := c.off;
    var ok, name;
    ghost var calls;
    ok, name, calls := c.ParseNameIn(len, c.off);
    if !ok { return None; }
    var rtype := c.ParseU16(len);
    if rtype.None? { return None; }
    var qclass := c.ParseU16(len);
    if qclass.None? { return None; }
    if !rdataExpected {
      return Some(RR(name, rtype.value, qclass.value, 0, Absent));
    }
    var data := ParseTtlAndDataAt(c, len, rtype.value, rrstart);
    if data.None? { return None; }
    return Some(RR(name, rtype.value, qclass.value, data.value.0, data.value.1));
  }

  /** The record parser as a function of the offset alone. */
  function RecordParser(data: seq<byte>, rdataExpected: bool): Parser<RR>
  {
    (off: nat) => if off <= |data| then ParseRR(data, |data|, off, rdataExpected) else None
  }

  /** A section of the count the header announces, at most MAX_RECORDS. */
  function ParseCounted(record: Parser<RR>, off: nat, count: uint16): (r: Option<(seq<RR>, nat)>)
    ensures r.Some? ==> |r.value.0| == count <= MAX_RECORDS
  {
    if count > MAX_RECORDS then None else Repeat(record, off, count)
  }

  method ParseSectionAt(c: Cursor, count: uint16, rdataExpected: bool) returns (rrs: Option<seq<RR>>)
    requires c.off <= |c.buf|
    modifies c`off
    ensures rrs.Some? <==> ParseCounted(RecordParser(c.buf, rdataExpected), old(c.off), count).Some?
    ensures rrs.Some? ==> ParseCounted(RecordParser(c.buf, rdataExpected), old(c.off), count) == Some((rrs.value, c.off))
    ensures c.off <= |c.buf|
  {
    if count > MAX_RECORDS {
      return None;
    }
    ghost var record := RecordParser(c.buf, rdataExpected);
    var sets := [];
    for i := 0 to count
      invariant c.off <= |c.buf|
      invariant Repeat(record, old(c.off), i) == Some((sets, c.off))
    {
      RepeatMore(record, old(c.off), i, sets, c.off);
      var rr := ParseRRAt(c, |c.buf|, rdataExpected);
      if rr.None? {
        if Repeat(record, old(c.off), count).Some? {
          RepeatPrefix(record, old(c.off), i + 1, count);
        }
        return None;
      }
      sets := sets + [rr.value];
    }
    return Some(sets);
  }

  // ----- EDNS(0) options, RFC 6891 section 6.1.2 -------------------------------------------

  /** The options in data from off on. */
  function ParseOptions(data: seq<byte>, off: nat): Option<seq<Edns>>
    requires off <= |data|
    decreases |data| - off
  {
    if off == |data| then Some([])
    else if off + 4 > |data| then None
    else
      var end := off + 4 + Uint16(data, off + 2) as int;
      if end > |data| then None
      else
        var rest :- ParseOptions(data, end);
        Some([Edns(Uint16(data, off), data[off + 4..end])] + rest)
  }

  method OptParse(data: seq<byte>) returns (opts: Option<seq<Edns>>)
    ensures opts == ParseOptions(data, 0)
  {
    var c := new Cursor(data, 0);
    var list := [];
    assert ParseOptions(data, 0).Some? ==> list + ParseOptions(data, 0).value == ParseOptions(data, 0).value;
    while c.off < |data|
      invariant c.off <= |data|
      invariant c.buf == data
      invariant match ParseOptions(data, c.off)
                case None => ParseOptions(data, 0) == None
                case Some(rest) => ParseOptions(data, 0) == Some(list + rest)
      decreases |data| - c.off
    {
      ghost var rest := ParseOptions(data, c.off);
      var code := c.ParseU16(|data|);
      if code.None? { return None; }
      var n := c.ParseU16(|data|);
      if n.None? { return None; }
      if c.off + n.value > |data| { return None; }
      var option := Edns(code.value, data[c.off..c.off + n.value]);
      c.off := c.off + n.value;
      ghost var after := ParseOptions(data, c.off);
      assert after.Some? ==> list + ([option] + after.value) == list + [option] + after.value;
      list := list + [option];
    }
    assert list + [] == list;
    return Some(list);
  }

  /**
   * The option list of a message after the first i additional records. Each OPT record stores its
   * list over the one before it unless it holds no option; any malformed one fails the message.
   */
  function EdnsOf(additional: seq<RR>, i: nat): Option<seq<Edns>>
    requires i <= |additional|
  {
    if i == 0 then Some([])
    else
      var acc :- EdnsOf(additional, i - 1);
      var rr := additional[i - 1];
      if rr.rtype != RR_OPT || !rr.rdata.Unparsed? then Some(acc)
      else
        var opts :- ParseOptions(rr.rdata.data, 0);
        Some(if opts == [] then acc else opts)
  }

  lemma {:induction false} EdnsPrefix(additional: seq<RR>, i: nat, j: nat)
    requires i <= j <= |additional| && EdnsOf(additional, j).Some?
    ensures EdnsOf(additional, i).Some?
  {
    if i < j {
      EdnsPrefix(additional, i, j - 1);
    }
  }

  method EdnsOfAdditional(additional: seq<RR>) returns (r: Option<seq<Edns>>)
    ensures r == EdnsOf(additional, |additional|)
  {
    var edns0: seq<Edns> := [];
    for i := 0 to |additional|
      invariant EdnsOf(additional, i) == Some(edns0)
    {
      var rr := additional[i];
      if rr.rtype == RR_OPT && rr.rdata.Unparsed? {
        var opts := OptParse(rr.rdata.data);
        if opts.None? {
          if EdnsOf(additional, |additional|).Some? {
            EdnsPrefix(additional, i + 1, |additional|);
          }
          return None;
        }
        if opts.value != [] {
          edns0 := opts.value;
        }
      }
    }
    return Some(edns0);
  }

  function HeaderCount(wire: seq<byte>, section: nat): uint16
    requires |wire| >= HEADER_SIZE && section < 4
  {
    Uint16(wire, 4 + 2 * section)
  }

  /** The four sections in turn, each from where the one before ended, then the options. */
  function ParseSections(question: Parser<RR>, record: Parser<RR>, count: seq<uint16>): Option<Message>
    requires |count| == 4
  {
    var (qd, at1) :- ParseCounted(question, 0, count[0]);
    var (an, at2) :- ParseCounted(record, at1, count[1]);
    var (ns, at3) :- ParseCounted(record, at2, count[2]);
    var (ar, at4) :- ParseCounted(record, at3, count[3]);
    var edns0 :- EdnsOf(ar, |ar|);
    Some(Message(qd, an, ns, ar, edns0))
  }

  function Counts(wire: seq<byte>): (c: seq<uint16>)
    requires |wire| >= HEADER_SIZE
    ensures |c| == 4
  {
    [HeaderCount(wire, 0), HeaderCount(wire, 1), HeaderCount(wire, 2), HeaderCount(wire, 3)]
  }

  /** A whole message, or None where the source returns false. */
  function ParseMessage(wire: seq<byte>): Option<Message>
  {
    if |wire| < HEADER_SIZE then None
    else
      var data := wire[HEADER_SIZE..];
      ParseSections(RecordParser(data, false), RecordParser(data, true), Counts(wire))
  }

  method WireParse(wire: seq<byte>) returns (m: Option<Message>)
    ensures m == ParseMessage(wire)
  {
    if |wire| < HEADER_SIZE {
      return None;
    }
    var c := new Cursor(wire[HEADER_SIZE..], 0);
    var qd := ParseSectionAt(c, HeaderCount(wire, 0), false);
    if qd.None? { return None; }
    var an := ParseSectionAt(c, HeaderCount(wire, 1), true);
    if an.None? { return None; }
    var ns := ParseSectionAt(c, HeaderCount(wire, 2), true);
    if ns.None? { return None; }
    var ar := ParseSectionAt(c, HeaderCount(wire, 3), true);
    if ar.None? { return None; }
    var edns0 := EdnsOfAdditional(ar.value);
    if edns0.None? { return None; }
    return Some(Message(qd.value, an.value, ns.value, ar.value, edns0.value));
  }
}
