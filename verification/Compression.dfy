// Messages whose names may be compressed (RFC 1035 section 4.1.4): which octets hold a name, record
// data, a record and a message, and that the parser of ServiceRegistration/fromwire.c reads a message
// from just the octets that hold it.

module Compression {
  import opened Bytes
  import opened NameWire
  import opened Repeats
  import opened MessageWire
  import opened MessageLaws

  // ----- Names ------------------------------------------------------------------------------------

  /** data[off..end] holds the name: all its labels, or some of them and a pointer to the others. */
  ghost predicate NameAt(data: seq<byte>, off: nat, end: nat, name: Name)
    decreases off, 1
  {
    && WellFormed(name) && off <= end <= |data|
    && (data[off..end] == EncodeLabels(name) || exists k: nat, t: nat, e: nat :: PointsBack(data, off, end, name, k, t, e))
  }

  /** The first k labels, and a pointer to t, where the others lie before off, themselves compressed or not. */
  ghost predicate PointsBack(data: seq<byte>, off: nat, end: nat, name: Name, k: nat, t: nat, e: nat)
    requires WellFormed(name) && off <= end <= |data|
    decreases off, 0
  {
    && k < |name| && t < e <= off && t + HEADER_SIZE < 0x4000
    && data[off..end] == EncodeLabels(name[..k]) + EncodePointer(t)
    && IsLabel(data[t]) && NameAt(data, t, e, name[k..])
  }

  /** However it is compressed, the name is what the parser reads. */
  lemma {:induction false} NameAtReads(data: seq<byte>, off: nat, end: nat, name: Name)
    requires NameAt(data, off, end, name)
    ensures ParseName(data, |data|, off, off) == Some((name, end))
    decreases off
  {
    if data[off..end] == EncodeLabels(name) {
      EncodedNameReadsTo(data, off, end, name);
    } else {
      var k, t, e := PointerOf(data, off, end, name);
      NameAtReads(data, t, e, name[k..]);
      PointerReads(data, off, end, name, k, t, e);
    }
  }

  lemma {:induction false} PointerOf(data: seq<byte>, off: nat, end: nat, name: Name) returns (k: nat, t: nat, e: nat)
    requires NameAt(data, off, end, name) && data[off..end] != EncodeLabels(name)
    ensures k < |name| && t < e <= off && t + HEADER_SIZE < 0x4000 && IsLabel(data[t])
    ensures data[off..end] == EncodeLabels(name[..k]) + EncodePointer(t)
    ensures NameAt(data, t, e, name[k..])
  {
    k, t, e :| PointsBack(data, off, end, name, k, t, e);
  }

  /** The octets from end on do not matter. */
  lemma {:induction false} NameAtPrefix(data: seq<byte>, off: nat, end: nat, name: Name, len: nat)
    requires NameAt(data, off, end, name) && end <= len <= |data|
    ensures NameAt(data[..len], off, end, name)
    decreases off
  {
    assert data[..len][off..end] == data[off..end];
    if data[off..end] != EncodeLabels(name) {
      var k, t, e := PointerOf(data, off, end, name);
      NameAtPrefix(data, t, e, name[k..], len);
      assert PointsBack(data[..len], off, end, name, k, t, e);
    }
  }

  /** Read with a limit at or after its end, the name is the same. */
  lemma {:induction false} NameAtReadsWithin(data: seq<byte>, off: nat, end: nat, name: Name, len: nat)
    requires NameAt(data, off, end, name) && end <= len <= |data|
    ensures ParseName(data, len, off, off) == Some((name, end))
  {
    NameAtPrefix(data, off, end, name, len);
    NameAtReads(data[..len], off, end, name);
    MoreBuffer(data[..len], len, data, len, off, off);
  }

  /**
   * A path of labels and strictly backward pointers spells the name and leaves off at end, all of it
   * below len. This covers every name compressed legally.
   */
  ghost predicate Spelled(data: seq<byte>, len: nat, off: nat, end: nat, name: Name)
    requires len <= |data|
  {
    off <= len
    && exists path :: Expansion(data, len, off, off, path) && name == LabelsOf(data, len, path) && end == EndOf(data, path)
  }

  lemma {:induction false} SpelledIff(data: seq<byte>, len: nat, off: nat, end: nat, name: Name)
    requires off <= len <= |data|
    ensures Spelled(data, len, off, end, name) <==> ParseName(data, len, off, off) == Some((name, end))
    ensures Spelled(data, len, off, end, name) ==> WellFormed(name) && off < end <= len
  {
    ParseIffExpansion(data, len, off, off, name, end);
    if ParseName(data, len, off, off).Some? {
      ParsedShape(data, len, off, off);
    }
  }

  lemma {:induction false} NameAtIsSpelled(data: seq<byte>, off: nat, end: nat, name: Name, len: nat)
    requires NameAt(data, off, end, name) && end <= len <= |data|
    ensures Spelled(data, len, off, end, name)
  {
    NameAtReadsWithin(data, off, end, name, len);
    SpelledIff(data, len, off, end, name);
  }

  // ----- Record data --------------------------------------------------------------------------------

  /**
   * data[off..target] holds the record data of a record of this type, RFC 1035 section 3.2.2 and its
   * successors: NS, CNAME and PTR a name, SRV, SIG and KEY their fields, A and AAAA an address, TXT
   * text, of which the parser keeps the length modulo 256, and any other type its octets.
   */
  ghost predicate RDataAt(rtype: uint16, data: seq<byte>, off: nat, target: nat, rd: RData, rrstart: nat)
    requires off <= target <= |data|
  {
    if rtype == 2 || rtype == 5 || rtype == 12 then rd.DomainName? && Spelled(data, target, off, target, rd.name)
    else if rtype == 33 then rd.Srv? && SrvAt(data, off, target, rd)
    else if rtype == 24 then rd.Sig? && rd.start == rrstart && exists mid: nat :: SigAt(data, off, mid, target, rd)
    else if rtype == 25 then rd.Key? && KeyAt(data, off, target, rd)
    else if rtype == 1 then target - off == 4 && rd == A(data[off..target])
    else if rtype == 28 then target - off == 16 && rd == Aaaa(data[off..target])
    else if rtype == 16 then rd == Txt(data[off..off + (target - off) % 0x100])
    else rd == Unparsed(data[off..target])
  }

  ghost predicate SrvAt(data: seq<byte>, off: nat, target: nat, rd: RData)
    requires rd.Srv? && target <= |data|
  {
    && off + 6 <= target && Spelled(data, target, off + 6, target, rd.target)
    && Uint16(data, off) == rd.priority && Uint16(data, off + 2) == rd.weight && Uint16(data, off + 4) == rd.port
  }

  ghost predicate KeyAt(data: seq<byte>, off: nat, target: nat, rd: RData)
    requires rd.Key? && target <= |data|
  {
    && off + 4 <= target && Uint16(data, off) == rd.flags && data[off + 2] == rd.protocol
    && data[off + 3] == rd.algorithm && data[off + 4..target] == rd.key
  }

  ghost predicate SigAt(data: seq<byte>, off: nat, mid: nat, target: nat, rd: RData)
    requires rd.Sig? && target <= |data|
  {
    && off + 18 <= mid <= target
    && Uint16(data, off) == rd.covered && data[off + 2] == rd.sigAlgorithm && data[off + 3] == rd.labels
    && Uint32(data, off + 4) == rd.rrttl && Uint32(data, off + 8) == rd.expiry && Uint32(data, off + 12) == rd.inception
    && Uint16(data, off + 16) == rd.keyTag
    && Spelled(data, target, off + 18, mid, rd.signer) && data[mid..target] == rd.signature
  }

  lemma {:induction false} RDataAtIff(rtype: uint16, data: seq<byte>, off: nat, target: nat, rd: RData, rrstart: nat)
    requires off <= target <= |data|
    ensures RDataAt(rtype, data, off, target, rd, rrstart) <==> ParseRData(rtype, data, off, target, rrstart) == Some(rd)
  {
    if RDataAt(rtype, data, off, target, rd, rrstart) {
      RDataAtReads(rtype, data, off, target, rd, rrstart);
    }
    if ParseRData(rtype, data, off, target, rrstart) == Some(rd) {
      ReadRDataAt(rtype, data, off, target, rd, rrstart);
    }
  }

  lemma {:induction false} RDataAtReads(rtype: uint16, data: seq<byte>, off: nat, target: nat, rd: RData, rrstart: nat)
    requires off <= target <= |data| && RDataAt(rtype, data, off, target, rd, rrstart)
    ensures ParseRData(rtype, data, off, target, rrstart) == Some(rd)
  {
    match rd
    case Sig(_, _, _, _, _, _, _, _, _, _) =>
      if rtype == 24 {
        SigAtReads(data, off, target, rd, rrstart);
      }
    case Srv(_, _, _, name) => SpelledIff(data, target, off + 6, target, name);
    case DomainName(name) => SpelledIff(data, target, off, target, name);
    case _ =>
  }

  lemma {:induction false} SigAtReads(data: seq<byte>, off: nat, target: nat, rd: RData, rrstart: nat)
    requires off <= target <= |data| && rd.Sig? && rd.start == rrstart
    requires exists mid: nat :: SigAt(data, off, mid, target, rd)
    ensures ParseRData(RR_SIG, data, off, target, rrstart) == Some(rd)
  {
    var mid: nat :| SigAt(data, off, mid, target, rd);
    SpelledIff(data, target, off + 18, mid, rd.signer);
  }

  lemma {:induction false} ReadRDataAt(rtype: uint16, data: seq<byte>, off: nat, target: nat, rd: RData, rrstart: nat)
    requires off <= target <= |data| && ParseRData(rtype, data, off, target, rrstart) == Some(rd)
    ensures RDataAt(rtype, data, off, target, rd, rrstart)
  {
    if rtype == RR_SIG {
      ReadSigAt(data, off, target, rd, rrstart);
    } else if rtype == RR_SRV {
      SpelledIff(data, target, off + 6, target, rd.target);
    } else if HasName(rtype) {
      SpelledIff(data, target, off, target, rd.name);
    }
  }

  lemma {:induction false} ReadSigAt(data: seq<byte>, off: nat, target: nat, rd: RData, rrstart: nat)
    requires off <= target <= |data| && ParseRData(RR_SIG, data, off, target, rrstart) == Some(rd)
    ensures RDataAt(RR_SIG, data, off, target, rd, rrstart)
  {
    var (signer, mid) := ParseName(data, target, off + 18, off + 18).value;
    SpelledIff(data, target, off + 18, mid, signer);
    assert SigAt(data, off, mid, target, rd);
  }

  // ----- Records ------------------------------------------------------------------------------------

  /** data[off..end] holds the record: its name, to some place `at`, and what follows. */
  ghost predicate RecordAt(data: seq<byte>, off: nat, end: nat, rr: RR, rdataExpected: bool)
  {
    end <= |data|
    && exists at: nat :: Spelled(data, |data|, off, at, rr.name) && Follows(data, off, at, end, rr, rdataExpected)
  }

  /** Type, class and, where expected, ttl, length and data. */
  ghost predicate Follows(data: seq<byte>, off: nat, at: nat, end: nat, rr: RR, rdataExpected: bool)
    requires end <= |data|
  {
    && at + 4 <= end && Uint16(data, at) == rr.rtype && Uint16(data, at + 2) == rr.qclass
    && if rdataExpected then DataAt(data, off, at + 4, end, rr) else end == at + 4 && rr.ttl == 0 && rr.rdata == Absent
  }

  ghost predicate DataAt(data: seq<byte>, off: nat, at: nat, end: nat, rr: RR)
    requires end <= |data|
  {
    && at + 6 <= end && Uint32(data, at) == rr.ttl && Uint16(data, at + 4) as int == end - at - 6
    && RDataAt(rr.rtype, data, at + 6, end, rr.rdata, off)
  }

  /** The same in terms of what the parser reads. */
  ghost predicate FollowsRead(data: seq<byte>, off: nat, at: nat, end: nat, rr: RR, rdataExpected: bool)
  {
    && at + 4 <= |data| && Uint16(data, at) == rr.rtype && Uint16(data, at + 2) == rr.qclass
    && if rdataExpected then ParseTtlAndData(data, |data|, at + 4, rr.rtype, off) == Some((rr.ttl, rr.rdata, end))
       else end == at + 4 && rr.ttl == 0 && rr.rdata == Absent
  }

  lemma {:induction false} DataAtIff(data: seq<byte>, off: nat, at: nat, end: nat, rr: RR)
    requires at <= |data| && end <= |data|
    ensures DataAt(data, off, at, end, rr) <==>
            ParseTtlAndData(data, |data|, at, rr.rtype, off) == Some((rr.ttl, rr.rdata, end))
  {
    if at + 6 <= end {
      RDataAtIff(rr.rtype, data, at + 6, end, rr.rdata, off);
      TtlAndDataIff(data, off, at, end, rr, RDataAt(rr.rtype, data, at + 6, end, rr.rdata, off));
    }
  }

  /** held says whether the octets after the length hold the data. */
  lemma {:induction false} TtlAndDataIff(data: seq<byte>, off: nat, at: nat, end: nat, rr: RR, held: bool)
    requires at + 6 <= end <= |data|
    requires held <==> ParseRData(rr.rtype, data, at + 6, end, off) == Some(rr.rdata)
    ensures Uint32(data, at) == rr.ttl && Uint16(data, at + 4) as int == end - at - 6 && held <==>
            ParseTtlAndData(data, |data|, at, rr.rtype, off) == Some((rr.ttl, rr.rdata, end))
  {
  }

  lemma {:induction false} FollowsIff(data: seq<byte>, off: nat, at: nat, end: nat, rr: RR, rdataExpected: bool)
    requires end <= |data|
    ensures Follows(data, off, at, end, rr, rdataExpected) <==> FollowsRead(data, off, at, end, rr, rdataExpected)
  {
    if rdataExpected && at + 4 <= |data| {
      DataAtIff(data, off, at + 4, end, rr);
    }
  }

  lemma {:induction false} RecordAtIff(data: seq<byte>, off: nat, end: nat, rr: RR, rdataExpected: bool)
    ensures RecordAt(data, off, end, rr, rdataExpected) <==> RecordParser(data, rdataExpected)(off) == Some((rr, end))
  {
    if RecordAt(data, off, end, rr, rdataExpected) {
      RecordAtReads(data, off, end, rr, rdataExpected);
    }
    if RecordParser(data, rdataExpected)(off) == Some((rr, end)) {
      ReadRecordAt(data, off, end, rr, rdataExpected);
    }
  }

  lemma {:induction false} RecordAtReads(data: seq<byte>, off: nat, end: nat, rr: RR, rdataExpected: bool)
    requires RecordAt(data, off, end, rr, rdataExpected)
    ensures RecordParser(data, rdataExpected)(off) == Some((rr, end))
  {
    var at: nat :| Spelled(data, |data|, off, at, rr.name) && Follows(data, off, at, end, rr, rdataExpected);
    SpelledIff(data, |data|, off, at, rr.name);
    FollowsIff(data, off, at, end, rr, rdataExpected);
    PartsAreRecord(data, off, at, end, rr, rdataExpected);
  }

  lemma {:induction false} PartsAreRecord(data: seq<byte>, off: nat, at: nat, end: nat, rr: RR, rdataExpected: bool)
    requires off <= |data| && ParseName(data, |data|, off, off) == Some((rr.name, at))
    requires FollowsRead(data, off, at, end, rr, rdataExpected)
    ensures RecordParser(data, rdataExpected)(off) == Some((rr, end))
  {
    ParseRRFrom(data, off, at, rr, rdataExpected, end);
    assert ParseRR(data, |data|, off, rdataExpected) == Some((rr, end));
  }

  lemma {:induction false} ReadRecordAt(data: seq<byte>, off: nat, end: nat, rr: RR, rdataExpected: bool)
    requires RecordParser(data, rdataExpected)(off) == Some((rr, end))
    ensures RecordAt(data, off, end, rr, rdataExpected)
  {
    var at := RecordHasParts(data, off, end, rr, rdataExpected);
    SpelledIff(data, |data|, off, at, rr.name);
    FollowsIff(data, off, at, end, rr, rdataExpected);
  }

  lemma {:induction false} RecordHasParts(data: seq<byte>, off: nat, end: nat, rr: RR, rdataExpected: bool) returns (at: nat)
    requires RecordParser(data, rdataExpected)(off) == Some((rr, end))
    ensures off <= |data| && end <= |data| && ParseName(data, |data|, off, off) == Some((rr.name, at))
    ensures FollowsRead(data, off, at, end, rr, rdataExpected)
  {
    assert off <= |data| && ParseRR(data, |data|, off, rdataExpected) == Some((rr, end));
    at := ParseName(data, |data|, off, off).value.1;
  }

  // ----- Messages -----------------------------------------------------------------------------------

  /** The records of a section lie one after the other, each between its cuts. */
  ghost predicate SectionAt(data: seq<byte>, rrs: seq<RR>, cuts: seq<nat>, rdataExpected: bool)
  {
    |cuts| == |rrs| + 1
    && forall i :: 0 <= i < |rrs| ==> PlacedAt(data, rrs[i], cuts, i, rdataExpected)
  }

  ghost predicate PlacedAt(data: seq<byte>, rr: RR, cuts: seq<nat>, i: nat, rdataExpected: bool)
    requires i + 1 < |cuts|
  {
    RecordAt(data, cuts[i], cuts[i + 1], rr, rdataExpected)
  }

  /** The four sections lie one after the other, from offset 0. */
  ghost predicate SectionsAt(data: seq<byte>, m: Message, cuts: seq<seq<nat>>)
  {
    && |cuts| == 4
    && SectionAt(data, m.questions, cuts[0], false) && SectionAt(data, m.answers, cuts[1], true)
    && SectionAt(data, m.authority, cuts[2], true) && SectionAt(data, m.additional, cuts[3], true)
    && cuts[0][0] == 0
    && cuts[1][0] == cuts[0][|m.questions|]
    && cuts[2][0] == cuts[1][|m.answers|]
    && cuts[3][0] == cuts[2][|m.authority|]
  }

  ghost predicate HasSections(data: seq<byte>, m: Message)
  {
    exists cuts :: SectionsAt(data, m, cuts)
  }

  /** The header of some message ID and flags with the message's counts. */
  ghost predicate HeaderAt(wire: seq<byte>, m: Message)
    requires |wire| >= HEADER_SIZE
  {
    && |m.questions| <= 50 && |m.answers| <= 50 && |m.authority| <= 50 && |m.additional| <= 50
    && exists id: uint16, bitfield: uint16 :: wire[..HEADER_SIZE] == EncodeHeader(id, bitfield, m)
  }

  /** The octets hold the message, with whatever compression, and perhaps more after it. */
  ghost predicate MessageAt(wire: seq<byte>, m: Message)
  {
    && |wire| >= 12 && HeaderAt(wire, m) && HasSections(wire[12..], m) && OptionsAre(m.additional, |m.additional|, m.edns0)
  }

  /** An OPT record, RFC 6891 section 6.1.1. */
  ghost predicate IsOption(rr: RR)
  {
    rr.rtype == 41 && rr.rdata.Unparsed?
  }

  ghost predicate Encodes(rr: RR, opts: seq<Edns>)
    requires IsOption(rr)
  {
    OptionsFit(opts) && rr.rdata.data == EncodeOptions(opts)
  }

  /** The data of every OPT record among the first i is an encoding of options. */
  ghost predicate OptionsSound(additional: seq<RR>, i: nat)
    requires i <= |additional|
  {
    forall j :: 0 <= j < i && IsOption(additional[j]) ==> exists opts :: Encodes(additional[j], opts)
  }

  /**
   * The options the first i additional records give: all their OPT records are sound, and the last
   * of these that has any options has these, or none has any.
   */
  ghost predicate OptionsAre(additional: seq<RR>, i: nat, opts: seq<Edns>)
    requires i <= |additional|
  {
    OptionsSound(additional, i)
    && if opts == [] then forall j :: 0 <= j < i && IsOption(additional[j]) ==> additional[j].rdata.data == []
       else exists k :: 0 <= k < i && LastWith(additional, i, k, opts)
  }

  ghost predicate LastWith(additional: seq<RR>, i: nat, k: nat, opts: seq<Edns>)
    requires k < i <= |additional|
  {
    IsOption(additional[k]) && Encodes(additional[k], opts)
    && forall j :: k < j < i && IsOption(additional[j]) ==> additional[j].rdata.data == []
  }

  lemma {:induction false} OptionsSoundIff(additional: seq<RR>, i: nat)
    requires i <= |additional|
    ensures OptionsSound(additional, i) <==> EdnsOf(additional, i).Some?
  {
    if i > 0 {
      var rr := additional[i - 1];
      OptionsSoundIff(additional, i - 1);
      if IsOption(rr) {
        DataSoundIff(rr);
      }
    }
  }

  lemma {:induction false} DataSoundIff(rr: RR)
    requires IsOption(rr)
    ensures (exists opts :: Encodes(rr, opts)) <==> ParseOptions(rr.rdata.data, 0).Some?
    ensures rr.rdata.data == [] <==> ParseOptions(rr.rdata.data, 0) == Some([])
    ensures forall opts :: Encodes(rr, opts) <==> ParseOptions(rr.rdata.data, 0) == Some(opts)
  {
    forall opts
      ensures Encodes(rr, opts) <==> ParseOptions(rr.rdata.data, 0) == Some(opts)
    {
      OptionsExact(rr.rdata.data, opts);
    }
    if ParseOptions(rr.rdata.data, 0).Some? {
      assert Encodes(rr, ParseOptions(rr.rdata.data, 0).value);
    }
    assert EncodeOptions([]) == [];
    assert Encodes(rr, []) <==> rr.rdata.data == [];
  }

  lemma {:induction false} OptionsAreIff(additional: seq<RR>, i: nat, opts: seq<Edns>)
    requires i <= |additional|
    ensures OptionsAre(additional, i, opts) <==> EdnsOf(additional, i) == Some(opts)
  {
    OptionsSoundIff(additional, i);
    if OptionsSound(additional, i) {
      var edns0 := EdnsOf(additional, i).value;
      OptionsFound(additional, i);
      if OptionsAre(additional, i, opts) {
        OneLast(additional, i, opts, edns0);
      }
    }
  }

  /** What the parser finds are the options. */
  lemma {:induction false} OptionsFound(additional: seq<RR>, i: nat)
    requires i <= |additional| && EdnsOf(additional, i).Some?
    ensures OptionsAre(additional, i, EdnsOf(additional, i).value)
  {
    OptionsSoundIff(additional, i);
    if i > 0 {
      OptionsFound(additional, i - 1);
      var rr, before, opts := additional[i - 1], EdnsOf(additional, i - 1).value, EdnsOf(additional, i).value;
      if IsOption(rr) {
        DataSoundIff(rr);
        if rr.rdata.data != [] {
          assert LastWith(additional, i, i - 1, opts);
          return;
        }
      }
      if before != [] {
        var k :| 0 <= k < i - 1 && LastWith(additional, i - 1, k, before);
        assert LastWith(additional, i, k, before);
      }
    }
  }

  /** There is only one last record with options. */
  lemma {:induction false} OneLast(additional: seq<RR>, i: nat, a: seq<Edns>, b: seq<Edns>)
    requires i <= |additional| && OptionsAre(additional, i, a) && OptionsAre(additional, i, b)
    ensures a == b
  {
    if a != [] {
      var k :| 0 <= k < i && LastWith(additional, i, k, a);
      DataSoundIff(additional[k]);
      if b != [] {
        var l :| 0 <= l < i && LastWith(additional, i, l, b);
        DataSoundIff(additional[l]);
      }
    }
  }

  lemma {:induction false} SectionAtIff(data: seq<byte>, rrs: seq<RR>, cuts: seq<nat>, rdataExpected: bool)
    ensures SectionAt(data, rrs, cuts, rdataExpected) <==> Tiled(RecordParser(data, rdataExpected), rrs, cuts)
  {
    if |cuts| == |rrs| + 1 {
      forall i | 0 <= i < |rrs|
        ensures PlacedAt(data, rrs[i], cuts, i, rdataExpected)
            <==> TileAt(RecordParser(data, rdataExpected), rrs[i], cuts, i)
      {
        RecordAtIff(data, cuts[i], cuts[i + 1], rrs[i], rdataExpected);
      }
    }
  }

  /**
   * The parser reads a message exactly from the octets that hold it: a header with its counts, then
   * its records one after the other with their names compressed in any legal way or not at all.
   */
  lemma {:induction false} MessageAtIff(wire: seq<byte>, m: Message)
    ensures MessageAt(wire, m) <==> ParseMessage(wire) == Some(m)
  {
    if MessageAt(wire, m) {
      CompressedMessageParses(wire, m);
    }
    if ParseMessage(wire) == Some(m) {
      ReadMessageAt(wire, m);
    }
  }

  /** So any two encodings of a message, compressed or not, are read as the same records. */
  lemma {:induction false} CompressedMessageParses(wire: seq<byte>, m: Message)
    requires MessageAt(wire, m)
    ensures ParseMessage(wire) == Some(m)
  {
    HeaderAtIff(wire, m);
    OptionsAreIff(m.additional, |m.additional|, m.edns0);
    SectionsParse(wire[HEADER_SIZE..], m, Counts(wire));
  }

  lemma {:induction false} HeaderAtIff(wire: seq<byte>, m: Message)
    requires |wire| >= HEADER_SIZE
    ensures HeaderAt(wire, m) <==> CountsAre(m, Counts(wire))
  {
    if HeaderAt(wire, m) {
      var id: uint16, bitfield: uint16 :| wire[..HEADER_SIZE] == EncodeHeader(id, bitfield, m);
      HeaderRoundTrip(wire, id, bitfield, m);
    }
    if CountsAre(m, Counts(wire)) {
      ReadHeader(wire, m);
    }
  }

  lemma {:induction false} SectionsParse(data: seq<byte>, m: Message, count: seq<uint16>)
    requires HasSections(data, m) && |count| == 4 && CountsAre(m, count)
    requires EdnsOf(m.additional, |m.additional|) == Some(m.edns0)
    ensures ParseSections(RecordParser(data, false), RecordParser(data, true), count) == Some(m)
  {
    var cuts :| SectionsAt(data, m, cuts);
    SectionsAtRead(data, m, cuts, count);
  }

  lemma {:induction false} SectionsAtRead(data: seq<byte>, m: Message, cuts: seq<seq<nat>>, count: seq<uint16>)
    requires SectionsAt(data, m, cuts) && |count| == 4 && CountsAre(m, count)
    requires EdnsOf(m.additional, |m.additional|) == Some(m.edns0)
    ensures ParseSections(RecordParser(data, false), RecordParser(data, true), count) == Some(m)
  {
    SectionAtReads(data, m.questions, cuts[0], false);
    SectionAtReads(data, m.answers, cuts[1], true);
    SectionAtReads(data, m.authority, cuts[2], true);
    SectionAtReads(data, m.additional, cuts[3], true);
    FourRepeats(RecordParser(data, false), RecordParser(data, true), count, m,
                cuts[1][0], cuts[2][0], cuts[3][0], cuts[3][|m.additional|]);
  }

  lemma {:induction false} SectionAtReads(data: seq<byte>, rrs: seq<RR>, cuts: seq<nat>, rdataExpected: bool)
    requires SectionAt(data, rrs, cuts, rdataExpected)
    ensures Repeat(RecordParser(data, rdataExpected), cuts[0], |rrs|) == Some((rrs, cuts[|rrs|]))
  {
    SectionAtIff(data, rrs, cuts, rdataExpected);
    TilesRepeat(RecordParser(data, rdataExpected), rrs, cuts);
  }

  lemma {:induction false} ReadMessageAt(wire: seq<byte>, m: Message)
    requires ParseMessage(wire) == Some(m)
    ensures MessageAt(wire, m)
  {
    var cuts := MessageLayout(wire);
    var data := wire[HEADER_SIZE..];
    TiledSectionsAt(data, m, cuts);
    HeaderAtIff(wire, m);
    OptionsOfSections(RecordParser(data, false), RecordParser(data, true), Counts(wire), m);
    OptionsAreIff(m.additional, |m.additional|, m.edns0);
  }

  lemma {:induction false} TiledSectionsAt(data: seq<byte>, m: Message, cuts: seq<seq<nat>>)
    requires FourTiled(RecordParser(data, false), RecordParser(data, true), m, cuts, |data|)
    ensures SectionsAt(data, m, cuts)
  {
    SectionAtIff(data, m.questions, cuts[0], false);
    SectionAtIff(data, m.answers, cuts[1], true);
    SectionAtIff(data, m.authority, cuts[2], true);
    SectionAtIff(data, m.additional, cuts[3], true);
  }

  lemma {:induction false} OptionsOfSections(question: Parser<RR>, record: Parser<RR>, count: seq<uint16>, m: Message)
    requires |count| == 4 && ParseSections(question, record, count) == Some(m)
    ensures EdnsOf(m.additional, |m.additional|) == Some(m.edns0)
  {
  }

  /** A header with these counts is the encoding of one. */
  lemma {:induction false} ReadHeader(wire: seq<byte>, m: Message)
    requires |wire| >= HEADER_SIZE && CountsAre(m, Counts(wire))
    ensures wire[..HEADER_SIZE] == EncodeHeader(Uint16(wire, 0), Uint16(wire, 2), m)
  {
    ReadField2(wire, 0, HEADER_SIZE);
    ReadField2(wire, 2, HEADER_SIZE);
    ReadField2(wire, 4, HEADER_SIZE);
    ReadField2(wire, 6, HEADER_SIZE);
    ReadField2(wire, 8, HEADER_SIZE);
    ReadField2(wire, 10, HEADER_SIZE);
    EmptyConcat(wire[12..12], BigEndian(|m.additional|, 2));
    assert wire[0..HEADER_SIZE] == wire[..HEADER_SIZE];
  }

  lemma {:induction false} ReadField2(wire: seq<byte>, at: nat, end: nat)
    requires at + 2 <= end <= |wire|
    ensures wire[at..end] == BigEndian(Uint16(wire, at), 2) + wire[at + 2..end]
  {
    FromBigEndianRoundTrip(wire[at..at + 2]);
    SliceJoin(wire, at, at + 2, end);
  }

  /** A message is refused if the data of any OPT record in its additional section is no encoding of options. */
  lemma {:induction false} MalformedOptFails(wire: seq<byte>, m: Message, j: nat)
    requires |wire| >= 12 && HeaderAt(wire, m) && HasSections(wire[12..], m)
    requires j < |m.additional| && IsOption(m.additional[j]) && forall opts :: !Encodes(m.additional[j], opts)
    ensures ParseMessage(wire) == None
  {
    HeaderAtIff(wire, m);
    OptionsSoundIff(m.additional, |m.additional|);
    var cuts :| SectionsAt(wire[12..], m, cuts);
    SectionsFail(wire[12..], m, cuts, Counts(wire));
  }

  lemma {:induction false} SectionsFail(data: seq<byte>, m: Message, cuts: seq<seq<nat>>, count: seq<uint16>)
    requires SectionsAt(data, m, cuts) && |count| == 4 && CountsAre(m, count)
    requires EdnsOf(m.additional, |m.additional|) == None
    ensures ParseSections(RecordParser(data, false), RecordParser(data, true), count) == None
  {
    SectionAtReads(data, m.questions, cuts[0], false);
    SectionAtReads(data, m.answers, cuts[1], true);
    SectionAtReads(data, m.authority, cuts[2], true);
    SectionAtReads(data, m.additional, cuts[3], true);
    FourRepeatsFail(RecordParser(data, false), RecordParser(data, true), count, m, cuts[1][0], cuts[2][0], cuts[3][0]);
  }

  lemma {:induction false} FourRepeatsFail(question: Parser<RR>, record: Parser<RR>, count: seq<uint16>, m: Message,
                                           at1: nat, at2: nat, at3: nat)
    requires |count| == 4 && CountsAre(m, count)
    requires Repeat(question, 0, |m.questions|) == Some((m.questions, at1))
    requires Repeat(record, at1, |m.answers|) == Some((m.answers, at2))
    requires Repeat(record, at2, |m.authority|) == Some((m.authority, at3))
    requires Repeat(record, at3, |m.additional|).Some? && Repeat(record, at3, |m.additional|).value.0 == m.additional
    requires EdnsOf(m.additional, |m.additional|) == None
    ensures ParseSections(question, record, count) == None
  {
  }
}
