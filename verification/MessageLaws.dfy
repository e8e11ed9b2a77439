// What the message parser of ServiceRegistration/fromwire.c guarantees: the layout of the records
// it returns, and that standard encodings parse back to what was encoded.

module MessageLaws {
  import opened Bytes
  import opened NameWire
  import opened Repeats
  import opened MessageWire

  // ----- Layout ---------------------------------------------------------------------------

  ghost predicate Advances(p: Parser<RR>, len: nat)
  {
    forall off: nat :: p(off).Some? ==> off < p(off).value.1 <= len
  }

  lemma {:induction false} RecordAdvances(data: seq<byte>, rdataExpected: bool)
    ensures Advances(RecordParser(data, rdataExpected), |data|)
  {
  }

  /** The four sections' records fill consecutive ranges from offset 0, within len octets. */
  ghost predicate FourTiled(question: Parser<RR>, record: Parser<RR>, m: Message, cuts: seq<seq<nat>>, len: nat)
  {
    && |cuts| == 4
    && Tiled(question, m.questions, cuts[0]) && Tiled(record, m.answers, cuts[1])
    && Tiled(record, m.authority, cuts[2]) && Tiled(record, m.additional, cuts[3])
    && cuts[0][0] == 0
    && cuts[1][0] == cuts[0][|m.questions|]
    && cuts[2][0] == cuts[1][|m.answers|]
    && cuts[3][0] == cuts[2][|m.authority|]
    && cuts[3][|m.additional|] <= len
  }

  ghost predicate CountsAre(m: Message, count: seq<uint16>)
    requires |count| == 4
  {
    && |m.questions| == count[0] <= MAX_RECORDS && |m.answers| == count[1] <= MAX_RECORDS
    && |m.authority| == count[2] <= MAX_RECORDS && |m.additional| == count[3] <= MAX_RECORDS
  }

  lemma {:induction false} SectionsLayout(question: Parser<RR>, record: Parser<RR>, count: seq<uint16>, len: nat)
    returns (cuts: seq<seq<nat>>)
    requires |count| == 4 && Advances(question, len) && Advances(record, len)
    requires ParseSections(question, record, count).Some?
    ensures CountsAre(ParseSections(question, record, count).value, count)
    ensures FourTiled(question, record, ParseSections(question, record, count).value, cuts, len)
  {
    var (_, at1) := Repeat(question, 0, count[0]).value;
    var (_, at2) := Repeat(record, at1, count[1]).value;
    var (_, at3) := Repeat(record, at2, count[2]).value;
    var qd := RepeatTiles(question, 0, count[0]);
    var an := RepeatTiles(record, at1, count[1]);
    var ns := RepeatTiles(record, at2, count[2]);
    var ar := RepeatTiles(record, at3, count[3]);
    cuts := [qd, an, ns, ar];
    RepeatBounds(question, 0, count[0], len);
    RepeatBounds(record, at1, count[1], len);
    RepeatBounds(record, at2, count[2], len);
    RepeatBounds(record, at3, count[3], len);
  }

  /**
   * On success every section holds exactly the number of records the header announces, at most
   * 50, and the records of the four sections fill consecutive octet ranges from offset 0.
   */
  lemma {:induction false} MessageLayout(wire: seq<byte>) returns (cuts: seq<seq<nat>>)
    requires ParseMessage(wire).Some?
    ensures |wire| >= HEADER_SIZE && CountsAre(ParseMessage(wire).value, Counts(wire))
    ensures var data := wire[HEADER_SIZE..];
            FourTiled(RecordParser(data, false), RecordParser(data, true), ParseMessage(wire).value, cuts, |data|)
  {
    var data := wire[HEADER_SIZE..];
    RecordAdvances(data, false);
    RecordAdvances(data, true);
    cuts := SectionsLayout(RecordParser(data, false), RecordParser(data, true), Counts(wire), |data|);
  }

  /** The octets of record data a parsed record accounts for. */
  ghost function DataSize(rd: RData): nat
    requires rd.Key? || rd.A? || rd.Aaaa? || rd.Unparsed?
  {
    match rd
    case Key(_, _, _, key) => 4 + |key|
    case A(a) => |a|
    case Aaaa(a) => |a|
    case Unparsed(data) => |data|
  }

  /** How the parsed record data accounts for the octets buf[off..target] announced for it. */
  ghost predicate Fills(buf: seq<byte>, off: nat, target: nat, rd: RData)
    requires off <= target <= |buf|
  {
    match rd
    case Absent => false
    case Sig(_, _, _, _, _, _, _, signer, _, signature) =>
      off + 18 <= target && |signature| <= target
      && ParseName(buf, target, off + 18, off + 18) == Some((signer, target - |signature|))
    case Srv(_, _, _, name) => off + 6 <= target && ParseName(buf, target, off + 6, off + 6) == Some((name, target))
    case DomainName(name) => ParseName(buf, target, off, off) == Some((name, target))
    case Txt(txt) => |txt| == (target - off) % 0x100
    case _ => DataSize(rd) == target - off
  }

  lemma {:induction false} DataFills(rtype: uint16, buf: seq<byte>, off: nat, target: nat, rrstart: nat)
    requires off <= target <= |buf|
    requires ParseRData(rtype, buf, off, target, rrstart).Some?
    ensures Fills(buf, off, target, ParseRData(rtype, buf, off, target, rrstart).value)
  {
  }

  /**
   * A record's data takes exactly the RDLENGTH octets announced for it, and the record ends where
   * they end. Names in the data are read with a limit at that end.
   */
  lemma {:induction false} DataFillsLength(buf: seq<byte>, len: nat, off: nat, rtype: uint16, rrstart: nat)
    requires off <= len <= |buf|
    requires ParseTtlAndData(buf, len, off, rtype, rrstart).Some?
    ensures off + 6 <= len
    ensures var (_, rdata, end) := ParseTtlAndData(buf, len, off, rtype, rrstart).value;
            end == off + 6 + Uint(buf, off + 4, 2) && Fills(buf, off + 6, end, rdata)
  {
    DataFills(rtype, buf, off + 6, off + 6 + Uint16(buf, off + 4), rrstart);
  }

  // ----- Options --------------------------------------------------------------------------

  ghost predicate OptionsFit(opts: seq<Edns>)
  {
    forall i :: 0 <= i < |opts| ==> |opts[i].data| < 0x1_0000
  }

  function EncodeOption(o: Edns): seq<byte>
  {
    BigEndian(o.code, 2) + (BigEndian(|o.data|, 2) + o.data)
  }

  function EncodeOptions(opts: seq<Edns>): seq<byte>
  {
    if opts == [] then [] else EncodeOption(opts[0]) + EncodeOptions(opts[1..])
  }

  lemma {:induction false} FieldAt2(buf: seq<byte>, off: nat, v: uint16, more: seq<byte>)
    requires off + 2 + |more| <= |buf|
    requires buf[off..off + 2 + |more|] == BigEndian(v, 2) + more
    ensures Uint16(buf, off) == v
    ensures buf[off + 2..off + 2 + |more|] == more
  {
    Pow256Values();
    FieldAt(buf, off, v, 2, more);
  }

  lemma {:induction false} FieldAt4(buf: seq<byte>, off: nat, v: uint32, more: seq<byte>)
    requires off + 4 + |more| <= |buf|
    requires buf[off..off + 4 + |more|] == BigEndian(v, 4) + more
    ensures Uint32(buf, off) == v
    ensures buf[off + 4..off + 4 + |more|] == more
  {
    Pow256Values();
    FieldAt(buf, off, v, 4, more);
  }

  lemma {:induction false} OctetAt(buf: seq<byte>, off: nat, v: byte, more: seq<byte>)
    requires off + 1 + |more| <= |buf|
    requires buf[off..off + 1 + |more|] == [v] + more
    ensures buf[off] == v
    ensures buf[off + 1..off + 1 + |more|] == more
  {
    SplitAt(buf, off, [v], more);
    assert buf[off..off + 1][0] == buf[off];
  }

  lemma {:induction false} OptionsParse(data: seq<byte>, off: nat, opts: seq<Edns>)
    requires off <= |data| && OptionsFit(opts)
    requires data[off..] == EncodeOptions(opts)
    ensures ParseOptions(data, off) == Some(opts)
    decreases |opts|
  {
    if opts != [] {
      var o, more := opts[0], EncodeOptions(opts[1..]);
      SplitRest(data, off, EncodeOption(o), more);
      OptionsParse(data, off + 4 + |o.data|, opts[1..]);
      OneOption(data, off, o, opts);
    }
  }

  lemma {:induction false} OneOption(data: seq<byte>, off: nat, o: Edns, opts: seq<Edns>)
    requires opts != [] && o == opts[0] && |o.data| < 0x1_0000
    requires off + 4 + |o.data| <= |data| && data[off..off + 4 + |o.data|] == EncodeOption(o)
    requires ParseOptions(data, off + 4 + |o.data|) == Some(opts[1..])
    ensures ParseOptions(data, off) == Some(opts)
  {
    FieldAt2(data, off, o.code, BigEndian(|o.data|, 2) + o.data);
    FieldAt2(data, off + 2, |o.data|, o.data);
    assert [o] + opts[1..] == opts;
  }

  lemma {:induction false} ParsedOptionsEncode(data: seq<byte>, off: nat)
    requires off <= |data| && ParseOptions(data, off).Some?
    ensures OptionsFit(ParseOptions(data, off).value)
    ensures data[off..] == EncodeOptions(ParseOptions(data, off).value)
    decreases |data| - off
  {
    if off < |data| {
      var n := Uint16(data, off + 2);
      var end := off + 4 + n as int;
      ParsedOptionsEncode(data, end);
      var opts := ParseOptions(data, off).value;
      assert opts[1..] == ParseOptions(data, end).value;
      OptionOctets(data, off, end);
      SliceJoin(data, off, end, |data|);
    }
  }

  lemma {:induction false} OptionOctets(data: seq<byte>, off: nat, end: nat)
    requires off + 4 <= end <= |data| && end - off - 4 == Uint16(data, off + 2) as int
    ensures data[off..end] == EncodeOption(Edns(Uint16(data, off), data[off + 4..end]))
  {
    FromBigEndianRoundTrip(data[off..off + 2]);
    FromBigEndianRoundTrip(data[off + 2..off + 4]);
    SliceJoin(data, off, off + 2, end);
    SliceJoin(data, off + 2, off + 4, end);
  }

  /** OPT record data has the options opts if and only if it is their encoding. */
  lemma {:induction false} OptionsExact(data: seq<byte>, opts: seq<Edns>)
    ensures ParseOptions(data, 0) == Some(opts) <==> OptionsFit(opts) && data == EncodeOptions(opts)
  {
    assert data[0..] == data;
    if OptionsFit(opts) && data == EncodeOptions(opts) {
      OptionsParse(data, 0, opts);
    }
    if ParseOptions(data, 0) == Some(opts) {
      ParsedOptionsEncode(data, 0);
    }
  }

  predicate IsOpt(rr: RR)
  {
    rr.rtype == RR_OPT && rr.rdata.Unparsed?
  }

  /** The one OPT record of a message gives the message its options. */
  lemma {:induction false} SingleOpt(additional: seq<RR>, k: nat, opts: seq<Edns>, i: nat)
    requires k < |additional| && IsOpt(additional[k])
    requires forall j :: 0 <= j < |additional| && j != k ==> !IsOpt(additional[j])
    requires OptionsFit(opts) && additional[k].rdata.data == EncodeOptions(opts)
    requires i <= |additional|
    ensures EdnsOf(additional, i) == Some(if k < i then opts else [])
  {
    OptionsExact(additional[k].rdata.data, opts);
    OneOpt(additional, k, opts, i);
  }

  lemma {:induction false} OneOpt(additional: seq<RR>, k: nat, opts: seq<Edns>, i: nat)
    requires k < |additional| && IsOpt(additional[k]) && ParseOptions(additional[k].rdata.data, 0) == Some(opts)
    requires forall j :: 0 <= j < |additional| && j != k ==> !IsOpt(additional[j])
    requires i <= |additional|
    ensures EdnsOf(additional, i) == Some(if k < i then opts else [])
  {
    if i > 0 {
      OneOpt(additional, k, opts, i - 1);
      assert i - 1 != k ==> !IsOpt(additional[i - 1]);
    }
  }

  /** Of several OPT records the last that holds any option replaces the lists before it. */
  lemma {:induction false} LastOptWins(additional: seq<RR>, k: nat, opts: seq<Edns>, i: nat)
    requires k < i <= |additional| && IsOpt(additional[k])
    requires ParseOptions(additional[k].rdata.data, 0) == Some(opts) && opts != []
    requires forall j :: k < j < i && IsOpt(additional[j]) ==> ParseOptions(additional[j].rdata.data, 0) == Some([])
    ensures EdnsOf(additional, i) == if EdnsOf(additional, k).Some? then Some(opts) else None
  {
    if k + 1 < i {
      LastOptWins(additional, k, opts, i - 1);
    }
  }

  // ----- Standard encodings ----------------------------------------------------------------

  ghost predicate RDataFits(rtype: uint16, rd: RData, rrstart: nat)
  {
    match rd
    case Absent => false
    case Key(_, _, _, _) => rtype == RR_KEY
    case Sig(_, _, _, _, _, _, _, signer, start, _) => rtype == RR_SIG && WellFormed(signer) && start == rrstart
    case Srv(_, _, _, target) => rtype == RR_SRV && WellFormed(target)
    case DomainName(name) => HasName(rtype) && WellFormed(name)
    case A(a) => rtype == RR_A && |a| == 4
    case Aaaa(a) => rtype == RR_AAAA && |a| == 16
    case Txt(txt) => rtype == RR_TXT && |txt| < 0x100
    case Unparsed(_) =>
      rtype !in {RR_KEY, RR_SIG, RR_SRV, RR_A, RR_AAAA, RR_TXT} && !HasName(rtype)
  }

  ghost function EncodeRData(rtype: uint16, rd: RData, rrstart: nat): seq<byte>
    requires RDataFits(rtype, rd, rrstart)
  {
    match rd
    case Key(flags, protocol, algorithm, key) => BigEndian(flags, 2) + ([protocol] + ([algorithm] + key))
    case Sig(covered, algorithm, labels, rrttl, expiry, inception, keyTag, signer, _, signature) =>
      EncodeSigFixed(covered, algorithm, labels, rrttl, expiry, inception, keyTag, EncodeLabels(signer) + signature)
    case Srv(priority, weight, port, target) =>
      BigEndian(priority, 2) + (BigEndian(weight, 2) + (BigEndian(port, 2) + EncodeLabels(target)))
    case DomainName(name) => EncodeLabels(name)
    case A(a) => a
    case Aaaa(a) => a
    case Txt(txt) => txt
    case Unparsed(data) => data
  }

  function EncodeSigFixed(covered: uint16, algorithm: byte, labels: byte, rrttl: uint32, expiry: uint32,
                          inception: uint32, keyTag: uint16, more: seq<byte>): (s: seq<byte>)
    ensures |s| == 18 + |more|
  {
    BigEndian(covered, 2) + ([algorithm] + ([labels] + (BigEndian(rrttl, 4) + (BigEndian(expiry, 4)
      + (BigEndian(inception, 4) + (BigEndian(keyTag, 2) + more))))))
  }

  lemma {:induction false} SigFixedAt(buf: seq<byte>, off: nat, covered: uint16, algorithm: byte, labels: byte, rrttl: uint32,
                   expiry: uint32, inception: uint32, keyTag: uint16, more: seq<byte>)
    requires off + 18 + |more| <= |buf|
    requires buf[off..off + 18 + |more|]
          == EncodeSigFixed(covered, algorithm, labels, rrttl, expiry, inception, keyTag, more)
    ensures Uint16(buf, off) == covered && buf[off + 2] == algorithm && buf[off + 3] == labels
    ensures Uint32(buf, off + 4) == rrttl && Uint32(buf, off + 8) == expiry
    ensures Uint32(buf, off + 12) == inception && Uint16(buf, off + 16) == keyTag
    ensures buf[off + 18..off + 18 + |more|] == more
  {
    var s6 := BigEndian(keyTag, 2) + more;
    var s5 := BigEndian(inception, 4) + s6;
    var s4 := BigEndian(expiry, 4) + s5;
    var s3 := BigEndian(rrttl, 4) + s4;
    var s2 := [labels] + s3;
    var s1 := [algorithm] + s2;
    FieldAt2(buf, off, covered, s1);
    OctetAt(buf, off + 2, algorithm, s2);
    OctetAt(buf, off + 3, labels, s3);
    FieldAt4(buf, off + 4, rrttl, s4);
    FieldAt4(buf, off + 8, expiry, s5);
    FieldAt4(buf, off + 12, inception, s6);
    FieldAt2(buf, off + 16, keyTag, more);
  }

  lemma {:induction false} KeyRoundTrip(buf: seq<byte>, off: nat, target: nat, rd: RData)
    requires off <= target <= |buf| && rd.Key?
    requires buf[off..target] == EncodeRData(RR_KEY, rd, 0)
    ensures ParseRData(RR_KEY, buf, off, target, 0) == Some(rd)
  {
    var s2 := [rd.algorithm] + rd.key;
    var s1 := [rd.protocol] + s2;
    FieldAt2(buf, off, rd.flags, s1);
    OctetAt(buf, off + 2, rd.protocol, s2);
    OctetAt(buf, off + 3, rd.algorithm, rd.key);
  }

  lemma {:induction false} SigRoundTrip(buf: seq<byte>, off: nat, target: nat, rd: RData, rrstart: nat)
    requires off <= target <= |buf| && rd.Sig? && RDataFits(RR_SIG, rd, rrstart)
    requires buf[off..target] == EncodeRData(RR_SIG, rd, rrstart)
    ensures ParseRData(RR_SIG, buf, off, target, rrstart) == Some(rd)
  {
    var name := EncodeLabels(rd.signer);
    SigFixedAt(buf, off, rd.covered, rd.sigAlgorithm, rd.labels, rd.rrttl, rd.expiry, rd.inception, rd.keyTag,
               name + rd.signature);
    SplitAt(buf, off + 18, name, rd.signature);
    EncodeParseAt(buf, target, off + 18, rd.signer);
  }

  lemma {:induction false} SrvRoundTrip(buf: seq<byte>, off: nat, target: nat, rd: RData)
    requires off <= target <= |buf| && rd.Srv? && RDataFits(RR_SRV, rd, 0)
    requires buf[off..target] == EncodeRData(RR_SRV, rd, 0)
    ensures ParseRData(RR_SRV, buf, off, target, 0) == Some(rd)
  {
    var s3 := EncodeLabels(rd.target);
    var s2 := BigEndian(rd.port, 2) + s3;
    var s1 := BigEndian(rd.weight, 2) + s2;
    FieldAt2(buf, off, rd.priority, s1);
    FieldAt2(buf, off + 2, rd.weight, s2);
    FieldAt2(buf, off + 4, rd.port, s3);
    EncodeParseAt(buf, target, off + 6, rd.target);
  }

  /** The standard encoding of record data of every known shape parses back to it. */
  lemma {:induction false} RDataRoundTrip(buf: seq<byte>, off: nat, target: nat, rtype: uint16, rd: RData, rrstart: nat)
    requires off <= target <= |buf| && RDataFits(rtype, rd, rrstart)
    requires buf[off..target] == EncodeRData(rtype, rd, rrstart)
    ensures ParseRData(rtype, buf, off, target, rrstart) == Some(rd)
  {
    match rd
    case Key(_, _, _, _) => KeyRoundTrip(buf, off, target, rd);
    case Sig(_, _, _, _, _, _, _, _, _, _) => SigRoundTrip(buf, off, target, rd, rrstart);
    case Srv(_, _, _, _) => SrvRoundTrip(buf, off, target, rd);
    case DomainName(name) => EncodeParseAt(buf, target, off, name);
    case A(_) =>
    case Aaaa(_) =>
    case Txt(txt) => assert off + (target - off) % 0x100 == target;
    case Unparsed(_) =>
  }

  /** Record data without names, and TXT data up to 255 octets, are read only from their encoding. */
  lemma {:induction false} DataIsEncoding(rtype: uint16, buf: seq<byte>, off: nat, target: nat, rrstart: nat)
    requires off <= target <= |buf| && ParseRData(rtype, buf, off, target, rrstart).Some?
    requires rtype != RR_SIG && rtype != RR_SRV && !HasName(rtype) && (rtype == RR_TXT ==> target - off <= 255)
    ensures var rd := ParseRData(rtype, buf, off, target, rrstart).value;
            RDataFits(rtype, rd, rrstart) && buf[off..target] == EncodeRData(rtype, rd, rrstart)
  {
    if rtype == RR_KEY {
      FromBigEndianRoundTrip(buf[off..off + 2]);
      SliceJoin(buf, off, off + 2, target);
      assert buf[off + 2..target] == [buf[off + 2]] + ([buf[off + 3]] + buf[off + 4..target]);
    } else if rtype == RR_TXT {
      assert off + (target - off) % 0x100 == target;
    }
  }

  /** TXT data is kept whole if and only if it is at most 255 octets; a longer one is shortened. */
  lemma {:induction false} TxtKeptIff(buf: seq<byte>, off: nat, target: nat, rrstart: nat)
    requires off <= target <= |buf|
    ensures ParseRData(RR_TXT, buf, off, target, rrstart) == Some(Txt(buf[off..target])) <==> target - off <= 255
  {
    var kept := (target - off) % 0x100;
    if target - off > 255 {
      assert |buf[off..off + kept]| < |buf[off..target]|;
    } else {
      assert off + kept == target;
    }
  }

  /** Some TXT data is not kept: of 256 octets none is. */
  lemma {:induction false} TxtShortened()
    ensures exists buf: seq<byte> :: |buf| == 256 && ParseRData(RR_TXT, buf, 0, 256, 0) == Some(Txt([]))
  {
    var buf := seq(256, _ => 7 as byte);
    assert buf[0..0] == [];
    assert ParseRData(RR_TXT, buf, 0, 256, 0) == Some(Txt([]));
  }

  ghost predicate RRFits(rr: RR, rrstart: nat, rdataExpected: bool)
  {
    && WellFormed(rr.name)
    && (rdataExpected ==> RDataFits(rr.rtype, rr.rdata, rrstart)
                          && |EncodeRData(rr.rtype, rr.rdata, rrstart)| < 0x1_0000)
    && (!rdataExpected ==> rr.rdata == Absent && rr.ttl == 0)
  }

  ghost function EncodeRR(rr: RR, rrstart: nat, rdataExpected: bool): seq<byte>
    requires RRFits(rr, rrstart, rdataExpected)
  {
    EncodeLabels(rr.name) + EncodeAfterName(rr, rrstart, rdataExpected)
  }

  ghost function EncodeTtlAndData(rr: RR, rrstart: nat): seq<byte>
    requires RRFits(rr, rrstart, true)
  {
    var rd := EncodeRData(rr.rtype, rr.rdata, rrstart);
    BigEndian(rr.ttl, 4) + (BigEndian(|rd|, 2) + rd)
  }

  lemma {:induction false} TtlAndDataRoundTrip(buf: seq<byte>, off: nat, end: nat, rr: RR, rrstart: nat)
    requires RRFits(rr, rrstart, true)
    requires off <= end <= |buf| && buf[off..end] == EncodeTtlAndData(rr, rrstart)
    ensures ParseTtlAndData(buf, |buf|, off, rr.rtype, rrstart) == Some((rr.ttl, rr.rdata, end))
  {
    var rd := EncodeRData(rr.rtype, rr.rdata, rrstart);
    FieldAt4(buf, off, rr.ttl, BigEndian(|rd|, 2) + rd);
    FieldAt2(buf, off + 4, |rd|, rd);
    RDataRoundTrip(buf, off + 6, off + 6 + |rd|, rr.rtype, rr.rdata, rrstart);
  }

  lemma {:induction false} RRRoundTrip(buf: seq<byte>, off: nat, end: nat, rr: RR, rdataExpected: bool)
    requires RRFits(rr, off, rdataExpected) && off <= end <= |buf|
    requires buf[off..end] == EncodeRR(rr, off, rdataExpected)
    ensures ParseRR(buf, |buf|, off, rdataExpected) == Some((rr, end))
  {
    var name := EncodeLabels(rr.name);
    SplitRange(buf, off, end, name, EncodeAfterName(rr, off, rdataExpected));
    RRPartsRead(buf, off, off + |name|, end, rr, rdataExpected);
  }

  lemma {:induction false} RRPartsRead(buf: seq<byte>, off: nat, at: nat, end: nat, rr: RR, rdataExpected: bool)
    requires RRFits(rr, off, rdataExpected) && off <= at <= end <= |buf|
    requires buf[off..at] == EncodeLabels(rr.name) && buf[at..end] == EncodeAfterName(rr, off, rdataExpected)
    ensures ParseRR(buf, |buf|, off, rdataExpected) == Some((rr, end))
  {
    EncodedNameReadsTo(buf, off, at, rr.name);
    AfterNameReads(buf, at, end, off, rr, rdataExpected);
    ParseRRFrom(buf, off, at, rr, rdataExpected, end);
  }

  lemma {:induction false} AfterNameReads(buf: seq<byte>, at: nat, end: nat, off: nat, rr: RR, rdataExpected: bool)
    requires RRFits(rr, off, rdataExpected) && at <= end <= |buf|
    requires buf[at..end] == EncodeAfterName(rr, off, rdataExpected)
    ensures at + 4 <= end && Uint16(buf, at) == rr.rtype && Uint16(buf, at + 2) == rr.qclass
    ensures rdataExpected ==> ParseTtlAndData(buf, |buf|, at + 4, rr.rtype, off) == Some((rr.ttl, rr.rdata, end))
    ensures !rdataExpected ==> end == at + 4
  {
    TypeAndClassAt(buf, at, end, rr.rtype, rr.qclass, if rdataExpected then EncodeTtlAndData(rr, off) else []);
    if rdataExpected {
      TtlAndDataRoundTrip(buf, at + 4, end, rr, off);
    }
  }

  lemma {:induction false} TypeAndClassAt(buf: seq<byte>, at: nat, end: nat, rtype: uint16, qclass: uint16, more: seq<byte>)
    requires at <= end <= |buf| && buf[at..end] == BigEndian(rtype, 2) + (BigEndian(qclass, 2) + more)
    ensures end == at + 4 + |more| && Uint16(buf, at) == rtype && Uint16(buf, at + 2) == qclass
    ensures buf[at + 4..end] == more
  {
    FieldAt2(buf, at, rtype, BigEndian(qclass, 2) + more);
    FieldAt2(buf, at + 2, qclass, more);
  }

  /** A record parses as rr if its parts do. */
  lemma {:induction false} ParseRRFrom(buf: seq<byte>, off: nat, at: nat, rr: RR, rdataExpected: bool, end: nat)
    requires off <= at && at + 4 <= |buf|
    requires ParseName(buf, |buf|, off, off) == Some((rr.name, at))
    requires Uint16(buf, at) == rr.rtype && Uint16(buf, at + 2) == rr.qclass
    requires rdataExpected ==> ParseTtlAndData(buf, |buf|, at + 4, rr.rtype, off) == Some((rr.ttl, rr.rdata, end))
    requires !rdataExpected ==> rr.ttl == 0 && rr.rdata == Absent && end == at + 4
    ensures ParseRR(buf, |buf|, off, rdataExpected) == Some((rr, end))
  {
  }

  /** What follows a record's name: type, class, and where expected the rest. */
  ghost function EncodeAfterName(rr: RR, rrstart: nat, rdataExpected: bool): seq<byte>
    requires RRFits(rr, rrstart, rdataExpected)
  {
    BigEndian(rr.rtype, 2) + (BigEndian(rr.qclass, 2) + (if rdataExpected then EncodeTtlAndData(rr, rrstart) else []))
  }

  ghost function RecordFits(rdataExpected: bool): Fitness<RR>
  {
    (rr: RR, at: nat) => RRFits(rr, at, rdataExpected)
  }

  ghost function RecordEncoder(rdataExpected: bool): Encoder<RR>
  {
    (rr: RR, at: nat) => if RRFits(rr, at, rdataExpected) then EncodeRR(rr, at, rdataExpected) else []
  }

  lemma {:induction false} RecordReads(data: seq<byte>, rr: RR, off: nat, end: nat, rdataExpected: bool)
    requires RRFits(rr, off, rdataExpected) && off <= end <= |data|
    requires data[off..end] == EncodeRR(rr, off, rdataExpected)
    ensures RecordParser(data, rdataExpected)(off) == Some((rr, end))
  {
    RRRoundTrip(data, off, end, rr, rdataExpected);
  }

  lemma {:induction false} RecordsRead(data: seq<byte>, rdataExpected: bool)
    ensures Reads(RecordParser(data, rdataExpected), RecordFits(rdataExpected), RecordEncoder(rdataExpected), data)
  {
    var p, fits, encode := RecordParser(data, rdataExpected), RecordFits(rdataExpected), RecordEncoder(rdataExpected);
    forall rr: RR, off: nat, end: nat
      ensures ReadsAt(p, fits, encode, data, rr, off, end)
    {
      if fits(rr, off) && off <= end <= |data| && data[off..end] == encode(rr, off) {
        RecordReads(data, rr, off, end, rdataExpected);
      }
    }
  }

  ghost predicate CountsFit(m: Message)
  {
    |m.questions| <= MAX_RECORDS && |m.answers| <= MAX_RECORDS
    && |m.authority| <= MAX_RECORDS && |m.additional| <= MAX_RECORDS
  }

  /** How the records of the question section and those of the others are encoded, and which can be. */
  datatype Form = Form(qFits: Fitness<RR>, question: Encoder<RR>, fits: Fitness<RR>, record: Encoder<RR>)

  ghost function StandardForm(): Form
  {
    Form(RecordFits(false), RecordEncoder(false), RecordFits(true), RecordEncoder(true))
  }

  /** The encodings of the four sections, each from where the one before ends, the first from 0. */
  ghost function EncodeSections(m: Message, f: Form): (parts: seq<seq<byte>>)
    ensures |parts| == 4
  {
    var questions := EncodeAll(f.question, m.questions, 0);
    var answers := EncodeAll(f.record, m.answers, |questions|);
    var authority := EncodeAll(f.record, m.authority, |questions| + |answers|);
    [questions, answers, authority, EncodeAll(f.record, m.additional, |questions| + |answers| + |authority|)]
  }

  /** Every record of the four sections fits where it comes to lie. */
  ghost predicate SectionsFit(m: Message, f: Form)
  {
    var parts := EncodeSections(m, f);
    && AllFit(f.qFits, f.question, m.questions, 0)
    && AllFit(f.fits, f.record, m.answers, |parts[0]|)
    && AllFit(f.fits, f.record, m.authority, |parts[0]| + |parts[1]|)
    && AllFit(f.fits, f.record, m.additional, |parts[0]| + |parts[1]| + |parts[2]|)
  }

  /** A message the format can carry. */
  ghost predicate MessageFits(m: Message)
  {
    CountsFit(m) && SectionsFit(m, StandardForm())
  }

  ghost function EncodeHeader(id: uint16, bitfield: uint16, m: Message): (s: seq<byte>)
    requires CountsFit(m)
    ensures |s| == HEADER_SIZE
  {
    BigEndian(id, 2) + (BigEndian(bitfield, 2) + (BigEndian(|m.questions|, 2) + (BigEndian(|m.answers|, 2)
      + (BigEndian(|m.authority|, 2) + BigEndian(|m.additional|, 2)))))
  }

  lemma {:induction false} HeaderRoundTrip(wire: seq<byte>, id: uint16, bitfield: uint16, m: Message)
    requires CountsFit(m) && |wire| >= HEADER_SIZE
    requires wire[..HEADER_SIZE] == EncodeHeader(id, bitfield, m)
    ensures HeaderCount(wire, 0) == |m.questions| && HeaderCount(wire, 1) == |m.answers|
    ensures HeaderCount(wire, 2) == |m.authority| && HeaderCount(wire, 3) == |m.additional|
  {
    var s5 := BigEndian(|m.additional|, 2);
    var s4 := BigEndian(|m.authority|, 2) + s5;
    var s3 := BigEndian(|m.answers|, 2) + s4;
    var s2 := BigEndian(|m.questions|, 2) + s3;
    var s1 := BigEndian(bitfield, 2) + s2;
    assert wire[0..12] == wire[..HEADER_SIZE];
    FieldAt2(wire, 0, id, s1);
    FieldAt2(wire, 2, bitfield, s2);
    FieldAt2(wire, 4, |m.questions|, s3);
    FieldAt2(wire, 6, |m.answers|, s4);
    FieldAt2(wire, 8, |m.authority|, s5);
    assert s5 + [] == s5;
    FieldAt2(wire, 10, |m.additional|, []);
  }

  ghost function EncodeMessage(id: uint16, bitfield: uint16, m: Message, trailing: seq<byte>): seq<byte>
    requires CountsFit(m)
  {
    var s := EncodeSections(m, StandardForm());
    EncodeHeader(id, bitfield, m) + (s[0] + (s[1] + (s[2] + (s[3] + trailing))))
  }

  /**
   * The standard encoding of a message parses back to the message, whatever octets follow it; its
   * options are those its additional section carries.
   */
  lemma {:induction false} MessageRoundTrip(id: uint16, bitfield: uint16, m: Message, trailing: seq<byte>)
    requires MessageFits(m) && EdnsOf(m.additional, |m.additional|) == Some(m.edns0)
    ensures ParseMessage(EncodeMessage(id, bitfield, m, trailing)) == Some(m)
  {
    var wire := EncodeMessage(id, bitfield, m, trailing);
    var s := EncodeSections(m, StandardForm());
    var data := s[0] + (s[1] + (s[2] + (s[3] + trailing)));
    HeaderPrefix(wire, EncodeHeader(id, bitfield, m), data);
    HeaderRoundTrip(wire, id, bitfield, m);
    RecordsRead(data, false);
    RecordsRead(data, true);
    SectionsRead(data, m, StandardForm(), RecordParser(data, false), RecordParser(data, true), Counts(wire), trailing);
  }

  lemma {:induction false} SectionsRead(data: seq<byte>, m: Message, f: Form, question: Parser<RR>, record: Parser<RR>,
                                        count: seq<uint16>, trailing: seq<byte>)
    requires |count| == 4 && CountsAre(m, count) && SectionsFit(m, f)
    requires var s := EncodeSections(m, f); data == s[0] + (s[1] + (s[2] + (s[3] + trailing)))
    requires Reads(question, f.qFits, f.question, data) && Reads(record, f.fits, f.record, data)
    requires EdnsOf(m.additional, |m.additional|) == Some(m.edns0)
    ensures ParseSections(question, record, count) == Some(m)
  {
    var s := EncodeSections(m, f);
    var at1 := |s[0]|;
    var at2 := at1 + |s[1]|;
    var at3 := at2 + |s[2]|;
    var end := at3 + |s[3]|;
    FourPartsAt(data, s[0], s[1], s[2], s[3], trailing, at1, at2, at3, end);
    SectionsReadAt(data, m, f, question, record, at1, at2, at3, end);
    FourRepeats(question, record, count, m, at1, at2, at3, end);
  }

  lemma {:induction false} SectionsReadAt(data: seq<byte>, m: Message, f: Form, question: Parser<RR>, record: Parser<RR>,
                                          at1: nat, at2: nat, at3: nat, end: nat)
    requires at1 <= at2 <= at3 <= end <= |data|
    requires Reads(question, f.qFits, f.question, data) && Reads(record, f.fits, f.record, data)
    requires AllFit(f.qFits, f.question, m.questions, 0) && data[0..at1] == EncodeAll(f.question, m.questions, 0)
    requires AllFit(f.fits, f.record, m.answers, at1) && data[at1..at2] == EncodeAll(f.record, m.answers, at1)
    requires AllFit(f.fits, f.record, m.authority, at2) && data[at2..at3] == EncodeAll(f.record, m.authority, at2)
    requires AllFit(f.fits, f.record, m.additional, at3) && data[at3..end] == EncodeAll(f.record, m.additional, at3)
    ensures Repeat(question, 0, |m.questions|) == Some((m.questions, at1))
    ensures Repeat(record, at1, |m.answers|) == Some((m.answers, at2))
    ensures Repeat(record, at2, |m.authority|) == Some((m.authority, at3))
    ensures Repeat(record, at3, |m.additional|) == Some((m.additional, end))
  {
    RepeatReads(question, f.qFits, f.question, data, m.questions, 0, at1);
    RepeatReads(record, f.fits, f.record, data, m.answers, at1, at2);
    RepeatReads(record, f.fits, f.record, data, m.authority, at2, at3);
    RepeatReads(record, f.fits, f.record, data, m.additional, at3, end);
  }

  lemma {:induction false} FourRepeats(question: Parser<RR>, record: Parser<RR>, count: seq<uint16>, m: Message,
                                       at1: nat, at2: nat, at3: nat, end: nat)
    requires |count| == 4 && CountsAre(m, count)
    requires Repeat(question, 0, |m.questions|) == Some((m.questions, at1))
    requires Repeat(record, at1, |m.answers|) == Some((m.answers, at2))
    requires Repeat(record, at2, |m.authority|) == Some((m.authority, at3))
    requires Repeat(record, at3, |m.additional|) == Some((m.additional, end))
    requires EdnsOf(m.additional, |m.additional|) == Some(m.edns0)
    ensures ParseSections(question, record, count) == Some(m)
  {
  }

  lemma {:induction false} HeaderPrefix(wire: seq<byte>, header: seq<byte>, data: seq<byte>)
    requires |header| == HEADER_SIZE && wire == header + data
    ensures wire[..HEADER_SIZE] == header && wire[HEADER_SIZE..] == data
  {
  }

  lemma {:induction false} FourPartsAt(data: seq<byte>, a: seq<byte>, b: seq<byte>, c: seq<byte>, d: seq<byte>, e: seq<byte>,
                                       at1: nat, at2: nat, at3: nat, end: nat)
    requires data == a + (b + (c + (d + e)))
    requires at1 == |a| && at2 == at1 + |b| && at3 == at2 + |c| && end == at3 + |d|
    ensures end <= |data|
    ensures data[0..at1] == a
    ensures data[at1..at2] == b
    ensures data[at2..at3] == c
    ensures data[at3..end] == d
  {
  }
}
