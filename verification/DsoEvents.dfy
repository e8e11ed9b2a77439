// What a DSO message makes an endpoint tell, for every message, in terms of its octets and TLVs
// (DSO/dso.c:625-836), and the header of the messages it makes (DSO/dso.c:545-618).

module DsoEvents {
  import opened Bytes
  import opened DsoTlv
  import opened DsoSession
  import opened DsoRuns

  // ----- Receipt ----------------------------------------------------------------------------------

  /** A response, by the first bit of the flags. */
  ghost predicate SaysResponse(mem: seq<byte>)
    requires |mem| >= 12
  {
    mem[2] >= 0x80
  }

  /** Slot k holds the request that the message's ID names. */
  ghost predicate Names(s: Session, mem: seq<byte>, k: nat)
    requires |mem| >= 12
  {
    k < |s.slots| && s.slots[k].id == FromBigEndian(mem[..2]) != 0
  }

  /**
   * A message of n octets is accepted: it has a length a message can have, its four counts are zero,
   * its TLVs are read to their end, and a response names an outstanding request.
   */
  ghost predicate Accepted(s: Session, mem: seq<byte>, n: nat)
    requires n + 4 <= |mem|
  {
    && (n == 12 || n >= 16) && (forall i :: 4 <= i < 12 ==> mem[i] == 0) && ReadTlvs(mem, n, 12).ok
    && (SaysResponse(mem) ==> exists k: nat :: Names(s, mem, k))
  }

  /** The payload is two timeouts, neither unreasonably large. */
  ghost predicate TwoTimeouts(p: seq<byte>)
  {
    |p| == 8 && FromBigEndian(p[..4]) <= 0x3800_0000 && FromBigEndian(p[4..]) <= 0x3800_0000
  }

  /** The lesser of a and b. */
  ghost predicate LesserOf(x: nat, a: nat, b: nat)
  {
    x <= a && x <= b && (x == a || x == b)
  }

  /**
   * What a keepalive makes of the two timeouts: a server reports of each the lesser of its own and
   * the received one, a client adopts it and tells nobody, and anything else is a format error.
   */
  ghost predicate KeepaliveOutcome(s: Session, s': Session, call: Call, p: seq<byte>)
  {
    if !TwoTimeouts(p) then
      call == FormErr && SameTimeouts(s, s')
    else if s.isServer then
      && call.KeepaliveRcvd? && LesserOf(call.inactivity, s.inactivityTimeout, FromBigEndian(p[..4]))
      && LesserOf(call.keepalive, s.keepaliveInterval, FromBigEndian(p[4..])) && SameTimeouts(s, s')
    else
      && call == NoCall && LesserOf(s'.inactivityTimeout, s.inactivityTimeout, FromBigEndian(p[..4]))
      && LesserOf(s'.keepaliveInterval, s.keepaliveInterval, FromBigEndian(p[4..]))
  }

  /** A retry delay is told as its four octets say. */
  ghost predicate RetryOutcome(call: Call, p: seq<byte>)
  {
    if |p| == 4 then call.RetryDelay? && call.delay == FromBigEndian(p) else call == FormErr
  }

  ghost predicate SameTimeouts(s: Session, s': Session)
  {
    s'.inactivityTimeout == s.inactivityTimeout && s'.keepaliveInterval == s.keepaliveInterval
  }

  /**
   * The outcome of an accepted message for an endpoint with a callback, by the type of its first TLV:
   * 1 is a keepalive, 2 a retry delay of so many milliseconds in four octets, and everything else,
   * the header alone too, is passed on as a request or as the response to the request in slot k.
   */
  ghost predicate OutcomeOf(s: Session, s': Session, call: Call, mem: seq<byte>, n: nat)
    requires n + 4 <= |mem| && n >= 12
  {
    var tlvs := ReadTlvs(mem, n, 12).tlvs;
    if tlvs != [] && tlvs[0].opcode == 1 then KeepaliveOutcome(s, s', call, tlvs[0].payload)
    else
      && SameTimeouts(s, s')
      && if tlvs != [] && tlvs[0].opcode == 2 then RetryOutcome(call, tlvs[0].payload)
         else if SaysResponse(mem) then
           exists k: nat :: Names(s, mem, k) && call == Response(s.slots[k].ctx, mem[3] as int % 16)
         else call == Message
  }

  /**
   * Every message: one that is not accepted cancels the connection, and nothing is told and no
   * timeout changes; one that is accepted has its outcome, told if there is a callback.
   */
  lemma {:induction false} MessageOutcome(s: Session, mem: seq<byte>, n: nat)
    requires n + 4 <= |mem|
    ensures var (s', e) := Receive(s, mem, n);
            && (!Accepted(s, mem, n) ==> !s'.live && e.call == NoCall && SameTimeouts(s, s'))
            && (Accepted(s, mem, n) && !s.hasCallback ==> e.call == NoCall && SameTimeouts(s, s'))
            && (Accepted(s, mem, n) && s.hasCallback ==> OutcomeOf(s, s', e.call, mem, n))
  {
    if n >= 12 {
      FromBigEndian2(mem[..2]);
      if !SaysResponse(mem) {
        CheckOutcome(s, mem, n, None);
      } else {
        var k := FindSlot(s.slots, IdOf(mem));
        if IdOf(mem) != 0 && (n >= 16 || n == 12) && k < |s.slots| {
          assert Names(s, mem, k);
          CheckOutcome(Settle(s, k, Rcode(mem), n), mem, n, Some(Answer(IdOf(mem), s.slots[k].ctx, Rcode(mem))));
        } else {
          assert forall i :: 0 <= i < |s.slots| && Names(s, mem, i) ==> i >= k;
        }
      }
    }
  }

  /** The outcome by the first TLV, where a is what the callback is given otherwise. */
  ghost predicate OutcomeByTlv(s: Session, s': Session, call: Call, tlvs: seq<Tlv>, a: Call)
  {
    if tlvs != [] && tlvs[0].opcode == 1 then KeepaliveOutcome(s, s', call, tlvs[0].payload)
    else
      && SameTimeouts(s, s')
      && if tlvs != [] && tlvs[0].opcode == 2 then RetryOutcome(call, tlvs[0].payload) else call == a
  }

  lemma {:induction false} CheckOutcome(s: Session, mem: seq<byte>, n: nat, answered: Option<Answer>)
    requires 12 <= n && n + 4 <= |mem|
    ensures var (s', e) := Check(s, mem, n, answered);
            var fine := (n == 12 || n >= 16) && (forall i :: 4 <= i < 12 ==> mem[i] == 0) && ReadTlvs(mem, n, 12).ok;
            var a := if answered.Some? then Response(answered.value.ctx, answered.value.rcode) else Message;
            && (!fine ==> !s'.live && e.call == NoCall && SameTimeouts(s, s'))
            && (fine && !s.hasCallback ==> e.call == NoCall && SameTimeouts(s, s'))
            && (fine && s.hasCallback ==> OutcomeByTlv(s, s', e.call, ReadTlvs(mem, n, 12).tlvs, a))
  {
    if CountsZero(mem) && (n >= 16 || n == 12) {
      ReadOutcome(SessionCheck(s, answered.Some?), mem, n, answered);
    }
  }

  lemma {:induction false} ReadOutcome(s: Session, mem: seq<byte>, n: nat, answered: Option<Answer>)
    requires 12 <= n && n + 4 <= |mem| && (n == 12 || n >= 16)
    ensures var (s', e) := ReadAndDispatch(s, mem, n, answered);
            var read := ReadTlvs(mem, n, 12);
            var a := if answered.Some? then Response(answered.value.ctx, answered.value.rcode) else Message;
            && (!read.ok ==> !s'.live && e.call == NoCall && SameTimeouts(s, s'))
            && (read.ok && !s.hasCallback ==> e.call == NoCall && SameTimeouts(s, s'))
            && (read.ok && s.hasCallback ==> OutcomeByTlv(s, s', e.call, read.tlvs, a))
  {
    var read := ReadTlvs(mem, n, 12);
    var p := Record(Parsed(s.primary, s.additl, true), read);
    if p.ok {
      FirstIsPrimary(mem, n);
      DispatchOutcome(s.(primary := p.primary, additl := p.additl), n, read.tlvs, answered);
    }
  }

  /** A message of the header alone has no TLV, and any other accepted message has one. */
  lemma {:induction false} FirstIsPrimary(mem: seq<byte>, n: nat)
    requires 12 <= n && n + 4 <= |mem| && ReadTlvs(mem, n, 12).ok
    ensures ReadTlvs(mem, n, 12).tlvs == [] <==> n == 12
  {
  }

  lemma {:induction false} DispatchOutcome(s: Session, n: nat, tlvs: seq<Tlv>, answered: Option<Answer>)
    requires (tlvs == [] <==> n == 12) && (tlvs != [] ==> s.primary == tlvs[0])
    ensures var (s', e) := Dispatch(s, n, answered);
            var a := if answered.Some? then Response(answered.value.ctx, answered.value.rcode) else Message;
            && (!s.hasCallback ==> e.call == NoCall && SameTimeouts(s, s'))
            && (s.hasCallback ==> OutcomeByTlv(s, s', e.call, tlvs, a))
  {
    if tlvs != [] {
      RetryIsOutcome(s.primary);
      KeepaliveIsOutcome(s, answered);
    }
  }

  lemma {:induction false} RetryIsOutcome(primary: Tlv)
    ensures RetryOutcome(RetryCall(primary), primary.payload)
  {
    if |primary.payload| == 4 {
      FromBigEndian4(primary.payload);
    }
  }

  lemma {:induction false} KeepaliveIsOutcome(s: Session, answered: Option<Answer>)
    ensures var (s', e) := Keepalive(s, answered);
            KeepaliveOutcome(s, s', e.call, s.primary.payload)
  {
    var p := s.primary.payload;
    KeepaliveTakesLesser(s, answered);
    if |p| == 8 {
      FromBigEndian4(p[..4]);
      FromBigEndian4(p[4..]);
    }
  }

  /** The bits of the flags the source tests, on all octets. */
  lemma {:induction false} FlagBits(mem: seq<byte>, flags: bv8, code: bv8)
    requires |mem| >= 12 && mem[2] == flags as int && mem[3] == code as int
    ensures IsResponse(mem) <==> flags & 0x80 != 0
    ensures SaysResponse(mem) <==> flags & 0x80 != 0
    ensures Rcode(mem) == (code & 0x0F) as int
  {
    assert flags & 0x80 != 0 <==> flags >= 0x80;
    assert code & 0x0F == code % 16;
  }

  // ----- The messages an endpoint makes ------------------------------------------------------------

  /** The answer of a peer that takes the ID and the opcode from the octets of a request. */
  function PeerAnswer(request: seq<byte>, rcode: byte, tlvs: seq<Tlv>): seq<byte>
    requires |request| == 12 && request[2] < 0x80
  {
    [request[0], request[1], request[2] + 0x80, rcode] + request[4..] + EncodeTlvs(tlvs)
  }

  /**
   * The answer a peer makes from the octets of an issued request settles that request: its context
   * is told and the table is as it was.
   */
  lemma {:induction false} PeerAnswerSettles(s: Session, s1: Session, draw: nat -> uint16, a: Answer, request: seq<byte>,
                                             tlvs: seq<Tlv>, mem: seq<byte>, n: nat)
    requires Inv(s) && (s.isServer ==> s.hasSession) && s.hasCallback
    requires Issue(s, a.ctx, draw).1 == Issued(a.id, a.ctx) && Issue(s, a.ctx, draw).0 == s1
    requires IsHeader(request, a.id, false, 0) && a.rcode < 16 && PassedOn(tlvs)
    requires n + 4 <= |mem| && mem[..n] == PeerAnswer(request, a.rcode, tlvs)
    ensures var (s', e) := Receive(s1, mem, n);
            && e.Received? && e.call == Response(a.ctx, a.rcode)
            && s'.slots == s.slots && s'.count == s.count && s'.primary == tlvs[0] && s'.live == s.live
            && s'.hasSession == (s.hasSession || a.rcode == 0)
  {
    PeerAnswerIs(request, a.id, a.rcode, tlvs);
    AnswerRestoresTable(s, s1, draw, a, tlvs, mem, n);
  }

  lemma {:induction false} PeerAnswerIs(request: seq<byte>, id: uint16, rcode: byte, tlvs: seq<Tlv>)
    requires IsHeader(request, id, false, 0)
    ensures PeerAnswer(request, rcode, tlvs) == Header(id, true, rcode) + EncodeTlvs(tlvs)
  {
    FromBigEndian2(request[..2]);
    var answer, h := [request[0], request[1], request[2] + 0x80, rcode] + request[4..], Header(id, true, rcode);
    forall i | 0 <= i < 12
      ensures answer[i] == h[i]
    {
      if i >= 4 {
        assert answer[i] == request[i] == 0;
        assert h[i] == 0;
      }
    }
    assert answer == h;
  }

  /** An ID that is not zero and belongs to no outstanding request. */
  ghost predicate Usable(s: Session, id: uint16)
  {
    id != 0 && forall i :: 0 <= i < |s.slots| ==> s.slots[i].id != id
  }

  ghost predicate FirstUsable(s: Session, draw: nat -> uint16, k: nat)
  {
    k < 1001 && Usable(s, draw(k)) && forall j: nat :: j < k ==> !Usable(s, draw(j))
  }

  /**
   * A request gets the first usable of 1001 draws and, with its context, the first free slot; it is
   * refused, and nothing changes, if there is no such draw or no such slot.
   */
  lemma {:induction false} IssueIff(s: Session, ctx: Context, draw: nat -> uint16)
    requires Inv(s)
    ensures var (s', e) := Issue(s, ctx, draw);
            var free := FindSlot(s.slots, 0);
            && (e.Issued? <==> free < |s.slots| && exists k: nat :: FirstUsable(s, draw, k))
            && (e.Issued? ==> exists k: nat :: FirstUsable(s, draw, k) && e == Issued(draw(k), ctx))
            && (e.Issued? ==> s' == s.(slots := s.slots[free := Slot(e.id, ctx)], count := s.count + 1))
            && (!e.Issued? ==> e == NotIssued && s' == s)
  {
    FreeSlotExists(s.slots);
    BusyBound(s.slots);
    FirstIsUsable(s, draw, 0);
  }

  lemma {:induction false} FirstIsUsable(s: Session, draw: nat -> uint16, from: nat)
    requires from <= 1001 && forall j: nat :: j < from ==> !Usable(s, draw(j))
    ensures var first := FirstAcceptable(s.slots, draw, from, 1001);
            && (first.Some? ==> FirstUsable(s, draw, first.value))
            && (first.None? ==> forall k: nat :: !FirstUsable(s, draw, k))
    decreases 1001 - from
  {
    if from < 1001 && !Usable(s, draw(from)) {
      FirstIsUsable(s, draw, from + 1);
    }
  }
}
