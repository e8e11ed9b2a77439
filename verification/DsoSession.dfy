// A DSO session endpoint (RFC 8490): the table of outstanding requests, session establishment and
// the receipt of messages, DSO/dso.c:521-618 and 625-836.
//
// A transaction ID is only ever copied and compared, so it is taken as the big-endian value of its
// two octets whatever the host's byte order. A context is a number, with 0 for NULL.

module DsoSession {
  import opened Bytes
  import opened Counting
  import opened DsoTlv

  const TYPE_KEEPALIVE := 1
  const TYPE_RETRY_DELAY := 2
  const FUTURE_TIME := 0x3800_0000

  /** Random IDs tried before a request is given up. */
  const MAX_DRAWS := 1001

  type Context = nat

  datatype Slot = Slot(id: uint16, ctx: Context)

  const FREE := Slot(0, 0)

  datatype Session = Session(
    isServer: bool, hasSession: bool, hasCallback: bool, slots: seq<Slot>, count: int,
    primary: Tlv, additl: seq<Tlv>, live: bool, keepaliveInterval: uint32, inactivityTimeout: uint32)

  datatype Answer = Answer(id: uint16, ctx: Context, rcode: nat)

  /** What the endpoint's callback is told, or the error response sent instead. */
  datatype Call =
    | NoCall
    | Response(ctx: Context, rcode: nat)
    | Message
    | KeepaliveRcvd(inactivity: uint32, keepalive: uint32)
    | RetryDelay(delay: uint32)
    | FormErr

  /** What one operation did. */
  datatype Entry =
    | Issued(id: uint16, ctx: Context)
    | NotIssued
    | Forgot(ctx: Context)
    | Cancelled
    | Received(response: bool, answered: Option<Answer>, call: Call, sessionAfter: bool, liveAfter: bool)

  // ----- The operations as functions of the session --------------------------------------------

  predicate Acceptable(slots: seq<Slot>, id: uint16)
  {
    id != 0 && forall i :: 0 <= i < |slots| ==> slots[i].id != id
  }

  /** The first draw from `from` on, below limit, that is neither zero nor in use. */
  function FirstAcceptable(slots: seq<Slot>, draw: nat -> uint16, from: nat, limit: nat): Option<nat>
    decreases limit - from
  {
    if from >= limit then None
    else if Acceptable(slots, draw(from)) then Some(from)
    else FirstAcceptable(slots, draw, from + 1, limit)
  }

  lemma {:induction false} FirstAcceptableStep(slots: seq<Slot>, draw: nat -> uint16, from: nat, good: bool)
    requires from < MAX_DRAWS && good == Acceptable(slots, draw(from))
    ensures FirstAcceptable(slots, draw, from, MAX_DRAWS)
         == if good then Some(from) else FirstAcceptable(slots, draw, from + 1, MAX_DRAWS)
  {
  }

  /** The first slot with the given ID, or the number of slots. */
  function FindSlot(slots: seq<Slot>, id: uint16): (k: nat)
    ensures k <= |slots|
    ensures forall i :: 0 <= i < k ==> slots[i].id != id
    ensures k < |slots| ==> slots[k].id == id
  {
    if slots == [] then 0 else if slots[0].id == id then 0 else 1 + FindSlot(slots[1..], id)
  }

  /** dso_make_message for a request that wants a response. */
  function Issue(s: Session, ctx: Context, draw: nat -> uint16): (Session, Entry)
  {
    var free := FindSlot(s.slots, 0);
    var k := FirstAcceptable(s.slots, draw, 0, MAX_DRAWS);
    if s.count == |s.slots| || k.None? || free == |s.slots| then (s, NotIssued)
    else (s.(slots := s.slots[free := Slot(draw(k.value), ctx)], count := s.count + 1), Issued(draw(k.value), ctx))
  }

  /** dso_ignore_response. */
  function Ignore(s: Session, ctx: Context): (Session, Entry)
  {
    (s.(slots := seq(|s.slots|, i requires 0 <= i < |s.slots| => Forget(s.slots[i], ctx))), Forgot(ctx))
  }

  function Forget(slot: Slot, ctx: Context): Slot
  {
    if slot.ctx == ctx then slot.(ctx := 0) else slot
  }

  predicate IsResponse(mem: seq<byte>)
    requires |mem| >= 4
  {
    mem[2] >= 0x80
  }

  function IdOf(mem: seq<byte>): uint16
    requires |mem| >= 4
  {
    Be16(mem[0], mem[1])
  }

  function Rcode(mem: seq<byte>): nat
    requires |mem| >= 4
  {
    mem[3] as int % 16
  }

  predicate CountsZero(mem: seq<byte>)
    requires |mem| >= HEADER_SIZE
  {
    forall i :: 4 <= i < HEADER_SIZE ==> mem[i] == 0
  }

  function Outcome(s: Session, response: bool, answered: Option<Answer>, call: Call): (r: (Session, Entry))
    ensures r.1.Received?
  {
    (s, Received(response, answered, call, s.hasSession, s.live))
  }

  /** A fatal error: the connection is cancelled and nothing is told. */
  function Drop(s: Session, response: bool, answered: Option<Answer>): (r: (Session, Entry))
    ensures r.1.Received?
  {
    Outcome(s.(live := false), response, answered, NoCall)
  }

  /** dso_message_received for the n octets at the start of mem. */
  function Receive(s: Session, mem: seq<byte>, n: nat): (r: (Session, Entry))
    requires n + 4 <= |mem|
    ensures r.1.Received?
  {
    var response := IsResponse(mem);
    if n < HEADER_SIZE then Drop(s, response, None)
    else if !response then Check(s, mem, n, None)
    else
      var k := FindSlot(s.slots, IdOf(mem));
      if IdOf(mem) == 0 || (n < 16 && n != HEADER_SIZE) || k == |s.slots| then Drop(s, true, None)
      else Check(Settle(s, k, Rcode(mem), n), mem, n, Some(Answer(IdOf(mem), s.slots[k].ctx, Rcode(mem))))
  }

  /** The request in slot k is answered: the slot is freed, and a client may have a session now. */
  function Settle(s: Session, k: nat, rcode: nat, n: nat): Session
    requires k < |s.slots|
  {
    var s1 := s.(hasSession := s.hasSession || (!s.isServer && rcode == 0),
                 slots := s.slots[k := FREE], count := s.count - 1);
    if n == HEADER_SIZE then s1.(primary := Tlv(0, []), additl := []) else s1
  }

  /** The checks and the TLV loop every message goes through. */
  function Check(s: Session, mem: seq<byte>, n: nat, answered: Option<Answer>): (r: (Session, Entry))
    requires HEADER_SIZE <= n && n + 4 <= |mem|
    ensures r.1.Received?
  {
    var response := answered.Some?;
    if !CountsZero(mem) || (n < 16 && n != HEADER_SIZE) then Drop(s, response, answered)
    else
      ReadAndDispatch(SessionCheck(s, response), mem, n, answered)
  }

  /** A server's first request establishes its session; anything else out of place cancels. */
  function SessionCheck(s: Session, response: bool): Session
  {
    var has := s.hasSession || (s.isServer && !response);
    s.(hasSession := has, live := s.live && (has || s.isServer != response))
  }

  function ReadAndDispatch(s: Session, mem: seq<byte>, n: nat, answered: Option<Answer>): (r: (Session, Entry))
    requires HEADER_SIZE <= n && n + 4 <= |mem|
    ensures r.1.Received?
  {
    var p := Record(Parsed(s.primary, s.additl, true), ReadTlvs(mem, n, HEADER_SIZE));
    var s' := s.(primary := p.primary, additl := p.additl);
    if !p.ok then Drop(s', answered.Some?, answered) else Dispatch(s', n, answered)
  }

  function Dispatch(s: Session, n: nat, answered: Option<Answer>): (r: (Session, Entry))
    ensures r.1.Received?
  {
    var response := answered.Some?;
    if !s.hasCallback then Outcome(s, response, answered, NoCall)
    else if n != HEADER_SIZE && s.primary.opcode == TYPE_KEEPALIVE then Keepalive(s, answered)
    else if n != HEADER_SIZE && s.primary.opcode == TYPE_RETRY_DELAY then
      Outcome(s, response, answered, RetryCall(s.primary))
    else
      Outcome(s, response, answered, if response then Response(answered.value.ctx, answered.value.rcode) else Message)
  }

  function RetryCall(primary: Tlv): Call
  {
    var p := primary.payload;
    if |p| != 4 then FormErr else RetryDelay(Be32(p[0], p[1], p[2], p[3]))
  }

  /** dso_keepalive: a server reports the smaller values, a client adopts them. */
  function Keepalive(s: Session, answered: Option<Answer>): (r: (Session, Entry))
    ensures r.1.Received?
  {
    var response := answered.Some?;
    var p := s.primary.payload;
    if |p| != 8 then Outcome(s, response, answered, FormErr)
    else
      var inactivity, interval := Be32(p[0], p[1], p[2], p[3]), Be32(p[4], p[5], p[6], p[7]);
      if inactivity > FUTURE_TIME || interval > FUTURE_TIME then Outcome(s, response, answered, FormErr)
      else
        var inactivity', interval' := Min(s.inactivityTimeout, inactivity), Min(s.keepaliveInterval, interval);
        if s.isServer then Outcome(s, response, answered, KeepaliveRcvd(inactivity', interval'))
        else Outcome(s.(inactivityTimeout := inactivity', keepaliveInterval := interval'), response, answered, NoCall)
  }

  // ----- The endpoint as the source keeps it ----------------------------------------------------

  /** dso_state_t with its outstanding-query table; live says whether it is on dso_connections. */
  class DsoState {
    const isServer: bool
    var hasSession: bool
    const hasCallback: bool
    const ids: array<uint16>
    const contexts: array<Context>
    var outstandingCount: int
    var primary: Tlv
    var additl: seq<Tlv>
    var live: bool
    var keepaliveInterval: uint32
    var inactivityTimeout: uint32

    ghost predicate Valid()
      reads this
    {
      ids.Length == contexts.Length
    }

    ghost function Slots(): (r: seq<Slot>)
      requires Valid()
      reads this, ids, contexts
      ensures |r| == ids.Length
      ensures forall i :: 0 <= i < |r| ==> r[i] == Slot(ids[i], contexts[i])
    {
      seq(ids.Length, i requires 0 <= i < ids.Length reads this, ids, contexts => Slot(ids[i], contexts[i]))
    }

    ghost function State(): Session
      requires Valid()
      reads this, ids, contexts
    {
      Session(isServer, hasSession, hasCallback, Slots(), outstandingCount, primary, additl, live,
              keepaliveInterval, inactivityTimeout)
    }

    constructor (isServer: bool, maxOutstanding: nat, hasCallback: bool)
      ensures Valid() && fresh(ids) && fresh(contexts)
      ensures State() == Fresh(isServer, maxOutstanding, hasCallback)
    {
      this.isServer, this.hasCallback := isServer, hasCallback;
      ids := new uint16[maxOutstanding](_ => 0);
      contexts := new Context[maxOutstanding](_ => 0);
      hasSession, outstandingCount, primary, additl, live := false, 0, Tlv(0, []), [], true;
      keepaliveInterval, inactivityTimeout := 0, 0;
    }

    /**
     * dso_make_message. The precondition is what the source asserts: a server needs a session, and
     * so does a unidirectional message. draw(i) is the i-th random number; a request uses at most
     * 1001 of them.
     */
    method MakeMessage(unidirectional: bool, response: bool, xid: uint16, rcode: int, ctx: Context, draw: nat -> uint16)
      returns (ok: bool, header: seq<byte>, ghost entry: Entry, ghost draws: nat)
      requires Valid() && Inv(State())
      requires isServer ==> hasSession
      requires !response && unidirectional ==> hasSession
      modifies this`outstandingCount, ids, contexts
      ensures Valid()
      ensures response || unidirectional ==> ok && State() == old(State()) && draws == 0
      ensures !response && !unidirectional ==>
                (State(), entry) == Issue(old(State()), ctx, draw) && draws <= MAX_DRAWS
                && (ok <==> entry.Issued?)
      ensures ok ==>
                IsHeader(header, if response then xid else if unidirectional then 0 else entry.id, response, rcode)
    {
      ok, header, entry, draws := true, [], NotIssued, 0;
      if response {
        header := Header(xid, true, rcode);
        HeaderOctets(xid, true, rcode);
      } else if unidirectional {
        header := Header(0, false, rcode);
        HeaderOctets(0, false, rcode);
      } else {
        if outstandingCount == ids.Length {
          return false, header, entry, draws;
        }
        var found, id, avail;
        found, id, avail, draws := ChooseId(draw);
        if !found {
          return false, header, entry, draws;
        }
        Store(avail, id, ctx);
        entry := Issued(id, ctx);
        header := Header(id, false, rcode);
        HeaderOctets(id, false, rcode);
      }
    }

    /** One more request is outstanding, in a given slot. */
    method Store(avail: nat, id: uint16, ctx: Context)
      requires Valid() && avail < ids.Length
      modifies this`outstandingCount, ids, contexts
      ensures Valid()
      ensures State() == old(State()).(slots := old(Slots())[avail := Slot(id, ctx)], count := old(outstandingCount) + 1)
    {
      ids[avail] := id;
      contexts[avail] := ctx;
      outstandingCount := outstandingCount + 1;
      assert Slots() == old(Slots())[avail := Slot(id, ctx)];
    }

    /** One pass over the table: is the ID unused, and which slot is the first free one? */
    method ScanTable(id: uint16, seen: int) returns (good: bool, avail: int)
      requires Valid() && id != 0
      requires seen == -1 || seen == FindSlot(Slots(), 0)
      ensures good <==> Acceptable(Slots(), id)
      ensures avail == FindSlot(Slots(), 0) || (avail == -1 && FindSlot(Slots(), 0) == ids.Length)
    {
      good, avail := true, seen;
      ghost var slots := Slots();
      for i := 0 to ids.Length
        invariant good <==> forall k :: 0 <= k < i ==> slots[k].id != id
        invariant avail == -1 ==> forall k :: 0 <= k < i ==> slots[k].id != 0
        invariant avail == -1 || avail == FindSlot(slots, 0)
      {
        assert slots[i].id == ids[i];
        if ids[i] == 0 && avail == -1 {
          avail := i;
          FirstIs(slots, 0, i);
        } else if ids[i] == id {
          good := false;
        }
      }
    }

    /** Draws IDs until one is free, remembering the first free slot seen on the way. */
    method ChooseId(draw: nat -> uint16) returns (found: bool, id: uint16, avail: int, ghost draws: nat)
      requires Valid() && Inv(State()) && outstandingCount != ids.Length
      ensures draws <= MAX_DRAWS
      ensures found ==> FirstAcceptable(Slots(), draw, 0, MAX_DRAWS) == Some(draws - 1) && id == draw(draws - 1)
                        && avail == FindSlot(Slots(), 0) < ids.Length
      ensures !found ==> FirstAcceptable(Slots(), draw, 0, MAX_DRAWS) == None
    {
      FreeSlotExists(Slots());
      BusyBound(Slots());
      found, id, avail, draws := DrawIds(draw, Slots());
    }

    /** The loop, over a table with a free slot. */
    method DrawIds(draw: nat -> uint16, ghost slots: seq<Slot>) returns (found: bool, id: uint16, avail: int, ghost draws: nat)
      requires Valid() && slots == Slots() && FindSlot(slots, 0) < ids.Length
      ensures draws <= MAX_DRAWS
      ensures found ==> FirstAcceptable(slots, draw, 0, MAX_DRAWS) == Some(draws - 1) && id == draw(draws - 1)
                        && avail == FindSlot(slots, 0)
      ensures !found ==> FirstAcceptable(slots, draw, 0, MAX_DRAWS) == None
    {
      avail := -1;
      id := 0;
      var looping := 0;
      while true
        invariant looping <= MAX_DRAWS
        invariant FirstAcceptable(slots, draw, 0, MAX_DRAWS) == FirstAcceptable(slots, draw, looping, MAX_DRAWS)
        invariant avail == -1 || avail == FindSlot(slots, 0)
        decreases MAX_DRAWS - looping
      {
        if looping > 1000 {
          return false, id, avail, looping;
        }
        id := draw(looping);
        var good := false;
        if id != 0 {
          good, avail := ScanTable(id, avail);
        }
        FirstAcceptableStep(slots, draw, looping, good);
        looping := looping + 1;
        if good {
          return true, id, avail, looping;
        }
      }
    }

    method IgnoreResponse(ctx: Context)
      requires Valid()
      modifies contexts
      ensures Valid() && State() == Ignore(old(State()), ctx).0
    {
      for i := 0 to ids.Length
        invariant forall k :: 0 <= k < i ==> contexts[k] == old(if contexts[k] == ctx then 0 else contexts[k])
        invariant forall k :: i <= k < ids.Length ==> contexts[k] == old(contexts[k])
      {
        if contexts[i] == ctx {
          contexts[i] := 0;
        }
      }
    }

    method Cancel()
      modifies this`live
      ensures !live
    {
      live := false;
    }

    /** dso_message_received. */
    method MessageReceived(mem: seq<byte>, n: nat) returns (entry: Entry)
      requires Valid() && n + 4 <= |mem|
      modifies this, ids, contexts
      ensures Valid()
      ensures State() == Receive(old(State()), mem, n).0
      ensures entry == Receive(old(State()), mem, n).1
    {
      var response := mem[2] >= 0x80;
      if n < HEADER_SIZE {
        Cancel();
        return Received(response, None, NoCall, hasSession, live);
      }
      if !response {
        entry := CheckMessage(mem, n, None);
        return;
      }
      var id := Be16(mem[0], mem[1]);
      if id == 0 || (n < 16 && n != HEADER_SIZE) {
        Cancel();
        return Received(true, None, NoCall, hasSession, live);
      }
      var k := FindQuery(id);
      if k == ids.Length {
        Cancel();
        return Received(true, None, NoCall, hasSession, live);
      }
      var answer := Answer(id, contexts[k], Rcode(mem));
      SettleQuery(k, answer.rcode, n);
      entry := CheckMessage(mem, n, Some(answer));
    }

    method FindQuery(id: uint16) returns (k: nat)
      requires Valid()
      ensures k == FindSlot(Slots(), id)
    {
      k := 0;
      while k < ids.Length && ids[k] != id
        invariant k <= ids.Length
        invariant forall i :: 0 <= i < k ==> ids[i] != id
      {
        k := k + 1;
      }
      FirstIs(Slots(), id, k);
    }

    method SettleQuery(k: nat, rcode: nat, n: nat)
      requires Valid() && k < ids.Length
      modifies this, ids, contexts
      ensures Valid()
      ensures State() == Settle(old(State()), k, rcode, n)
    {
      if !isServer && !hasSession && rcode == 0 {
        hasSession := true;
      }
      ids[k] := 0;
      contexts[k] := 0;
      outstandingCount := outstandingCount - 1;
      assert Slots() == old(Slots())[k := FREE];
      if n == HEADER_SIZE {
        primary := Tlv(0, []);
        additl := [];
      }
    }

    method CheckSession(response: bool)
      requires Valid()
      modifies this`hasSession, this`live
      ensures Valid() && State() == SessionCheck(old(State()), response)
    {
      if !hasSession && isServer && !response {
        hasSession := true;
      }
      if !hasSession && ((isServer && response) || (!isServer && !response)) {
        // The source cancels here and goes on.
        Cancel();
      }
    }

    method CountsAreZero(mem: seq<byte>) returns (zero: bool)
      requires |mem| >= HEADER_SIZE
      ensures zero <==> CountsZero(mem)
    {
      for i := 0 to 4
        invariant forall k :: 4 <= k < 4 + 2 * i ==> mem[k] == 0
      {
        if mem[4 + 2 * i] != 0 || mem[4 + 2 * i + 1] != 0 {
          return false;
        }
      }
      return true;
    }

    method CheckMessage(mem: seq<byte>, n: nat, answered: Option<Answer>) returns (entry: Entry)
      requires Valid() && HEADER_SIZE <= n && n + 4 <= |mem|
      modifies this
      ensures Valid()
      ensures State() == Check(old(State()), mem, n, answered).0
      ensures entry == Check(old(State()), mem, n, answered).1
    {
      var response := answered.Some?;
      var zero := CountsAreZero(mem);
      if !zero {
        Cancel();
        return Received(response, answered, NoCall, hasSession, live);
      }
      if n < 16 && n != HEADER_SIZE {
        Cancel();
        return Received(response, answered, NoCall, hasSession, live);
      }
      CheckSession(response);
      entry := ParseTlvs(mem, n, answered);
    }

    method ParseTlvs(mem: seq<byte>, n: nat, answered: Option<Answer>) returns (entry: Entry)
      requires Valid() && HEADER_SIZE <= n && n + 4 <= |mem|
      modifies this
      ensures Valid()
      ensures State() == ReadAndDispatch(old(State()), mem, n, answered).0
      ensures entry == ReadAndDispatch(old(State()), mem, n, answered).1
    {
      var p, end := ReceiveTlvs(mem, n, Parsed(primary, additl, true));
      primary := p.primary;
      additl := p.additl;
      assert State() == old(State()).(primary := p.primary, additl := p.additl);
      if !p.ok {
        Cancel();
        assert State() == old(State()).(primary := p.primary, additl := p.additl, live := false);
        return Received(answered.Some?, answered, NoCall, hasSession, live);
      }
      entry := DispatchMessage(n, answered);
    }

    method DispatchMessage(n: nat, answered: Option<Answer>) returns (entry: Entry)
      requires Valid()
      modifies this`inactivityTimeout, this`keepaliveInterval
      ensures Valid()
      ensures State() == Dispatch(old(State()), n, answered).0
      ensures entry == Dispatch(old(State()), n, answered).1
    {
      var response := answered.Some?;
      var call := NoCall;
      if hasCallback {
        if n != HEADER_SIZE && primary.opcode == TYPE_KEEPALIVE {
          call := KeepaliveReceived();
        } else if n != HEADER_SIZE && primary.opcode == TYPE_RETRY_DELAY {
          call := RetryCall(primary);
        } else if response {
          call := Response(answered.value.ctx, answered.value.rcode);
        } else {
          call := Message;
        }
      }
      return Received(response, answered, call, hasSession, live);
    }

    method KeepaliveReceived() returns (call: Call)
      requires Valid()
      modifies this`inactivityTimeout, this`keepaliveInterval
      ensures Valid()
      ensures forall answered :: State() == Keepalive(old(State()), answered).0
                                 && call == Keepalive(old(State()), answered).1.call
    {
      var p := primary.payload;
      if |p| != 8 {
        return FormErr;
      }
      var inactivity, interval := Be32(p[0], p[1], p[2], p[3]), Be32(p[4], p[5], p[6], p[7]);
      if inactivity > FUTURE_TIME || interval > FUTURE_TIME {
        return FormErr;
      }
      if isServer {
        return KeepaliveRcvd(Min(inactivityTimeout, inactivity), Min(keepaliveInterval, interval));
      }
      if keepaliveInterval > interval {
        keepaliveInterval := interval;
      }
      if inactivityTimeout > inactivity {
        inactivityTimeout := inactivity;
      }
      return NoCall;
    }
  }

  function Fresh(isServer: bool, maxOutstanding: nat, hasCallback: bool): Session
  {
    Session(isServer, false, hasCallback, seq(maxOutstanding, _ => FREE), 0, Tlv(0, []), [], true, 0, 0)
  }

  /** The twelve octets dso_make_message starts a message with. */
  function Header(id: uint16, response: bool, rcode: int): (h: seq<byte>)
    ensures |h| == HEADER_SIZE
  {
    [id / 0x100, id % 0x100, if response then 0xB0 else 0x30, if response then rcode % 0x100 else 0,
     0, 0, 0, 0, 0, 0, 0, 0]
  }

  /**
   * The octets of a DSO message's header: the ID, the response bit and opcode 6, the response code,
   * and four counts of zero.
   */
  ghost predicate IsHeader(h: seq<byte>, id: uint16, response: bool, rcode: int)
  {
    && |h| == 12 && FromBigEndian(h[..2]) == id
    && (h[2] >= 0x80 <==> response) && h[2] % 0x80 == 6 * 8
    && h[3] == (if response then rcode % 0x100 else 0)
    && forall i :: 4 <= i < 12 ==> h[i] == 0
  }

  lemma {:induction false} HeaderOctets(id: uint16, response: bool, rcode: int)
    ensures IsHeader(Header(id, response, rcode), id, response, rcode)
  {
    FromBigEndian2(Header(id, response, rcode)[..2]);
  }

  /** The timeouts a keepalive TLV carries. */
  function InactivityIn(p: seq<byte>): uint32
    requires |p| == 8
  {
    Be32(p[0], p[1], p[2], p[3])
  }

  function IntervalIn(p: seq<byte>): uint32
    requires |p| == 8
  {
    Be32(p[4], p[5], p[6], p[7])
  }

  /** A keepalive payload that is not answered with an error. */
  predicate Reasonable(p: seq<byte>)
  {
    |p| == 8 && InactivityIn(p) <= FUTURE_TIME && IntervalIn(p) <= FUTURE_TIME
  }

  /** x is one of a and b, and neither is less. */
  predicate IsLesser(x: uint32, a: uint32, b: uint32)
  {
    x <= a && x <= b && (x == a || x == b)
  }

  /**
   * What a keepalive makes of the two timeouts: a server reports, and a client adopts, of each the
   * lesser of its own and the received one; a server keeps its own; and a payload that is not
   * eight octets of reasonable timeouts changes nothing and is answered with an error.
   */
  lemma {:induction false} KeepaliveTakesLesser(s: Session, answered: Option<Answer>)
    ensures var (s', e) := Keepalive(s, answered);
            var p := s.primary.payload;
            && (e.call == FormErr <==> !Reasonable(p))
            && (e.call.KeepaliveRcvd? <==> Reasonable(p) && s.isServer)
            && (e.call.KeepaliveRcvd? ==> IsLesser(e.call.inactivity, s.inactivityTimeout, InactivityIn(p))
                                          && IsLesser(e.call.keepalive, s.keepaliveInterval, IntervalIn(p)))
            && (Reasonable(p) && !s.isServer ==>
                  && e.call == NoCall
                  && IsLesser(s'.inactivityTimeout, s.inactivityTimeout, InactivityIn(p))
                  && IsLesser(s'.keepaliveInterval, s.keepaliveInterval, IntervalIn(p)))
            && (!Reasonable(p) || s.isServer ==> s' == s)
  {
  }

  lemma {:induction false} FirstIs(slots: seq<Slot>, id: uint16, k: nat)
    requires k <= |slots|
    requires forall i :: 0 <= i < k ==> slots[i].id != id
    requires k < |slots| ==> slots[k].id == id
    ensures FindSlot(slots, id) == k
  {
    var f := FindSlot(slots, id);
  }

  // ----- What every reachable state keeps --------------------------------------------------------

  /** The number of slots in use. */
  function InUse(): Slot -> bool
  {
    (slot: Slot) => slot.id != 0
  }

  function Busy(slots: seq<Slot>): nat
  {
    Count(slots, InUse())
  }

  /**
   * The outstanding count is the number of non-zero IDs; these differ; a free slot holds no
   * context; and a server without a session has nothing outstanding.
   */
  ghost predicate Inv(s: Session)
  {
    && s.count == Busy(s.slots)
    && (forall i, j :: 0 <= i < j < |s.slots| && s.slots[i].id == s.slots[j].id ==> s.slots[i].id == 0)
    && (forall i :: 0 <= i < |s.slots| && s.slots[i].id == 0 ==> s.slots[i].ctx == 0)
    && (s.isServer && !s.hasSession ==> s.count == 0)
    && |s.additl| <= MAX_ADDITLS
  }

  lemma {:induction false} BusyBound(slots: seq<Slot>)
    ensures Busy(slots) <= |slots|
    ensures Busy(slots) == 0 <==> forall i :: 0 <= i < |slots| ==> slots[i].id == 0
  {
    CountAll(slots, InUse());
    CountedIsPresent(slots, InUse());
  }

  lemma {:induction false} BusyUpdate(slots: seq<Slot>, k: nat, slot: Slot)
    requires k < |slots|
    ensures Busy(slots[k := slot])
         == Busy(slots) - (if slots[k].id != 0 then 1 else 0) + (if slot.id != 0 then 1 else 0)
  {
    CountReplace(slots, k, slot, InUse());
  }

  lemma {:induction false} BusySame(a: seq<Slot>, b: seq<Slot>)
    requires |a| == |b| && forall i :: 0 <= i < |a| ==> a[i].id == b[i].id
    ensures Busy(a) == Busy(b)
  {
    CountMapped(a, b, InUse(), InUse());
  }

  /** While the table is not full there is a free slot. */
  lemma {:induction false} FreeSlotExists(slots: seq<Slot>)
    ensures Busy(slots) < |slots| <==> FindSlot(slots, 0) < |slots|
  {
    CountAll(slots, InUse());
  }

  lemma {:induction false} FreshInv(isServer: bool, maxOutstanding: nat, hasCallback: bool)
    ensures Inv(Fresh(isServer, maxOutstanding, hasCallback))
  {
    BusyBound(Fresh(isServer, maxOutstanding, hasCallback).slots);
  }

  /** A request is refused exactly when the table is full or none of 1001 draws is usable. */
  lemma {:induction false} IssueRefusedIff(s: Session, ctx: Context, draw: nat -> uint16)
    requires Inv(s)
    ensures Issue(s, ctx, draw).1 == NotIssued <==>
            s.count == |s.slots| || forall i :: 0 <= i < MAX_DRAWS ==> !Acceptable(s.slots, draw(i))
    ensures Issue(s, ctx, draw).1 == NotIssued ==> Issue(s, ctx, draw).0 == s
  {
    FreeSlotExists(s.slots);
    BusyBound(s.slots);
    AcceptableDraw(s.slots, draw, 0);
  }

  lemma {:induction false} AcceptableDraw(slots: seq<Slot>, draw: nat -> uint16, from: nat)
    requires from <= MAX_DRAWS
    ensures FirstAcceptable(slots, draw, from, MAX_DRAWS) == None <==>
            forall i :: from <= i < MAX_DRAWS ==> !Acceptable(slots, draw(i))
    ensures FirstAcceptable(slots, draw, from, MAX_DRAWS).Some? ==>
              Acceptable(slots, draw(FirstAcceptable(slots, draw, from, MAX_DRAWS).value))
    decreases MAX_DRAWS - from
  {
    if from < MAX_DRAWS {
      AcceptableDraw(slots, draw, from + 1);
    }
  }

  lemma {:induction false} IssueInv(s: Session, ctx: Context, draw: nat -> uint16)
    requires Inv(s) && (s.isServer ==> s.hasSession)
    ensures Inv(Issue(s, ctx, draw).0)
  {
    var free := FindSlot(s.slots, 0);
    var k := FirstAcceptable(s.slots, draw, 0, MAX_DRAWS);
    if k.Some? && free < |s.slots| {
      AcceptableDraw(s.slots, draw, 0);
      BusyUpdate(s.slots, free, Slot(draw(k.value), ctx));
    }
  }

  lemma {:induction false} IgnoreInv(s: Session, ctx: Context)
    requires Inv(s)
    ensures Inv(Ignore(s, ctx).0)
  {
    BusySame(s.slots, Ignore(s, ctx).0.slots);
  }

  lemma {:induction false} SettleInv(s: Session, k: nat, rcode: nat, n: nat)
    requires Inv(s) && k < |s.slots| && s.slots[k].id != 0
    ensures Inv(Settle(s, k, rcode, n))
    ensures s.isServer ==> s.hasSession
  {
    BusyBound(s.slots);
    BusyUpdate(s.slots, k, FREE);
  }

  /** What follows the matching of a response says who was answered, and leaves the table alone. */
  ghost predicate Keeps(s: Session, s': Session, e: Entry, answered: Option<Answer>)
  {
    && s'.slots == s.slots && s'.count == s.count && s'.isServer == s.isServer
    && e.Received? && e.answered == answered && e.response == answered.Some?
    && e.sessionAfter == s'.hasSession && e.liveAfter == s'.live
    && (e.call.Response? ==> answered.Some? && e.call == Response(answered.value.ctx, answered.value.rcode))
  }

  lemma {:induction false} KeepaliveKeeps(s: Session, answered: Option<Answer>)
    ensures var (s', e) := Keepalive(s, answered);
            Keeps(s, s', e, answered) && s'.hasSession == s.hasSession && s'.additl == s.additl && s'.live == s.live
  {
  }

  lemma {:induction false} DispatchKeeps(s: Session, n: nat, answered: Option<Answer>)
    ensures var (s', e) := Dispatch(s, n, answered);
            Keeps(s, s', e, answered) && s'.hasSession == s.hasSession && s'.additl == s.additl && s'.live == s.live
  {
    KeepaliveKeeps(s, answered);
  }

  lemma {:induction false} ReadKeeps(s: Session, mem: seq<byte>, n: nat, answered: Option<Answer>)
    requires HEADER_SIZE <= n && n + 4 <= |mem|
    ensures var (s', e) := ReadAndDispatch(s, mem, n, answered);
            && Keeps(s, s', e, answered) && s'.hasSession == s.hasSession && (s'.live ==> s.live)
            && (|s.additl| <= MAX_ADDITLS ==> |s'.additl| <= MAX_ADDITLS)
  {
    var p := Record(Parsed(s.primary, s.additl, true), ReadTlvs(mem, n, HEADER_SIZE));
    if p.ok {
      DispatchKeeps(s.(primary := p.primary, additl := p.additl), n, answered);
    }
  }

  /** The same for the checks in front of it, which may also establish a session or cancel. */
  lemma {:induction false} CheckKeeps(s: Session, mem: seq<byte>, n: nat, answered: Option<Answer>)
    requires HEADER_SIZE <= n && n + 4 <= |mem|
    ensures var (s', e) := Check(s, mem, n, answered);
            && Keeps(s, s', e, answered) && (s.hasSession ==> s'.hasSession) && (s'.live ==> s.live)
            && (|s.additl| <= MAX_ADDITLS ==> |s'.additl| <= MAX_ADDITLS)
            && (!e.call.NoCall? && e.liveAfter ==> e.sessionAfter || s.isServer != answered.Some?)
  {
    ReadKeeps(SessionCheck(s, answered.Some?), mem, n, answered);
  }

  lemma {:induction false} ReceiveInv(s: Session, mem: seq<byte>, n: nat)
    requires Inv(s) && n + 4 <= |mem|
    ensures Inv(Receive(s, mem, n).0)
  {
    var k := FindSlot(s.slots, IdOf(mem));
    if n >= HEADER_SIZE {
      if !IsResponse(mem) {
        CheckKeeps(s, mem, n, None);
      } else if IdOf(mem) != 0 && k < |s.slots| {
        SettleInv(s, k, Rcode(mem), n);
        CheckKeeps(Settle(s, k, Rcode(mem), n), mem, n, Some(Answer(IdOf(mem), s.slots[k].ctx, Rcode(mem))));
      }
    }
  }
}
