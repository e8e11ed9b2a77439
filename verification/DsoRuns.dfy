// Safety of a DSO session endpoint over every run of its operations (DSO/dso.c:521-836).

module DsoRuns {
  import opened Bytes
  import opened DsoTlv
  import opened DsoSession

  datatype Op =
    | OpIssue(ctx: Context, draw: nat -> uint16)
    | OpForget(ctx: Context)
    | OpCancel
    | OpReceive(mem: seq<byte>, n: nat)

  /** What the source asserts of its caller, and that the memory holding a message is given. */
  ghost predicate Allowed(s: Session, op: Op)
  {
    match op
    case OpIssue(_, _) => s.isServer ==> s.hasSession
    case OpReceive(mem, n) => n + 4 <= |mem|
    case _ => true
  }

  ghost function Apply(s: Session, op: Op): (Session, Entry)
    requires Allowed(s, op)
  {
    match op
    case OpIssue(ctx, draw) => Issue(s, ctx, draw)
    case OpForget(ctx) => Ignore(s, ctx)
    case OpCancel => (s.(live := false), Cancelled)
    case OpReceive(mem, n) => Receive(s, mem, n)
  }

  /** trace and states are those of a run from s0; states[i] is the state before entry i. */
  ghost predicate IsRun(states: seq<Session>, trace: seq<Entry>)
  {
    && |states| == |trace| + 1
    && Inv(states[0]) && Busy(states[0].slots) == 0
    && forall i :: 0 <= i < |trace| ==> StepAt(states, trace, i)
  }

  ghost predicate StepAt(states: seq<Session>, trace: seq<Entry>, i: nat)
    requires |states| == |trace| + 1 && i < |trace|
  {
    StepOf(states[i], states[i + 1], trace[i])
  }

  ghost predicate StepOf(s: Session, s': Session, e: Entry)
  {
    exists op :: Allowed(s, op) && Apply(s, op) == (s', e)
  }

  /** The state the constructor makes starts a run: no session, nothing outstanding and no timeouts. */
  lemma {:induction false} FreshStartsRun(isServer: bool, maxOutstanding: nat, hasCallback: bool)
    ensures IsRun([Fresh(isServer, maxOutstanding, hasCallback)], [])
    ensures var s := Fresh(isServer, maxOutstanding, hasCallback);
            && s.isServer == isServer && s.hasCallback == hasCallback && s.live && !s.hasSession
            && |s.slots| == maxOutstanding && s.count == 0 && s.inactivityTimeout == 0 && s.keepaliveInterval == 0
            && forall i :: 0 <= i < |s.slots| ==> s.slots[i].id == 0
  {
    FreshInv(isServer, maxOutstanding, hasCallback);
    BusyBound(Fresh(isServer, maxOutstanding, hasCallback).slots);
  }

  // ----- The state ------------------------------------------------------------------------------

  lemma {:induction false} StepInv(s: Session, s': Session, e: Entry)
    requires Inv(s) && StepOf(s, s', e)
    ensures Inv(s') && s'.isServer == s.isServer && |s'.slots| == |s.slots|
    ensures s.hasSession ==> s'.hasSession
  {
    var op :| Allowed(s, op) && Apply(s, op) == (s', e);
    match op
    case OpIssue(ctx, draw) => IssueInv(s, ctx, draw);
    case OpForget(ctx) => IgnoreInv(s, ctx);
    case OpCancel =>
    case OpReceive(mem, n) =>
      ReceiveInv(s, mem, n);
      ReceiveKeeps(s, mem, n);
  }

  lemma {:induction false} ReceiveKeeps(s: Session, mem: seq<byte>, n: nat)
    requires n + 4 <= |mem|
    ensures var s' := Receive(s, mem, n).0;
            s'.isServer == s.isServer && |s'.slots| == |s.slots| && (s.hasSession ==> s'.hasSession)
            && (s'.live ==> s.live)
  {
    var k := FindSlot(s.slots, IdOf(mem));
    if n >= HEADER_SIZE {
      if !IsResponse(mem) {
        CheckKeeps(s, mem, n, None);
      } else if k < |s.slots| {
        CheckKeeps(Settle(s, k, Rcode(mem), n), mem, n, Some(Answer(IdOf(mem), s.slots[k].ctx, Rcode(mem))));
      }
    }
  }

  /**
   * In every state of every run the outstanding count is the number of non-zero IDs, which are
   * pairwise distinct; a request finds a free slot exactly when the table is not full; and a
   * server without a session has nothing outstanding.
   */
  lemma {:induction false} ReachableInv(states: seq<Session>, trace: seq<Entry>, i: nat)
    requires IsRun(states, trace) && i < |states|
    ensures Inv(states[i])
    ensures 0 <= states[i].count <= |states[i].slots|
    ensures states[i].count < |states[i].slots| <==> FindSlot(states[i].slots, 0) < |states[i].slots|
    ensures states[i].isServer == states[0].isServer
  {
    if i > 0 {
      ReachableInv(states, trace, i - 1);
      assert StepAt(states, trace, i - 1);
      StepInv(states[i - 1], states[i], trace[i - 1]);
    }
    BusyBound(states[i].slots);
    FreeSlotExists(states[i].slots);
  }

  lemma {:induction false} RunStep(states: seq<Session>, trace: seq<Entry>, i: nat)
    requires IsRun(states, trace) && i < |trace|
    ensures Inv(states[i]) && StepOf(states[i], states[i + 1], trace[i])
    ensures states[i].hasSession ==> states[i + 1].hasSession
  {
    ReachableInv(states, trace, i);
    assert StepAt(states, trace, i);
    StepInv(states[i], states[i + 1], trace[i]);
  }

  /** A session, once established, stays. */
  lemma {:induction false} SessionNeverReverts(states: seq<Session>, trace: seq<Entry>, i: nat, j: nat)
    requires IsRun(states, trace) && i <= j < |states| && states[i].hasSession
    ensures states[j].hasSession
  {
    if i < j {
      SessionNeverReverts(states, trace, i, j - 1);
      RunStep(states, trace, j - 1);
    }
  }

  /**
   * How a session comes about. A client gains one exactly by a response without error to a request
   * outstanding; a server exactly by a request whose header is in order. Nothing else does.
   */
  lemma {:induction false} SessionGainedIff(s: Session, op: Op)
    requires Inv(s) && Allowed(s, op) && !s.hasSession
    ensures Apply(s, op).0.hasSession <==>
            && op.OpReceive? && op.n >= HEADER_SIZE
            && if s.isServer then
                 !IsResponse(op.mem) && CountsZero(op.mem) && (op.n >= 16 || op.n == HEADER_SIZE)
               else
                 IsResponse(op.mem) && IdOf(op.mem) != 0 && Rcode(op.mem) == 0
                 && (op.n >= 16 || op.n == HEADER_SIZE)
                 && exists i :: 0 <= i < |s.slots| && s.slots[i].id == IdOf(op.mem)
  {
    if op.OpReceive? && op.n >= HEADER_SIZE {
      var mem, n := op.mem, op.n;
      var k := FindSlot(s.slots, IdOf(mem));
      BusyBound(s.slots);
      if !IsResponse(mem) {
        CheckSessionExact(s, mem, n, None);
      } else if k < |s.slots| {
        CheckSessionExact(Settle(s, k, Rcode(mem), n), mem, n, Some(Answer(IdOf(mem), s.slots[k].ctx, Rcode(mem))));
      }
    }
  }

  lemma {:induction false} CheckSessionExact(s: Session, mem: seq<byte>, n: nat, answered: Option<Answer>)
    requires HEADER_SIZE <= n && n + 4 <= |mem|
    ensures Check(s, mem, n, answered).0.hasSession <==>
            s.hasSession || (s.isServer && answered.None? && CountsZero(mem) && (n >= 16 || n == HEADER_SIZE))
  {
    var s1 := SessionCheck(s, answered.Some?);
    var p := Record(Parsed(s1.primary, s1.additl, true), ReadTlvs(mem, n, HEADER_SIZE));
    if CountsZero(mem) && !(n < 16 && n != HEADER_SIZE) && p.ok {
      DispatchKeeps(s1.(primary := p.primary, additl := p.additl), n, answered);
    }
  }

  /**
   * The server half of the check for messages out of place is never taken: a server that matched a
   * response already has a session.
   */
  lemma {:induction false} ServerResponseHasSession(states: seq<Session>, trace: seq<Entry>, i: nat, mem: seq<byte>, n: nat)
    requires IsRun(states, trace) && i < |states| && n + 4 <= |mem| && n >= HEADER_SIZE
    requires states[i].isServer && IsResponse(mem) && IdOf(mem) != 0
    requires FindSlot(states[i].slots, IdOf(mem)) < |states[i].slots|
    ensures states[i].hasSession
  {
    ReachableInv(states, trace, i);
    BusyBound(states[i].slots);
  }

  // ----- The timeouts -----------------------------------------------------------------------------

  /** Neither timeout is more, and a server's are the same. */
  ghost predicate TimeoutsFrom(s: Session, s': Session)
  {
    && s'.isServer == s.isServer
    && s'.inactivityTimeout <= s.inactivityTimeout && s'.keepaliveInterval <= s.keepaliveInterval
    && (s.isServer ==> s'.inactivityTimeout == s.inactivityTimeout && s'.keepaliveInterval == s.keepaliveInterval)
  }

  /** A reported pair is at most the session's own. */
  ghost predicate ReportsWithin(s: Session, e: Entry)
  {
    e.Received? && e.call.KeepaliveRcvd? ==>
      s.isServer && e.call.inactivity <= s.inactivityTimeout && e.call.keepalive <= s.keepaliveInterval
  }

  lemma {:induction false} DispatchTimeouts(s: Session, n: nat, answered: Option<Answer>)
    ensures var (s', e) := Dispatch(s, n, answered); TimeoutsFrom(s, s') && ReportsWithin(s, e)
  {
    KeepaliveTakesLesser(s, answered);
  }

  lemma {:induction false} ReadTimeouts(s: Session, mem: seq<byte>, n: nat, answered: Option<Answer>)
    requires HEADER_SIZE <= n && n + 4 <= |mem|
    ensures var (s', e) := ReadAndDispatch(s, mem, n, answered); TimeoutsFrom(s, s') && ReportsWithin(s, e)
  {
    var p := Record(Parsed(s.primary, s.additl, true), ReadTlvs(mem, n, HEADER_SIZE));
    DispatchTimeouts(s.(primary := p.primary, additl := p.additl), n, answered);
  }

  lemma {:induction false} CheckTimeouts(s: Session, mem: seq<byte>, n: nat, answered: Option<Answer>)
    requires HEADER_SIZE <= n && n + 4 <= |mem|
    ensures var (s', e) := Check(s, mem, n, answered); TimeoutsFrom(s, s') && ReportsWithin(s, e)
  {
    ReadTimeouts(SessionCheck(s, answered.Some?), mem, n, answered);
  }

  lemma {:induction false} ReceiveTimeouts(s: Session, mem: seq<byte>, n: nat)
    requires n + 4 <= |mem|
    ensures var (s', e) := Receive(s, mem, n); TimeoutsFrom(s, s') && ReportsWithin(s, e)
  {
    if n >= HEADER_SIZE {
      var k := FindSlot(s.slots, IdOf(mem));
      if !IsResponse(mem) {
        CheckTimeouts(s, mem, n, None);
      } else if IdOf(mem) != 0 && k < |s.slots| {
        var a := Answer(IdOf(mem), s.slots[k].ctx, Rcode(mem));
        CheckTimeouts(Settle(s, k, a.rcode, n), mem, n, Some(a));
      }
    }
  }

  lemma {:induction false} StepTimeouts(s: Session, s': Session, e: Entry)
    requires StepOf(s, s', e)
    ensures TimeoutsFrom(s, s') && ReportsWithin(s, e)
  {
    var op :| Allowed(s, op) && Apply(s, op) == (s', e);
    if op.OpReceive? {
      ReceiveTimeouts(s, op.mem, op.n);
    }
  }

  /** Over any run an endpoint's two timeouts never grow, and a server's never change. */
  lemma {:induction false} TimeoutsNeverGrow(states: seq<Session>, trace: seq<Entry>, i: nat, j: nat)
    requires IsRun(states, trace) && i <= j < |states|
    ensures TimeoutsFrom(states[i], states[j])
    ensures j < |trace| ==> ReportsWithin(states[i], trace[j])
  {
    if i < j {
      TimeoutsNeverGrow(states, trace, i, j - 1);
      RunStep(states, trace, j - 1);
      StepTimeouts(states[j - 1], states[j], trace[j - 1]);
    }
    if j < |trace| {
      RunStep(states, trace, j);
      StepTimeouts(states[j], states[j + 1], trace[j]);
    }
  }

  /**
   * A connection starts with both timeouts 0 and only a keepalive changes them, so in every run
   * they stay 0 and a server reports 0 for both, whatever its peers send.
   */
  lemma {:induction false} TimeoutsStayZero(states: seq<Session>, trace: seq<Entry>, i: nat,
                                            isServer: bool, maxOutstanding: nat, hasCallback: bool)
    requires IsRun(states, trace) && states[0] == Fresh(isServer, maxOutstanding, hasCallback) && i < |states|
    ensures states[i].inactivityTimeout == 0 && states[i].keepaliveInterval == 0
    ensures i < |trace| && trace[i].Received? && trace[i].call.KeepaliveRcvd? ==> trace[i].call == KeepaliveRcvd(0, 0)
  {
    TimeoutsNeverGrow(states, trace, 0, i);
  }

  // ----- Requests and their answers ---------------------------------------------------------------

  /** What an entry does to the requests outstanding. */
  ghost function After(m: map<uint16, Context>, e: Entry): map<uint16, Context>
  {
    match e
    case Issued(id, ctx) => m[id := ctx]
    case Forgot(ctx) => map id | id in m :: if m[id] == ctx then 0 else m[id]
    case Received(_, Some(a), _, _, _) => m - {a.id}
    case _ => m
  }

  /** The requests outstanding after a trace, with the contexts their answers will be given. */
  ghost function Outstanding(trace: seq<Entry>): map<uint16, Context>
  {
    if trace == [] then map[] else After(Outstanding(trace[..|trace| - 1]), trace[|trace| - 1])
  }

  /** The table holds exactly what the trace says is outstanding. */
  ghost predicate Agrees(slots: seq<Slot>, m: map<uint16, Context>)
  {
    && (forall i :: 0 <= i < |slots| && slots[i].id != 0 ==> slots[i].id in m && m[slots[i].id] == slots[i].ctx)
    && (forall id :: id in m ==> id != 0 && FindSlot(slots, id) < |slots|)
  }

  /** What each entry says about the requests outstanding before it. */
  ghost predicate EntryOk(m: map<uint16, Context>, e: Entry)
  {
    match e
    case Issued(id, _) => id != 0 && id !in m
    case Received(response, answered, call, session, live) =>
      && (answered.Some? ==> response && answered.value.id in m && m[answered.value.id] == answered.value.ctx)
      && (call.Response? ==> answered.Some? && call == Response(answered.value.ctx, answered.value.rcode))
      && (response && answered.None? ==> call.NoCall? && !live)
      && (!response ==> answered.None?)
    case _ => true
  }

  lemma {:induction false} TableAgrees(states: seq<Session>, trace: seq<Entry>, i: nat)
    requires IsRun(states, trace) && i <= |trace|
    ensures Agrees(states[i].slots, Outstanding(trace[..i]))
    ensures i < |trace| ==> EntryOk(Outstanding(trace[..i]), trace[i])
    decreases i
  {
    if i == 0 {
      BusyBound(states[0].slots);
    } else {
      TableAgrees(states, trace, i - 1);
      RunStep(states, trace, i - 1);
      StepAgrees(states[i - 1], states[i], trace[i - 1], Outstanding(trace[..i - 1]));
      assert trace[..i][..i - 1] == trace[..i - 1];
    }
    if i < |trace| {
      RunStep(states, trace, i);
      StepAgrees(states[i], states[i + 1], trace[i], Outstanding(trace[..i]));
    }
  }

  lemma {:induction false} StepAgrees(s: Session, s': Session, e: Entry, m: map<uint16, Context>)
    requires Inv(s) && StepOf(s, s', e) && Agrees(s.slots, m)
    ensures EntryOk(m, e)
    ensures Agrees(s'.slots, After(m, e))
  {
    var op :| Allowed(s, op) && Apply(s, op) == (s', e);
    match op
    case OpIssue(ctx, draw) => IssueAgrees(s, ctx, draw, m);
    case OpForget(ctx) => IgnoreAgrees(s, ctx, m);
    case OpCancel =>
    case OpReceive(mem, n) => ReceiveAgrees(s, mem, n, m);
  }

  lemma {:induction false} IssueAgrees(s: Session, ctx: Context, draw: nat -> uint16, m: map<uint16, Context>)
    requires Inv(s) && Agrees(s.slots, m)
    ensures EntryOk(m, Issue(s, ctx, draw).1)
    ensures Agrees(Issue(s, ctx, draw).0.slots, After(m, Issue(s, ctx, draw).1))
  {
    var (s', e) := Issue(s, ctx, draw);
    if e.Issued? {
      AcceptableDraw(s.slots, draw, 0);
      var free := FindSlot(s.slots, 0);
      forall id | id in After(m, e)
        ensures id != 0 && FindSlot(s'.slots, id) < |s'.slots|
      {
        var k := if id == e.id then free else FindSlot(s.slots, id);
        assert s'.slots[k].id == id;
      }
    }
  }

  lemma {:induction false} IgnoreAgrees(s: Session, ctx: Context, m: map<uint16, Context>)
    requires Agrees(s.slots, m)
    ensures Agrees(Ignore(s, ctx).0.slots, After(m, Forgot(ctx)))
  {
    var s' := Ignore(s, ctx).0;
    forall id | id in m
      ensures FindSlot(s'.slots, id) < |s'.slots|
    {
      assert s'.slots[FindSlot(s.slots, id)].id == id;
    }
  }

  lemma {:induction false} SettleAgrees(s: Session, k: nat, a: Answer, n: nat, m: map<uint16, Context>)
    requires Inv(s) && Agrees(s.slots, m)
    requires k < |s.slots| && s.slots[k].id == a.id != 0 && s.slots[k].ctx == a.ctx
    ensures a.id in m && m[a.id] == a.ctx
    ensures Agrees(Settle(s, k, a.rcode, n).slots, m - {a.id})
  {
    FreedAgrees(s.slots, k, a.id, m);
  }

  /** Freeing the one slot with an ID forgets that ID and no other. */
  lemma {:induction false} FreedAgrees(slots: seq<Slot>, k: nat, freed: uint16, m: map<uint16, Context>)
    requires Agrees(slots, m) && k < |slots| && slots[k].id == freed != 0
    requires forall i :: 0 <= i < |slots| && slots[i].id == freed ==> i == k
    ensures Agrees(slots[k := FREE], m - {freed})
  {
    var slots' := slots[k := FREE];
    forall id | id in m - {freed}
      ensures id != 0 && FindSlot(slots', id) < |slots'|
    {
      assert slots'[FindSlot(slots, id)].id == id;
    }
  }

  lemma {:induction false} ReceiveAgrees(s: Session, mem: seq<byte>, n: nat, m: map<uint16, Context>)
    requires Inv(s) && Agrees(s.slots, m) && n + 4 <= |mem|
    ensures EntryOk(m, Receive(s, mem, n).1)
    ensures Agrees(Receive(s, mem, n).0.slots, After(m, Receive(s, mem, n).1))
  {
    var k := FindSlot(s.slots, IdOf(mem));
    if n >= HEADER_SIZE {
      if !IsResponse(mem) {
        CheckKeeps(s, mem, n, None);
      } else if IdOf(mem) != 0 && !(n < 16 && n != HEADER_SIZE) && k < |s.slots| {
        var a := Answer(IdOf(mem), s.slots[k].ctx, Rcode(mem));
        SettleAgrees(s, k, a, n, m);
        CheckKeeps(Settle(s, k, a.rcode, n), mem, n, Some(a));
      }
    }
  }

  /** Entry k takes ID id into use or out of use. */
  ghost predicate Touches(e: Entry, id: uint16)
  {
    (e.Issued? && e.id == id) || Answers(e, id)
  }

  ghost predicate Answers(e: Entry, id: uint16)
  {
    e.Received? && e.answered.Some? && e.answered.value.id == id
  }

  ghost predicate ForgottenBetween(trace: seq<Entry>, j: nat, i: nat, ctx: Context)
    requires i <= |trace|
  {
    exists k :: j < k < i && trace[k] == Forgot(ctx)
  }

  /** Entry j issued the request for id that is still outstanding before entry i, with context ctx. */
  ghost predicate IssuedAt(trace: seq<Entry>, j: nat, i: nat, id: uint16, ctx: Context)
    requires i <= |trace|
  {
    && j < i && trace[j].Issued? && trace[j].id == id
    && (forall k :: j < k < i ==> !Touches(trace[k], id))
    && ctx == if ForgottenBetween(trace, j, i, trace[j].ctx) then 0 else trace[j].ctx
  }

  lemma {:induction false} OutstandingWasIssued(trace: seq<Entry>, i: nat, id: uint16) returns (j: nat)
    requires i <= |trace| && id in Outstanding(trace[..i])
    ensures IssuedAt(trace, j, i, id, Outstanding(trace[..i])[id])
    decreases i
  {
    var e := trace[..i][i - 1];
    assert e == trace[i - 1] && trace[..i][..i - 1] == trace[..i - 1];
    if e.Issued? && e.id == id {
      j := i - 1;
    } else {
      j := OutstandingWasIssued(trace, i - 1, id);
      var ctx := trace[j].ctx;
      if ForgottenBetween(trace, j, i - 1, ctx) {
        var k :| j < k < i - 1 && trace[k] == Forgot(ctx);
        assert j < k < i && trace[k] == Forgot(ctx);
      } else if e == Forgot(ctx) {
        assert j < i - 1 < i && trace[i - 1] == Forgot(ctx);
      }
    }
  }

  /**
   * Every response event answers a request issued before it: the same ID was issued, neither
   * answered nor issued again since, and the event carries the context stored then, or NULL if
   * dso_ignore_response was told to forget it in between.
   */
  lemma {:induction false} ResponseMatchesRequest(states: seq<Session>, trace: seq<Entry>, i: nat) returns (j: nat)
    requires IsRun(states, trace) && i < |trace|
    requires trace[i].Received? && trace[i].call.Response?
    ensures trace[i].answered.Some?
    ensures IssuedAt(trace, j, i, trace[i].answered.value.id, trace[i].call.ctx)
    ensures trace[i].call.rcode == trace[i].answered.value.rcode
  {
    TableAgrees(states, trace, i);
    j := OutstandingWasIssued(trace, i, trace[i].answered.value.id);
  }

  /**
   * A request gets at most one answer: in a run, of two messages that answer the ID issued at j,
   * before that ID is issued again, one is the other.
   */
  lemma {:induction false} AtMostOneAnswer(states: seq<Session>, trace: seq<Entry>, j: nat, i: nat, i': nat)
    requires IsRun(states, trace) && j < i <= i' < |trace| && trace[j].Issued?
    requires Answers(trace[i], trace[j].id) && Answers(trace[i'], trace[j].id)
    requires forall k :: j < k < i' && trace[k].Issued? ==> trace[k].id != trace[j].id
    ensures i == i'
  {
    TableAgrees(states, trace, i');
    var j' := OutstandingWasIssued(trace, i', trace[j].id);
    assert i < i' ==> Touches(trace[i], trace[j].id);
  }

  /** A response to an ID that is not outstanding tells nobody anything and cancels the connection. */
  lemma {:induction false} UnexpectedResponseCancels(states: seq<Session>, trace: seq<Entry>, mem: seq<byte>, n: nat)
    requires IsRun(states, trace) && n + 4 <= |mem| && n >= HEADER_SIZE
    requires IsResponse(mem) && IdOf(mem) !in Outstanding(trace)
    ensures var (s', e) := Receive(states[|trace|], mem, n);
            !s'.live && e.call == NoCall && s'.slots == states[|trace|].slots
            && s'.hasSession == states[|trace|].hasSession
  {
    TableAgrees(states, trace, |trace|);
    assert trace[..|trace|] == trace;
    var k := FindSlot(states[|trace|].slots, IdOf(mem));
  }

  /** A response as far as its header goes: of a length a response can have, and with an ID. */
  predicate IsAnswer(mem: seq<byte>, n: nat)
    requires n + 4 <= |mem|
  {
    (n >= 16 || n == HEADER_SIZE) && IsResponse(mem) && IdOf(mem) != 0
  }

  /** Nothing is wrong with the rest of it, and its primary TLV is not one the endpoint keeps to itself. */
  ghost predicate GoesToCallback(mem: seq<byte>, n: nat)
    requires HEADER_SIZE <= n && n + 4 <= |mem|
  {
    var read := ReadTlvs(mem, n, HEADER_SIZE);
    CountsZero(mem) && read.ok
    && (n == HEADER_SIZE
        || (read.tlvs != [] && read.tlvs[0].opcode != TYPE_KEEPALIVE && read.tlvs[0].opcode != TYPE_RETRY_DELAY))
  }

  /**
   * In every run a message answers a request exactly if it is a response to an ID that is
   * outstanding, and the request is then outstanding no more; but the callback is told only if
   * nothing else is wrong with the message, and its primary TLV is no keepalive and no retry delay.
   */
  lemma {:induction false} AnswerToldIff(states: seq<Session>, trace: seq<Entry>, mem: seq<byte>, n: nat)
    requires IsRun(states, trace) && n + 4 <= |mem|
    ensures var m, e := Outstanding(trace), Receive(states[|trace|], mem, n).1;
            && (e.answered.Some? <==> IsAnswer(mem, n) && IdOf(mem) in m)
            && (e.answered.Some? ==> After(m, e) == m - {IdOf(mem)})
            && (e.call.Response? <==> IsAnswer(mem, n) && IdOf(mem) in m
                                      && states[|trace|].hasCallback && GoesToCallback(mem, n))
            && (e.call.Response? ==> e.call == Response(m[IdOf(mem)], Rcode(mem)))
  {
    TableAgrees(states, trace, |trace|);
    ReachableInv(states, trace, |trace|);
    assert trace[..|trace|] == trace;
    var s := states[|trace|];
    if n >= HEADER_SIZE {
      var k := FindSlot(s.slots, IdOf(mem));
      if !IsResponse(mem) {
        CheckTellsIff(s, mem, n, None);
      } else if IsAnswer(mem, n) && k < |s.slots| {
        CheckTellsIff(Settle(s, k, Rcode(mem), n), mem, n, Some(Answer(IdOf(mem), s.slots[k].ctx, Rcode(mem))));
      }
    }
  }

  /** The callback gets a response from a message that answers one and goes to the callback. */
  lemma {:induction false} CheckTellsIff(s: Session, mem: seq<byte>, n: nat, answered: Option<Answer>)
    requires (n >= 16 || n == HEADER_SIZE || answered.None?) && HEADER_SIZE <= n && n + 4 <= |mem|
    ensures var e := Check(s, mem, n, answered).1;
            && e.answered == answered
            && (e.call.Response? <==> answered.Some? && s.hasCallback && GoesToCallback(mem, n))
            && (e.call.Response? ==> e.call == Response(answered.value.ctx, answered.value.rcode))
  {
    CheckKeeps(s, mem, n, answered);
    if CountsZero(mem) && (n >= 16 || n == HEADER_SIZE) {
      var s1 := SessionCheck(s, answered.Some?);
      var p := Record(Parsed(s1.primary, s1.additl, true), ReadTlvs(mem, n, HEADER_SIZE));
      if p.ok {
        DispatchAnswers(s1.(primary := p.primary, additl := p.additl), n, answered);
      }
    }
  }

  lemma {:induction false} DispatchAnswers(s: Session, n: nat, answered: Option<Answer>)
    ensures Dispatch(s, n, answered).1.call.Response? <==>
            answered.Some? && s.hasCallback
            && (n == HEADER_SIZE || (s.primary.opcode != TYPE_KEEPALIVE && s.primary.opcode != TYPE_RETRY_DELAY))
  {
    KeepaliveKeeps(s, answered);
  }

  // ----- Events and sessions ------------------------------------------------------------------------

  /**
   * On a connection still live after an event there is a session exactly if there was one before,
   * or it is a server's, or the event answers a request without error. So the one live event
   * without a session is a client being told that a request was refused.
   */
  lemma {:induction false} LiveEventHasSession(states: seq<Session>, trace: seq<Entry>, i: nat)
    requires IsRun(states, trace) && i < |trace|
    requires trace[i].Received? && trace[i].call != NoCall && trace[i].liveAfter
    ensures trace[i].sessionAfter == states[i + 1].hasSession
    ensures !trace[i].response ==> states[i + 1].hasSession
    ensures states[i + 1].hasSession <==>
            states[i].hasSession || states[i].isServer
            || (trace[i].answered.Some? && trace[i].answered.value.rcode == 0)
    ensures !states[i + 1].hasSession ==> trace[i].answered.Some?
  {
    RunStep(states, trace, i);
    var op :| Allowed(states[i], op) && Apply(states[i], op) == (states[i + 1], trace[i]);
    ReceiveEvent(states[i], op.mem, op.n);
  }

  lemma {:induction false} ReceiveEvent(s: Session, mem: seq<byte>, n: nat)
    requires Inv(s) && n + 4 <= |mem|
    requires Receive(s, mem, n).1.call != NoCall && Receive(s, mem, n).1.liveAfter
    ensures var (s', e) := Receive(s, mem, n);
            && e.sessionAfter == s'.hasSession
            && (!e.response ==> s'.hasSession)
            && (s'.hasSession <==> s.hasSession || s.isServer || (e.answered.Some? && e.answered.value.rcode == 0))
            && (!s'.hasSession ==> e.answered.Some?)
  {
    if !IsResponse(mem) {
      CheckKeeps(s, mem, n, None);
      CheckSessionExact(s, mem, n, None);
    } else {
      ResponseEvent(s, mem, n, FindSlot(s.slots, IdOf(mem)));
    }
  }

  lemma {:induction false} ResponseEvent(s: Session, mem: seq<byte>, n: nat, k: nat)
    requires Inv(s) && HEADER_SIZE <= n && n + 4 <= |mem|
    requires k < |s.slots| && s.slots[k].id != 0
    ensures var a := Answer(IdOf(mem), s.slots[k].ctx, Rcode(mem));
            var (s', e) := Check(Settle(s, k, a.rcode, n), mem, n, Some(a));
            && e.sessionAfter == s'.hasSession && e.response && e.answered == Some(a)
            && (s'.hasSession <==> s.hasSession || s.isServer || a.rcode == 0)
  {
    var a := Answer(IdOf(mem), s.slots[k].ctx, Rcode(mem));
    BusyBound(s.slots);
    CheckKeeps(Settle(s, k, a.rcode, n), mem, n, Some(a));
    CheckSessionExact(Settle(s, k, a.rcode, n), mem, n, Some(a));
  }

  /** A client's first request takes the only slot. */
  lemma {:induction false} FirstIssue(ctx: Context, draw: nat -> uint16)
    requires draw(0) == 7
    ensures var s0 := Fresh(false, 1, true);
            Issue(s0, ctx, draw) == (s0.(slots := [Slot(7, ctx)], count := 1), Issued(7, ctx))
  {
    var s0 := Fresh(false, 1, true);
    assert Acceptable(s0.slots, draw(0));
    assert s0.slots[0 := Slot(7, ctx)] == [Slot(7, ctx)];
  }

  /** It is refused with rcode 5 in a message of the header alone. */
  lemma {:induction false} FirstRefused(s: Session, ctx: Context, mem: seq<byte>)
    requires s == Fresh(false, 1, true).(slots := [Slot(7, ctx)], count := 1)
    requires |mem| == 16 && IsResponse(mem) && IdOf(mem) == 7 && Rcode(mem) == 5 && CountsZero(mem)
    ensures var (s', e) := Receive(s, mem, HEADER_SIZE);
            s'.live && !s'.hasSession && e == Received(true, Some(Answer(7, ctx, 5)), Response(ctx, 5), false, true)
  {
    assert FindSlot(s.slots, 7) == 0;
    assert ReadTlvs(mem, HEADER_SIZE, HEADER_SIZE) == TlvRead([], true, HEADER_SIZE);
  }

  /**
   * The exception happens: a client whose first request is refused is told so on a live connection
   * without a session.
   */
  lemma {:induction false} RefusedClientTold(ctx: Context, draw: nat -> uint16, mem: seq<byte>)
    requires draw(0) == 7 && |mem| == 16 && mem[..HEADER_SIZE] == Header(7, true, 5)
    ensures var s0 := Fresh(false, 1, true);
            var (s1, e1) := Issue(s0, ctx, draw);
            var (s2, e2) := Receive(s1, mem, HEADER_SIZE);
            IsRun([s0, s1, s2], [e1, e2]) && e2.call == Response(ctx, 5) && s2.live && !s2.hasSession
  {
    var s0 := Fresh(false, 1, true);
    FreshStartsRun(false, 1, true);
    FirstIssue(ctx, draw);
    var (s1, e1) := Issue(s0, ctx, draw);
    HeaderReads(7, 5, [], mem, HEADER_SIZE);
    FirstRefused(s1, ctx, mem);
    var (s2, e2) := Receive(s1, mem, HEADER_SIZE);
    TwoSteps(s0, s1, s2, e1, e2, OpIssue(ctx, draw), OpReceive(mem, HEADER_SIZE));
  }

  lemma {:induction false} TwoSteps(s0: Session, s1: Session, s2: Session, e1: Entry, e2: Entry, op1: Op, op2: Op)
    requires IsRun([s0], [])
    requires Allowed(s0, op1) && Apply(s0, op1) == (s1, e1) && Allowed(s1, op2) && Apply(s1, op2) == (s2, e2)
    ensures IsRun([s0, s1, s2], [e1, e2])
  {
    var states, trace := [s0, s1, s2], [e1, e2];
    assert StepOf(s0, s1, e1) && StepOf(s1, s2, e2);
    assert StepAt(states, trace, 0) && StepAt(states, trace, 1);
  }

  /** The first TLV is a keepalive that a client adopts without telling anyone. */
  ghost predicate KeepaliveToAdopt(mem: seq<byte>, n: nat)
    requires n + 4 <= |mem|
  {
    var tlvs := ReadTlvs(mem, n, HEADER_SIZE).tlvs;
    n != HEADER_SIZE && tlvs != [] && tlvs[0].opcode == TYPE_KEEPALIVE && Reasonable(tlvs[0].payload)
  }

  /**
   * Receipt of a message out of place cancels the connection but does not end there. A message
   * cancels a live connection and still makes a callback, or an error response, exactly when it is
   * a request to a client without a session and nothing else is wrong with it.
   */
  lemma {:induction false} CancelledButToldIff(s: Session, mem: seq<byte>, n: nat)
    requires Inv(s) && s.live && n + 4 <= |mem|
    ensures !Receive(s, mem, n).0.live && Receive(s, mem, n).1.call != NoCall <==>
            && (n >= 16 || n == HEADER_SIZE) && !IsResponse(mem) && CountsZero(mem)
            && !s.isServer && !s.hasSession && s.hasCallback
            && ReadTlvs(mem, n, HEADER_SIZE).ok && !KeepaliveToAdopt(mem, n)
  {
    if n >= HEADER_SIZE {
      if IsResponse(mem) {
        ResponseLeavesLive(s, mem, n);
      } else {
        RequestTold(s, mem, n);
      }
    }
  }

  /** A response that cancels tells nothing. */
  lemma {:induction false} ResponseLeavesLive(s: Session, mem: seq<byte>, n: nat)
    requires Inv(s) && s.live && HEADER_SIZE <= n && n + 4 <= |mem| && IsResponse(mem)
    ensures Receive(s, mem, n).0.live || Receive(s, mem, n).1.call == NoCall
  {
    var k := FindSlot(s.slots, IdOf(mem));
    if IdOf(mem) != 0 && k < |s.slots| {
      BusyBound(s.slots);
      var a := Some(Answer(IdOf(mem), s.slots[k].ctx, Rcode(mem)));
      var s1 := SessionCheck(Settle(s, k, Rcode(mem), n), true);
      var p := Record(Parsed(s1.primary, s1.additl, true), ReadTlvs(mem, n, HEADER_SIZE));
      DispatchKeeps(s1.(primary := p.primary, additl := p.additl), n, a);
    }
  }

  lemma {:induction false} RequestTold(s: Session, mem: seq<byte>, n: nat)
    requires s.live && HEADER_SIZE <= n && n + 4 <= |mem| && !IsResponse(mem)
    ensures !Receive(s, mem, n).0.live && Receive(s, mem, n).1.call != NoCall <==>
            && (n >= 16 || n == HEADER_SIZE) && CountsZero(mem)
            && !s.isServer && !s.hasSession && s.hasCallback
            && ReadTlvs(mem, n, HEADER_SIZE).ok && !KeepaliveToAdopt(mem, n)
  {
    if CountsZero(mem) && (n >= 16 || n == HEADER_SIZE) {
      var s1 := SessionCheck(s, false);
      var read := ReadTlvs(mem, n, HEADER_SIZE);
      var p := Record(Parsed(s1.primary, s1.additl, true), read);
      if p.ok {
        DispatchKeeps(s1.(primary := p.primary, additl := p.additl), n, None);
        DispatchTells(s1.(primary := p.primary, additl := p.additl), n);
      }
    }
  }

  /** What a request makes an endpoint do. */
  lemma {:induction false} DispatchTells(s: Session, n: nat)
    ensures Dispatch(s, n, None).1.call == NoCall <==>
            !s.hasCallback
            || (!s.isServer && n != HEADER_SIZE && s.primary.opcode == TYPE_KEEPALIVE && Reasonable(s.primary.payload))
  {
  }

  /** A client without a session that gets a request of the header alone is cancelled and told. */
  lemma {:induction false} CancelledButTold(s: Session, mem: seq<byte>)
    requires Inv(s) && s.live && !s.isServer && !s.hasSession && s.hasCallback
    requires |mem| == 16 && !IsResponse(mem) && CountsZero(mem)
    ensures Receive(s, mem, HEADER_SIZE).1 == Received(false, None, Message, false, false)
  {
    assert ReadTlvs(mem, HEADER_SIZE, HEADER_SIZE) == TlvRead([], true, HEADER_SIZE);
  }

  /** The primary and the next ten TLVs a message has; none for the header alone. */
  function TlvsOf(mem: seq<byte>, n: nat): Parsed
    requires n + 4 <= |mem| && n >= HEADER_SIZE
  {
    Record(Parsed(Tlv(0, []), [], true), ReadTlvs(mem, n, HEADER_SIZE))
  }

  /**
   * Whenever anything is told, the recorded TLVs are those of the message, but for a request of the
   * header alone: that leaves those of an earlier message, so they agree only if there were none.
   */
  lemma {:induction false} ToldTlvsIff(s: Session, mem: seq<byte>, n: nat)
    requires n + 4 <= |mem| && Receive(s, mem, n).1.call != NoCall
    ensures n >= HEADER_SIZE
    ensures var s' := Receive(s, mem, n).0;
            && (n == HEADER_SIZE && !IsResponse(mem) ==> s'.primary == s.primary && s'.additl == s.additl)
            && (Parsed(s'.primary, s'.additl, true) == TlvsOf(mem, n) <==>
                n != HEADER_SIZE || IsResponse(mem) || (s.primary == Tlv(0, []) && s.additl == []))
  {
    if !IsResponse(mem) {
      CheckRecords(s, mem, n, None);
    } else {
      var k := FindSlot(s.slots, IdOf(mem));
      CheckRecords(Settle(s, k, Rcode(mem), n), mem, n, Some(Answer(IdOf(mem), s.slots[k].ctx, Rcode(mem))));
    }
  }

  lemma {:induction false} CheckRecords(s: Session, mem: seq<byte>, n: nat, answered: Option<Answer>)
    requires HEADER_SIZE <= n && n + 4 <= |mem| && Check(s, mem, n, answered).1.call != NoCall
    ensures var s' := Check(s, mem, n, answered).0;
            Parsed(s'.primary, s'.additl, true) == if n == HEADER_SIZE then Parsed(s.primary, s.additl, true) else TlvsOf(mem, n)
    ensures n == HEADER_SIZE ==> TlvsOf(mem, n) == Parsed(Tlv(0, []), [], true)
  {
    var s1 := SessionCheck(s, answered.Some?);
    var read := ReadTlvs(mem, n, HEADER_SIZE);
    var p := Record(Parsed(s1.primary, s1.additl, true), read);
    DispatchRecords(s1.(primary := p.primary, additl := p.additl), n, answered);
    if n == HEADER_SIZE {
      assert read == TlvRead([], true, HEADER_SIZE);
    } else {
      assert read.ok ==> read.tlvs != [];
    }
  }

  lemma {:induction false} DispatchRecords(s: Session, n: nat, answered: Option<Answer>)
    ensures var s' := Dispatch(s, n, answered).0;
            s'.primary == s.primary && s'.additl == s.additl
  {
  }

  /** A message of the header alone: a response clears the primary TLV, a request leaves that of an earlier message. */
  lemma {:induction false} HeaderOnlyPrimary(s: Session, mem: seq<byte>)
    requires Inv(s) && |mem| == 16 && CountsZero(mem)
    requires IsResponse(mem) ==> IdOf(mem) != 0 && exists i :: 0 <= i < |s.slots| && s.slots[i].id == IdOf(mem)
    ensures Receive(s, mem, HEADER_SIZE).0.primary == if IsResponse(mem) then Tlv(0, []) else s.primary
  {
    assert ReadTlvs(mem, HEADER_SIZE, HEADER_SIZE) == TlvRead([], true, HEADER_SIZE);
  }

  // ----- A request, its answer, and the table ----------------------------------------------------------

  lemma {:induction false} IssuedFree(s: Session, ctx: Context, draw: nat -> uint16)
    requires Inv(s) && Issue(s, ctx, draw).1.Issued?
    ensures var (s', e) := Issue(s, ctx, draw);
            var free := FindSlot(s.slots, 0);
            && free < |s.slots| && e.id != 0 && FindSlot(s'.slots, e.id) == free
            && s'.slots[free] == Slot(e.id, ctx) && s.slots[free] == FREE
            && s'.slots[free := FREE] == s.slots
  {
    AcceptableDraw(s.slots, draw, 0);
    var (s', e) := Issue(s, ctx, draw);
    var free := FindSlot(s.slots, 0);
    FirstIs(s'.slots, e.id, free);
    assert s'.slots[free := FREE] == s.slots;
  }

  /** A response to the request in slot k goes through the checks with that slot freed. */
  lemma {:induction false} ResponseIsChecked(s: Session, mem: seq<byte>, n: nat, k: nat, a: Answer)
    requires 16 <= n && n + 4 <= |mem|
    requires IsResponse(mem) && IdOf(mem) == a.id != 0 && Rcode(mem) == a.rcode
    requires FindSlot(s.slots, a.id) == k < |s.slots| && s.slots[k].ctx == a.ctx
    ensures Receive(s, mem, n) == Check(Settle(s, k, a.rcode, n), mem, n, Some(a))
  {
  }

  /** The message a peer answers a request with. */
  function AnswerMessage(a: Answer, tlvs: seq<Tlv>): seq<byte>
  {
    Header(a.id, true, a.rcode) + EncodeTlvs(tlvs)
  }

  /** TLVs that are passed on to the callback. */
  ghost predicate PassedOn(tlvs: seq<Tlv>)
  {
    Fits(tlvs) && tlvs != [] && tlvs[0].opcode != TYPE_KEEPALIVE && tlvs[0].opcode != TYPE_RETRY_DELAY
  }

  /**
   * A request and its answer. The answer a peer makes with the request's ID, whatever TLVs it
   * carries and whatever memory holds after it, is told with the request's context and restores
   * the table.
   */
  lemma {:induction false} AnswerRestoresTable(s: Session, s1: Session, draw: nat -> uint16, a: Answer,
                                               tlvs: seq<Tlv>, mem: seq<byte>, n: nat)
    requires Inv(s) && (s.isServer ==> s.hasSession) && s.hasCallback
    requires Issue(s, a.ctx, draw).1 == Issued(a.id, a.ctx) && Issue(s, a.ctx, draw).0 == s1
    requires a.rcode < 16 && PassedOn(tlvs) && n + 4 <= |mem| && mem[..n] == AnswerMessage(a, tlvs)
    ensures var (s', e) := Receive(s1, mem, n);
            && e.Received? && e.call == Response(a.ctx, a.rcode)
            && s'.slots == s.slots && s'.count == s.count && s'.primary == tlvs[0] && s'.live == s.live
            && s'.hasSession == (s.hasSession || a.rcode == 0)
  {
    IssuedFree(s, a.ctx, draw);
    AnswerReads(a, tlvs, mem, n);
    AnswerSettles(s, s1, FindSlot(s.slots, 0), mem, n, a, tlvs);
  }

  /** The same for any message with the answer's header and TLVs. */
  lemma {:induction false} AnswerSettles(s: Session, s1: Session, k: nat, mem: seq<byte>, n: nat, a: Answer, tlvs: seq<Tlv>)
    requires 16 <= n && n + 4 <= |mem| && IsResponse(mem) && IdOf(mem) == a.id != 0 && Rcode(mem) == a.rcode
    requires CountsZero(mem) && PassedOn(tlvs) && ReadTlvs(mem, n, HEADER_SIZE) == TlvRead(tlvs, true, n)
    requires s.hasCallback && (s.isServer ==> s.hasSession)
    requires s1 == s.(slots := s1.slots, count := s.count + 1)
    requires FindSlot(s1.slots, a.id) == k < |s1.slots| && s1.slots[k].ctx == a.ctx && s1.slots[k := FREE] == s.slots
    ensures var (s', e) := Receive(s1, mem, n);
            && e.Received? && e.call == Response(a.ctx, a.rcode)
            && s'.slots == s.slots && s'.count == s.count && s'.primary == tlvs[0] && s'.live == s.live
            && s'.hasSession == (s.hasSession || a.rcode == 0)
  {
    ResponseIsChecked(s1, mem, n, k, a);
    AnswerChecked(Settle(s1, k, a.rcode, n), mem, n, a, tlvs);
  }

  lemma {:induction false} AnswerReads(a: Answer, tlvs: seq<Tlv>, mem: seq<byte>, n: nat)
    requires a.rcode < 16 && PassedOn(tlvs) && n + 4 <= |mem| && mem[..n] == AnswerMessage(a, tlvs)
    ensures n >= 16 && IsResponse(mem) && IdOf(mem) == a.id && Rcode(mem) == a.rcode && CountsZero(mem)
    ensures ReadTlvs(mem, n, HEADER_SIZE) == TlvRead(tlvs, true, n)
  {
    HeaderReads(a.id, a.rcode, EncodeTlvs(tlvs), mem, n);
    assert |EncodeTlvs(tlvs)| >= 4;
    AcceptsWholeTlvs(mem, n, tlvs);
  }

  lemma {:induction false} HeaderReads(id: uint16, rcode: nat, body: seq<byte>, mem: seq<byte>, n: nat)
    requires rcode < 16 && n <= |mem| && mem[..n] == Header(id, true, rcode) + body
    ensures IsResponse(mem) && IdOf(mem) == id && Rcode(mem) == rcode && CountsZero(mem)
    ensures mem[HEADER_SIZE..n] == body
  {
    StartsWith(mem, n, Header(id, true, rcode), body);
  }

  lemma {:induction false} StartsWith(mem: seq<byte>, n: nat, header: seq<byte>, body: seq<byte>)
    requires n <= |mem| && mem[..n] == header + body
    ensures |header| <= n && mem[|header|..n] == body
    ensures forall i :: 0 <= i < |header| ==> mem[i] == header[i]
  {
    assert forall i :: 0 <= i < |header| ==> mem[i] == mem[..n][i];
    assert mem[|header|..n] == mem[..n][|header|..];
  }

  lemma {:induction false} AnswerChecked(s: Session, mem: seq<byte>, n: nat, a: Answer, tlvs: seq<Tlv>)
    requires 16 <= n && n + 4 <= |mem| && CountsZero(mem) && s.hasCallback && PassedOn(tlvs)
    requires ReadTlvs(mem, n, HEADER_SIZE) == TlvRead(tlvs, true, n)
    requires s.isServer ==> s.hasSession
    ensures Check(s, mem, n, Some(a)).1.Received? && Check(s, mem, n, Some(a)).1.call == Response(a.ctx, a.rcode)
    ensures Check(s, mem, n, Some(a)).0.primary == tlvs[0]
    ensures Check(s, mem, n, Some(a)).0.live == s.live && Check(s, mem, n, Some(a)).0.hasSession == s.hasSession
    ensures Check(s, mem, n, Some(a)).0.slots == s.slots && Check(s, mem, n, Some(a)).0.count == s.count
  {
  }
}
