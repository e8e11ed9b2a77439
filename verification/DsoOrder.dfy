// The order in which the callbacks of a DSO connection's life are made (DSO/dso.c:99-159 and 209-262).

module DsoOrder {
  import opened Bytes
  import opened Counting
  import opened DsoLifecycle
  import opened Lists

  /** The place of an event in the life of connection n; 0 for events of others and of activities. */
  function Stage(e: Event, n: nat): nat
  {
    match e
    case CreateCalled(s) => if s == n then 1 else 0
    case CancelCalled(s) => if s == n then 2 else 0
    case TransportFinalized(s) => if s == n then 3 else 0
    case FinalizeCalled(s) => if s == n then 4 else 0
    case ActivityFinalized(_) => 0
  }

  /** The events of connection n come in the order of their stages. */
  ghost predicate InOrder(log: seq<Event>, n: nat)
  {
    forall i, j :: 0 <= i < j < |log| && Stage(log[i], n) != 0 && Stage(log[j], n) != 0 ==>
                     Stage(log[i], n) <= Stage(log[j], n)
  }

  /** No event of connection n has a later stage. */
  ghost predicate UpTo(log: seq<Event>, n: nat, stage: nat)
  {
    forall i :: 0 <= i < |log| ==> Stage(log[i], n) <= stage
  }

  ghost predicate AtLeast(log: seq<Event>, n: nat, stage: nat)
  {
    forall i :: 0 <= i < |log| ==> Stage(log[i], n) == 0 || Stage(log[i], n) >= stage
  }

  lemma {:induction false} OrderConcat(a: seq<Event>, b: seq<Event>, n: nat, stage: nat)
    requires InOrder(a, n) && InOrder(b, n) && UpTo(a, n, stage) && AtLeast(b, n, stage)
    ensures InOrder(a + b, n)
  {
    forall i, j | 0 <= i < j < |a + b| && Stage((a + b)[i], n) != 0 && Stage((a + b)[j], n) != 0
      ensures Stage((a + b)[i], n) <= Stage((a + b)[j], n)
    {
      if j >= |a| {
        assert Stage((a + b)[j], n) == Stage(b[j - |a|], n);
      }
    }
  }

  lemma {:induction false} NotLogged(log: seq<Event>, e: Event)
    requires Count(log, Is(e)) == 0
    ensures e !in log
  {
    CountedIsPresent(log, Is(e));
    assert forall i :: 0 <= i < |log| ==> !Is(e)(log[i]);
  }

  /** Only what is due has been called: nothing for a connection to come, no more than create for a live one. */
  lemma {:induction false} StagesByPlace(w: World, n: nat)
    requires Inv(w)
    ensures n == w.nextSerial ==> UpTo(w.log, n, 0)
    ensures Count(w.live, HasSerial(n)) > 0 ==> UpTo(w.log, n, 1)
    ensures Count(w.awaiting, HasSerial(n)) > 0 ==> UpTo(w.log, n, 2)
  {
    assert InvAt(w, n);
    Fewer(w.live, n);
    Fewer(w.awaiting, n);
    Fewer(w.freed, n);
    if Count(w.freed, HasSerial(n)) == 0 {
      NotLogged(w.log, FinalizeCalled(n));
      NotLogged(w.log, TransportFinalized(n));
      if Count(w.awaiting, HasSerial(n)) == 0 {
        NotLogged(w.log, CancelCalled(n));
        if Count(w.live, HasSerial(n)) == 0 {
          NotLogged(w.log, CreateCalled(n));
        }
      }
    }
  }

  lemma {:induction false} Fewer(conns: seq<Conn>, n: nat)
    ensures Count(conns, TellsContext(n)) <= Count(conns, HasSerial(n))
    ensures Count(conns, TellsOwner(n)) <= Count(conns, HasSerial(n))
    ensures Count(conns, HasTransport(n)) <= Count(conns, HasSerial(n))
  {
    CountFewer(conns, TellsContext(n), HasSerial(n));
    CountFewer(conns, TellsOwner(n), HasSerial(n));
    CountFewer(conns, HasTransport(n), HasSerial(n));
  }

  // ----- Freeing ----------------------------------------------------------------------------------

  /** The kind of an event made when a connection is freed. */
  function FreeingStage(e: Event): nat
  {
    match e
    case ActivityFinalized(_) => 1
    case TransportFinalized(_) => 2
    case _ => 3
  }

  lemma {:induction false} OnlyActivities(activities: seq<Activity>, i: nat)
    requires i < |ActivityEvents(activities)|
    ensures ActivityEvents(activities)[i].ActivityFinalized?
  {
    var k := |activities| - 1;
    if i < |ActivityEvents(activities[..k])| {
      OnlyActivities(activities[..k], i);
    }
  }

  /**
   * When a connection is freed the finalizers of its activities are called first, then that of its
   * transport, and its own last; and all those of its own are about it.
   */
  lemma {:induction false} FreedInOrder(c: Conn, i: nat, j: nat)
    requires i < j < |FreeEvents(c)|
    ensures FreeingStage(FreeEvents(c)[i]) <= FreeingStage(FreeEvents(c)[j])
    ensures FreeEvents(c)[j] in {TransportFinalized(c.serial), FinalizeCalled(c.serial)} || FreeEvents(c)[j].ActivityFinalized?
  {
    var n := |ActivityEvents(c.activities)|;
    if i < n {
      OnlyActivities(c.activities, i);
    }
    if j < n {
      OnlyActivities(c.activities, j);
    }
  }

  lemma {:induction false} FreeStages(c: Conn, n: nat)
    ensures InOrder(FreeEvents(c), n) && AtLeast(FreeEvents(c), n, 3)
    ensures c.serial != n ==> UpTo(FreeEvents(c), n, 0)
  {
    var events := FreeEvents(c);
    forall i, j | 0 <= i < j < |events| && Stage(events[i], n) != 0 && Stage(events[j], n) != 0
      ensures Stage(events[i], n) <= Stage(events[j], n)
    {
      FreeStageAt(c, n, i);
      FreeStageAt(c, n, j);
      FreedInOrder(c, i, j);
    }
    forall i | 0 <= i < |events|
      ensures Stage(events[i], n) == 0 || (c.serial == n && Stage(events[i], n) >= 3)
    {
      FreeStageAt(c, n, i);
    }
  }

  /** Only the connection's own events are about a connection, and they are of the last two stages. */
  ghost predicate FreeStageIs(c: Conn, n: nat, i: nat)
    requires i < |FreeEvents(c)|
  {
    var e := FreeEvents(c)[i];
    Stage(e, n) == if e.ActivityFinalized? || c.serial != n then 0 else FreeingStage(e) + 1
  }

  lemma {:induction false} FreeStageAt(c: Conn, n: nat, i: nat)
    requires i < |FreeEvents(c)|
    ensures FreeStageIs(c, n, i)
  {
    if i < |ActivityEvents(c.activities)| {
      OnlyActivities(c.activities, i);
    }
  }

  lemma {:induction false} FreeAllStages(w: World, conns: seq<Conn>, n: nat)
    requires InOrder(w.log, n) && Count(conns, HasSerial(n)) <= 1
    requires Count(conns, HasSerial(n)) > 0 ==> UpTo(w.log, n, 2)
    ensures InOrder(FreeAll(w, conns).log, n)
    ensures Count(conns, HasSerial(n)) == 0 && UpTo(w.log, n, 2) ==> UpTo(FreeAll(w, conns).log, n, 2)
  {
    if conns != [] {
      var k := |conns| - 1;
      FreeAllStages(w, conns[..k], n);
      FreeStages(conns[k], n);
      OneFreed(FreeAll(w, conns[..k]).log, conns[k], n);
    }
  }

  lemma {:induction false} OneFreed(log: seq<Event>, c: Conn, n: nat)
    requires InOrder(log, n) && InOrder(FreeEvents(c), n) && AtLeast(FreeEvents(c), n, 3)
    requires if c.serial == n then UpTo(log, n, 2) else UpTo(FreeEvents(c), n, 0)
    ensures InOrder(log + FreeEvents(c), n)
    ensures c.serial != n && UpTo(log, n, 2) ==> UpTo(log + FreeEvents(c), n, 2)
  {
    if c.serial == n {
      OrderConcat(log, FreeEvents(c), n, 3);
    } else {
      OrderConcat(log, FreeEvents(c), n, 4);
    }
  }

  // ----- Runs -------------------------------------------------------------------------------------

  lemma {:induction false} OneMore(log: seq<Event>, condition: bool, e: Event, n: nat, stage: nat)
    requires InOrder(log, n) && (Stage(e, n) == 0 || (UpTo(log, n, stage) && Stage(e, n) >= stage))
    ensures InOrder(log + When(condition, e), n)
  {
    if Stage(e, n) == 0 {
      OrderConcat(log, When(condition, e), n, 4);
    } else {
      OrderConcat(log, When(condition, e), n, stage);
    }
  }

  lemma {:induction false} ApplyInOrder(w: World, op: Op, n: nat)
    requires Inv(w) && Allowed(w, op) && InOrder(w.log, n)
    ensures InOrder(Apply(w, op).log, n)
  {
    StagesByPlace(w, n);
    match op
    case OpCreate(_, contextCallback, _) => OneMore(w.log, contextCallback, CreateCalled(w.nextSerial), n, 0);
    case OpCancel(serial) =>
      var i := IndexOf(w.live, serial);
      if i < |w.live| {
        CountRemove(w.live, i, HasSerial(serial));
        OneMore(w.log, w.live[i].contextCallback, CancelCalled(serial), n, 1);
      }
    case OpIdle =>
      assert InvAt(w, n);
      FreeAllStages(w, w.awaiting, n);
    case OpAdd(_, _, _, _, _) =>
    case OpDrop(_, a) => OneMore(w.log, a.finalizer, ActivityFinalized(a.address), n, 0);
  }

  /**
   * In every run the callbacks of a connection come in the order of its life: create, cancel, the
   * transport's finalizer, and finalize.
   */
  lemma {:induction false} LifeInOrder(ops: seq<Op>, n: nat)
    requires RunAllowed(ops)
    ensures InOrder(Run(ops).log, n)
  {
    if ops != [] {
      var before := ops[..|ops| - 1];
      LifeInOrder(before, n);
      RunInv(before);
      ApplyInOrder(Run(before), ops[|ops| - 1], n);
    }
  }
}
