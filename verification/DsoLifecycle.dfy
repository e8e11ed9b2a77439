// The life of DSO connections and their activities (DSO/dso.c:78-159, 253-257 and 392-519): a list
// of live connections, a list of cancelled ones awaiting cleanup, and the idle pass that frees them.
//
// The functions below say what each operation does to the two lists, to what has been freed and to
// the callbacks made.

module DsoLifecycle {
  import opened Bytes
  import opened Counting
  import opened Lists

  /** dso_activity_t. An address is never reused; a context is a number, with 0 for NULL. */
  datatype Activity = Activity(address: nat, kind: string, name: Option<string>, context: nat, finalizer: bool)

  /** dso_state_t, as far as its life goes; its transport may have a finalizer. */
  datatype Conn = Conn(serial: nat, callback: bool, contextCallback: bool, transportFinalizer: bool, activities: seq<Activity>)

  datatype Event =
    | CreateCalled(serial: nat)
    | CancelCalled(serial: nat)
    | FinalizeCalled(serial: nat)
    | TransportFinalized(serial: nat)
    | ActivityFinalized(address: nat)

  datatype World = World(
    live: seq<Conn>, awaiting: seq<Conn>, freed: seq<Conn>, freedActivities: seq<Activity>,
    nextSerial: nat, nextAddress: nat, log: seq<Event>)

  const FIRST := 1
  const START := World([], [], [], [], FIRST, FIRST, [])

  // ----- The operations ----------------------------------------------------------------------------

  function IndexOf(conns: seq<Conn>, serial: nat): (i: nat)
    ensures i <= |conns|
    ensures i < |conns| ==> conns[i].serial == serial
    ensures forall k :: 0 <= k < i ==> conns[k].serial != serial
  {
    if conns == [] then 0 else if conns[0].serial == serial then 0 else 1 + IndexOf(conns[1..], serial)
  }

  function When(condition: bool, e: Event): seq<Event>
  {
    if condition then [e] else []
  }

  /** dso_state_create. */
  function Create(w: World, callback: bool, contextCallback: bool, transportFinalizer: bool): World
  {
    w.(live := [Conn(w.nextSerial, callback, contextCallback, transportFinalizer, [])] + w.live,
       nextSerial := w.nextSerial + 1,
       log := w.log + When(contextCallback, CreateCalled(w.nextSerial)))
  }

  /** dso_state_cancel: nothing at all unless the connection is live. */
  function Cancel(w: World, serial: nat): World
  {
    var i := IndexOf(w.live, serial);
    if i == |w.live| then w
    else
      w.(live := Without(w.live, i),
         awaiting := [w.live[i]] + w.awaiting,
         log := w.log + When(w.live[i].contextCallback, CancelCalled(serial)))
  }

  /** The finalizers called for a list of activities. */
  function ActivityEvents(activities: seq<Activity>): seq<Event>
  {
    if activities == [] then []
    else
      ActivityEvents(activities[..|activities| - 1])
      + When(activities[|activities| - 1].finalizer, ActivityFinalized(activities[|activities| - 1].address))
  }

  function FreeEvents(c: Conn): seq<Event>
  {
    ActivityEvents(c.activities)
    + (When(c.transportFinalizer, TransportFinalized(c.serial)) + When(c.callback, FinalizeCalled(c.serial)))
  }

  /** One connection of the list awaiting cleanup is freed, with its activities. */
  function Free(w: World, c: Conn): World
  {
    w.(freed := w.freed + [c], freedActivities := w.freedActivities + c.activities, log := w.log + FreeEvents(c))
  }

  function FreeAll(w: World, conns: seq<Conn>): World
  {
    if conns == [] then w else Free(FreeAll(w, conns[..|conns| - 1]), conns[|conns| - 1])
  }

  /** The cleanup half of dso_idle. */
  function Idle(w: World): World
  {
    FreeAll(w, w.awaiting).(awaiting := [])
  }

  /** Whether dso_find_activity's search takes this activity. */
  predicate Finds(a: Activity, kind: string, name: Option<string>, context: nat)
  {
    a.kind == kind && if name.Some? then a.name == name else context != 0 && a.context == context
  }

  /** dso_add_activity: a new activity goes to the head of the list unless its like is on it. */
  function WithAdded(activities: seq<Activity>, a: Activity): seq<Activity>
  {
    if exists k :: 0 <= k < |activities| && Finds(activities[k], a.kind, a.name, a.context) then activities
    else [a] + activities
  }

  function WithActivity(c: Conn, a: Activity): Conn
  {
    c.(activities := WithAdded(c.activities, a))
  }

  /** dso_drop_activity takes the first activity at the address off the list. */
  function WithoutActivity(c: Conn, address: nat): Conn
  {
    c.(activities := WithoutAddress(c.activities, address))
  }

  function WithoutAddress(activities: seq<Activity>, address: nat): seq<Activity>
  {
    if activities == [] then []
    else if activities[0].address == address then activities[1..]
    else [activities[0]] + WithoutAddress(activities[1..], address)
  }

  // ----- What every operation keeps ---------------------------------------------------------------

  function HasSerial(n: nat): Conn -> bool { (c: Conn) => c.serial == n }

  /** Connection n, if it asked for the create and cancel callbacks. */
  function TellsContext(n: nat): Conn -> bool { (c: Conn) => c.serial == n && c.contextCallback }

  /** Connection n, if it asked for the finalize callback. */
  function TellsOwner(n: nat): Conn -> bool { (c: Conn) => c.serial == n && c.callback }

  /** Connection n, if its transport has a finalizer. */
  function HasTransport(n: nat): Conn -> bool { (c: Conn) => c.serial == n && c.transportFinalizer }

  function HasAddress(n: nat): Activity -> bool { (a: Activity) => a.address == n }

  /** Activity n, if it has a finalizer. */
  function HasFinalizer(n: nat): Activity -> bool { (a: Activity) => a.address == n && a.finalizer }

  function Is(e: Event): Event -> bool { (x: Event) => x == e }

  /** How often activity n is on the lists of some connections. */
  function Held(conns: seq<Conn>, n: nat): nat
  {
    if conns == [] then 0
    else Held(conns[..|conns| - 1], n) + Count(conns[|conns| - 1].activities, HasAddress(n))
  }

  function Once(n: nat, next: nat): nat
  {
    if FIRST <= n < next then 1 else 0
  }

  /**
   * Serial number n, once given out, is in exactly one of the three places; activity n is either
   * held once or was freed once; and the callbacks made for n are those due by where it is.
   */
  ghost predicate InvAt(w: World, n: nat)
  {
    && Count(w.live, HasSerial(n)) + Count(w.awaiting, HasSerial(n)) + Count(w.freed, HasSerial(n)) == Once(n, w.nextSerial)
    && Held(w.live, n) + Held(w.awaiting, n) + Count(w.freedActivities, HasAddress(n)) == Once(n, w.nextAddress)
    && Count(w.log, Is(CreateCalled(n)))
       == Count(w.live, TellsContext(n)) + Count(w.awaiting, TellsContext(n)) + Count(w.freed, TellsContext(n))
    && Count(w.log, Is(CancelCalled(n))) == Count(w.awaiting, TellsContext(n)) + Count(w.freed, TellsContext(n))
    && Count(w.log, Is(FinalizeCalled(n))) == Count(w.freed, TellsOwner(n))
    && Count(w.log, Is(TransportFinalized(n))) == Count(w.freed, HasTransport(n))
    && Count(w.log, Is(ActivityFinalized(n))) == Count(w.freedActivities, HasFinalizer(n))
  }

  ghost predicate Inv(w: World)
  {
    w.nextSerial >= FIRST && w.nextAddress >= FIRST && forall n: nat :: InvAt(w, n)
  }

  lemma {:induction false} HeldConcat(a: seq<Conn>, b: seq<Conn>, n: nat)
    ensures Held(a + b, n) == Held(a, n) + Held(b, n)
  {
    if b == [] {
      assert a + b == a;
    } else {
      var k := |b| - 1;
      HeldConcat(a, b[..k], n);
      assert (a + b)[..|a + b| - 1] == a + b[..k];
    }
  }

  lemma {:induction false} HeldOne(c: Conn, n: nat)
    ensures Held([c], n) == Count(c.activities, HasAddress(n))
  {
    assert [c][..0] == [];
  }

  lemma {:induction false} HeldRemove(conns: seq<Conn>, i: nat, n: nat)
    requires i < |conns|
    ensures Held(conns, n) == Held(conns[..i] + conns[i + 1..], n) + Count(conns[i].activities, HasAddress(n))
  {
    var a, b := conns[..i], conns[i + 1..];
    assert conns == a + [conns[i]] + b;
    HeldConcat(a + [conns[i]], b, n);
    HeldConcat(a, [conns[i]], n);
    HeldOne(conns[i], n);
    HeldConcat(a, b, n);
  }

  lemma {:induction false} HeldReplace(conns: seq<Conn>, i: nat, c: Conn, n: nat)
    requires i < |conns|
    ensures Held(conns[i := c], n) + Count(conns[i].activities, HasAddress(n))
         == Held(conns, n) + Count(c.activities, HasAddress(n))
  {
    HeldRemove(conns, i, n);
    HeldRemove(conns[i := c], i, n);
    assert conns[i := c][..i] + conns[i := c][i + 1..] == conns[..i] + conns[i + 1..];
  }

  /** One more possible event at the end of the log. */
  lemma {:induction false} CountWhen(log: seq<Event>, condition: bool, e: Event, x: Event)
    ensures Count(log + When(condition, e), Is(x)) == Count(log, Is(x)) + (if condition && e == x then 1 else 0)
  {
    CountConcat(log, When(condition, e), Is(x));
    CountOne(e, Is(x));
  }

  lemma {:induction false} CountActivityEvents(activities: seq<Activity>, n: nat, x: Event)
    ensures Count(ActivityEvents(activities), Is(ActivityFinalized(n))) == Count(activities, HasFinalizer(n))
    ensures !x.ActivityFinalized? ==> Count(ActivityEvents(activities), Is(x)) == 0
  {
    if activities != [] {
      var k := |activities| - 1;
      CountActivityEvents(activities[..k], n, x);
      var e := ActivityFinalized(activities[k].address);
      CountWhen(ActivityEvents(activities[..k]), activities[k].finalizer, e, ActivityFinalized(n));
      CountWhen(ActivityEvents(activities[..k]), activities[k].finalizer, e, x);
    }
  }

  /** The events about n at once. */
  lemma {:induction false} LogWhen(log: seq<Event>, condition: bool, e: Event, n: nat)
    ensures var log' := log + When(condition, e);
            && Count(log', Is(CreateCalled(n))) == Count(log, Is(CreateCalled(n))) + (if condition && e == CreateCalled(n) then 1 else 0)
            && Count(log', Is(CancelCalled(n))) == Count(log, Is(CancelCalled(n))) + (if condition && e == CancelCalled(n) then 1 else 0)
            && Count(log', Is(FinalizeCalled(n))) == Count(log, Is(FinalizeCalled(n))) + (if condition && e == FinalizeCalled(n) then 1 else 0)
            && Count(log', Is(TransportFinalized(n))) == Count(log, Is(TransportFinalized(n))) + (if condition && e == TransportFinalized(n) then 1 else 0)
            && Count(log', Is(ActivityFinalized(n))) == Count(log, Is(ActivityFinalized(n))) + (if condition && e == ActivityFinalized(n) then 1 else 0)
  {
    CountWhen(log, condition, e, CreateCalled(n));
    CountWhen(log, condition, e, CancelCalled(n));
    CountWhen(log, condition, e, FinalizeCalled(n));
    CountWhen(log, condition, e, TransportFinalized(n));
    CountWhen(log, condition, e, ActivityFinalized(n));
  }

  lemma {:induction false} CreateInv(w: World, callback: bool, contextCallback: bool, transportFinalizer: bool)
    requires Inv(w)
    ensures Inv(Create(w, callback, contextCallback, transportFinalizer))
  {
    var c := Conn(w.nextSerial, callback, contextCallback, transportFinalizer, []);
    forall n: nat
      ensures InvAt(Create(w, callback, contextCallback, transportFinalizer), n)
    {
      assert InvAt(w, n);
      CountConcat([c], w.live, HasSerial(n));
      CountConcat([c], w.live, TellsContext(n));
      CountOne(c, HasSerial(n));
      CountOne(c, TellsContext(n));
      HeldConcat([c], w.live, n);
      HeldOne(c, n);
      LogWhen(w.log, contextCallback, CreateCalled(w.nextSerial), n);
    }
  }

  lemma {:induction false} CancelInv(w: World, serial: nat)
    requires Inv(w)
    ensures Inv(Cancel(w, serial))
  {
    var i := IndexOf(w.live, serial);
    if i < |w.live| {
      var c := w.live[i];
      forall n: nat
        ensures InvAt(Cancel(w, serial), n)
      {
        assert InvAt(w, n);
        CountRemove(w.live, i, HasSerial(n));
        CountRemove(w.live, i, TellsContext(n));
        HeldRemove(w.live, i, n);
        CountConcat([c], w.awaiting, HasSerial(n));
        CountConcat([c], w.awaiting, TellsContext(n));
        CountOne(c, HasSerial(n));
        CountOne(c, TellsContext(n));
        HeldConcat([c], w.awaiting, n);
        HeldOne(c, n);
        LogWhen(w.log, c.contextCallback, CancelCalled(serial), n);
      }
    }
  }

  /** From w to w' the connections were freed, and what they and their activities are due for n was called. */
  ghost predicate Tallied(w: World, w': World, conns: seq<Conn>, n: nat)
  {
    && w'.freed == w.freed + conns
    && w' == w.(freed := w'.freed, freedActivities := w'.freedActivities, log := w'.log)
    && Count(w'.freedActivities, HasAddress(n)) == Count(w.freedActivities, HasAddress(n)) + Held(conns, n)
    && Count(w'.log, Is(CreateCalled(n))) == Count(w.log, Is(CreateCalled(n)))
    && Count(w'.log, Is(CancelCalled(n))) == Count(w.log, Is(CancelCalled(n)))
    && Count(w'.log, Is(FinalizeCalled(n))) == Count(w.log, Is(FinalizeCalled(n))) + Count(conns, TellsOwner(n))
    && Count(w'.log, Is(TransportFinalized(n))) == Count(w.log, Is(TransportFinalized(n))) + Count(conns, HasTransport(n))
    && Count(w'.log, Is(ActivityFinalized(n))) + Count(w.freedActivities, HasFinalizer(n))
       == Count(w.log, Is(ActivityFinalized(n))) + Count(w'.freedActivities, HasFinalizer(n))
  }

  lemma {:induction false} FreeAllTallies(w: World, conns: seq<Conn>, n: nat)
    ensures Tallied(w, FreeAll(w, conns), conns, n)
  {
    if conns == [] {
      assert w.freed + conns == w.freed;
    } else {
      var k := |conns| - 1;
      FreeAllTallies(w, conns[..k], n);
      OneMoreTallied(w, FreeAll(w, conns[..k]), conns, n);
    }
  }

  lemma {:induction false} OneMoreTallied(w: World, w1: World, conns: seq<Conn>, n: nat)
    requires conns != [] && Tallied(w, w1, conns[..|conns| - 1], n)
    ensures Tallied(w, Free(w1, conns[|conns| - 1]), conns, n)
  {
    var k := |conns| - 1;
    FreeTallies(w1, conns[k], n);
    FreedMore(w.freed, conns);
    TalliesMore(conns, n);
  }

  lemma {:induction false} FreedMore(freed: seq<Conn>, conns: seq<Conn>)
    requires conns != []
    ensures freed + conns[..|conns| - 1] + [conns[|conns| - 1]] == freed + conns
  {
    ConcatAssociates(freed, conns[..|conns| - 1], [conns[|conns| - 1]]);
    assert conns[..|conns| - 1] + [conns[|conns| - 1]] == conns;
  }

  lemma {:induction false} TalliesMore(conns: seq<Conn>, n: nat)
    requires conns != []
    ensures var k := |conns| - 1;
            && Held(conns, n) == Held(conns[..k], n) + Count(conns[k].activities, HasAddress(n))
            && Count(conns, TellsOwner(n)) == Count(conns[..k], TellsOwner(n)) + (if TellsOwner(n)(conns[k]) then 1 else 0)
            && Count(conns, HasTransport(n)) == Count(conns[..k], HasTransport(n)) + (if HasTransport(n)(conns[k]) then 1 else 0)
  {
  }

  lemma {:induction false} FreeTallies(w: World, c: Conn, n: nat)
    ensures var w' := Free(w, c);
            && Count(w'.freedActivities, HasAddress(n)) == Count(w.freedActivities, HasAddress(n)) + Count(c.activities, HasAddress(n))
            && Count(w'.freedActivities, HasFinalizer(n)) == Count(w.freedActivities, HasFinalizer(n)) + Count(c.activities, HasFinalizer(n))
            && Count(w'.log, Is(CreateCalled(n))) == Count(w.log, Is(CreateCalled(n)))
            && Count(w'.log, Is(CancelCalled(n))) == Count(w.log, Is(CancelCalled(n)))
            && Count(w'.log, Is(FinalizeCalled(n))) == Count(w.log, Is(FinalizeCalled(n))) + (if TellsOwner(n)(c) then 1 else 0)
            && Count(w'.log, Is(TransportFinalized(n))) == Count(w.log, Is(TransportFinalized(n))) + (if HasTransport(n)(c) then 1 else 0)
            && Count(w'.log, Is(ActivityFinalized(n))) == Count(w.log, Is(ActivityFinalized(n))) + Count(c.activities, HasFinalizer(n))
  {
    CountConcat(w.freedActivities, c.activities, HasAddress(n));
    CountConcat(w.freedActivities, c.activities, HasFinalizer(n));
    FreeEventsCount(w.log, c, n, CreateCalled(n));
    FreeEventsCount(w.log, c, n, CancelCalled(n));
    FreeEventsCount(w.log, c, n, FinalizeCalled(n));
    FreeEventsCount(w.log, c, n, TransportFinalized(n));
    FreeEventsCount(w.log, c, n, ActivityFinalized(n));
  }

  lemma {:induction false} FreeEventsCount(log: seq<Event>, c: Conn, n: nat, x: Event)
    requires x in {CreateCalled(n), CancelCalled(n), FinalizeCalled(n), TransportFinalized(n), ActivityFinalized(n)}
    ensures Count(log + FreeEvents(c), Is(x)) == Count(log, Is(x))
              + (if x == ActivityFinalized(n) then Count(c.activities, HasFinalizer(n)) else 0)
              + (if x == FinalizeCalled(n) && c.callback && c.serial == n then 1 else 0)
              + (if x == TransportFinalized(n) && c.transportFinalizer && c.serial == n then 1 else 0)
  {
    var transport := When(c.transportFinalizer, TransportFinalized(c.serial));
    CountConcat(log, FreeEvents(c), Is(x));
    CountConcat(ActivityEvents(c.activities), transport + When(c.callback, FinalizeCalled(c.serial)), Is(x));
    CountWhen(transport, c.callback, FinalizeCalled(c.serial), x);
    CountOne(TransportFinalized(c.serial), Is(x));
    CountActivityEvents(c.activities, n, x);
  }

  lemma {:induction false} IdleInv(w: World)
    requires Inv(w)
    ensures Inv(Idle(w))
    ensures Idle(w).awaiting == [] && Idle(w).live == w.live && Idle(w).freed == w.freed + w.awaiting
  {
    FreeAllTallies(w, w.awaiting, 0);
    forall n: nat
      ensures InvAt(Idle(w), n)
    {
      assert InvAt(w, n);
      FreeAllTallies(w, w.awaiting, n);
      CountConcat(w.freed, w.awaiting, HasSerial(n));
      CountConcat(w.freed, w.awaiting, TellsContext(n));
      CountConcat(w.freed, w.awaiting, TellsOwner(n));
      CountConcat(w.freed, w.awaiting, HasTransport(n));
    }
  }

  // ----- Activities of a connection in either list --------------------------------------------------

  /** Where a connection that is not freed yet is: an activity may come or go after a cancel too. */
  datatype Place = Live(i: nat) | Awaiting(i: nat)

  predicate IsPlace(w: World, p: Place)
  {
    match p
    case Live(i) => i < |w.live|
    case Awaiting(i) => i < |w.awaiting|
  }

  function At(w: World, p: Place): Conn
    requires IsPlace(w, p)
  {
    match p
    case Live(i) => w.live[i]
    case Awaiting(i) => w.awaiting[i]
  }

  function Put(w: World, p: Place, activities: seq<Activity>): World
    requires IsPlace(w, p)
  {
    match p
    case Live(i) => w.(live := w.live[i := w.live[i].(activities := activities)])
    case Awaiting(i) => w.(awaiting := w.awaiting[i := w.awaiting[i].(activities := activities)])
  }

  /** dso_add_activity for the connection at p. */
  function AddActivity(w: World, p: Place, kind: string, name: Option<string>, context: nat, finalizer: bool): World
    requires IsPlace(w, p)
  {
    var before := At(w, p).activities;
    var after := WithAdded(before, Activity(w.nextAddress, kind, name, context, finalizer));
    if after == before then w else Put(w, p, after).(nextAddress := w.nextAddress + 1)
  }

  /** dso_drop_activity for the connection at p: the activity is finalized whether or not it is on the list. */
  function DropActivity(w: World, p: Place, a: Activity): World
    requires IsPlace(w, p)
  {
    Put(w, p, WithoutAddress(At(w, p).activities, a.address))
      .(freedActivities := w.freedActivities + [a], log := w.log + When(a.finalizer, ActivityFinalized(a.address)))
  }

  /** Other activities on one connection change only how often activities are held. */
  lemma {:induction false} PutTallies(w: World, p: Place, activities: seq<Activity>, n: nat)
    requires IsPlace(w, p)
    ensures var w' := Put(w, p, activities);
            && Count(w'.live, HasSerial(n)) == Count(w.live, HasSerial(n))
            && Count(w'.live, TellsContext(n)) == Count(w.live, TellsContext(n))
            && Count(w'.awaiting, HasSerial(n)) == Count(w.awaiting, HasSerial(n))
            && Count(w'.awaiting, TellsContext(n)) == Count(w.awaiting, TellsContext(n))
            && Held(w'.live, n) + Held(w'.awaiting, n) + Count(At(w, p).activities, HasAddress(n))
               == Held(w.live, n) + Held(w.awaiting, n) + Count(activities, HasAddress(n))
  {
    var c := At(w, p).(activities := activities);
    var list := if p.Live? then w.live else w.awaiting;
    CountReplace(list, p.i, c, HasSerial(n));
    CountReplace(list, p.i, c, TellsContext(n));
    HeldReplace(list, p.i, c, n);
  }

  lemma {:induction false} AddActivityInv(w: World, p: Place, kind: string, name: Option<string>, context: nat, finalizer: bool)
    requires Inv(w) && IsPlace(w, p)
    ensures Inv(AddActivity(w, p, kind, name, context, finalizer))
  {
    var before := At(w, p).activities;
    var a := Activity(w.nextAddress, kind, name, context, finalizer);
    if WithAdded(before, a) != before {
      forall n: nat
        ensures InvAt(AddActivity(w, p, kind, name, context, finalizer), n)
      {
        AddTallies(w, p, a, n);
      }
    }
  }

  /** What a new activity on one connection changes in the tallies of activity n. */
  lemma {:induction false} AddTallies(w: World, p: Place, a: Activity, n: nat)
    requires Inv(w) && IsPlace(w, p) && a.address == w.nextAddress
    ensures InvAt(Put(w, p, [a] + At(w, p).activities).(nextAddress := w.nextAddress + 1), n)
  {
    assert InvAt(w, n);
    var before := At(w, p).activities;
    PutTallies(w, p, [a] + before, n);
    CountConcat([a], before, HasAddress(n));
    CountOne(a, HasAddress(n));
  }

  ghost predicate OnList(activities: seq<Activity>, address: nat)
  {
    exists k :: 0 <= k < |activities| && activities[k].address == address
  }

  lemma {:induction false} WithoutTally(activities: seq<Activity>, address: nat, n: nat)
    ensures Count(activities, HasAddress(n)) == Count(WithoutAddress(activities, address), HasAddress(n))
              + (if OnList(activities, address) && address == n then 1 else 0)
  {
    if activities != [] {
      var rest := activities[1..];
      assert activities == [activities[0]] + rest;
      CountConcat([activities[0]], rest, HasAddress(n));
      CountOne(activities[0], HasAddress(n));
      if activities[0].address != address {
        WithoutTally(rest, address, n);
        CountConcat([activities[0]], WithoutAddress(rest, address), HasAddress(n));
        OnRest(activities, address);
      }
    }
  }

  lemma {:induction false} OnRest(activities: seq<Activity>, address: nat)
    requires activities != [] && activities[0].address != address
    ensures OnList(activities, address) <==> OnList(activities[1..], address)
  {
    if k :| 0 <= k < |activities| && activities[k].address == address {
      assert activities[1..][k - 1].address == address;
    }
    if k :| 0 <= k < |activities| - 1 && activities[1..][k].address == address {
      assert activities[k + 1].address == address;
    }
  }

  /** What dropping an activity changes in the tallies of activity n. */
  lemma {:induction false} DropTallies(w: World, p: Place, a: Activity, n: nat)
    requires Inv(w) && IsPlace(w, p)
    ensures a.address != n || OnList(At(w, p).activities, n) <==> InvAt(DropActivity(w, p, a), n)
  {
    assert InvAt(w, n);
    var before := At(w, p).activities;
    PutTallies(w, p, WithoutAddress(before, a.address), n);
    WithoutTally(before, a.address, n);
    CountConcat(w.freedActivities, [a], HasAddress(n));
    CountConcat(w.freedActivities, [a], HasFinalizer(n));
    CountOne(a, HasAddress(n));
    CountOne(a, HasFinalizer(n));
    LogWhen(w.log, a.finalizer, ActivityFinalized(a.address), n);
  }

  /** Dropping an activity keeps all tallies if and only if the activity is on the connection's list. */
  lemma {:induction false} DropKeepsInvIff(w: World, p: Place, a: Activity)
    requires Inv(w) && IsPlace(w, p)
    ensures Inv(DropActivity(w, p, a)) <==> OnList(At(w, p).activities, a.address)
  {
    forall n: nat
      ensures a.address != n || OnList(At(w, p).activities, n) <==> InvAt(DropActivity(w, p, a), n)
    {
      DropTallies(w, p, a, n);
    }
    DropTallies(w, p, a, a.address);
  }

  // ----- Runs --------------------------------------------------------------------------------------

  datatype Op =
    | OpCreate(callback: bool, contextCallback: bool, transportFinalizer: bool)
    | OpCancel(serial: nat)
    | OpIdle
    | OpAdd(place: Place, kind: string, name: Option<string>, context: nat, finalizer: bool)
    | OpDrop(place: Place, activity: Activity)

  ghost predicate Allowed(w: World, op: Op)
  {
    match op
    case OpAdd(p, _, _, _, _) => IsPlace(w, p)
    case OpDrop(p, a) => IsPlace(w, p) && OnList(At(w, p).activities, a.address)
    case _ => true
  }

  ghost function Apply(w: World, op: Op): World
    requires Allowed(w, op)
  {
    match op
    case OpCreate(callback, contextCallback, transport) => Create(w, callback, contextCallback, transport)
    case OpCancel(serial) => Cancel(w, serial)
    case OpIdle => Idle(w)
    case OpAdd(p, kind, name, context, finalizer) => AddActivity(w, p, kind, name, context, finalizer)
    case OpDrop(p, a) => DropActivity(w, p, a)
  }

  ghost predicate RunAllowed(ops: seq<Op>)
    decreases |ops|, 0
  {
    ops == [] || (RunAllowed(ops[..|ops| - 1]) && Allowed(Run(ops[..|ops| - 1]), ops[|ops| - 1]))
  }

  /** The state after a run from the start. */
  ghost function Run(ops: seq<Op>): World
    requires RunAllowed(ops)
    decreases |ops|, 1
  {
    if ops == [] then START else Apply(Run(ops[..|ops| - 1]), ops[|ops| - 1])
  }

  lemma {:induction false} ApplyInv(w: World, op: Op)
    requires Inv(w) && Allowed(w, op)
    ensures Inv(Apply(w, op))
  {
    match op
    case OpCreate(callback, contextCallback, transport) => CreateInv(w, callback, contextCallback, transport);
    case OpCancel(serial) => CancelInv(w, serial);
    case OpIdle => IdleInv(w);
    case OpAdd(p, kind, name, context, finalizer) => AddActivityInv(w, p, kind, name, context, finalizer);
    case OpDrop(p, a) => DropKeepsInvIff(w, p, a);
  }

  lemma {:induction false} RunInv(ops: seq<Op>)
    requires RunAllowed(ops)
    ensures Inv(Run(ops))
  {
    if ops != [] {
      RunInv(ops[..|ops| - 1]);
      ApplyInv(Run(ops[..|ops| - 1]), ops[|ops| - 1]);
    }
  }

  /**
   * After any run every connection created is in exactly one of the three places, and every
   * activity is either held by exactly one connection or was freed exactly once.
   */
  lemma {:induction false} ExactlyOnePlace(ops: seq<Op>, n: nat)
    requires RunAllowed(ops)
    ensures var w := Run(ops);
            && Count(w.live, HasSerial(n)) + Count(w.awaiting, HasSerial(n)) + Count(w.freed, HasSerial(n))
               == Once(n, w.nextSerial)
            && Held(w.live, n) + Held(w.awaiting, n) + Count(w.freedActivities, HasAddress(n)) == Once(n, w.nextAddress)
  {
    RunInv(ops);
    assert InvAt(Run(ops), n);
  }

  /**
   * After any run a connection that asked to be told has had its cancel callback once if it was
   * cancelled and its finalize callback once if it was freed, and neither otherwise; a transport's
   * finalizer was called once if its connection was freed, an activity's if it was, and not otherwise.
   */
  lemma {:induction false} CallbacksExactlyOnce(ops: seq<Op>, n: nat)
    requires RunAllowed(ops)
    ensures var w := Run(ops);
            && Count(w.log, Is(CancelCalled(n))) == Count(w.awaiting, TellsContext(n)) + Count(w.freed, TellsContext(n)) <= 1
            && Count(w.log, Is(FinalizeCalled(n))) == Count(w.freed, TellsOwner(n)) <= 1
            && Count(w.log, Is(TransportFinalized(n))) == Count(w.freed, HasTransport(n)) <= 1
            && Count(w.log, Is(ActivityFinalized(n))) == Count(w.freedActivities, HasFinalizer(n)) <= 1
  {
    RunInv(ops);
    var w := Run(ops);
    assert InvAt(w, n);
    CountFewer(w.awaiting, TellsContext(n), HasSerial(n));
    CountFewer(w.freed, TellsContext(n), HasSerial(n));
    CountFewer(w.freed, TellsOwner(n), HasSerial(n));
    CountFewer(w.freed, HasTransport(n), HasSerial(n));
    CountFewer(w.freedActivities, HasFinalizer(n), HasAddress(n));
  }

  /** Cancelling twice is cancelling once. */
  lemma {:induction false} CancelIdempotent(w: World, serial: nat)
    requires Inv(w)
    ensures Cancel(Cancel(w, serial), serial) == Cancel(w, serial)
  {
    var i := IndexOf(w.live, serial);
    if i < |w.live| {
      var w' := Cancel(w, serial);
      var j := IndexOf(w'.live, serial);
      if j < |w'.live| {
        assert InvAt(w, serial);
        CountRemove(w.live, i, HasSerial(serial));
        CountPositive(w'.live, j, HasSerial(serial));
        assert false;
      }
    }
  }

  /**
   * An activity is added exactly if none of its kind on the list is like it: of the same name, or if
   * it has no name of the same context, named or not; without either it is always added.
   */
  lemma {:induction false} AddedIff(activities: seq<Activity>, a: Activity)
    ensures WithAdded(activities, a) == [a] + activities <==>
            forall x :: x in activities && x.kind == a.kind ==>
              if a.name.Some? then x.name != a.name else a.context == 0 || x.context != a.context
    ensures WithAdded(activities, a) != [a] + activities ==> WithAdded(activities, a) == activities
  {
    assert |[a] + activities| != |activities|;
    if k :| 0 <= k < |activities| && Finds(activities[k], a.kind, a.name, a.context) {
      assert activities[k] in activities;
    }
  }

  /** No two named activities of one kind on a connection have the same name. */
  ghost predicate NamesDistinct(c: Conn)
  {
    forall i, j ::
      0 <= i < j < |c.activities| && c.activities[i].name.Some? && c.activities[i].kind == c.activities[j].kind
      ==> c.activities[i].name != c.activities[j].name
  }

  lemma {:induction false} AddKeepsNamesDistinct(c: Conn, a: Activity)
    requires NamesDistinct(c)
    ensures NamesDistinct(WithActivity(c, a))
  {
    var c' := WithActivity(c, a);
    if c' != c {
      forall i, j | 0 <= i < j < |c'.activities| && c'.activities[i].name.Some?
                    && c'.activities[i].kind == c'.activities[j].kind
        ensures c'.activities[i].name != c'.activities[j].name
      {
        assert c'.activities[j] == c.activities[j - 1];
        if i == 0 {
          assert !Finds(c.activities[j - 1], a.kind, a.name, a.context);
        } else {
          assert c'.activities[i] == c.activities[i - 1];
        }
      }
    }
  }
}
