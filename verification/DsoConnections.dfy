// The two linked lists of DSO/dso.c, dso_connections and dso_connections_needing_cleanup, edited
// through their links (DSO/dso.c:83-159 and 202-262). A connection's activity list is held by its
// value here; DsoActivities keeps one by its links.

module DsoConnections {
  import opened Bytes
  import opened Counting
  import opened DsoLifecycle
  import opened Lists

  class Connection {
    const serial: nat
    const callback: bool
    const contextCallback: bool
    const transportFinalizer: bool
    var next: Connection?
    var activities: seq<Activity>

    constructor (serial: nat, callback: bool, contextCallback: bool, transportFinalizer: bool)
      ensures this.serial == serial && this.callback == callback && this.contextCallback == contextCallback
      ensures this.transportFinalizer == transportFinalizer && next == null && activities == []
    {
      this.serial, this.callback, this.contextCallback := serial, callback, contextCallback;
      this.transportFinalizer := transportFinalizer;
      next, activities := null, [];
    }

    ghost function Value(): Conn
      reads this`activities
    {
      Conn(serial, callback, contextCallback, transportFinalizer, activities)
    }
  }

  /** v are the values of the connections of s. */
  ghost predicate AreValues(s: seq<Connection>, v: seq<Conn>)
    reads s`activities
  {
    |v| == |s| && forall i :: 0 <= i < |s| ==> v[i] == s[i].Value()
  }

  ghost predicate NextIs(s: seq<Connection>, i: nat)
    requires i < |s|
    reads s`next
  {
    s[i].next == if i + 1 < |s| then s[i + 1] else null
  }

  /** head starts a chain of links through exactly the connections of s. */
  ghost predicate Linked(head: Connection?, s: seq<Connection>)
    reads s`next
  {
    && (head == if s == [] then null else s[0])
    && forall i :: 0 <= i < |s| ==> NextIs(s, i)
  }

  /** A list: its links, its connections, no two the same, and their values. */
  ghost predicate IsList(head: Connection?, s: seq<Connection>, v: seq<Conn>)
    reads s`next, s`activities
  {
    Linked(head, s) && Distinct(s) && AreValues(s, v)
  }

  ghost predicate Apart(a: seq<Connection>, b: seq<Connection>)
  {
    forall c :: c in a ==> c !in b
  }

  lemma {:induction false} ApartWithout(s: seq<Connection>, at: nat, other: seq<Connection>)
    requires at < |s| && Distinct(s) && Apart(s, other)
    ensures s[at] !in Without(s, at) && s[at] !in other && Apart(Without(s, at), other)
  {
    WithoutMembers(s, at);
  }

  /** The connection before a position, whose link leads to it. */
  ghost function Before(s: seq<Connection>, at: nat): set<Connection>
  {
    if 0 < at < |s| then {s[at - 1]} else {}
  }

  /** Puts a connection at the head of a list. */
  method Push(c: Connection, head: Connection?, ghost s: seq<Connection>, ghost v: seq<Conn>)
    requires IsList(head, s, v) && c !in s
    modifies c`next
    ensures IsList(c, [c] + s, [c.Value()] + v)
  {
    c.next := head;
    LinkedCons(c, head, s);
    DistinctCons(c, s);
  }

  /** Takes a connection out of a list if it is on it, and leaves another list as it is. */
  method Remove(c: Connection, head: Connection?, ghost s: seq<Connection>, ghost v: seq<Conn>, ghost at: nat,
                ghost head2: Connection?, ghost s2: seq<Connection>, ghost v2: seq<Conn>)
    returns (head': Connection?, found: bool)
    requires IsList(head, s, v) && if c in s then at < |s| && s[at] == c else at == |s|
    requires IsList(head2, s2, v2) && Apart(s, s2)
    modifies Before(s, at)`next
    ensures found == (c in s)
    ensures !found ==> head' == head && IsList(head, s, v)
    ensures found ==> IsList(head', Without(s, at), Without(v, at)) && v[at] == c.Value()
    ensures found ==> c !in Without(s, at) && c !in s2 && Apart(Without(s, at), s2)
    ensures IsList(head2, s2, v2)
  {
    assert 0 < at < |s| ==> s[at - 1] in s && s[at - 1] !in s2;
    head', found := Unlink(c, head, s, at);
    if found {
      WithoutIsDistinct(s, at);
      ApartWithout(s, at, s2);
    }
  }

  /** Changes the activities of a connection at position i of one of two lists, of the first if first holds. */
  method ChangeActivities(c: Connection, activities: seq<Activity>, ghost first: bool, ghost i: nat,
                          ghost head: Connection?, ghost s: seq<Connection>, ghost v: seq<Conn>,
                          ghost head2: Connection?, ghost s2: seq<Connection>, ghost v2: seq<Conn>)
    requires IsList(head, s, v) && IsList(head2, s2, v2) && Apart(s, s2)
    requires if first then i < |s| && s[i] == c else i < |s2| && s2[i] == c
    modifies c`activities
    ensures IsList(head, s, if first then v[i := v[i].(activities := activities)] else v)
    ensures IsList(head2, s2, if first then v2 else v2[i := v2[i].(activities := activities)])
  {
    assert first ==> c in s && c !in s2;
    assert !first ==> c in s2 && c !in s;
    c.activities := activities;
  }

  /** Redirects the link that leads to the connection, if one does. */
  method Unlink(c: Connection, head: Connection?, ghost s: seq<Connection>, ghost at: nat)
    returns (head': Connection?, found: bool)
    requires Linked(head, s) && Distinct(s) && if c in s then at < |s| && s[at] == c else at == |s|
    modifies Before(s, at)`next
    ensures found == (c in s)
    ensures !found ==> head' == head && Linked(head, s)
    ensures found ==> Linked(head', Without(s, at))
  {
    if head == c {
      assert NextIs(s, 0);
      ghost var rest := Without(s, 0);
      forall k | 0 <= k < |rest|
        ensures NextIs(rest, k)
      {
        assert NextIs(s, k + 1);
      }
      return c.next, true;
    }
    var p := head;
    ghost var i := 0;
    while p != null && p.next != c
      invariant i <= |s| && p == (if i < |s| then s[i] else null)
      invariant forall k :: 0 <= k <= i && k < |s| ==> s[k] != c
      decreases |s| - i
    {
      assert NextIs(s, i);
      p := p.next;
      i := i + 1;
    }
    if p == null {
      return head, false;
    }
    assert NextIs(s, i) && s[i + 1] == c && NextIs(s, i + 1);
    p.next := c.next;
    ghost var rest := Without(s, i + 1);
    forall k | 0 <= k < |rest|
      ensures NextIs(rest, k)
    {
      if k != i {
        assert old(NextIs(s, if k <= i then k else k + 1));
      }
    }
    return head, true;
  }

  class Registry {
    var connections: Connection?
    var needingCleanup: Connection?
    var nextSerial: nat
    var nextAddress: nat
    var log: seq<Event>
    ghost var live: seq<Connection>
    ghost var awaiting: seq<Connection>
    ghost var liveNow: seq<Conn>
    ghost var awaitingNow: seq<Conn>
    ghost var freed: seq<Conn>
    ghost var freedActivities: seq<Activity>

    ghost function State(): World
      reads this
    {
      World(liveNow, awaitingNow, freed, freedActivities, nextSerial, nextAddress, log)
    }

    ghost predicate Valid()
      reads this, live, awaiting
    {
      && IsList(connections, live, liveNow) && IsList(needingCleanup, awaiting, awaitingNow)
      && Apart(live, awaiting)
    }

    constructor ()
      ensures Valid() && State() == START
    {
      connections, needingCleanup, nextSerial, nextAddress, log := null, null, FIRST, FIRST, [];
      live, awaiting, liveNow, awaitingNow, freed, freedActivities := [], [], [], [], [], [];
    }

    /** dso_find_by_serial: a connection is found if and only if it is live. */
    method FindBySerial(serial: nat) returns (c: Connection?)
      requires Valid()
      ensures c != null <==> exists k :: 0 <= k < |live| && live[k].serial == serial
      ensures c != null ==> c in live && c.serial == serial
    {
      c := connections;
      ghost var i := 0;
      while c != null && c.serial != serial
        invariant i <= |live| && c == (if i < |live| then live[i] else null)
        invariant forall k :: 0 <= k < i ==> live[k].serial != serial
        decreases |live| - i
      {
        assert NextIs(live, i);
        c := c.next;
        i := i + 1;
      }
    }

    /** dso_state_create. */
    method StateCreate(callback: bool, contextCallback: bool, transportFinalizer: bool) returns (c: Connection)
      requires Valid()
      modifies this
      ensures Valid() && fresh(c) && live == [c] + old(live)
      ensures State() == Create(old(State()), callback, contextCallback, transportFinalizer)
      ensures c.Value() == Conn(old(nextSerial), callback, contextCallback, transportFinalizer, [])
    {
      c := new Connection(nextSerial, callback, contextCallback, transportFinalizer);
      AnnounceCreated(contextCallback);
      Prepend(c);
    }

    method AnnounceCreated(contextCallback: bool)
      modifies this`nextSerial, this`log
      ensures State() == old(State()).(nextSerial := old(nextSerial) + 1,
                                       log := old(log) + When(contextCallback, CreateCalled(old(nextSerial))))
    {
      EmptyConcat([], log);
      if contextCallback {
        log := log + [CreateCalled(nextSerial)];
      }
      nextSerial := nextSerial + 1;
    }

    /** A new connection is put at the head of the live list. */
    method Prepend(c: Connection)
      requires Valid() && c !in live && c !in awaiting
      modifies this`connections, this`live, this`liveNow, c`next
      ensures Valid() && live == [c] + old(live)
      ensures State() == old(State()).(live := [c.Value()] + old(liveNow))
    {
      Push(c, connections, live, liveNow);
      SetLive(c, [c] + live, [c.Value()] + liveNow);
    }

    /** Another list becomes the live one. */
    method SetLive(head: Connection?, ghost s: seq<Connection>, ghost v: seq<Conn>)
      requires IsList(head, s, v) && Apart(s, awaiting)
      requires IsList(needingCleanup, awaiting, awaitingNow)
      modifies this`connections, this`live, this`liveNow
      ensures Valid() && connections == head && live == s && State() == old(State()).(live := v)
    {
      connections, live, liveNow := head, s, v;
    }

    /** dso_state_cancel. A connection already cancelled is left alone. */
    method StateCancel(c: Connection)
      requires Valid() && Inv(State()) && (c in live || c in awaiting)
      modifies this, live`next
      ensures Valid() && State() == Cancel(old(State()), c.serial)
      ensures c !in live && c in awaiting
    {
      SerialFinds(c);
      MoveToCleanup(c, IndexOf(liveNow, c.serial));
    }

    /** Takes c off the live list, tells its context, and puts it on the other list. */
    method MoveToCleanup(c: Connection, ghost at: nat)
      requires Valid() && (c in live || c in awaiting) && at == IndexOf(liveNow, c.serial)
      requires if c in live then at < |live| && live[at] == c else at == |live|
      modifies this, live`next
      ensures Valid() && State() == Cancel(old(State()), c.serial)
      ensures c !in live && c in awaiting
    {
      ghost var w := State();
      var found := Detach(c, at);
      if found {
        Await(c, w.live[at]);
        CancelMoves(w, at, w.live[at], State());
      }
    }

    /** Takes c off the live list if it is on it. */
    method Detach(c: Connection, ghost at: nat) returns (found: bool)
      requires Valid() && (c in live || c in awaiting)
      requires if c in live then at < |live| && live[at] == c else at == |live|
      modifies this`connections, this`live, this`liveNow, Before(live, at)`next
      ensures Valid() && found == (c in old(live)) && c !in live
      ensures !found ==> live == old(live) && State() == old(State())
      ensures found ==> State() == old(State()).(live := Without(old(liveNow), at))
      ensures found ==> at < |old(liveNow)| && c.Value() == old(liveNow)[at]
                        && c !in awaiting
    {
      var head: Connection?;
      head, found := Remove(c, connections, live, liveNow, at, needingCleanup, awaiting, awaitingNow);
      if found {
        SetLive(head, Without(live, at), Without(liveNow, at));
      }
    }

    /** The context of a connection off the live list is told, and the connection put at the head of those awaiting cleanup. */
    method Await(c: Connection, ghost v: Conn)
      requires Valid() && c !in live && c !in awaiting && c.Value() == v
      modifies this`needingCleanup, this`awaiting, this`awaitingNow, this`log, c`next
      ensures Valid() && awaiting == [c] + old(awaiting)
      ensures State() == old(State()).(awaiting := [v] + old(awaitingNow),
                                       log := old(log) + When(v.contextCallback, CancelCalled(v.serial)))
    {
      EmptyConcat([], log);
      if c.contextCallback {
        log := log + [CancelCalled(c.serial)];
      }
      Push(c, needingCleanup, awaiting, awaitingNow);
      SetAwaiting(c, [c] + awaiting, [c.Value()] + awaitingNow);
    }

    /** Another list becomes the one awaiting cleanup. */
    method SetAwaiting(head: Connection?, ghost s: seq<Connection>, ghost v: seq<Conn>)
      requires IsList(connections, live, liveNow) && Apart(live, s)
      requires IsList(head, s, v)
      modifies this`needingCleanup, this`awaiting, this`awaitingNow
      ensures Valid() && needingCleanup == head && awaiting == s && State() == old(State()).(awaiting := v)
    {
      needingCleanup, awaiting, awaitingNow := head, s, v;
    }

    /** In a valid registry the serial number of a live connection finds that connection. */
    lemma {:induction false} SerialFinds(c: Connection)
      requires Valid() && Inv(State()) && (c in live || c in awaiting)
      ensures var i := IndexOf(liveNow, c.serial);
              if c in live then i < |live| && live[i] == c else i == |live|
    {
      var i := IndexOf(liveNow, c.serial);
      assert InvAt(State(), c.serial);
      if c in live {
        var k :| 0 <= k < |live| && live[k] == c;
        assert liveNow[k].serial == c.serial;
        if i != k {
          CountRemove(liveNow, k, HasSerial(c.serial));
          var rest := liveNow[..k] + liveNow[k + 1..];
          assert rest[i] == liveNow[i];
          CountPositive(rest, i, HasSerial(c.serial));
          assert false;
        }
      } else {
        var k :| 0 <= k < |awaiting| && awaiting[k] == c;
        CountPositive(awaitingNow, k, HasSerial(c.serial));
        if i < |live| {
          CountPositive(liveNow, i, HasSerial(c.serial));
          assert false;
        }
      }
    }

    /** The cleanup half of dso_idle: everything on the second list is freed, in its order. */
    method IdleCleanup()
      requires Valid()
      modifies this`log, this`freed, this`freedActivities, this`needingCleanup, this`awaiting, this`awaitingNow
      ensures Valid() && State() == Idle(old(State()))
      ensures awaiting == []
    {
      ghost var w := State();
      FreeList(w);
      FreeAllKeeps(w, w.awaiting);
      SetAwaiting(null, [], []);
    }

    /** The logged callbacks and what has been freed are those of w. */
    ghost predicate Freed(w: World)
      reads this
    {
      log == w.log && freed == w.freed && freedActivities == w.freedActivities
    }

    /** Walks the list awaiting cleanup, taking each link before its connection is freed. */
    method FreeList(ghost w: World)
      requires Linked(needingCleanup, awaiting) && Freed(w) && AreValues(awaiting, w.awaiting)
      modifies this`log, this`freed, this`freedActivities
      ensures Freed(FreeAll(w, w.awaiting))
    {
      var c := needingCleanup;
      ghost var i := 0;
      while c != null
        invariant i <= |awaiting| && c == (if i < |awaiting| then awaiting[i] else null)
        invariant Freed(FreeAll(w, w.awaiting[..i]))
        decreases |awaiting| - i
      {
        assert NextIs(awaiting, i);
        var dnext := c.next;
        FreeConnection(c);
        FreeAllStep(w, w.awaiting, i);
        c := dnext;
        i := i + 1;
      }
      assert w.awaiting[..i] == w.awaiting;
    }

    /** Finalizes the activities of c and c itself; both are freed. */
    method FreeConnection(c: Connection)
      modifies this`log, this`freed, this`freedActivities
      ensures log == old(log) + FreeEvents(c.Value())
      ensures freed == old(freed) + [c.Value()] && freedActivities == old(freedActivities) + c.activities
    {
      FinalizeActivities(c);
      ghost var transport := When(c.transportFinalizer, TransportFinalized(c.serial));
      if c.transportFinalizer {
        log := log + [TransportFinalized(c.serial)];
      }
      if c.callback {
        log := log + [FinalizeCalled(c.serial)];
      }
      FreeEventsInOrder(old(log), ActivityEvents(c.activities), transport, When(c.callback, FinalizeCalled(c.serial)));
      freed := freed + [c.Value()];
      freedActivities := freedActivities + c.activities;
    }

    /** The finalizer of every activity of c, in list order. */
    method FinalizeActivities(c: Connection)
      modifies this`log
      ensures log == old(log) + ActivityEvents(c.activities)
    {
      assert log + [] == log;
      for i := 0 to |c.activities|
        invariant log == old(log) + ActivityEvents(c.activities[..i])
      {
        var a := c.activities[i];
        assert c.activities[..i + 1] == c.activities[..i] + [a];
        LogAssociates(old(log), ActivityEvents(c.activities[..i]), When(a.finalizer, ActivityFinalized(a.address)));
        if a.finalizer {
          log := log + [ActivityFinalized(a.address)];
        } else {
          assert log + [] == log;
        }
      }
      assert c.activities[..|c.activities|] == c.activities;
    }

    /** c is the connection at p, in either list. */
    ghost predicate IsAt(c: Connection, p: Place)
      reads this
    {
      match p
      case Live(i) => i < |live| && live[i] == c
      case Awaiting(i) => i < |awaiting| && awaiting[i] == c
    }

    /** dso_add_activity for the connection at p, live or awaiting cleanup. */
    method StateAddActivity(c: Connection, kind: string, name: Option<string>, context: nat, finalizer: bool, ghost p: Place)
      returns (added: bool)
      requires Valid() && IsAt(c, p)
      modifies this`nextAddress, this`liveNow, this`awaitingNow, c`activities
      ensures Valid() && IsPlace(old(State()), p)
      ensures State() == AddActivity(old(State()), p, kind, name, context, finalizer)
      ensures added <==> State() != old(State())
      ensures c.activities == old(c.activities)
              || c.activities == [Activity(old(nextAddress), kind, name, context, finalizer)] + old(c.activities)
    {
      ValueAt(c, p);
      var a := Activity(nextAddress, kind, name, context, finalizer);
      var activities := WithAdded(c.activities, a);
      if activities == c.activities {
        return false;
      }
      SetActivities(c, activities, p);
      UseAddress();
      return true;
    }

    method UseAddress()
      requires Valid()
      modifies this`nextAddress
      ensures Valid() && State() == old(State()).(nextAddress := old(nextAddress) + 1)
    {
      nextAddress := nextAddress + 1;
    }

    lemma {:induction false} ValueAt(c: Connection, p: Place)
      requires Valid() && IsAt(c, p)
      ensures IsPlace(State(), p) && At(State(), p) == c.Value()
    {
    }

    /** Only the activities of the connection at p change. */
    method SetActivities(c: Connection, activities: seq<Activity>, ghost p: Place)
      requires Valid() && IsAt(c, p)
      modifies c`activities, this`liveNow, this`awaitingNow
      ensures Valid() && IsPlace(old(State()), p) && State() == Put(old(State()), p, activities)
    {
      ghost var i := p.i;
      ChangeActivities(c, activities, p.Live?, i, connections, live, liveNow, needingCleanup, awaiting, awaitingNow);
      if p.Live? {
        liveNow := liveNow[i := liveNow[i].(activities := activities)];
      } else {
        awaitingNow := awaitingNow[i := awaitingNow[i].(activities := activities)];
      }
    }

    /** dso_drop_activity for the connection at p, whether or not the activity is on its list. */
    method StateDropActivity(c: Connection, a: Activity, ghost p: Place)
      requires Valid() && IsAt(c, p)
      modifies this`log, this`freedActivities, this`liveNow, this`awaitingNow, c`activities
      ensures Valid() && IsPlace(old(State()), p) && State() == DropActivity(old(State()), p, a)
    {
      ValueAt(c, p);
      SetActivities(c, WithoutAddress(c.activities, a.address), p);
      FinalizeActivity(a);
    }

    method FinalizeActivity(a: Activity)
      modifies this`log, this`freedActivities
      ensures State() == old(State()).(freedActivities := old(freedActivities) + [a],
                                       log := old(log) + When(a.finalizer, ActivityFinalized(a.address)))
    {
      if a.finalizer {
        log := log + [ActivityFinalized(a.address)];
      } else {
        assert log + [] == log;
      }
      freedActivities := freedActivities + [a];
    }
  }

  /** What cancelling a live connection changes. */
  lemma {:induction false} CancelMoves(w: World, at: nat, c: Conn, w': World)
    requires at == IndexOf(w.live, c.serial) && at < |w.live| && w.live[at] == c
    requires w' == w.(live := Without(w.live, at), awaiting := [c] + w.awaiting,
                      log := w.log + When(c.contextCallback, CancelCalled(c.serial)))
    ensures w' == Cancel(w, c.serial)
  {
  }

  lemma {:induction false} FreeEventsInOrder(log: seq<Event>, a: seq<Event>, b: seq<Event>, c: seq<Event>)
    ensures log + a + b + c == log + (a + (b + c))
    ensures b == [] ==> log + a + c == log + (a + (b + c))
    ensures c == [] ==> log + a + b == log + (a + (b + c))
    ensures b == [] && c == [] ==> log + a == log + (a + (b + c))
  {
  }

  lemma {:induction false} FreeAllKeeps(w: World, conns: seq<Conn>)
    ensures var w' := FreeAll(w, conns);
            w' == w.(freed := w'.freed, freedActivities := w'.freedActivities, log := w'.log)
  {
    if conns != [] {
      FreeAllKeeps(w, conns[..|conns| - 1]);
    }
  }

  lemma {:induction false} FreeAllStep(w: World, conns: seq<Conn>, i: nat)
    requires i < |conns|
    ensures FreeAll(w, conns[..i + 1]) == Free(FreeAll(w, conns[..i]), conns[i])
  {
    assert conns[..i + 1][..i] == conns[..i];
  }

  /** A connection whose link leads to a chain starts a longer one. */
  lemma {:induction false} LinkedCons(c: Connection, head: Connection?, s: seq<Connection>)
    requires Linked(head, s) && c.next == head
    ensures Linked(c, [c] + s)
  {
    forall i | 0 <= i < |[c] + s|
      ensures NextIs([c] + s, i)
    {
      if i > 0 {
        assert NextIs(s, i - 1);
      }
    }
  }

  lemma {:induction false} DistinctCons(c: Connection, s: seq<Connection>)
    requires Distinct(s) && c !in s
    ensures Distinct([c] + s)
  {
    assert forall i :: 0 < i < |[c] + s| ==> ([c] + s)[i] == s[i - 1] && s[i - 1] in s;
  }

  lemma {:induction false} LogAssociates(a: seq<Event>, b: seq<Event>, c: seq<Event>)
    ensures a + b + c == a + (b + c)
    ensures c == [] ==> a + b + c == a + b
  {
  }
}
