// The wakeups of the event loop as values: arming, cancelling, and what a pass over the timers may do
// (ServiceRegistration/ioloop.c:208-227, 264-289, 344-379).

module WakeupTimers {
  import opened Bytes
  import opened Lists

  /** The listed wakeups in order, and the time each known wakeup is set to; 0 is none. */
  datatype Timers<W> = Timers(list: seq<W>, time: map<W, int>)

  /** A call of ioloop_add_wake_event when the clock shows `at`, or of ioloop_cancel_wake_event. */
  datatype Act<W> = Arm(w: W, hasCallback: bool, ms: int, at: int) | Disarm(w: W)

  /** What happens in the timer part of ioloop_events. */
  datatype Event<W> = Fired(w: W) | Did(act: Act<W>)

  function IndexOf<W(==)>(s: seq<W>, w: W): (i: nat)
    ensures i <= |s| && (i < |s| <==> w in s)
    ensures forall k :: 0 <= k < i ==> s[k] != w
    ensures i < |s| ==> s[i] == w
  {
    if s == [] then 0 else if s[0] == w then 0 else 1 + IndexOf(s[1..], w)
  }

  function Minus<W(==)>(s: seq<W>, w: W): seq<W>
  {
    var i := IndexOf(s, w);
    if i == |s| then s else Without(s, i)
  }

  /** Null callbacks and negative times are refused. */
  predicate Accepted<W>(act: Act<W>)
  {
    act.Arm? ==> act.hasCallback && act.ms >= 0
  }

  function Do<W(==)>(s: Timers<W>, act: Act<W>): Timers<W>
  {
    if !Accepted(act) then s
    else if act.Disarm? then Timers(Minus(s.list, act.w), s.time[act.w := 0])
    else Timers(if act.w in s.list then s.list else s.list + [act.w], s.time[act.w := act.at + act.ms])
  }

  function Step<W(==)>(s: Timers<W>, e: Event<W>): Timers<W>
  {
    match e
    case Fired(w) => Timers(Minus(s.list, w), s.time[w := 0])
    case Did(act) => Do(s, act)
  }

  function After<W(==)>(s: Timers<W>, log: seq<Event<W>>): Timers<W>
  {
    if log == [] then s else Step(After(s, log[..|log| - 1]), log[|log| - 1])
  }

  ghost predicate WellFormed<W>(s: Timers<W>)
  {
    Distinct(s.list) && forall i :: 0 <= i < |s.list| ==> s.list[i] in s.time
  }

  predicate Due<W(==)>(s: Timers<W>, w: W, now: int)
  {
    w in s.list && w in s.time && s.time[w] != 0 && s.time[w] <= now
  }

  /** No wakeup listed before w is due. */
  ghost predicate NoneDueBefore<W>(s: Timers<W>, w: W, now: int)
  {
    forall i :: 0 <= i < IndexOf(s.list, w) ==> !Due(s, s.list[i], now)
  }

  ghost predicate Allowed<W>(s: Timers<W>, e: Event<W>, now: int)
  {
    e.Fired? ==> Due(s, e.w, now) && NoneDueBefore(s, e.w, now)
  }

  /** Only the first due wakeup fires. */
  ghost predicate Legal<W>(s: Timers<W>, log: seq<Event<W>>, now: int)
  {
    log == [] || (Legal(s, log[..|log| - 1], now) && Allowed(After(s, log[..|log| - 1]), log[|log| - 1], now))
  }

  /** If the call arms a wakeup, it arms it for later than now. */
  predicate Later<W>(act: Act<W>, now: int)
  {
    act.Arm? && Accepted(act) ==> act.at + act.ms > now
  }

  /** What callbacks do to w in these events, if anything, arms it for later than now. */
  ghost predicate ArmedForLater<W>(log: seq<Event<W>>, w: W, now: int)
  {
    forall i :: 0 <= i < |log| && log[i].Did? && log[i].act.w == w ==> Later(log[i].act, now)
  }

  // ----- One step ---------------------------------------------------------------------------------

  lemma {:induction false} MinusMembers<W>(s: seq<W>, w: W)
    requires Distinct(s)
    ensures Distinct(Minus(s, w))
    ensures forall x :: x in Minus(s, w) <==> x in s && x != w
  {
    var i := IndexOf(s, w);
    if i < |s| {
      WithoutIsDistinct(s, i);
      WithoutMembers(s, i);
    }
  }

  lemma {:induction false} StepWellFormed<W>(s: Timers<W>, e: Event<W>)
    requires WellFormed(s)
    ensures WellFormed(Step(s, e))
  {
    match e
    case Fired(w) => MinusMembers(s.list, w);
    case Did(act) => MinusMembers(s.list, act.w);
  }

  lemma {:induction false} AfterWellFormed<W>(s: Timers<W>, log: seq<Event<W>>)
    requires WellFormed(s)
    ensures WellFormed(After(s, log))
  {
    if log != [] {
      AfterWellFormed(s, log[..|log| - 1]);
      StepWellFormed(After(s, log[..|log| - 1]), log[|log| - 1]);
    }
  }

  /** What an event is about. */
  function Subject<W>(e: Event<W>): W
  {
    match e case Fired(w) => w case Did(act) => act.w
  }

  /** An event leaves every other wakeup alone; a wakeup becomes due only by being armed for now or before. */
  lemma {:induction false} StepOnDue<W>(s: Timers<W>, e: Event<W>, now: int, w: W)
    requires WellFormed(s)
    ensures !(e.Did? && e.act.w == w) ==> (Due(Step(s, e), w, now) <==> Due(s, w, now) && e != Fired(w))
    ensures e.Did? && Later(e.act, now) && Due(Step(s, e), w, now) ==> Due(s, w, now)
  {
    MinusMembers(s.list, Subject(e));
  }

  // ----- Whole passes -------------------------------------------------------------------------------

  lemma {:induction false} AfterConcat<W>(s: Timers<W>, a: seq<Event<W>>, b: seq<Event<W>>)
    ensures After(s, a + b) == After(After(s, a), b)
  {
    if b == [] {
      assert a + b == a;
    } else {
      var n := |b| - 1;
      AfterConcat(s, a, b[..n]);
      assert (a + b)[..|a + b| - 1] == a + b[..n];
    }
  }

  lemma {:induction false} LegalConcat<W>(s: Timers<W>, a: seq<Event<W>>, b: seq<Event<W>>, now: int)
    ensures Legal(s, a + b, now) <==> Legal(s, a, now) && Legal(After(s, a), b, now)
  {
    if b == [] {
      assert a + b == a;
    } else {
      var n := |b| - 1;
      LegalConcat(s, a, b[..n], now);
      AfterConcat(s, a, b[..n]);
      assert (a + b)[..|a + b| - 1] == a + b[..n];
    }
  }

  lemma {:induction false} LegalPrefix<W>(s: Timers<W>, log: seq<Event<W>>, now: int, i: nat)
    requires Legal(s, log, now) && i <= |log|
    ensures Legal(s, log[..i], now)
    ensures i < |log| ==> Allowed(After(s, log[..i]), log[i], now)
  {
    if i < |log| {
      var n := |log| - 1;
      if i < n {
        LegalPrefix(s, log[..n], now, i);
        assert log[..n][..i] == log[..i];
      }
    } else {
      assert log[..i] == log;
    }
  }

  /** Nothing fires early, whatever the callbacks do: what fires is listed, set, and set to no later than now. */
  lemma {:induction false} FiresWhenDue<W>(s: Timers<W>, log: seq<Event<W>>, now: int, i: nat)
    requires Legal(s, log, now) && i < |log| && log[i].Fired?
    ensures Due(After(s, log[..i]), log[i].w, now) && NoneDueBefore(After(s, log[..i]), log[i].w, now)
  {
    LegalPrefix(s, log, now, i);
  }

  /** A wakeup armed only for later that is due after some events was due before them and has not fired. */
  lemma {:induction false} DueFromTheStart<W>(s: Timers<W>, log: seq<Event<W>>, now: int, w: W)
    requires WellFormed(s) && ArmedForLater(log, w, now) && Due(After(s, log), w, now)
    ensures Due(s, w, now)
    ensures Fired(w) !in log
  {
    if log != [] {
      var n := |log| - 1;
      AfterWellFormed(s, log[..n]);
      StepOnDue(After(s, log[..n]), log[n], now, w);
      DueFromTheStart(s, log[..n], now, w);
      NotInLonger(log, Fired(w));
    }
  }

  lemma {:induction false} NotInLonger<E>(log: seq<E>, e: E)
    requires log != [] && e !in log[..|log| - 1] && log[|log| - 1] != e
    ensures e !in log
  {
    assert log == log[..|log| - 1] + [log[|log| - 1]];
  }

  /** A wakeup armed only for later fires only if it was due when the pass began, and once. */
  lemma {:induction false} FiresOnTimeAndOnce<W>(s: Timers<W>, log: seq<Event<W>>, now: int, i: nat)
    requires WellFormed(s) && Legal(s, log, now) && i < |log| && log[i].Fired?
    requires ArmedForLater(log, log[i].w, now)
    ensures Due(s, log[i].w, now)
    ensures forall j :: 0 <= j < |log| && j != i ==> log[j] != log[i]
  {
    LegalPrefix(s, log, now, i);
    DueFromTheStart(s, log[..i], now, log[i].w);
    assert forall j :: 0 <= j < i ==> log[j] in log[..i];
    forall j | i < j < |log|
      ensures log[j] != log[i]
    {
      LegalPrefix(s, log, now, j);
      assert log[..j][i] == log[i];
      if log[j] == log[i] {
        DueFromTheStart(s, log[..j], now, log[i].w);
        assert false;
      }
    }
  }

  /** A due wakeup that is no longer due at the end fired, unless a callback armed or cancelled it. */
  lemma {:induction false} DueFires<W>(s: Timers<W>, log: seq<Event<W>>, now: int, w: W)
    requires WellFormed(s)
    requires Due(s, w, now) && !Due(After(s, log), w, now)
    requires forall i :: 0 <= i < |log| && log[i].Did? ==> log[i].act.w != w
    ensures Fired(w) in log
  {
    assert log != [];
    var n := |log| - 1;
    AfterWellFormed(s, log[..n]);
    StepOnDue(After(s, log[..n]), log[n], now, w);
    if Due(After(s, log[..n]), w, now) {
      assert log[n] == Fired(w);
    } else {
      assert forall i :: 0 <= i < n ==> log[..n][i] == log[i];
      DueFires(s, log[..n], now, w);
    }
  }

  /** What is due. */
  ghost function DueSet<W>(s: Timers<W>, now: int): set<W>
  {
    set w | w in s.list && Due(s, w, now)
  }

  /**
   * Where callbacks arm only for later, nothing becomes due, and what fires is not due any more: so
   * the restarts come to an end.
   */
  lemma {:induction false} DueShrinks<W>(s: Timers<W>, log: seq<Event<W>>, now: int)
    requires WellFormed(s) && Legal(s, log, now)
    requires forall i :: 0 <= i < |log| && log[i].Did? ==> Later(log[i].act, now)
    ensures DueSet(After(s, log), now) <= DueSet(s, now)
    ensures forall w :: Fired(w) in log ==> w in DueSet(s, now) && w !in DueSet(After(s, log), now)
  {
    forall w | w in DueSet(After(s, log), now)
      ensures w in DueSet(s, now) && Fired(w) !in log
    {
      DueFromTheStart(s, log, now, w);
    }
    forall i | 0 <= i < |log| && log[i].Fired?
      ensures log[i].w in DueSet(s, now)
    {
      FiresOnTimeAndOnce(s, log, now, i);
    }
  }

  function Dids<W>(acts: seq<Act<W>>): seq<Event<W>>
  {
    seq(|acts|, i requires 0 <= i < |acts| => Did(acts[i]))
  }

  /** The wakeups that fired in turn, each with what its callback did after it. */
  function Story<W>(fired: seq<W>, plan: nat -> seq<Act<W>>): seq<Event<W>>
  {
    if fired == [] then []
    else
      var n := |fired| - 1;
      Story(fired[..n], plan) + ([Fired(fired[n])] + Dids(plan(n)))
  }

  lemma {:induction false} DidsLegal<W>(s: Timers<W>, acts: seq<Act<W>>, now: int)
    ensures Legal(s, Dids(acts), now)
  {
    if acts != [] {
      var n := |acts| - 1;
      DidsLegal(s, acts[..n], now);
      assert Dids(acts)[..n] == Dids(acts[..n]);
    }
  }

  lemma {:induction false} OneMoreDid<W>(s: Timers<W>, acts: seq<Act<W>>, n: nat)
    requires n < |acts|
    ensures After(s, Dids(acts[..n + 1])) == Do(After(s, Dids(acts[..n])), acts[n])
  {
    assert Dids(acts[..n + 1])[..n] == Dids(acts[..n]);
  }

  /** One more wakeup fires, and its callback runs. */
  lemma {:induction false} StoryThen<W>(s: Timers<W>, fired: seq<W>, plan: nat -> seq<Act<W>>, w: W, now: int)
    requires Legal(s, Story(fired, plan), now) && Allowed(After(s, Story(fired, plan)), Fired(w), now)
    ensures Legal(s, Story(fired + [w], plan), now)
    ensures Legal(After(s, Story(fired, plan)), [Fired(w)] + Dids(plan(|fired|)), now)
    ensures After(s, Story(fired + [w], plan)) == After(Step(After(s, Story(fired, plan)), Fired(w)), Dids(plan(|fired|)))
    ensures After(s, Story(fired + [w], plan)) == After(After(s, Story(fired, plan)), [Fired(w)] + Dids(plan(|fired|)))
  {
    var before := After(s, Story(fired, plan));
    var dids := Dids(plan(|fired|));
    assert (fired + [w])[..|fired|] == fired;
    var one := [Fired(w)];
    assert one[..0] == [];
    DidsLegal(Step(before, Fired(w)), plan(|fired|), now);
    LegalConcat(before, one, dids, now);
    AfterConcat(before, one, dids);
    LegalConcat(s, Story(fired, plan), one + dids, now);
    AfterConcat(s, Story(fired, plan), one + dids);
  }

  /** If that callback arms only for later, fewer wakeups are due after it. */
  lemma {:induction false} FewerDue<W>(s: Timers<W>, w: W, acts: seq<Act<W>>, now: int)
    requires WellFormed(s) && Legal(s, [Fired(w)] + Dids(acts), now)
    requires forall i :: 0 <= i < |acts| ==> Later(acts[i], now)
    ensures DueSet(After(s, [Fired(w)] + Dids(acts)), now) < DueSet(s, now)
  {
    var log := [Fired(w)] + Dids(acts);
    assert forall i :: 0 <= i < |log| && log[i].Did? ==> log[i] == Did(acts[i - 1]);
    DueShrinks(s, log, now);
    assert log[0] == Fired(w);
  }

  lemma {:induction false} StoryFires<W>(fired: seq<W>, plan: nat -> seq<Act<W>>, w: W)
    ensures Fired(w) in Story(fired, plan) <==> w in fired
  {
    if fired != [] {
      var n := |fired| - 1;
      StoryFires(fired[..n], plan, w);
      assert fired == fired[..n] + [fired[n]];
    }
  }

  /** No callback of the first n arms or cancels w. */
  ghost predicate LeftAlone<W>(plan: nat -> seq<Act<W>>, n: nat, w: W)
  {
    forall k: nat, i :: k < n && 0 <= i < |plan(k)| ==> plan(k)[i].w != w
  }

  /** No callback of the first n arms w for now or before. */
  ghost predicate OnlyForLater<W>(plan: nat -> seq<Act<W>>, n: nat, w: W, now: int)
  {
    forall k: nat, i :: k < n && 0 <= i < |plan(k)| && plan(k)[i].w == w ==> Later(plan(k)[i], now)
  }

  lemma {:induction false} StoryLeavesAlone<W>(fired: seq<W>, plan: nat -> seq<Act<W>>, w: W)
    requires LeftAlone(plan, |fired|, w)
    ensures forall e :: e in Story(fired, plan) && e.Did? ==> e.act.w != w
  {
    if fired != [] {
      StoryLeavesAlone(fired[..|fired| - 1], plan, w);
    }
  }

  lemma {:induction false} StoryForLater<W>(fired: seq<W>, plan: nat -> seq<Act<W>>, w: W, now: int)
    requires OnlyForLater(plan, |fired|, w, now)
    ensures ArmedForLater(Story(fired, plan), w, now)
  {
    if fired != [] {
      var n := |fired| - 1;
      StoryForLater(fired[..n], plan, w, now);
      var before: seq<Event<W>>, last: seq<Event<W>> := Story(fired[..n], plan), [Fired(fired[n])] + Dids(plan(n));
      forall i | 0 <= i < |before + last| && (before + last)[i].Did? && (before + last)[i].act.w == w
        ensures Later((before + last)[i].act, now)
      {
        if i > |before| {
          assert (before + last)[i] == Did(plan(n)[i - |before| - 1]);
        }
      }
    }
  }

  /** Of the wakeups no callback touches, a call fires exactly those that were due, whatever it does to others. */
  lemma {:induction false} ExactlyTheDueFire<W>(s: Timers<W>, fired: seq<W>, plan: nat -> seq<Act<W>>, now: int, w: W)
    requires WellFormed(s) && Legal(s, Story(fired, plan), now) && !Due(After(s, Story(fired, plan)), w, now)
    requires LeftAlone(plan, |fired|, w)
    ensures w in fired <==> Due(s, w, now)
  {
    StoryFires(fired, plan, w);
    StoryLeavesAlone(fired, plan, w);
    FiresIffDue(s, Story(fired, plan), now, w);
  }

  /** A wakeup that no callback arms for now or before fires only if it was due when the call began. */
  lemma {:induction false} FiredWasDue<W>(s: Timers<W>, fired: seq<W>, plan: nat -> seq<Act<W>>, now: int, w: W)
    requires WellFormed(s) && Legal(s, Story(fired, plan), now) && w in fired
    requires OnlyForLater(plan, |fired|, w, now)
    ensures Due(s, w, now)
  {
    var story := Story(fired, plan);
    StoryFires(fired, plan, w);
    StoryForLater(fired, plan, w, now);
    var i :| 0 <= i < |story| && story[i] == Fired(w);
    FiresOnTimeAndOnce(s, story, now, i);
  }

  /** And it fires at most once. */
  lemma {:induction false} FiresAtMostOnce<W>(s: Timers<W>, fired: seq<W>, plan: nat -> seq<Act<W>>, now: int, i: nat, j: nat)
    requires WellFormed(s) && Legal(s, Story(fired, plan), now) && i < j < |fired|
    requires OnlyForLater(plan, |fired|, fired[i], now)
    ensures fired[i] != fired[j]
    decreases |fired|
  {
    StoryPrefix(s, fired, plan, now);
    if j < |fired| - 1 {
      FiresAtMostOnce(s, fired[..|fired| - 1], plan, now, i, j);
    } else {
      FiredIsNotDue(s, fired[..j], plan, now, fired[i]);
    }
  }

  /** What the last wakeup fired from. */
  lemma {:induction false} StoryPrefix<W>(s: Timers<W>, fired: seq<W>, plan: nat -> seq<Act<W>>, now: int)
    requires fired != [] && Legal(s, Story(fired, plan), now)
    ensures Legal(s, Story(fired[..|fired| - 1], plan), now)
    ensures Due(After(s, Story(fired[..|fired| - 1], plan)), fired[|fired| - 1], now)
  {
    var n := |fired| - 1;
    var before: seq<Event<W>>, last: seq<Event<W>> := Story(fired[..n], plan), [Fired(fired[n])] + Dids(plan(n));
    LegalConcat(s, before, last, now);
    LegalPrefix(After(s, before), last, now, 0);
    assert last[..0] == [];
  }

  lemma {:induction false} FiredIsNotDue<W>(s: Timers<W>, fired: seq<W>, plan: nat -> seq<Act<W>>, now: int, w: W)
    requires WellFormed(s) && w in fired && OnlyForLater(plan, |fired|, w, now)
    ensures !Due(After(s, Story(fired, plan)), w, now)
  {
    StoryFires(fired, plan, w);
    StoryForLater(fired, plan, w, now);
    if Due(After(s, Story(fired, plan)), w, now) {
      DueFromTheStart(s, Story(fired, plan), now, w);
      assert false;
    }
  }

  // ----- The list holds exactly the armed wakeups ----------------------------------------------------

  /** Every known wakeup is listed if and only if it is set. */
  ghost predicate ListedIffSet<W>(s: Timers<W>)
  {
    WellFormed(s) && forall w <- s.time.Keys :: w in s.list <==> s.time[w] != 0
  }

  lemma {:induction false} StepListedIffSet<W>(s: Timers<W>, e: Event<W>)
    requires ListedIffSet(s) && (e.Did? && e.act.Arm? ==> e.act.at > 0)
    ensures ListedIffSet(Step(s, e))
  {
    StepWellFormed(s, e);
    MinusMembers(s.list, Subject(e));
  }

  // ----- Arming for now -------------------------------------------------------------------------------

  /** A wakeup that fired and armed itself again is due again exactly when it did not arm for later. */
  lemma {:induction false} RearmedIsDueAgain<W>(s: Timers<W>, act: Act<W>, now: int)
    requires WellFormed(s) && now > 0 && Due(s, act.w, now)
    requires act.Arm? && Accepted(act) && act.at > 0
    ensures Due(Do(Step(s, Fired(act.w)), act), act.w, now) <==> !Later(act, now)
  {
    MinusMembers(s.list, act.w);
  }

  /**
   * Whatever happened in a scan before a call and whatever happens to other wakeups after it: the
   * call's wakeup fires after it exactly when the call arms it for no later than now, and then once.
   */
  lemma {:induction false} FiresAfterIff<W>(s: Timers<W>, a: seq<Event<W>>, act: Act<W>, b: seq<Event<W>>, now: int)
    requires WellFormed(s) && Legal(s, a + ([Did(act)] + b), now) && !Due(After(s, a + ([Did(act)] + b)), act.w, now)
    requires Accepted(act) && (act.Arm? ==> act.at > 0)
    requires forall i :: 0 <= i < |b| && b[i].Did? ==> b[i].act.w != act.w
    ensures Fired(act.w) in b <==> !Later(act, now)
    ensures forall i, j :: 0 <= i < j < |b| ==> !(b[i] == b[j] == Fired(act.w))
  {
    var s1 := After(s, a + [Did(act)]);
    ConcatAssociates(a, [Did(act)], b);
    LegalConcat(s, a + [Did(act)], b, now);
    AfterConcat(s, a + [Did(act)], b);
    AfterWellFormed(s, a + [Did(act)]);
    DueAfterCall(s, a, act, now);
    FiresIffDue(s1, b, now, act.w);
  }

  lemma {:induction false} DueAfterCall<W>(s: Timers<W>, a: seq<Event<W>>, act: Act<W>, now: int)
    requires WellFormed(s) && Accepted(act) && (act.Arm? ==> act.at > 0)
    ensures Due(After(s, a + [Did(act)]), act.w, now) <==> !Later(act, now)
  {
    assert (a + [Did(act)])[..|a|] == a;
    AfterWellFormed(s, a);
    MinusMembers(After(s, a).list, act.w);
  }

  /** A wakeup that no event arms or cancels fires if and only if it is due at first, and once. */
  lemma {:induction false} FiresIffDue<W>(s: Timers<W>, log: seq<Event<W>>, now: int, w: W)
    requires WellFormed(s) && Legal(s, log, now) && !Due(After(s, log), w, now)
    requires forall i :: 0 <= i < |log| && log[i].Did? ==> log[i].act.w != w
    ensures Fired(w) in log <==> Due(s, w, now)
    ensures forall i, j :: 0 <= i < j < |log| ==> !(log[i] == log[j] == Fired(w))
  {
    if Due(s, w, now) {
      DueFires(s, log, now, w);
    }
    forall i | 0 <= i < |log| && log[i] == Fired(w)
      ensures Due(s, w, now) && forall j :: 0 <= j < |log| && j != i ==> log[j] != log[i]
    {
      FiresOnTimeAndOnce(s, log, now, i);
    }
  }

  /** So there are scans in which a wakeup fires twice: here nothing else is due. */
  lemma {:induction false} FiresTwiceIff<W>(s: Timers<W>, act: Act<W>, now: int)
    requires WellFormed(s) && now > 0 && Due(s, act.w, now) && forall w :: Due(s, w, now) ==> w == act.w
    requires act.Arm? && Accepted(act) && act.at > 0
    ensures Legal(s, [Fired(act.w), Did(act), Fired(act.w)], now) <==> !Later(act, now)
  {
    var fire, arm := Fired(act.w), Did(act);
    RearmedIsDueAgain(s, act, now);
    OthersNotDue(s, act, now);
    ThreeEvents(s, fire, arm, fire, now);
  }

  lemma {:induction false} ThreeEvents<W>(s: Timers<W>, a: Event<W>, b: Event<W>, c: Event<W>, now: int)
    ensures Legal(s, [a, b, c], now) <==>
            Allowed(s, a, now) && Allowed(Step(s, a), b, now) && Allowed(Step(Step(s, a), b), c, now)
  {
    var none: seq<Event<W>> := [];
    assert [a, b, c][..2] == [a, b] && [a, b][..1] == [a] && [a][..0] == none;
    assert After(s, [a]) == Step(s, a);
    assert After(s, [a, b]) == Step(Step(s, a), b);
    assert Legal(s, [a], now) <==> Allowed(s, a, now);
    assert Legal(s, [a, b], now) <==> Allowed(s, a, now) && Allowed(Step(s, a), b, now);
  }

  lemma {:induction false} OthersNotDue<W>(s: Timers<W>, act: Act<W>, now: int)
    requires WellFormed(s) && forall w :: Due(s, w, now) ==> w == act.w
    ensures forall w :: Due(Do(Step(s, Fired(act.w)), act), w, now) ==> w == act.w
    ensures NoneDueBefore(s, act.w, now) && NoneDueBefore(Do(Step(s, Fired(act.w)), act), act.w, now)
  {
    var s1 := Step(s, Fired(act.w));
    StepWellFormed(s, Fired(act.w));
    forall w | Due(Do(s1, act), w, now) && w != act.w
      ensures false
    {
      StepOnDue(s, Fired(act.w), now, w);
      StepOnDue(s1, Did(act), now, w);
    }
  }
}
