// The linked list of wakeups and the timer part of ioloop_events
// (ServiceRegistration/ioloop.c:208-227, 264-289, 344-379).

module WakeupList {
  import opened Lists
  import opened WakeupTimers

  const INT64_MAX: int := 0x7fff_ffff_ffff_ffff

  /** wakeup_t; the callback is what the plan of a run says it does. */
  class Wakeup {
    var next: Wakeup?
    var time: int

    constructor ()
      ensures next == null && time == 0
    {
      next, time := null, 0;
    }
  }

  ghost predicate NextIs(s: seq<Wakeup>, i: nat)
    requires i < |s|
    reads s`next
  {
    s[i].next == if i + 1 < |s| then s[i + 1] else null
  }

  ghost predicate Linked(head: Wakeup?, s: seq<Wakeup>)
    reads s`next
  {
    && (head == if s == [] then null else s[0])
    && forall i :: 0 <= i < |s| ==> NextIs(s, i)
  }

  /** p is the link's owner before position i, and cur what it leads to. */
  ghost predicate AtPosition(s: seq<Wakeup>, p: Wakeup?, cur: Wakeup?, i: nat)
  {
    && i <= |s|
    && p == (if i == 0 then null else s[i - 1])
    && cur == (if i < |s| then s[i] else null)
  }

  /** Walks to a wakeup or to the end. */
  method Find(head: Wakeup?, w: Wakeup, ghost s: seq<Wakeup>) returns (p: Wakeup?, cur: Wakeup?, ghost i: nat)
    requires Linked(head, s)
    ensures AtPosition(s, p, cur, i) && i == IndexOf(s, w)
  {
    p, cur, i := null, head, 0;
    while cur != null && cur != w
      invariant AtPosition(s, p, cur, i)
      invariant forall k :: 0 <= k < i ==> s[k] != w
      decreases |s| - i
    {
      assert NextIs(s, i);
      p := cur;
      cur := cur.next;
      i := i + 1;
    }
  }

  /** Points the link before a wakeup past it; the wakeup keeps its own link. */
  method Unlink(head: Wakeup?, p: Wakeup?, cur: Wakeup, ghost s: seq<Wakeup>, ghost i: nat) returns (head': Wakeup?)
    requires Linked(head, s) && Distinct(s) && AtPosition(s, p, cur, i) && i < |s|
    modifies (if p == null then {} else {p})`next
    ensures cur.next == old(cur.next) && Linked(head', Without(s, i))
    ensures AtPosition(Without(s, i), p, cur.next, i)
  {
    assert NextIs(s, i);
    head' := head;
    if p == null {
      head' := cur.next;
    } else {
      p.next := cur.next;
    }
    ghost var s' := Without(s, i);
    forall k | 0 <= k < |s'|
      ensures NextIs(s', k)
    {
      assert old(NextIs(s, if k < i then k else k + 1));
    }
  }

  method Append(head: Wakeup?, p: Wakeup?, w: Wakeup, ghost s: seq<Wakeup>) returns (head': Wakeup?)
    requires Linked(head, s) && Distinct(s) && AtPosition(s, p, null, |s|) && w !in s
    modifies (if p == null then {} else {p})`next, w`next
    ensures Linked(head', s + [w])
  {
    head' := head;
    if p == null {
      head' := w;
    } else {
      p.next := w;
    }
    w.next := null;
    forall k | 0 <= k < |s + [w]|
      ensures NextIs(s + [w], k)
    {
      assert k < |s| ==> old(NextIs(s, k));
    }
  }

  /** The next event is the earliest of the listed times and the limit. */
  ghost predicate IsEarliest(next: int, s: seq<Wakeup>, limit: int)
    reads s`time
  {
    && next <= limit
    && (forall k :: 0 <= k < |s| ==> next <= s[k].time)
    && (next == limit || exists k :: 0 <= k < |s| && s[k].time == next)
  }

  /** All are set to later than now. */
  ghost predicate NotYet(s: seq<Wakeup>, now: int)
    reads s`time
  {
    forall k :: 0 <= k < |s| ==> s[k].time != 0 && s[k].time > now
  }

  lemma {:induction false} EarliestOfMore(next: int, s: seq<Wakeup>, w: Wakeup, limit: int, now: int)
    requires IsEarliest(next, s, limit) && NotYet(s, now) && w.time != 0 && w.time > now
    ensures IsEarliest(if w.time < next then w.time else next, s + [w], limit) && NotYet(s + [w], now)
  {
    if w.time < next {
      assert (s + [w])[|s|].time == w.time;
    } else if next != limit {
      var k :| 0 <= k < |s| && s[k].time == next;
      assert (s + [w])[k].time == next;
    }
  }

  class EventLoop {
    var wakeups: Wakeup?
    ghost var listed: seq<Wakeup>
    ghost var times: map<Wakeup, int>
    ghost var all: set<Wakeup>

    /** The list and its links. */
    ghost predicate Chained()
      reads this, all`next
    {
      && (forall k :: 0 <= k < |listed| ==> listed[k] in all)
      && Distinct(listed)
      && Linked(wakeups, listed)
    }

    ghost predicate Timed()
      reads this, all`time
    {
      times.Keys == all && forall w :: w in all ==> times[w] == w.time
    }

    /** Every known wakeup is listed if and only if it is set. */
    ghost predicate Valid()
      reads this, all
    {
      Chained() && Timed() && ListedIffSet(State())
    }

    ghost function State(): Timers<Wakeup>
      reads this
    {
      Timers(listed, times)
    }

    constructor ()
      ensures Valid() && State() == Timers([], map[])
    {
      wakeups, listed, times, all := null, [], map[], {};
    }

    /** ioloop_wakeup_create. */
    method Create() returns (w: Wakeup)
      requires Valid()
      modifies this`all, this`times
      ensures Valid() && fresh(w) && all == old(all) + {w}
      ensures State() == Timers(old(State()).list, old(State()).time[w := 0])
    {
      w := new Wakeup();
      all, times := all + {w}, times[w := 0];
    }

    /** Takes the wakeup at a position off the list. */
    method TakeOff(p: Wakeup?, cur: Wakeup, ghost i: nat)
      requires Chained() && AtPosition(listed, p, cur, i) && i < |listed|
      modifies this`wakeups, this`listed, all`next
      ensures Chained() && listed == Without(old(listed), i) && cur !in listed
    {
      WithoutIsDistinct(listed, i);
      WithoutMembers(listed, i);
      wakeups := Unlink(wakeups, p, cur, listed, i);
      listed := Without(listed, i);
    }

    method AddRemove(w: Wakeup, remove: bool)
      requires Chained() && w in all
      modifies this`wakeups, this`listed, all`next
      ensures Chained()
      ensures listed == if remove then Minus(old(listed), w) else if w in old(listed) then old(listed) else old(listed) + [w]
    {
      var p, cur;
      ghost var i;
      p, cur, i := Find(wakeups, w, listed);
      if remove {
        if cur != null {
          TakeOff(p, cur, i);
          w.next := null;
        }
      } else {
        if cur == null {
          wakeups := Append(wakeups, p, w, listed);
          listed := listed + [w];
        }
      }
    }

    method SetTime(w: Wakeup, time: int)
      requires Chained() && Timed() && w in all
      modifies this`times, w`time
      ensures Chained() && Timed() && times == old(times)[w := time]
    {
      w.time := time;
      times := times[w := time];
    }

    /** ioloop_add_wake_event when the clock shows `at`. */
    method AddWakeEvent(w: Wakeup, hasCallback: bool, ms: int, at: int) returns (ok: bool)
      requires Valid() && w in all && at > 0
      modifies this`wakeups, this`listed, this`times, all
      ensures Valid() && (ok <==> hasCallback && ms >= 0)
      ensures State() == Do(old(State()), Arm(w, hasCallback, ms, at))
      ensures ok ==> times == old(times)[w := at + ms]
                     && listed == if w in old(listed) then old(listed) else old(listed) + [w]
      ensures !ok ==> State() == old(State())
    {
      if !hasCallback || ms < 0 {
        return false;
      }
      StepListedIffSet(State(), Did(Arm(w, hasCallback, ms, at)));
      AddRemove(w, false);
      SetTime(w, at + ms);
      ok := true;
    }

    /** ioloop_cancel_wake_event. */
    method CancelWakeEvent(w: Wakeup)
      requires Valid() && w in all
      modifies this`wakeups, this`listed, this`times, all
      ensures Valid() && State() == Do(old(State()), Disarm(w))
      ensures times == old(times)[w := 0] && w !in listed
    {
      StepListedIffSet(State(), Did(Disarm(w)));
      AddRemove(w, true);
      SetTime(w, 0);
    }

    /** A due wakeup comes off the list and is not set any more, before its callback is called. */
    method Fire(p: Wakeup?, cur: Wakeup, ghost i: nat)
      requires Valid() && AtPosition(listed, p, cur, i) && i < |listed|
      modifies this`wakeups, this`listed, this`times, all
      ensures Valid() && State() == Step(old(State()), Fired(cur))
    {
      StepListedIffSet(State(), Fired(cur));
      assert IndexOf(listed, cur) == i;
      TakeOff(p, cur, i);
      SetTime(cur, 0);
    }

    /** Walks up to the first wakeup that is due, if there is one, and notes the earliest time on the way. */
    method Walk(now: int, limit: int) returns (p: Wakeup?, due: Wakeup?, next: int, ghost i: nat)
      requires Valid()
      ensures AtPosition(listed, p, due, i) && i <= |listed| && NotYet(listed[..i], now)
      ensures due != null ==> due.time != 0 && due.time <= now
      ensures due == null ==> IsEarliest(next, listed[..i], limit)
    {
      p, due, next, i := null, wakeups, limit, 0;
      while due != null
        invariant AtPosition(listed, p, due, i)
        invariant NotYet(listed[..i], now) && IsEarliest(next, listed[..i], limit)
        decreases |listed| - i
      {
        TakeOneMore(listed, i);
        assert NextIs(listed, i);
        assert times[due] == due.time;
        if due.time != 0 {
          if due.time <= now {
            return;
          }
          EarliestOfMore(next, listed[..i], due, limit, now);
          if due.time < next {
            next := due.time;
          }
          p, due, i := due, due.next, i + 1;
        } else {
          // Whatever is listed is set.
          assert false;
        }
      }
    }

    /** One pass over the list, up to the first wakeup that is due. */
    method Pass(now: int, limit: int) returns (due: Wakeup?, next: int)
      requires Valid()
      modifies this`wakeups, this`listed, this`times, all
      ensures Valid() && all == old(all)
      ensures due != null ==> Allowed(old(State()), Fired(due), now) && State() == Step(old(State()), Fired(due))
      ensures due == null ==> State() == old(State()) && NotYet(listed, now) && IsEarliest(next, listed, limit)
    {
      var p;
      ghost var i;
      p, due, next, i := Walk(now, limit);
      if due != null {
        assert IndexOf(listed, due) == i;
        forall k | 0 <= k < i
          ensures !Due(State(), listed[k], now)
        {
          assert listed[..i][k] == listed[k];
        }
        Fire(p, due, i);
      } else {
        assert listed[..i] == listed;
      }
    }

    method CallOne(act: Act<Wakeup>)
      requires Valid() && act.w in all && (act.Arm? ==> act.at > 0)
      modifies this`wakeups, this`listed, this`times, all
      ensures Valid() && State() == Do(old(State()), act)
    {
      match act {
        case Arm(w, hasCallback, ms, at) =>
          var ok := AddWakeEvent(w, hasCallback, ms, at);
        case Disarm(w) =>
          CancelWakeEvent(w);
      }
    }

    /** What a callback does, one call after another. */
    method Call(acts: seq<Act<Wakeup>>)
      requires Valid() && forall i :: 0 <= i < |acts| ==> acts[i].w in all && (acts[i].Arm? ==> acts[i].at > 0)
      modifies this`wakeups, this`listed, this`times, all
      ensures Valid() && State() == After(old(State()), Dids(acts))
    {
      ghost var start := State();
      var n := 0;
      while n < |acts|
        invariant 0 <= n <= |acts| && Valid() && State() == After(start, Dids(acts[..n]))
      {
        OneMoreDid(start, acts, n);
        CallOne(acts[n]);
        n := n + 1;
      }
      assert acts[..n] == acts;
    }

    /** The first wakeup that is due fires, and its callback runs. */
    method FireOne(now: int, limit: int, plan: nat -> seq<Act<Wakeup>>, nev: nat, ghost m: nat,
                   ghost fired: seq<Wakeup>, ghost start: Timers<Wakeup>)
      returns (due: Wakeup?, next: int)
      requires Valid() && Obeys(plan, all, now, m) && nev == |fired|
      requires Legal(start, Story(fired, plan), now) && State() == After(start, Story(fired, plan))
      modifies this`wakeups, this`listed, this`times, all
      ensures Valid()
      ensures due == null ==> State() == old(State()) && NotYet(listed, now) && IsEarliest(next, listed, limit)
      ensures due != null ==> Legal(start, Story(fired + [due], plan), now) && State() == After(start, Story(fired + [due], plan))
      ensures due != null && nev >= m ==> DueSet(State(), now) < DueSet(old(State()), now)
    {
      due, next := Pass(now, limit);
      if due != null {
        Call(plan(nev));
        StoryThen(start, fired, plan, due, now);
        if nev >= m {
          FewerDue(After(start, Story(fired, plan)), due, plan(nev), now);
        }
      }
    }

    /**
     * The timer part of ioloop_events at time now; plan(k) is what the callback called k-th does.
     * The first m callbacks may arm wakeups for now; then the clock has moved on.
     */
    method RunTimers(now: int, timeoutWhen: int, plan: nat -> seq<Act<Wakeup>>, ghost m: nat)
      returns (next: int, nev: nat, ghost fired: seq<Wakeup>)
      requires Valid() && Obeys(plan, all, now, m)
      modifies this`wakeups, this`listed, this`times, all
      ensures Valid() && nev == |fired|
      ensures Legal(old(State()), Story(fired, plan), now) && State() == After(old(State()), Story(fired, plan))
      ensures NotYet(listed, now) && IsEarliest(next, listed, if timeoutWhen == 0 then 0x7fff_ffff_ffff_ffff else timeoutWhen)
    {
      var limit := if timeoutWhen == 0 then INT64_MAX else timeoutWhen;
      nev, fired := 0, [];
      while true
        invariant Valid() && nev == |fired|
        invariant Legal(old(State()), Story(fired, plan), now) && State() == After(old(State()), Story(fired, plan))
        decreases if nev < m then m - nev else 0, DueSet(State(), now)
      {
        var due;
        due, next := FireOne(now, limit, plan, nev, m, fired, old(State()));
        if due == null {
          return;
        }
        nev, fired := nev + 1, fired + [due];
      }
    }
  }

  /**
   * The callbacks know only these wakeups and read a clock past 0, and from the m-th on, when that
   * clock has passed now, they arm only for later.
   */
  ghost predicate Obeys(plan: nat -> seq<Act<Wakeup>>, all: set<Wakeup>, now: int, m: nat)
  {
    forall k: nat, i :: 0 <= i < |plan(k)| ==>
      && plan(k)[i].w in all && (plan(k)[i].Arm? ==> plan(k)[i].at > 0)
      && (k >= m ==> Later(plan(k)[i], now))
  }
}
