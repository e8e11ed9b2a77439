// The activity list of one DSO connection, edited through its links (DSO/dso.c:131-139 and 392-519).

module DsoActivities {
  import opened Bytes
  import opened DsoLifecycle
  import opened Lists

  /** dso_activity_t. */
  class ActivityNode {
    const value: Activity
    var next: ActivityNode?

    constructor (value: Activity)
      ensures this.value == value && next == null
    {
      this.value, next := value, null;
    }
  }

  function Values(s: seq<ActivityNode>): (r: seq<Activity>)
    ensures |r| == |s| && forall i :: 0 <= i < |s| ==> r[i] == s[i].value
  {
    seq(|s|, i requires 0 <= i < |s| => s[i].value)
  }

  ghost predicate NextIs(s: seq<ActivityNode>, i: nat)
    requires i < |s|
    reads s
  {
    s[i].next == if i + 1 < |s| then s[i + 1] else null
  }

  class ActivityList {
    var activities: ActivityNode?
    ghost var nodes: seq<ActivityNode>

    /** The links lead through the nodes, and an address stands for one node. */
    ghost predicate Valid()
      reads this, nodes
    {
      && (activities == if nodes == [] then null else nodes[0])
      && (forall i :: 0 <= i < |nodes| ==> NextIs(nodes, i))
      && (forall i, j :: 0 <= i < j < |nodes| ==> nodes[i].value.address != nodes[j].value.address)
    }

    constructor ()
      ensures Valid() && nodes == []
    {
      activities, nodes := null, [];
    }

    /** dso_find_activity: the first activity that is like what is sought; without a name or a context none is. */
    method Find(kind: string, name: Option<string>, context: nat) returns (found: ActivityNode?, ghost i: nat)
      requires Valid()
      ensures i <= |nodes| && found == (if i < |nodes| then nodes[i] else null)
      ensures i < |nodes| ==> Finds(nodes[i].value, kind, name, context)
      ensures forall k :: 0 <= k < i ==> !Finds(nodes[k].value, kind, name, context)
      ensures found != null ==>
                found.value.kind == kind
                && if name.Some? then found.value.name == name else context != 0 && found.value.context == context
      ensures found == null && name == None && context != 0 ==>
                forall k :: 0 <= k < |nodes| ==> nodes[k].value.kind != kind || nodes[k].value.context != context
      ensures found == null && name.Some? ==>
                forall k :: 0 <= k < |nodes| ==> nodes[k].value.kind != kind || nodes[k].value.name != name
    {
      if name == None && context == 0 {
        return null, |nodes|;
      }
      found, i := activities, 0;
      while found != null
        invariant i <= |nodes| && found == (if i < |nodes| then nodes[i] else null)
        invariant forall k :: 0 <= k < i ==> !Finds(nodes[k].value, kind, name, context)
        decreases |nodes| - i
      {
        var a := found.value;
        if a.kind == kind && (if name.Some? then a.name == name else a.context == context) {
          return;
        }
        assert NextIs(nodes, i);
        found := found.next;
        i := i + 1;
      }
    }

    /** dso_add_activity, for an activity with an address not on the list. */
    method Add(a: Activity) returns (added: ActivityNode?)
      requires Valid() && forall i :: 0 <= i < |nodes| ==> nodes[i].value.address != a.address
      modifies this
      ensures Valid() && Values(nodes) == WithAdded(old(Values(nodes)), a)
      ensures added == null <==> nodes == old(nodes)
      ensures added != null ==> fresh(added) && nodes == [added] + old(nodes)
    {
      var found;
      ghost var i;
      found, i := Find(a.kind, a.name, a.context);
      if found != null {
        assert Finds(Values(nodes)[i], a.kind, a.name, a.context);
        return null;
      }
      ghost var before := nodes;
      var node := new ActivityNode(a);
      node.next := activities;
      activities := node;
      nodes := [node] + nodes;
      forall k | 0 <= k < |nodes|
        ensures NextIs(nodes, k)
      {
        assert k > 0 ==> old(NextIs(before, k - 1));
      }
      assert Values(nodes) == [a] + Values(before);
      return node;
    }

    /**
     * dso_drop_activity. The first link to the activity is pointed past it; the activity is
     * finalized whether or not it was on the list.
     */
    method Drop(node: ActivityNode) returns (matched: bool, finalized: bool)
      requires Valid()
      modifies this, nodes
      ensures Valid() && finalized == node.value.finalizer
      ensures matched <==> node in old(nodes)
      ensures matched ==> Values(nodes) == WithoutAddress(old(Values(nodes)), node.value.address) && node !in nodes
      ensures !matched ==> nodes == old(nodes)
    {
      var p: ActivityNode?, cur := null, activities;
      ghost var i := 0;
      while cur != null && cur != node
        invariant i <= |nodes| && cur == (if i < |nodes| then nodes[i] else null)
        invariant p == if i == 0 then null else nodes[i - 1]
        invariant node !in nodes[..i]
        decreases |nodes| - i
      {
        assert NextIs(nodes, i);
        p := cur;
        cur := cur.next;
        i := i + 1;
      }
      matched, finalized := cur != null, node.value.finalizer;
      if matched {
        WithoutAddressAt(Values(nodes), i);
        Unlink(p, node, i);
      } else {
        assert nodes[..i] == nodes;
      }
    }

    /** Points the link before position i past it. */
    method Unlink(p: ActivityNode?, node: ActivityNode, ghost i: nat)
      requires Valid() && i < |nodes| && node == nodes[i] && p == if i == 0 then null else nodes[i - 1]
      modifies this, if p == null then {} else {p}
      ensures Valid() && nodes == Without(old(nodes), i) && node !in nodes
    {
      assert NextIs(nodes, i);
      if p == null {
        activities := node.next;
      } else {
        p.next := node.next;
      }
      ghost var before := nodes;
      nodes := Without(nodes, i);
      forall k | 0 <= k < |nodes|
        ensures NextIs(nodes, k)
      {
        assert old(NextIs(before, if k < i then k else k + 1));
      }
    }

    /** The first loop of dso_idle: every activity's finalizer, in list order. */
    method FinalizeAll() returns (events: seq<Event>)
      requires Valid()
      ensures events == ActivityEvents(Values(nodes))
    {
      events := [];
      var cur := activities;
      ghost var i, all := 0, Values(nodes);
      while cur != null
        invariant i <= |nodes| && cur == (if i < |nodes| then nodes[i] else null)
        invariant events == ActivityEvents(all[..i])
        decreases |nodes| - i
      {
        assert NextIs(nodes, i) && all[..i + 1][..i] == all[..i];
        EmptyConcat([], events);
        if cur.value.finalizer {
          events := events + [ActivityFinalized(cur.value.address)];
        }
        cur := cur.next;
        i := i + 1;
      }
      assert all[..i] == all;
    }
  }

  /** Among distinct addresses, leaving one out by its address is leaving it out by its position. */
  lemma {:induction false} WithoutAddressAt(activities: seq<Activity>, i: nat)
    requires i < |activities|
    requires forall j, k :: 0 <= j < k < |activities| ==> activities[j].address != activities[k].address
    ensures WithoutAddress(activities, activities[i].address) == Without(activities, i)
  {
    if i > 0 {
      WithoutAddressAt(activities[1..], i - 1);
      assert Without(activities, i) == [activities[0]] + Without(activities[1..], i - 1);
    }
  }
}
