// The linked list behind ioloop_map_interface_addresses_here_ and its surgery
// (ServiceRegistration/posix.c:49-309, as built for Linux).

module InterfaceList {
  import opened Bytes
  import opened InterfaceDiff
  import opened Lists

  /** interface_address_state_t. */
  class Node {
    const item: Item
    var next: Node?

    constructor (item: Item)
      ensures this.item == item && next == null
    {
      this.item, next := item, null;
    }
  }

  function Items(s: seq<Node>): (r: seq<Item>)
    ensures |r| == |s|
    ensures forall i :: 0 <= i < |s| ==> r[i] == s[i].item
  {
    seq(|s|, i requires 0 <= i < |s| => s[i].item)
  }

  lemma {:induction false} ItemsConcat(a: seq<Node>, b: seq<Node>)
    ensures Items(a + b) == Items(a) + Items(b)
  {
  }

  /** Moving the node with the key to the kept ones is what seeing a known item does. */
  lemma {:induction false} SeeKnown(rest: seq<Node>, kept: seq<Node>, added: seq<Node>, i: nat, item: Item)
    requires i < |rest| && i == FindKey(Items(rest), item.key)
    ensures Scan(Items(Without(rest, i)), Items(kept + [rest[i]]), Items(added))
         == See(Scan(Items(rest), Items(kept), Items(added)), item)
  {
    assert Items(Without(rest, i)) == Items(rest)[..i] + Items(rest)[i + 1..];
    assert Items(kept + [rest[i]]) == Items(kept) + [Items(rest)[i]];
  }

  ghost predicate NextIs(s: seq<Node>, i: nat)
    requires i < |s|
    reads s
  {
    s[i].next == if i + 1 < |s| then s[i + 1] else null
  }

  /** head starts a chain of links through exactly the nodes of s. */
  ghost predicate Linked(head: Node?, s: seq<Node>)
    reads s
  {
    && (head == if s == [] then null else s[0])
    && forall i :: 0 <= i < |s| ==> NextIs(s, i)
  }

  ghost function AsSet(s: seq<Node>): set<Node>
  {
    set x | x in s
  }

  ghost predicate Apart(a: seq<Node>, b: seq<Node>)
  {
    forall x :: x in a ==> x !in b
  }

  /** Walks to the first node with the key; p is the one before it. */
  method Find(head: Node?, key: Key, ghost s: seq<Node>) returns (p: Node?, found: Node?, ghost i: nat)
    requires Linked(head, s)
    ensures i == FindKey(Items(s), key) && i <= |s|
    ensures found == (if i < |s| then s[i] else null) && p == (if i == 0 then null else s[i - 1])
  {
    p, found, i := null, head, 0;
    while found != null && found.item.key != key
      invariant i <= |s| && found == (if i < |s| then s[i] else null)
      invariant p == if i == 0 then null else s[i - 1]
      invariant forall k :: 0 <= k < i ==> s[k].item.key != key
      decreases |s| - i
    {
      assert NextIs(s, i);
      p := found;
      found := found.next;
      i := i + 1;
    }
    FirstKey(Items(s), key, i);
  }

  /** Unlinks a node by the link that leads to it. */
  method Unlink(head: Node?, p: Node?, found: Node, ghost s: seq<Node>, ghost i: nat) returns (rest: Node?)
    requires Linked(head, s) && Distinct(s)
    requires i < |s| && found == s[i] && p == if i == 0 then null else s[i - 1]
    modifies (if p == null then {} else {p}) + {found}
    ensures found.next == null && Linked(rest, Without(s, i))
  {
    assert NextIs(s, i);
    rest := head;
    if p == null {
      rest := found.next;
    } else {
      p.next := found.next;
    }
    found.next := null;
    ghost var s' := Without(s, i);
    forall k | 0 <= k < |s'|
      ensures NextIs(s', k)
    {
      assert old(NextIs(s, if k < i then k else k + 1));
    }
  }

  /** others has the nodes of s except x. */
  ghost predicate IsWithout(s: seq<Node>, others: seq<Node>, x: Node)
  {
    && x in s && x !in others
    && (forall y :: y in others ==> y in s)
    && (forall y :: y in s ==> y in others || y == x)
  }

  /** Unlinks the first node with the key. */
  method Take(head: Node?, key: Key, ghost s: seq<Node>) returns (rest: Node?, found: Node?, ghost i: nat)
    requires Linked(head, s) && Distinct(s)
    modifies s
    ensures i == FindKey(Items(s), key)
    ensures found == null <==> i == |s|
    ensures found == null ==> rest == head && Linked(head, s)
    ensures found != null ==> found == s[i] && found.next == null && Linked(rest, Without(s, i))
    ensures found != null ==> Distinct(Without(s, i)) && IsWithout(s, Without(s, i), found)
  {
    var p;
    p, found, i := Find(head, key, s);
    rest := head;
    if found != null {
      WithoutIsDistinct(s, i);
      WithoutMembers(s, i);
      rest := Unlink(head, p, found, s, i);
    }
  }

  lemma {:induction false} FirstKey(items: seq<Item>, key: Key, i: nat)
    requires i <= |items| && forall k :: 0 <= k < i ==> items[k].key != key
    requires i < |items| ==> items[i].key == key
    ensures FindKey(items, key) == i
  {
    var f := FindKey(items, key);
  }

  /** Links a node after the last one. */
  method Append(head: Node?, last: Node?, node: Node, ghost s: seq<Node>) returns (head': Node?)
    requires Linked(head, s) && Distinct(s) && node !in s && node.next == null
    requires Ends(last, s)
    modifies if last == null then {} else {last}
    ensures Linked(head', s + [node])
  {
    ghost var s' := s + [node];
    if last == null {
      head' := node;
    } else {
      head' := head;
      last.next := node;
    }
    forall k | 0 <= k < |s'|
      ensures NextIs(s', k)
    {
      if k < |s| {
        assert old(NextIs(s, k));
      }
    }
  }

  lemma {:induction false} StillApart(rest: seq<Node>, others: seq<Node>, x: Node, a: seq<Node>, b: seq<Node>)
    requires IsWithout(rest, others, x) && Apart(rest, a) && Apart(rest, b)
    ensures Apart(others, a) && Apart(others, b) && x !in a && x !in b
  {
  }

  /** The last node of a chain. */
  ghost predicate Ends(end: Node?, s: seq<Node>)
  {
    end == if s == [] then null else s[|s| - 1]
  }

  /** Three chains with no node in common: the known addresses not seen yet, the kept and the new ones. */
  ghost predicate Three(rest: Node?, r: seq<Node>, kept: Node?, keptEnd: Node?, k: seq<Node>,
                        added: Node?, addedEnd: Node?, a: seq<Node>)
    reads r, k, a
  {
    && Linked(rest, r) && Linked(kept, k) && Linked(added, a) && Ends(keptEnd, k) && Ends(addedEnd, a)
    && Distinct(r) && Distinct(k) && Distinct(a) && Apart(r, k) && Apart(r, a) && Apart(k, a)
  }

  /** Take leaves two chains of other nodes linked as they were. */
  method TakeBeside(head: Node?, key: Key, ghost s: seq<Node>,
                    ghost a: Node?, ghost as_: seq<Node>, ghost b: Node?, ghost bs: seq<Node>)
    returns (rest: Node?, found: Node?, ghost i: nat)
    requires Linked(head, s) && Distinct(s)
    requires Linked(a, as_) && Linked(b, bs) && Apart(s, as_) && Apart(s, bs)
    modifies s
    ensures i == FindKey(Items(s), key)
    ensures found == null <==> i == |s|
    ensures found == null ==> rest == head && Linked(head, s)
    ensures found != null ==> found == s[i] && found.next == null && Linked(rest, Without(s, i))
    ensures found != null ==> Distinct(Without(s, i)) && IsWithout(s, Without(s, i), found)
    ensures Linked(a, as_) && Linked(b, bs)
  {
    rest, found, i := Take(head, key, s);
    forall k | 0 <= k < |as_|
      ensures NextIs(as_, k)
    {
      assert as_[k] !in s && old(NextIs(as_, k));
    }
    forall k | 0 <= k < |bs|
      ensures NextIs(bs, k)
    {
      assert bs[k] !in s && old(NextIs(bs, k));
    }
  }

  /** Unlinks the first known node with the key; the other chains are untouched. */
  method TakeKnown(rest: Node?, key: Key, ghost r: seq<Node>, ghost kept: Node?, ghost keptEnd: Node?, ghost k: seq<Node>,
                   ghost added: Node?, ghost addedEnd: Node?, ghost a: seq<Node>)
    returns (rest': Node?, found: Node?, ghost i: nat)
    requires Three(rest, r, kept, keptEnd, k, added, addedEnd, a)
    modifies r
    ensures i == FindKey(Items(r), key) && (found == null <==> i == |r|)
    ensures found == null ==> Three(rest', r, kept, keptEnd, k, added, addedEnd, a)
    ensures found != null ==> found == r[i] && found.next == null && IsWithout(r, Without(r, i), found)
                              && Three(rest', Without(r, i), kept, keptEnd, k, added, addedEnd, a)
                              && found !in k && found !in a
  {
    rest', found, i := TakeBeside(rest, key, r, kept, k, added, a);
    if found != null {
      StillApart(r, Without(r, i), found, k, a);
    }
  }

  /** Links a node after the last one of a chain, which leaves two others as they were. */
  method AppendBeside(head: Node?, last: Node?, node: Node, ghost s: seq<Node>,
                      ghost x: Node?, ghost xs: seq<Node>, ghost y: Node?, ghost ys: seq<Node>)
    returns (head': Node?)
    requires Linked(head, s) && Distinct(s) && Ends(last, s) && node !in s && node.next == null
    requires Linked(x, xs) && Linked(y, ys) && Apart(xs, s) && Apart(ys, s) && node !in xs && node !in ys
    modifies if last == null then {} else {last}
    ensures Linked(head', s + [node]) && Distinct(s + [node]) && Ends(node, s + [node])
    ensures Linked(x, xs) && Linked(y, ys) && Apart(xs, s + [node]) && Apart(ys, s + [node])
  {
    assert last != null ==> last in s;
    head' := Append(head, last, node, s);
    assert (s + [node])[..|s|] == s;
    DistinctMore(s + [node]);
    forall k | 0 <= k < |xs|
      ensures NextIs(xs, k)
    {
      assert xs[k] in xs && old(NextIs(xs, k));
    }
    forall k | 0 <= k < |ys|
      ensures NextIs(ys, k)
    {
      assert ys[k] in ys && old(NextIs(ys, k));
    }
  }

  lemma {:induction false} ApartTurns(a: seq<Node>, b: seq<Node>)
    requires Apart(a, b)
    ensures Apart(b, a)
  {
  }

  /** The three chains of a scan. */
  class Scanner {
    var rest: Node?
    var kept: Node?
    var keptEnd: Node?
    var added: Node?
    var addedEnd: Node?
    ghost var restNodes: seq<Node>
    ghost var keptNodes: seq<Node>
    ghost var addedNodes: seq<Node>
    ghost var repr: set<Node>

    ghost predicate Valid()
      reads this, restNodes, keptNodes, addedNodes
    {
      && Three(rest, restNodes, kept, keptEnd, keptNodes, added, addedEnd, addedNodes)
      && AsSet(restNodes) + AsSet(keptNodes) + AsSet(addedNodes) <= repr
    }

    ghost function Value(): Scan
      reads this
    {
      Scan(Items(restNodes), Items(keptNodes), Items(addedNodes))
    }

    constructor (head: Node?, ghost nodes: seq<Node>, ghost all: set<Node>)
      requires Linked(head, nodes) && Distinct(nodes) && AsSet(nodes) <= all
      ensures Valid() && Value() == Scan(Items(nodes), [], [])
      ensures restNodes == nodes && keptNodes == [] && addedNodes == [] && repr == all
    {
      rest, kept, keptEnd, added, addedEnd := head, null, null, null, null;
      restNodes, keptNodes, addedNodes, repr := nodes, [], [], all;
    }

    /** One usable address of the scan. */
    method SeeItem(item: Item)
      requires Valid()
      modifies this, repr
      ensures Valid() && Value() == See(old(Value()), item)
      ensures fresh(repr - old(repr))
    {
      var rest', found;
      ghost var i;
      rest', found, i := TakeKnown(rest, item.key, restNodes, kept, keptEnd, keptNodes, added, addedEnd, addedNodes);
      if found == null {
        var _ := Add(item);
      } else {
        SeeKnown(restNodes, keptNodes, addedNodes, i, item);
        Keep(rest', found, i);
      }
    }

    /** A new node goes to the end of the new ones. */
    method Add(item: Item) returns (node: Node)
      requires Valid()
      modifies this`added, this`addedEnd, this`addedNodes, this`repr, addedNodes
      ensures Valid() && Value() == old(Value()).(added := Items(old(addedNodes)) + [item])
      ensures fresh(node) && repr == old(repr) + {node}
    {
      node := new Node(item);
      assert node !in addedNodes && node !in restNodes && node !in keptNodes;
      ghost var all, value := repr, Value();
      var head := AppendBeside(added, addedEnd, node, addedNodes, rest, restNodes, kept, keptNodes);
      assert repr == all && Value() == value;
      ItemsConcat(addedNodes, [node]);
      AlsoWithin(restNodes, keptNodes, addedNodes, repr, node);
      SetAdded(head, node, addedNodes + [node], repr + {node});
    }

    method SetAdded(head: Node?, end: Node?, ghost s: seq<Node>, ghost all: set<Node>)
      requires Three(rest, restNodes, kept, keptEnd, keptNodes, head, end, s)
      requires AsSet(restNodes) + AsSet(keptNodes) + AsSet(s) <= all
      modifies this`added, this`addedEnd, this`addedNodes, this`repr
      ensures Valid() && repr == all && Value() == old(Value()).(added := Items(s))
    {
      added, addedEnd, addedNodes, repr := head, end, s, all;
    }

    /** A node off the known chain goes to the end of the kept ones. */
    method Keep(rest': Node?, found: Node, ghost i: nat)
      requires i < |restNodes| && found == restNodes[i] && found.next == null
      requires Three(rest', Without(restNodes, i), kept, keptEnd, keptNodes, added, addedEnd, addedNodes)
      requires IsWithout(restNodes, Without(restNodes, i), found) && found !in keptNodes && found !in addedNodes
      requires AsSet(restNodes) + AsSet(keptNodes) + AsSet(addedNodes) <= repr
      modifies this`rest, this`restNodes, this`kept, this`keptEnd, this`keptNodes, keptNodes
      ensures Valid() && Value() == old(Value()).(rest := Items(Without(old(restNodes), i)),
                                                  kept := Items(old(keptNodes) + [found]))
    {
      ApartTurns(keptNodes, addedNodes);
      var head := AppendBeside(kept, keptEnd, found, keptNodes, rest', Without(restNodes, i), added, addedNodes);
      StillWithin(restNodes, i, keptNodes, addedNodes, repr);
      ApartTurns(addedNodes, keptNodes + [found]);
      SetKept(rest', Without(restNodes, i), head, found, keptNodes + [found]);
    }

    method SetKept(rest': Node?, ghost r: seq<Node>, head: Node?, end: Node?, ghost s: seq<Node>)
      requires Three(rest', r, head, end, s, added, addedEnd, addedNodes)
      requires AsSet(r) + AsSet(s) + AsSet(addedNodes) <= repr
      modifies this`rest, this`restNodes, this`kept, this`keptEnd, this`keptNodes
      ensures Valid() && Value() == old(Value()).(rest := Items(r), kept := Items(s))
    {
      rest, restNodes, kept, keptEnd, keptNodes := rest', r, head, end, s;
    }

    /** One address the operating system lists. */
    method Look(e: OsEntry, ifname: Option<string>)
      requires Valid()
      modifies this, repr
      ensures Valid() && fresh(repr - old(repr))
      ensures Value() == SeeEntry(old(Value()), e, ifname)
    {
      if Usable(e, ifname) {
        SeeItem(ItemOf(e));
      }
    }
  }

  lemma {:induction false} AlsoWithin(r: seq<Node>, k: seq<Node>, a: seq<Node>, all: set<Node>, x: Node)
    requires AsSet(r) + AsSet(k) + AsSet(a) <= all
    ensures AsSet(r) + AsSet(k) + AsSet(a + [x]) <= all + {x}
  {
    assert AsSet(a + [x]) == AsSet(a) + {x};
  }

  lemma {:induction false} StillWithin(r: seq<Node>, i: nat, k: seq<Node>, a: seq<Node>, all: set<Node>)
    requires i < |r| && AsSet(r) + AsSet(k) + AsSet(a) <= all
    ensures AsSet(Without(r, i)) + AsSet(k + [r[i]]) + AsSet(a) <= all
  {
    assert r[i] in AsSet(r);
    forall x | x in Without(r, i)
      ensures x in all
    {
      assert x in r && x in AsSet(r);
    }
  }

  /** Looks at everything the operating system lists. */
  method ScanAll(head: Node?, os: seq<OsEntry>, ifname: Option<string>, ghost s: seq<Node>, ghost all: set<Node>)
    returns (sc: Scanner)
    requires Linked(head, s) && Distinct(s) && AsSet(s) <= all
    modifies all
    ensures fresh(sc) && sc.Valid()
    ensures sc.Value() == Scanned(Items(s), os, ifname)
    ensures fresh(sc.repr - all)
  {
    ghost var known := Items(s);
    sc := new Scanner(head, s, all);
    var n := 0;
    while n < |os|
      invariant 0 <= n <= |os|
      invariant fresh(sc) && sc.Valid()
      invariant sc.Value() == Scanned(known, os[..n], ifname)
      invariant fresh(sc.repr - all)
    {
      ScannedMore(known, os, n, ifname);
      sc.Look(os[n], ifname);
      n := n + 1;
    }
    assert os[..n] == os;
  }

  /** The scan over the list as the operating system gives it. */
  ghost function Scanned(known: seq<Item>, os: seq<OsEntry>, ifname: Option<string>): Scan
  {
    if os == [] then Scan(known, [], []) else SeeEntry(Scanned(known, os[..|os| - 1], ifname), os[|os| - 1], ifname)
  }

  lemma {:induction false} ScannedMore(known: seq<Item>, os: seq<OsEntry>, n: nat, ifname: Option<string>)
    requires n < |os|
    ensures Scanned(known, os[..n + 1], ifname) == SeeEntry(Scanned(known, os[..n], ifname), os[n], ifname)
  {
    assert os[..n + 1][..n] == os[..n];
  }

  ghost function SeeEntry(s: Scan, e: OsEntry, ifname: Option<string>): Scan
  {
    if Usable(e, ifname) then See(s, ItemOf(e)) else s
  }

  /** It sees the usable addresses in order. */
  lemma {:induction false} ScannedSeesUsable(known: seq<Item>, os: seq<OsEntry>, ifname: Option<string>)
    ensures Scanned(known, os, ifname) == SeeAll(known, UsableItems(os, ifname))
  {
    if os != [] {
      var n := |os| - 1;
      ScannedSeesUsable(known, os[..n], ifname);
      var items := UsableItems(os[..n], ifname);
      if Usable(os[n], ifname) {
        assert (items + [ItemOf(os[n])])[..|items|] == items;
      } else {
        assert UsableItems(os, ifname) == items;
      }
    }
  }

  /** Tells the listener about each node of a chain. */
  method Report(head: Node?, tell: Item -> Event, ghost s: seq<Node>) returns (events: seq<Event>)
    requires Linked(head, s)
    ensures |events| == |s| && forall k :: 0 <= k < |s| ==> events[k] == tell(s[k].item)
  {
    events := [];
    var node := head;
    while node != null
      invariant |events| <= |s| && node == (if |events| < |s| then s[|events|] else null)
      invariant forall k :: 0 <= k < |events| ==> events[k] == tell(s[k].item)
      decreases |s| - |events|
    {
      assert NextIs(s, |events|);
      events := events + [tell(node.item)];
      node := node.next;
    }
  }

  /** Walks to the end of one chain and hangs another on it. */
  method Join(head: Node?, more: Node?, ghost s: seq<Node>, ghost t: seq<Node>) returns (head': Node?)
    requires Linked(head, s) && Linked(more, t) && Distinct(s) && Apart(s, t)
    modifies AsSet(s)
    ensures Linked(head', s + t)
  {
    if head == null {
      assert s + t == t;
      return more;
    }
    head' := head;
    var last: Node := head;
    ghost var i := 0;
    assert NextIs(s, 0);
    while last.next != null
      invariant i < |s| && last == s[i] && NextIs(s, i)
      decreases |s| - i
    {
      last := last.next;
      i := i + 1;
      assert NextIs(s, i);
    }
    last.next := more;
    forall k | 0 <= k < |s + t|
      ensures NextIs(s + t, k)
    {
      if k < |s| {
        assert old(NextIs(s, k));
      } else {
        assert old(NextIs(t, k - |s|)) && t[k - |s|] !in s;
      }
    }
  }

  lemma {:induction false} DistinctConcat(s: seq<Node>, t: seq<Node>)
    requires Distinct(s) && Distinct(t) && Apart(s, t)
    ensures Distinct(s + t)
  {
    forall i, j | 0 <= i < j < |s + t|
      ensures (s + t)[i] != (s + t)[j]
    {
      assert i < |s| <= j ==> s[i] in s && t[j - |s|] in t;
    }
  }

  /** The list of interface addresses a caller keeps. */
  class Interfaces {
    var addresses: Node?
    ghost var nodes: seq<Node>

    ghost predicate Valid()
      reads this, nodes
    {
      Linked(addresses, nodes) && Distinct(nodes)
    }

    constructor ()
      ensures Valid() && nodes == []
    {
      addresses, nodes := null, [];
    }

    /** One call; None stands for getifaddrs failing. */
    method Map(os: Option<seq<OsEntry>>, ifname: Option<string>, listening: bool) returns (ok: bool, events: seq<Event>)
      requires Valid()
      modifies this, AsSet(nodes)
      ensures Valid() && ok == os.Some?
      ensures !ok ==> nodes == old(nodes) && events == []
      ensures ok ==> Items(nodes) == Result(SeeAll(Items(old(nodes)), UsableItems(os.value, ifname)))
      ensures ok ==> events == if listening then Events(SeeAll(Items(old(nodes)), UsableItems(os.value, ifname))) else []
      ensures fresh(AsSet(nodes) - old(AsSet(nodes)))
    {
      events := [];
      if os.None? {
        return false, events;
      }
      ScannedSeesUsable(Items(nodes), os.value, ifname);
      var sc := ScanAll(addresses, os.value, ifname, nodes, AsSet(nodes));
      if listening {
        events := Tell(sc);
      }
      Restore(sc);
      ok := true;
    }

    /** The kept addresses, then the new ones. */
    method Restore(sc: Scanner)
      requires sc.Valid()
      modifies this, sc.repr
      ensures Valid() && Items(nodes) == Result(sc.Value()) && AsSet(nodes) <= sc.repr
    {
      ghost var ks, as_ := sc.keptNodes, sc.addedNodes;
      ItemsConcat(ks, as_);
      DistinctConcat(ks, as_);
      addresses := Join(sc.kept, sc.added, ks, as_);
      nodes := ks + as_;
    }
  }

  /** The deleted, then the added, then the unchanged. */
  method Tell(sc: Scanner) returns (events: seq<Event>)
    requires sc.Valid()
    ensures events == Events(sc.Value())
  {
    var deleted := Report(sc.rest, item => Deleted(item), sc.restNodes);
    var added := Report(sc.added, item => Added(item), sc.addedNodes);
    var same := Report(sc.kept, item => Unchanged(item), sc.keptNodes);
    events := deleted + added + same;
    assert deleted == AsDeleted(Items(sc.restNodes));
    assert added == AsAdded(Items(sc.addedNodes));
    assert same == AsUnchanged(Items(sc.keptNodes));
  }
}
