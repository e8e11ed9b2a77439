// What one scan of the operating system's interface addresses does to the list of known ones
// (ServiceRegistration/posix.c:49-309, as built for Linux).

module InterfaceDiff {
  import opened Bytes
  import opened Counting

  datatype Addr = V4(v4: seq<byte>) | V6(v6: seq<byte>)

  /** Name, family, address and mask; the mask is of the address's family. */
  datatype Key = Key(name: string, addr: Addr, mask: seq<byte>)

  /** A known interface address; the flags are those of when it was first seen. */
  datatype Item = Item(key: Key, flags: nat)

  datatype OsAddr = NoAddr | OtherFamily | Inet(addr: Addr)

  /** One element of what getifaddrs returns. */
  datatype OsEntry = OsEntry(name: Option<string>, addr: OsAddr, mask: Option<seq<byte>>, flags: nat, up: bool)

  datatype Event = Deleted(item: Item) | Added(item: Item) | Unchanged(item: Item)

  predicate Usable(e: OsEntry, ifname: Option<string>)
  {
    && e.name.Some? && (ifname.None? || ifname == e.name)
    && e.addr.Inet? && e.mask.Some? && e.up
  }

  function ItemOf(e: OsEntry): Item
    requires Usable(e, None)
  {
    Item(Key(e.name.value, e.addr.addr, e.mask.value), e.flags)
  }

  /** The addresses of a scan that count. */
  function UsableItems(os: seq<OsEntry>, ifname: Option<string>): seq<Item>
  {
    if os == [] then []
    else
      var n := |os| - 1;
      UsableItems(os[..n], ifname) + (if Usable(os[n], ifname) then [ItemOf(os[n])] else [])
  }

  /** The known addresses not yet seen again, those seen again, and those seen for the first time. */
  datatype Scan = Scan(rest: seq<Item>, kept: seq<Item>, added: seq<Item>)

  function FindKey(items: seq<Item>, key: Key): (i: nat)
    ensures i <= |items|
    ensures forall k :: 0 <= k < i ==> items[k].key != key
    ensures i < |items| ==> items[i].key == key
  {
    if items == [] then 0 else if items[0].key == key then 0 else 1 + FindKey(items[1..], key)
  }

  /** One address of the scan: the first known one equal to it is kept, or it is new. */
  function See(s: Scan, item: Item): Scan
  {
    var i := FindKey(s.rest, item.key);
    if i == |s.rest| then s.(added := s.added + [item])
    else s.(rest := s.rest[..i] + s.rest[i + 1..], kept := s.kept + [s.rest[i]])
  }

  function SeeAll(known: seq<Item>, seen: seq<Item>): Scan
  {
    if seen == [] then Scan(known, [], []) else See(SeeAll(known, seen[..|seen| - 1]), seen[|seen| - 1])
  }

  function AsDeleted(items: seq<Item>): seq<Event>
  {
    seq(|items|, i requires 0 <= i < |items| => Deleted(items[i]))
  }

  function AsAdded(items: seq<Item>): seq<Event>
  {
    seq(|items|, i requires 0 <= i < |items| => Added(items[i]))
  }

  function AsUnchanged(items: seq<Item>): seq<Event>
  {
    seq(|items|, i requires 0 <= i < |items| => Unchanged(items[i]))
  }

  /** What the listener is told, in order. */
  function Events(s: Scan): seq<Event>
  {
    AsDeleted(s.rest) + AsAdded(s.added) + AsUnchanged(s.kept)
  }

  /** The list of known addresses afterwards. */
  function Result(s: Scan): seq<Item>
  {
    s.kept + s.added
  }

  // ----- It is the multiset difference --------------------------------------------------------

  function HasKey(key: Key): Item -> bool { (item: Item) => item.key == key }

  function Same(item: Item): Item -> bool { (x: Item) => x == item }

  lemma {:induction false} NotFoundNotCounted(items: seq<Item>, key: Key)
    requires FindKey(items, key) == |items|
    ensures Count(items, HasKey(key)) == 0
  {
    CountedIsPresent(items, HasKey(key));
  }

  /** Seeing one item moves one known equal item, or adds one where none is left. */
  lemma {:induction false} SeeCounts(s: Scan, item: Item, key: Key)
    ensures var s' := See(s, item);
            var one := if item.key == key then 1 else 0;
            && Count(s'.kept, HasKey(key)) + Count(s'.rest, HasKey(key)) == Count(s.kept, HasKey(key)) + Count(s.rest, HasKey(key))
            && Count(s'.kept, HasKey(key)) + Count(s'.added, HasKey(key))
               == Count(s.kept, HasKey(key)) + Count(s.added, HasKey(key)) + one
            && (Count(s.rest, HasKey(key)) == 0 || Count(s.added, HasKey(key)) == 0 ==>
                  Count(s'.rest, HasKey(key)) == 0 || Count(s'.added, HasKey(key)) == 0)
  {
    var i := FindKey(s.rest, item.key);
    if i == |s.rest| {
      NotFoundNotCounted(s.rest, item.key);
      CountConcat(s.added, [item], HasKey(key));
      CountOne(item, HasKey(key));
    } else {
      CountRemove(s.rest, i, HasKey(key));
      CountConcat(s.kept, [s.rest[i]], HasKey(key));
      CountOne(s.rest[i], HasKey(key));
    }
  }

  lemma {:induction false} SeeAllCounts(known: seq<Item>, seen: seq<Item>, key: Key)
    ensures var s := SeeAll(known, seen);
            && Count(s.kept, HasKey(key)) + Count(s.rest, HasKey(key)) == Count(known, HasKey(key))
            && Count(s.kept, HasKey(key)) + Count(s.added, HasKey(key)) == Count(seen, HasKey(key))
            && (Count(s.rest, HasKey(key)) == 0 || Count(s.added, HasKey(key)) == 0)
  {
    if seen != [] {
      var n := |seen| - 1;
      SeeAllCounts(known, seen[..n], key);
      SeeCounts(SeeAll(known, seen[..n]), seen[n], key);
    }
  }

  function Minus(a: nat, b: nat): nat { if a < b then 0 else a - b }

  /**
   * For every name, family, address and mask: as many are deleted as are known beyond those seen,
   * as many added as are seen beyond those known, as many kept as both have, and the list then
   * holds as many as were seen.
   */
  lemma {:induction false} ExactDifference(known: seq<Item>, seen: seq<Item>, key: Key)
    ensures var s, old_, os := SeeAll(known, seen), Count(known, HasKey(key)), Count(seen, HasKey(key));
            && Count(s.rest, HasKey(key)) == Minus(old_, os)
            && Count(s.added, HasKey(key)) == Minus(os, old_)
            && Count(s.kept, HasKey(key)) == Min(old_, os)
            && Count(Result(s), HasKey(key)) == os
  {
    SeeAllCounts(known, seen, key);
    var s := SeeAll(known, seen);
    CountConcat(s.kept, s.added, HasKey(key));
  }

  /**
   * No known address is lost or doubled: each is deleted or kept, with its flags, as often as it
   * was known; and each new one comes from the scan.
   */
  lemma {:induction false} NothingLost(known: seq<Item>, seen: seq<Item>, item: Item)
    ensures var s := SeeAll(known, seen);
            && Count(s.rest, Same(item)) + Count(s.kept, Same(item)) == Count(known, Same(item))
            && Count(s.added, Same(item)) <= Count(seen, Same(item))
  {
    if seen != [] {
      var n := |seen| - 1;
      NothingLost(known, seen[..n], item);
      SeeKeeps(SeeAll(known, seen[..n]), seen[n], item);
    }
  }

  /** Seeing one item keeps each known one, and adds at most the item itself. */
  lemma {:induction false} SeeKeeps(s: Scan, seen: Item, item: Item)
    ensures var s' := See(s, seen);
            && Count(s'.rest, Same(item)) + Count(s'.kept, Same(item)) == Count(s.rest, Same(item)) + Count(s.kept, Same(item))
            && Count(s'.added, Same(item)) <= Count(s.added, Same(item)) + (if seen == item then 1 else 0)
  {
    var i := FindKey(s.rest, seen.key);
    if i == |s.rest| {
      CountConcat(s.added, [seen], Same(item));
      CountOne(seen, Same(item));
    } else {
      CountRemove(s.rest, i, Same(item));
      CountConcat(s.kept, [s.rest[i]], Same(item));
      CountOne(s.rest[i], Same(item));
    }
  }

  // ----- A listener that replays the events ------------------------------------------------------

  /** What a listener holds of a key after the events, starting from n; a deletion takes one away. */
  function Replay(n: int, events: seq<Event>, key: Key): int
  {
    if events == [] then n
    else
      var before := Replay(n, events[..|events| - 1], key);
      match events[|events| - 1]
      case Deleted(item) => if item.key == key then before - 1 else before
      case Added(item) => if item.key == key then before + 1 else before
      case Unchanged(_) => before
  }

  lemma {:induction false} ReplayConcat(n: int, a: seq<Event>, b: seq<Event>, key: Key)
    ensures Replay(n, a + b, key) == Replay(Replay(n, a, key), b, key)
  {
    if b == [] {
      assert a + b == a;
    } else {
      ReplayConcat(n, a, b[..|b| - 1], key);
      assert (a + b)[..|a + b| - 1] == a + b[..|b| - 1];
    }
  }

  lemma {:induction false} ReplayDeleted(n: int, items: seq<Item>, key: Key)
    ensures Replay(n, AsDeleted(items), key) == n - Count(items, HasKey(key))
  {
    if items != [] {
      var k := |items| - 1;
      ReplayDeleted(n, items[..k], key);
      assert AsDeleted(items)[..k] == AsDeleted(items[..k]);
    }
  }

  lemma {:induction false} ReplayAdded(n: int, items: seq<Item>, key: Key)
    ensures Replay(n, AsAdded(items), key) == n + Count(items, HasKey(key))
  {
    if items != [] {
      var k := |items| - 1;
      ReplayAdded(n, items[..k], key);
      assert AsAdded(items)[..k] == AsAdded(items[..k]);
    }
  }

  lemma {:induction false} ReplayUnchanged(n: int, items: seq<Item>, key: Key)
    ensures Replay(n, AsUnchanged(items), key) == n
  {
    if items != [] {
      var k := |items| - 1;
      ReplayUnchanged(n, items[..k], key);
      assert AsUnchanged(items)[..k] == AsUnchanged(items[..k]);
    }
  }

  lemma {:induction false} ReplayEvents(n: int, s: Scan, key: Key)
    ensures Replay(n, Events(s), key) == n - Count(s.rest, HasKey(key)) + Count(s.added, HasKey(key))
  {
    var deleted, added, n' := AsDeleted(s.rest), AsAdded(s.added), n - Count(s.rest, HasKey(key));
    ReplayConcat(n, deleted + added, AsUnchanged(s.kept), key);
    ReplayConcat(n, deleted, added, key);
    ReplayDeleted(n, s.rest, key);
    ReplayAdded(n', s.added, key);
    ReplayUnchanged(n' + Count(s.added, HasKey(key)), s.kept, key);
  }

  /** The events of one scan take a listener that held the known addresses to the new list. */
  lemma {:induction false} ListenerFollows(known: seq<Item>, seen: seq<Item>, key: Key)
    ensures var s := SeeAll(known, seen);
            Replay(Count(known, HasKey(key)), Events(s), key) == Count(Result(s), HasKey(key))
  {
    var s := SeeAll(known, seen);
    ReplayEvents(Count(known, HasKey(key)), s, key);
    SeeAllCounts(known, seen, key);
    CountConcat(s.kept, s.added, HasKey(key));
  }

  /** The list after a run of scans, and all the events told. */
  function Known(scans: seq<seq<Item>>): seq<Item>
  {
    if scans == [] then [] else Result(SeeAll(Known(scans[..|scans| - 1]), scans[|scans| - 1]))
  }

  function Told(scans: seq<seq<Item>>): seq<Event>
  {
    if scans == [] then []
    else Told(scans[..|scans| - 1]) + Events(SeeAll(Known(scans[..|scans| - 1]), scans[|scans| - 1]))
  }

  /**
   * Over any run of scans a listener that started with nothing and replays every event holds, of
   * every address, exactly as many as the list does, which is as many as the last scan saw.
   */
  lemma {:induction false} ListenerAlwaysCurrent(scans: seq<seq<Item>>, key: Key)
    ensures Replay(0, Told(scans), key) == Count(Known(scans), HasKey(key))
    ensures scans != [] ==> Count(Known(scans), HasKey(key)) == Count(scans[|scans| - 1], HasKey(key))
  {
    if scans != [] {
      var before, last := scans[..|scans| - 1], scans[|scans| - 1];
      ListenerAlwaysCurrent(before, key);
      ReplayConcat(0, Told(before), Events(SeeAll(Known(before), last)), key);
      ListenerFollows(Known(before), last, key);
      ExactDifference(Known(before), last, key);
    }
  }

  // ----- In terms of what the operating system lists --------------------------------------------

  /** An entry for this name, address and mask that is up and of the interface asked for, if one is. */
  function IsEntry(name: string, addr: Addr, mask: seq<byte>, ifname: Option<string>): OsEntry -> bool
  {
    (e: OsEntry) => e.name == Some(name) && (ifname == None || ifname == Some(name))
                    && e.addr == Inet(addr) && e.mask == Some(mask) && e.up
  }

  predicate IsOf(x: Item, name: string, addr: Addr, mask: seq<byte>)
  {
    x.key.name == name && x.key.addr == addr && x.key.mask == mask
  }

  function IsAddress(name: string, addr: Addr, mask: seq<byte>): Item -> bool
  {
    (x: Item) => IsOf(x, name, addr, mask)
  }

  function IsDeleted(name: string, addr: Addr, mask: seq<byte>): Event -> bool
  {
    (e: Event) => e.Deleted? && IsOf(e.item, name, addr, mask)
  }

  function IsAdded(name: string, addr: Addr, mask: seq<byte>): Event -> bool
  {
    (e: Event) => e.Added? && IsOf(e.item, name, addr, mask)
  }

  function IsUnchanged(name: string, addr: Addr, mask: seq<byte>): Event -> bool
  {
    (e: Event) => e.Unchanged? && IsOf(e.item, name, addr, mask)
  }

  lemma {:induction false} AddressIsKey(items: seq<Item>, name: string, addr: Addr, mask: seq<byte>)
    ensures Count(items, IsAddress(name, addr, mask)) == Count(items, HasKey(Key(name, addr, mask)))
  {
    CountFewer(items, IsAddress(name, addr, mask), HasKey(Key(name, addr, mask)));
    CountFewer(items, HasKey(Key(name, addr, mask)), IsAddress(name, addr, mask));
  }

  lemma {:induction false} UsableCounts(os: seq<OsEntry>, ifname: Option<string>, name: string, addr: Addr, mask: seq<byte>)
    ensures Count(UsableItems(os, ifname), IsAddress(name, addr, mask)) == Count(os, IsEntry(name, addr, mask, ifname))
  {
    if os != [] {
      var n := |os| - 1;
      UsableCounts(os[..n], ifname, name, addr, mask);
      var items := UsableItems(os[..n], ifname);
      if Usable(os[n], ifname) {
        CountConcat(items, [ItemOf(os[n])], IsAddress(name, addr, mask));
        CountOne(ItemOf(os[n]), IsAddress(name, addr, mask));
      } else {
        EmptyConcat([], items);
      }
    }
  }

  lemma {:induction false} AddedIsSeen(known: seq<Item>, seen: seq<Item>, x: Item)
    requires x in SeeAll(known, seen).added
    ensures x in seen
  {
    if seen != [] {
      var n := |seen| - 1;
      assert seen == seen[..n] + [seen[n]];
      if x in SeeAll(known, seen[..n]).added {
        AddedIsSeen(known, seen[..n], x);
      }
    }
  }

  ghost predicate FromEntry(x: Item, os: seq<OsEntry>, ifname: Option<string>)
  {
    exists e :: e in os && IsEntry(x.key.name, x.key.addr, x.key.mask, ifname)(e) && e.flags == x.flags
  }

  /** A usable address has the flags of an entry for it. */
  lemma {:induction false} UsableFromEntry(os: seq<OsEntry>, ifname: Option<string>, x: Item)
    requires x in UsableItems(os, ifname)
    ensures FromEntry(x, os, ifname)
  {
    var n := |os| - 1;
    assert os == os[..n] + [os[n]];
    if x in UsableItems(os[..n], ifname) {
      UsableFromEntry(os[..n], ifname, x);
    } else {
      assert os[n] in os && IsEntry(x.key.name, x.key.addr, x.key.mask, ifname)(os[n]);
    }
  }

  /** How often a listener is told of an address as deleted, added and unchanged. */
  lemma {:induction false} EventCounts(s: Scan, name: string, addr: Addr, mask: seq<byte>)
    ensures Count(Events(s), IsDeleted(name, addr, mask)) == Count(s.rest, IsAddress(name, addr, mask))
    ensures Count(Events(s), IsAdded(name, addr, mask)) == Count(s.added, IsAddress(name, addr, mask))
    ensures Count(Events(s), IsUnchanged(name, addr, mask)) == Count(s.kept, IsAddress(name, addr, mask))
  {
    DeletedCount(s, name, addr, mask);
    AddedCount(s, name, addr, mask);
    UnchangedCount(s, name, addr, mask);
  }

  lemma {:induction false} DeletedCount(s: Scan, name: string, addr: Addr, mask: seq<byte>)
    ensures Count(Events(s), IsDeleted(name, addr, mask)) == Count(s.rest, IsAddress(name, addr, mask))
  {
    var p := IsDeleted(name, addr, mask);
    CountThree(AsDeleted(s.rest), AsAdded(s.added), AsUnchanged(s.kept), p);
    CountMapped(AsDeleted(s.rest), s.rest, p, IsAddress(name, addr, mask));
    CountNone(AsAdded(s.added), p);
    CountNone(AsUnchanged(s.kept), p);
  }

  lemma {:induction false} AddedCount(s: Scan, name: string, addr: Addr, mask: seq<byte>)
    ensures Count(Events(s), IsAdded(name, addr, mask)) == Count(s.added, IsAddress(name, addr, mask))
  {
    var p := IsAdded(name, addr, mask);
    CountThree(AsDeleted(s.rest), AsAdded(s.added), AsUnchanged(s.kept), p);
    CountNone(AsDeleted(s.rest), p);
    CountMapped(AsAdded(s.added), s.added, p, IsAddress(name, addr, mask));
    CountNone(AsUnchanged(s.kept), p);
  }

  lemma {:induction false} UnchangedCount(s: Scan, name: string, addr: Addr, mask: seq<byte>)
    ensures Count(Events(s), IsUnchanged(name, addr, mask)) == Count(s.kept, IsAddress(name, addr, mask))
  {
    var p := IsUnchanged(name, addr, mask);
    CountThree(AsDeleted(s.rest), AsAdded(s.added), AsUnchanged(s.kept), p);
    CountNone(AsDeleted(s.rest), p);
    CountNone(AsAdded(s.added), p);
    CountMapped(AsUnchanged(s.kept), s.kept, p, IsAddress(name, addr, mask));
  }

  lemma {:induction false} CountThree(a: seq<Event>, b: seq<Event>, c: seq<Event>, p: Event -> bool)
    ensures Count(a + b + c, p) == Count(a, p) + Count(b, p) + Count(c, p)
  {
    CountConcat(a + b, c, p);
    CountConcat(a, b, p);
  }

  /**
   * What a scan does, by the entries the operating system lists: for every name, address and mask
   * the list then holds as many as there are usable entries with them; the listener is told as
   * many deleted as were known beyond that, as many added as there are beyond those known, and the
   * others unchanged; and a new address has the flags of such an entry.
   */
  lemma {:induction false} ListHoldsEntries(known: seq<Item>, os: seq<OsEntry>, ifname: Option<string>,
                                            name: string, addr: Addr, mask: seq<byte>)
    ensures var s := SeeAll(known, UsableItems(os, ifname));
            var was, is_ := Count(known, IsAddress(name, addr, mask)), Count(os, IsEntry(name, addr, mask, ifname));
            && Count(Result(s), IsAddress(name, addr, mask)) == is_
            && Count(Events(s), IsDeleted(name, addr, mask)) == Minus(was, is_)
            && Count(Events(s), IsAdded(name, addr, mask)) == Minus(is_, was)
            && Count(Events(s), IsUnchanged(name, addr, mask)) == Min(was, is_)
            && forall x :: x in s.added ==> FromEntry(x, os, ifname)
  {
    var s := SeeAll(known, UsableItems(os, ifname));
    ExactDifference(known, UsableItems(os, ifname), Key(name, addr, mask));
    UsableCounts(os, ifname, name, addr, mask);
    AddressIsKey(known, name, addr, mask);
    AddressIsKey(UsableItems(os, ifname), name, addr, mask);
    AddressIsKey(Result(s), name, addr, mask);
    AddressIsKey(s.rest, name, addr, mask);
    AddressIsKey(s.added, name, addr, mask);
    AddressIsKey(s.kept, name, addr, mask);
    EventCounts(s, name, addr, mask);
    forall x | x in s.added
      ensures FromEntry(x, os, ifname)
    {
      AddedIsSeen(known, UsableItems(os, ifname), x);
      UsableFromEntry(os, ifname, x);
    }
  }

  /**
   * The listener is told of the deleted addresses first, then of the new ones and last of those
   * unchanged, the latter two in the order of the list; in the list the new ones are last.
   */
  lemma {:induction false} EventsInOrder(known: seq<Item>, seen: seq<Item>)
    ensures var s := SeeAll(known, seen);
            var events, list, gone, k := Events(s), Result(s), |s.rest|, |s.kept|;
            && |events| == gone + |list| && k <= |list|
            && (forall i :: 0 <= i < gone ==> events[i].Deleted?)
            && (forall i :: gone <= i < gone + |list| - k ==> events[i] == Added(list[k + (i - gone)]))
            && (forall i :: gone + |list| - k <= i < |events| ==> events[i] == Unchanged(list[i - (gone + |list| - k)]))
  {
    var s := SeeAll(known, seen);
    ThreeInOrder(AsDeleted(s.rest), AsAdded(s.added), AsUnchanged(s.kept));
  }

  lemma {:induction false} ThreeInOrder(a: seq<Event>, b: seq<Event>, c: seq<Event>)
    ensures forall i :: 0 <= i < |a| ==> (a + b + c)[i] == a[i]
    ensures forall i :: |a| <= i < |a| + |b| ==> (a + b + c)[i] == b[i - |a|]
    ensures forall i :: |a| + |b| <= i < |a + b + c| ==> (a + b + c)[i] == c[i - (|a| + |b|)]
  {
  }
}
