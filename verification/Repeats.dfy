// Reading a counted run of items with a parser given as a function, apart from what the items are.

module Repeats {
  import opened Bytes

  /** Reads an item at an offset and says where it ended. */
  type Parser<!T> = nat -> Option<(T, nat)>

  /** count items from off, and the offset after them. */
  function Repeat<T>(p: Parser<T>, off: nat, count: nat): (r: Option<(seq<T>, nat)>)
    ensures r.Some? ==> |r.value.0| == count
  {
    if count == 0 then Some(([], off))
    else
      var (items, at) :- Repeat(p, off, count - 1);
      var (item, end) :- p(at);
      Some((items + [item], end))
  }

  lemma {:induction false} RepeatPrefix<T>(p: Parser<T>, off: nat, i: nat, count: nat)
    requires i <= count && Repeat(p, off, count).Some?
    ensures Repeat(p, off, i).Some?
  {
    if i < count {
      RepeatPrefix(p, off, i, count - 1);
    }
  }

  lemma {:induction false} RepeatMore<T>(p: Parser<T>, off: nat, i: nat, items: seq<T>, at: nat)
    requires Repeat(p, off, i) == Some((items, at))
    ensures p(at).None? ==> Repeat(p, off, i + 1) == None
    ensures p(at).Some? ==> Repeat(p, off, i + 1) == Some((items + [p(at).value.0], p(at).value.1))
  {
  }

  /** cuts marks off consecutive ranges, one for each item, that the parser reads as those items. */
  ghost predicate Tiled<T>(p: Parser<T>, items: seq<T>, cuts: seq<nat>)
  {
    && |cuts| == |items| + 1
    && forall i :: 0 <= i < |items| ==> TileAt(p, items[i], cuts, i)
  }

  ghost predicate TileAt<T>(p: Parser<T>, item: T, cuts: seq<nat>, i: nat)
    requires i + 1 < |cuts|
  {
    p(cuts[i]) == Some((item, cuts[i + 1]))
  }

  lemma {:induction false} RepeatTiles<T>(p: Parser<T>, off: nat, count: nat) returns (cuts: seq<nat>)
    requires Repeat(p, off, count).Some?
    ensures Tiled(p, Repeat(p, off, count).value.0, cuts)
    ensures cuts[0] == off && cuts[count] == Repeat(p, off, count).value.1
  {
    if count == 0 {
      cuts := [off];
    } else {
      var before := RepeatTiles(p, off, count - 1);
      var (items, at) := Repeat(p, off, count - 1).value;
      var (item, end) := p(at).value;
      var all := items + [item];
      cuts := before + [end];
      forall i | 0 <= i < count
        ensures TileAt(p, all[i], cuts, i)
      {
        if i < count - 1 {
          assert TileAt(p, items[i], before, i);
          assert cuts[i] == before[i] && cuts[i + 1] == before[i + 1] && all[i] == items[i];
        } else {
          assert cuts[i] == at && cuts[i + 1] == end;
        }
      }
    }
  }

  /** And a run of items that lie between their cuts is what is read. */
  lemma {:induction false} TilesRepeat<T>(p: Parser<T>, items: seq<T>, cuts: seq<nat>)
    requires Tiled(p, items, cuts)
    ensures Repeat(p, cuts[0], |items|) == Some((items, cuts[|items|]))
  {
    if items != [] {
      var n := |items| - 1;
      var items', cuts' := items[..n], cuts[..n + 1];
      forall i | 0 <= i < n
        ensures TileAt(p, items'[i], cuts', i)
      {
        assert TileAt(p, items[i], cuts, i);
      }
      TilesRepeat(p, items', cuts');
      assert TileAt(p, items[n], cuts, n);
      assert items' + [items[n]] == items;
    }
  }

  /** Where every item moves forward and stays within len, so does a run of them. */
  lemma {:induction false} RepeatBounds<T>(p: Parser<T>, off: nat, count: nat, len: nat)
    requires forall o: nat :: p(o).Some? ==> o < p(o).value.1 <= len
    requires off <= len && Repeat(p, off, count).Some?
    ensures off <= Repeat(p, off, count).value.1 <= len
  {
    if count > 0 {
      RepeatBounds(p, off, count - 1, len);
    }
  }

  // ----- Encodings laid end to end ---------------------------------------------------------

  function Flatten<T>(pieces: seq<seq<T>>): seq<T>
  {
    if pieces == [] then [] else Flatten(pieces[..|pieces| - 1]) + pieces[|pieces| - 1]
  }

  lemma {:induction false} FlattenAppend<T>(pieces: seq<seq<T>>, last: seq<T>)
    ensures Flatten(pieces + [last]) == Flatten(pieces) + last
    ensures pieces == [] ==> Flatten([last]) == last
  {
    assert (pieces + [last])[..|pieces|] == pieces;
    if pieces == [] {
      assert pieces + [last] == [last];
    }
  }

  // ----- Items encoded one after the other ----------------------------------------------------

  /** The encoding of an item, which may depend on where it starts. */
  type Encoder<!T> = (T, nat) -> seq<byte>

  type Fitness<!T> = (T, nat) -> bool

  function EncodeAll<T>(encode: Encoder<T>, items: seq<T>, at: nat): seq<byte>
  {
    if items == [] then []
    else
      var n := |items| - 1;
      var before := EncodeAll(encode, items[..n], at);
      before + encode(items[n], at + |before|)
  }

  /** Every item fits where it comes to lie. */
  predicate AllFit<T>(fits: Fitness<T>, encode: Encoder<T>, items: seq<T>, at: nat)
  {
    items == [] ||
    var n := |items| - 1;
    AllFit(fits, encode, items[..n], at) && fits(items[n], at + |EncodeAll(encode, items[..n], at)|)
  }

  /** The parser reads an item that fits from its encoding. */
  ghost predicate ReadsAt<T>(p: Parser<T>, fits: Fitness<T>, encode: Encoder<T>, data: seq<byte>, item: T, off: nat, end: nat)
  {
    fits(item, off) && off <= end <= |data| && data[off..end] == encode(item, off) ==> p(off) == Some((item, end))
  }

  ghost predicate Reads<T(!new)>(p: Parser<T>, fits: Fitness<T>, encode: Encoder<T>, data: seq<byte>)
  {
    forall item: T, off: nat, end: nat :: ReadsAt(p, fits, encode, data, item, off, end)
  }

  /** A parser that reads each item from its encoding reads a run of them from theirs. */
  lemma {:induction false} RepeatReads<T(!new)>(p: Parser<T>, fits: Fitness<T>, encode: Encoder<T>, data: seq<byte>,
                                                items: seq<T>, at: nat, end: nat)
    requires Reads(p, fits, encode, data) && AllFit(fits, encode, items, at) && at <= end <= |data|
    requires data[at..end] == EncodeAll(encode, items, at)
    ensures Repeat(p, at, |items|) == Some((items, end))
    decreases |items|
  {
    if items != [] {
      var n := |items| - 1;
      var before := EncodeAll(encode, items[..n], at);
      var mid := at + |before|;
      SplitAt(data, at, before, encode(items[n], mid));
      RepeatReads(p, fits, encode, data, items[..n], at, mid);
      assert ReadsAt(p, fits, encode, data, items[n], mid, end);
      assert items == items[..n] + [items[n]];
    }
  }
}
