// Domain names on the wire: decompression of RFC 1035 section 4.1.4 pointers
// (ServiceRegistration/fromwire.c:83-193).
//
// Offsets count from the octet after the 12-octet header, as in the source, so
// a pointer value p on the wire denotes offset p - 12.

module NameWire {
  import opened Bytes

  const MAX_LABEL := 63

  type Label = seq<byte>

  /** A name is its list of labels; the empty label is the root. */
  type Name = seq<Label>

  predicate IsPointer(b: byte) { b >= 0xC0 }

  /** Neither a pointer nor a reserved label type. */
  predicate IsLabel(b: byte) { b < 0x40 }

  /** The offset a two-octet pointer denotes; negative when it points into the header. */
  function Target(hi: byte, lo: byte): int
    requires IsPointer(hi)
  {
    (hi as int - 0xC0) * 0x100 + lo as int - HEADER_SIZE
  }

  /** The bit masks the source tests and combines, on all octets. */
  lemma {:induction false} MasksAreRanges(hi: bv8, lo: bv8)
    ensures IsPointer(hi as int) <==> hi & 0xC0 == 0xC0
    ensures IsLabel(hi as int) <==> hi & 0xC0 == 0
    ensures IsPointer(hi as int) ==> Target(hi as int, lo as int) == (hi & 0x3F) as int * 256 + lo as int - 12
  {
    assert hi & 0xC0 == 0xC0 <==> hi >= 0xC0;
    assert hi & 0xC0 == 0 <==> hi < 0x40;
    assert hi >= 0xC0 ==> hi & 0x3F == hi - 0xC0;
  }

  // ----- What a compressed name means -----------------------------------------------------

  // A name is read along a path of offsets. Each step either passes over one label or follows
  // one pointer. A pointer has to go strictly below the floor: the start of the name at first,
  // then the target of the last pointer followed.

  /** The floor in force at step i of a path. */
  ghost function Floor(buf: seq<byte>, base: nat, path: seq<nat>, i: nat): nat
    requires i < |path|
    requires forall k :: 0 <= k < |path| ==> path[k] < |buf|
  {
    if i == 0 then base
    else if IsPointer(buf[path[i - 1]]) then path[i]
    else Floor(buf, base, path, i - 1)
  }

  /** One legal step from offset p to offset q. */
  ghost predicate Step(buf: seq<byte>, len: nat, floor: nat, p: nat, q: nat)
    requires p < len <= |buf| && q < len
  {
    if IsPointer(buf[p]) then
      p + 2 <= len && q == Target(buf[p], buf[p + 1]) && q < floor && IsLabel(buf[q]) && q + buf[q] as int < floor
    else
      0 < buf[p] <= MAX_LABEL && q == p + 1 + buf[p] as int
  }

  /** A path of legal steps. */
  ghost predicate Walk(buf: seq<byte>, len: nat, base: nat, path: seq<nat>)
    requires len <= |buf|
  {
    && (forall k :: 0 <= k < |path| ==> path[k] < len)
    && (forall k :: 0 <= k < |path| - 1 ==> StepAt(buf, len, base, path, k))
  }

  ghost predicate StepAt(buf: seq<byte>, len: nat, base: nat, path: seq<nat>, k: nat)
    requires len <= |buf| && k + 1 < |path|
    requires forall i :: 0 <= i < |path| ==> path[i] < len
  {
    Step(buf, len, Floor(buf, base, path, k), path[k], path[k + 1])
  }

  /** A path of legal steps from off that reaches the root label. */
  ghost predicate Expansion(buf: seq<byte>, len: nat, off: nat, base: nat, path: seq<nat>)
    requires len <= |buf|
  {
    Walk(buf, len, base, path) && path != [] && path[0] == off && buf[path[|path| - 1]] == 0
  }

  /** The labels passed over along a path, in order. */
  ghost function LabelsOf(buf: seq<byte>, len: nat, path: seq<nat>): Name
    requires len <= |buf|
    requires forall k :: 0 <= k < |path| ==> path[k] < len
  {
    if path == [] then []
    else
      var p := path[0];
      var rest := LabelsOf(buf, len, path[1..]);
      if IsPointer(buf[p]) || p + 1 + buf[p] as int > len then rest
      else [buf[p + 1..p + 1 + buf[p] as int]] + rest
  }

  /** Where reading continues after the name: past the first pointer, or past the root. */
  ghost function EndOf(buf: seq<byte>, path: seq<nat>): nat
    requires path != []
    requires forall k :: 0 <= k < |path| ==> path[k] < |buf|
  {
    if IsPointer(buf[path[0]]) then path[0] + 2
    else if |path| == 1 then path[0] + 1
    else EndOf(buf, path[1..])
  }

  // ----- The parser -----------------------------------------------------------------------

  /** The name at off and the offset after it, or None where the source returns false. */
  function ParseName(buf: seq<byte>, len: nat, off: nat, base: nat): (r: Option<(Name, nat)>)
    requires base <= off <= len <= |buf|
    ensures r.Some? ==> off < r.value.1 <= len
    decreases base, len - off
  {
    if off == len then None
    else if IsPointer(buf[off]) then
      if off + 2 > len then None
      else
        var t := Target(buf[off], buf[off + 1]);
        if t < 0 || t >= base then None
        else if !IsLabel(buf[t]) then None
        else if buf[t] as int + t >= base || buf[t] as int + t >= off + 2 then None
        else
          var (rest, _) :- ParseName(buf, len, t, t);
          Some((rest, off + 2))
    else if !IsLabel(buf[off]) then None
    else
      var next := off + 1 + buf[off] as int;
      if next > len then None
      else
        var lab := buf[off + 1..next];
        if lab == [] then Some(([lab], next))
        else
          var (rest, end) :- ParseName(buf, len, next, base);
          Some(([lab] + rest, end))
  }

  /**
   * The cursor of the source's parse functions: a buffer and a current offset that each
   * successful read moves forward.
   */
  class Cursor {
    const buf: seq<byte>
    var off: nat

    constructor (buf: seq<byte>, off: nat)
      requires off <= |buf|
      ensures this.buf == buf && this.off == off
    {
      this.buf, this.off := buf, off;
    }

    method ParseLabel(len: nat) returns (lab: Option<Label>)
      requires off < len <= |buf|
      modifies this`off
      ensures lab.Some? <==> old(off) + 1 + buf[old(off)] as int <= len
      ensures lab.Some? ==> off == old(off) + 1 + buf[old(off)] as int
                              && lab.value == buf[old(off) + 1..off]
      ensures lab.None? ==> off == old(off)
    {
      var n := buf[off] as int;
      if off + n + 1 > len {
        return None;
      }
      lab := Some(buf[off + 1..off + 1 + n]);
      off := off + n + 1;
    }

    method ParseU8(len: nat) returns (v: Option<byte>)
      requires off <= len <= |buf|
      modifies this`off
      ensures v.Some? <==> old(off) + 1 <= len
      ensures v.Some? ==> off == old(off) + 1 && v.value == buf[old(off)]
      ensures v.None? ==> off == old(off)
    {
      if off + 1 > len {
        return None;
      }
      v := Some(buf[off]);
      off := off + 1;
    }

    method ParseU16(len: nat) returns (v: Option<uint16>)
      requires off <= len <= |buf|
      modifies this`off
      ensures v.Some? <==> old(off) + 2 <= len
      ensures v.Some? ==> off == old(off) + 2 && v.value == Uint(buf, old(off), 2)
      ensures v.None? ==> off == old(off)
    {
      if off + 2 > len {
        return None;
      }
      v := Some(Be16(buf[off], buf[off + 1]));
      FromBigEndian2(buf[off..off + 2]);
      off := off + 2;
    }

    method ParseU32(len: nat) returns (v: Option<uint32>)
      requires off <= len <= |buf|
      modifies this`off
      ensures v.Some? <==> old(off) + 4 <= len
      ensures v.Some? ==> off == old(off) + 4 && v.value == Uint(buf, old(off), 4)
      ensures v.None? ==> off == old(off)
    {
      if off + 4 > len {
        return None;
      }
      v := Some(Be32(buf[off], buf[off + 1], buf[off + 2], buf[off + 3]));
      FromBigEndian4(buf[off..off + 4]);
      off := off + 4;
    }

    method ParseU64(len: nat) returns (v: Option<uint64>)
      requires off <= len <= |buf|
      modifies this`off
      ensures v.Some? <==> old(off) + 8 <= len
      ensures v.Some? ==> off == old(off) + 8 && v.value == Uint(buf, old(off), 8)
      ensures v.None? ==> off == old(off)
    {
      if off + 8 > len {
        return None;
      }
      var hi := Be32(buf[off], buf[off + 1], buf[off + 2], buf[off + 3]);
      var lo := Be32(buf[off + 4], buf[off + 5], buf[off + 6], buf[off + 7]);
      v := Some(hi as int * 0x1_0000_0000 + lo as int);
      ghost var a, b := buf[off..off + 4], buf[off + 4..off + 8];
      assert buf[off..off + 8] == a + b;
      FromBigEndianConcat(a, b);
      FromBigEndian4(a);
      FromBigEndian4(b);
      Pow256Values();
      off := off + 8;
    }

    /** calls counts this call and every one it makes. */
    method ParseNameIn(len: nat, base: nat) returns (ok: bool, name: Name, ghost calls: nat)
      requires base <= off <= len <= |buf|
      modifies this`off
      ensures ok <==> ParseName(buf, len, old(off), base).Some?
      ensures ok ==> ParseName(buf, len, old(off), base) == Some((name, off))
      ensures off <= len
      ensures 1 <= calls <= Budget(base, len, old(off)) <= (base + 1) * (len + 1)
      decreases base, len - off
    {
      name, calls := [], 1;
      BudgetPositive(base, len, off);
      if off == len {
        return false, name, calls;
      }
      if IsPointer(buf[off]) {
        if off + 2 > len {
          return false, name, calls;
        }
        var target := Target(buf[off], buf[off + 1]);
        off := off + 2;
        ghost var more;
        ok, name, more := FollowPointer(len, base, target);
        BudgetOverPointer(base, target, len, old(off), more);
        calls := 1 + more;
        return ok, name, calls;
      }
      if !IsLabel(buf[off]) {
        return false, name, calls;
      }
      var lab := ParseLabel(len);
      if lab.None? {
        return false, name, calls;
      }
      if lab.value == [] {
        return true, [lab.value], calls;
      }
      var rest;
      ghost var more;
      ok, rest, more := ParseNameIn(len, base);
      name := [lab.value] + rest;
      calls := 1 + more;
    }

    /** The cursor is past a pointer: the name at its target, if the pointer is legal, read with a cursor of its own. */
    method FollowPointer(len: nat, base: nat, target: int) returns (ok: bool, name: Name, ghost calls: nat)
      requires base <= off <= len <= |buf|
      ensures ok <==> PointerOk(buf, off, base, target) && ParseName(buf, len, target, target).Some?
      ensures ok ==> name == ParseName(buf, len, target, target).value.0
      ensures calls == 0 || (PointerOk(buf, off, base, target) && calls <= Budget(target, len, target))
      decreases base, 0
    {
      name, calls := [], 0;
      if target < 0 || target >= base || !IsLabel(buf[target])
         || buf[target] as int + target >= base || buf[target] as int + target >= off
      {
        return false, name, calls;
      }
      var pointer := new Cursor(buf, target);
      ok, name, calls := pointer.ParseNameIn(len, target);
    }
  }

  /** The pointer just read, ending at off, is legal with floor base. */
  predicate PointerOk(buf: seq<byte>, off: nat, base: nat, target: int)
    requires base <= |buf|
  {
    0 <= target < base && IsLabel(buf[target]) && buf[target] as int + target < base && buf[target] as int + target < off
  }

  /** Calls left at offset off with floor base: base restarts over at most len + 1 offsets each. */
  ghost function Budget(base: nat, len: nat, off: nat): int
  {
    base * (len + 1) + len - off + 1
  }

  lemma {:induction false} BudgetPositive(base: nat, len: nat, off: nat)
    requires off <= len
    ensures 1 <= Budget(base, len, off) <= (base + 1) * (len + 1)
  {
    assert base * (len + 1) >= 0;
    assert (base + 1) * (len + 1) == base * (len + 1) + len + 1;
  }

  lemma {:induction false} BudgetDrops(base: nat, target: nat, len: nat, off: nat)
    requires target < base && off <= len
    ensures Budget(target, len, target) + 1 <= Budget(base, len, off)
  {
    assert (target + 1) * (len + 1) <= base * (len + 1) by {
      assert (base - target - 1) * (len + 1) >= 0;
    }
  }

  lemma {:induction false} BudgetOverPointer(base: nat, target: int, len: nat, off: nat, more: nat)
    requires off <= len && (more == 0 || (0 <= target < base && more <= Budget(target, len, target)))
    ensures 1 + more <= Budget(base, len, off)
  {
    BudgetPositive(base, len, off);
    if more != 0 {
      BudgetDrops(base, target, len, off);
    }
  }

  /** The source's step over one label that is not the root. */
  lemma {:induction false} ParseOneLabel(buf: seq<byte>, off: nat, next: nat, base: nat, rest: Name, end: nat, name: Name)
    requires base <= off < next <= |buf|
    requires 0 < buf[off] <= MAX_LABEL && next == off + 1 + buf[off] as int
    requires ParseName(buf, |buf|, next, base) == Some((rest, end))
    requires name == [buf[off + 1..next]] + rest
    ensures ParseName(buf, |buf|, off, base) == Some((name, end))
  {
  }

  lemma {:induction false} ParseRoot(buf: seq<byte>, len: nat, off: nat, base: nat)
    requires base <= off < len <= |buf| && buf[off] == 0
    ensures ParseName(buf, len, off, base) == Some(([[]], off + 1))
  {
    assert buf[off + 1..off + 1] == [];
  }

  // ----- The parser computes exactly the expansion -----------------------------------------

  lemma {:induction false} FloorOfTail(buf: seq<byte>, base: nat, path: seq<nat>, i: nat)
    requires 0 < i < |path|
    requires forall k :: 0 <= k < |path| ==> path[k] < |buf|
    ensures Floor(buf, base, path, i)
         == Floor(buf, if IsPointer(buf[path[0]]) then path[1] else base, path[1..], i - 1)
  {
    if i > 1 {
      FloorOfTail(buf, base, path, i - 1);
    }
  }

  lemma {:induction false} StepOfTail(buf: seq<byte>, len: nat, base: nat, path: seq<nat>, k: nat)
    requires len <= |buf| && 0 < k && k + 1 < |path|
    requires forall i :: 0 <= i < |path| ==> path[i] < len
    ensures StepAt(buf, len, base, path, k) <==>
            StepAt(buf, len, if IsPointer(buf[path[0]]) then path[1] else base, path[1..], k - 1)
  {
    FloorOfTail(buf, base, path, k);
  }

  /** The rest of a walk is a walk from the floor its first step leaves. */
  lemma {:induction false} WalkTail(buf: seq<byte>, len: nat, base: nat, path: seq<nat>)
    requires len <= |buf| && |path| > 1 && Walk(buf, len, base, path)
    ensures path[0] < len && path[1] < len && Step(buf, len, base, path[0], path[1])
    ensures Walk(buf, len, if IsPointer(buf[path[0]]) then path[1] else base, path[1..])
  {
    assert StepAt(buf, len, base, path, 0);
    var base', tail := if IsPointer(buf[path[0]]) then path[1] else base, path[1..];
    forall k | 0 <= k < |tail| - 1
      ensures StepAt(buf, len, base', tail, k)
    {
      assert StepAt(buf, len, base, path, k + 1);
      StepOfTail(buf, len, base, path, k + 1);
    }
  }

  /** A legal step in front of a walk from the floor the step leaves. */
  lemma {:induction false} WalkCons(buf: seq<byte>, len: nat, base: nat, path: seq<nat>)
    requires len <= |buf| && |path| > 1 && path[0] < len && path[1] < len
    requires Step(buf, len, base, path[0], path[1])
    requires Walk(buf, len, if IsPointer(buf[path[0]]) then path[1] else base, path[1..])
    ensures Walk(buf, len, base, path)
  {
    var base', tail := if IsPointer(buf[path[0]]) then path[1] else base, path[1..];
    assert forall i :: 1 <= i < |path| ==> path[i] == tail[i - 1];
    forall k | 0 <= k < |path| - 1
      ensures StepAt(buf, len, base, path, k)
    {
      if k > 0 {
        assert StepAt(buf, len, base', tail, k - 1);
        StepOfTail(buf, len, base, path, k);
      }
    }
  }

  /** One step in front of an expansion. */
  lemma {:induction false} ExpansionCons(buf: seq<byte>, len: nat, off: nat, base: nat, rest: seq<nat>)
    requires len <= |buf| && off < len && rest != [] && rest[0] < len
    requires Step(buf, len, base, off, rest[0])
    requires Expansion(buf, len, rest[0], if IsPointer(buf[off]) then rest[0] else base, rest)
    ensures Expansion(buf, len, off, base, [off] + rest)
  {
    assert ([off] + rest)[1..] == rest;
    WalkCons(buf, len, base, [off] + rest);
  }

  lemma {:induction false} LabelsCons(buf: seq<byte>, len: nat, off: nat, rest: seq<nat>)
    requires off < len <= |buf|
    requires forall k :: 0 <= k < |rest| ==> rest[k] < len
    ensures IsPointer(buf[off]) ==> LabelsOf(buf, len, [off] + rest) == LabelsOf(buf, len, rest)
    ensures !IsPointer(buf[off]) && off + 1 + buf[off] as int <= len ==>
              LabelsOf(buf, len, [off] + rest) == [buf[off + 1..off + 1 + buf[off] as int]] + LabelsOf(buf, len, rest)
    ensures IsPointer(buf[off]) ==> EndOf(buf, [off] + rest) == off + 2
    ensures !IsPointer(buf[off]) ==>
              EndOf(buf, [off] + rest) == if rest == [] then off + 1 else EndOf(buf, rest)
  {
    assert ([off] + rest)[1..] == rest;
  }

  /** Every success of the parser is an expansion, with its labels and its end. */
  lemma {:induction false} ParseIsExpansion(buf: seq<byte>, len: nat, off: nat, base: nat) returns (path: seq<nat>)
    requires base <= off <= len <= |buf|
    requires ParseName(buf, len, off, base).Some?
    ensures Expansion(buf, len, off, base, path)
    ensures ParseName(buf, len, off, base).value == (LabelsOf(buf, len, path), EndOf(buf, path))
    decreases base, len - off
  {
    var rest := [];
    if IsPointer(buf[off]) {
      var t := Target(buf[off], buf[off + 1]);
      rest := ParseIsExpansion(buf, len, t, t);
      ExpansionCons(buf, len, off, base, rest);
    } else if buf[off] != 0 {
      var next := off + 1 + buf[off] as int;
      rest := ParseIsExpansion(buf, len, next, base);
      ExpansionCons(buf, len, off, base, rest);
    } else {
      ParseRoot(buf, len, off, base);
      assert [buf[off + 1..off + 1]] + LabelsOf(buf, len, rest) == [[]];
    }
    LabelsCons(buf, len, off, rest);
    path := [off] + rest;
  }

  /** Every expansion is what the parser returns; so an expansion is unique in what it denotes. */
  lemma {:induction false} ExpansionIsParse(buf: seq<byte>, len: nat, off: nat, base: nat, path: seq<nat>)
    requires base <= off <= len <= |buf|
    requires Expansion(buf, len, off, base, path)
    ensures ParseName(buf, len, off, base) == Some((LabelsOf(buf, len, path), EndOf(buf, path)))
    decreases |path|
  {
    var rest := path[1..];
    assert path == [off] + rest;
    if |path| == 1 {
      ParseRoot(buf, len, off, base);
      LabelsCons(buf, len, off, rest);
      assert [buf[off + 1..off + 1]] + LabelsOf(buf, len, rest) == [[]];
    } else {
      ExpansionTail(buf, len, off, base, path);
      if IsPointer(buf[off]) {
        ExpansionIsParse(buf, len, path[1], path[1], rest);
        ParseOverStep(buf, len, off, base, path[1], path[1], rest);
      } else {
        ExpansionIsParse(buf, len, path[1], base, rest);
        ParseOverStep(buf, len, off, base, path[1], base, rest);
      }
    }
  }

  /** One legal step in front of a path the parser agrees with. */
  lemma {:induction false} ParseOverStep(buf: seq<byte>, len: nat, off: nat, base: nat, q: nat, floor: nat, rest: seq<nat>)
    requires base <= off < len <= |buf| && floor <= q < len && Step(buf, len, base, off, q)
    requires floor == if IsPointer(buf[off]) then q else base
    requires rest != [] && forall k :: 0 <= k < |rest| ==> rest[k] < len
    requires ParseName(buf, len, q, floor) == Some((LabelsOf(buf, len, rest), EndOf(buf, rest)))
    ensures ParseName(buf, len, off, base) == Some((LabelsOf(buf, len, [off] + rest), EndOf(buf, [off] + rest)))
  {
    LabelsCons(buf, len, off, rest);
  }

  lemma {:induction false} ExpansionTail(buf: seq<byte>, len: nat, off: nat, base: nat, path: seq<nat>)
    requires len <= |buf| && |path| > 1
    requires Expansion(buf, len, off, base, path)
    ensures path[0] == off && off < len && path[1] < len && Step(buf, len, base, off, path[1])
    ensures Expansion(buf, len, path[1], if IsPointer(buf[off]) then path[1] else base, path[1..])
  {
    WalkTail(buf, len, base, path);
  }

  /**
   * Decompression is exactly the expansion relation: a name and an end are returned if and only
   * if some path of strictly backward pointers yields them.
   */
  lemma {:induction false} ParseIffExpansion(buf: seq<byte>, len: nat, off: nat, base: nat, name: Name, end: nat)
    requires base <= off <= len <= |buf|
    ensures ParseName(buf, len, off, base) == Some((name, end)) <==>
            exists path :: Expansion(buf, len, off, base, path)
                           && name == LabelsOf(buf, len, path) && end == EndOf(buf, path)
  {
    if ParseName(buf, len, off, base) == Some((name, end)) {
      var path := ParseIsExpansion(buf, len, off, base);
    }
    if path :| Expansion(buf, len, off, base, path)
               && name == LabelsOf(buf, len, path) && end == EndOf(buf, path)
    {
      ExpansionIsParse(buf, len, off, base, path);
    }
  }

  /** No walk, finished or not, is longer than (base + 1) * (len + 1) steps. */
  lemma {:induction false} WalkBounded(buf: seq<byte>, len: nat, base: nat, path: seq<nat>)
    requires len <= |buf| && path != [] && base <= path[0]
    requires Walk(buf, len, base, path)
    ensures |path| <= (base + 1) * (len + 1)
  {
    WalkWithinBudget(buf, len, base, path);
    BudgetPositive(base, len, path[0]);
  }

  lemma {:induction false} WalkWithinBudget(buf: seq<byte>, len: nat, base: nat, path: seq<nat>)
    requires len <= |buf| && path != [] && base <= path[0]
    requires Walk(buf, len, base, path)
    ensures |path| <= Budget(base, len, path[0])
    decreases |path|
  {
    BudgetPositive(base, len, path[0]);
    if |path| > 1 {
      WalkTail(buf, len, base, path);
      if IsPointer(buf[path[0]]) {
        WalkWithinBudget(buf, len, path[1], path[1..]);
        BudgetDrops(base, path[1], len, path[0]);
      } else {
        WalkWithinBudget(buf, len, base, path[1..]);
      }
    }
  }

  // ----- The shape of a parsed name --------------------------------------------------------

  /** Labels that a one-octet length can carry: inner labels and the root. */
  ghost predicate Short(labels: seq<Label>)
  {
    forall i :: 0 <= i < |labels| ==> |labels[i]| <= MAX_LABEL
  }

  /** Labels of 1 to 63 octets. */
  ghost predicate Inner(labels: seq<Label>)
  {
    forall i :: 0 <= i < |labels| ==> 0 < |labels[i]| <= MAX_LABEL
  }

  /** Inner labels closed by the root label, which occurs nowhere else. */
  ghost predicate WellFormed(name: Name)
  {
    name != [] && name[|name| - 1] == [] && Inner(name[..|name| - 1]) && Short(name)
  }

  /** A parsed name is inner labels closed by the root, and reading it moves forward within the length. */
  lemma {:induction false} ParsedShape(buf: seq<byte>, len: nat, off: nat, base: nat)
    requires base <= off <= len <= |buf|
    requires ParseName(buf, len, off, base).Some?
    ensures WellFormed(ParseName(buf, len, off, base).value.0)
    ensures off < ParseName(buf, len, off, base).value.1 <= len
    decreases base, len - off
  {
    if IsPointer(buf[off]) {
      var t := Target(buf[off], buf[off + 1]);
      ParsedShape(buf, len, t, t);
    } else if buf[off] != 0 {
      var next := off + 1 + buf[off] as int;
      ParsedShape(buf, len, next, base);
      var name := ParseName(buf, len, off, base).value.0;
      var rest := ParseName(buf, len, next, base).value.0;
      assert name[..|name| - 1] == [buf[off + 1..next]] + rest[..|rest| - 1];
    }
  }

  /** Octets past the parsed length do not matter, and more of them change nothing. */
  lemma {:induction false} MoreBuffer(buf: seq<byte>, len: nat, buf': seq<byte>, len': nat, off: nat, base: nat)
    requires base <= off <= len <= |buf| && len <= len' <= |buf'|
    requires buf[..len] == buf'[..len]
    requires ParseName(buf, len, off, base).Some?
    ensures ParseName(buf', len', off, base) == ParseName(buf, len, off, base)
    decreases base, len - off
  {
    SameOctet(buf, buf', len, off);
    if IsPointer(buf[off]) {
      var t := Target(buf[off], buf[off + 1]);
      MoreBuffer(buf, len, buf', len', t, t);
      SameOctet(buf, buf', len, off + 1);
      SameOctet(buf, buf', len, t);
      SamePointer(buf, len, buf', len', off, base, t);
    } else {
      var next := off + 1 + buf[off] as int;
      SameSlice(buf, buf', len, off + 1, next);
      if buf[off] != 0 {
        MoreBuffer(buf, len, buf', len', next, base);
      }
      SameLabel(buf, len, buf', len', off, base, next);
    }
  }

  lemma {:induction false} SamePointer(buf: seq<byte>, len: nat, buf': seq<byte>, len': nat, off: nat, base: nat, t: nat)
    requires base <= off < off + 2 <= len <= |buf| && len <= len' <= |buf'|
    requires IsPointer(buf[off]) && t == Target(buf[off], buf[off + 1]) && t < base
    requires buf'[off] == buf[off] && buf'[off + 1] == buf[off + 1] && buf'[t] == buf[t]
    requires ParseName(buf', len', t, t) == ParseName(buf, len, t, t)
    requires ParseName(buf, len, off, base).Some?
    ensures ParseName(buf', len', off, base) == ParseName(buf, len, off, base)
  {
  }

  lemma {:induction false} SameLabel(buf: seq<byte>, len: nat, buf': seq<byte>, len': nat, off: nat, base: nat, next: nat)
    requires base <= off < next <= len <= |buf| && len <= len' <= |buf'|
    requires IsLabel(buf[off]) && next == off + 1 + buf[off] as int
    requires buf'[off] == buf[off] && buf'[off + 1..next] == buf[off + 1..next]
    requires buf[off] == 0 || ParseName(buf', len', next, base) == ParseName(buf, len, next, base)
    ensures ParseName(buf', len', off, base) == ParseName(buf, len, off, base)
  {
  }

  lemma {:induction false} SameSlice(a: seq<byte>, b: seq<byte>, len: nat, i: nat, j: nat)
    requires i <= j <= len <= |a| && len <= |b| && a[..len] == b[..len]
    ensures a[i..j] == b[i..j]
  {
    assert a[i..j] == a[..len][i..j];
    assert b[i..j] == b[..len][i..j];
  }

  lemma {:induction false} SameOctet(a: seq<byte>, b: seq<byte>, len: nat, i: nat)
    requires i < len <= |a| && len <= |b| && a[..len] == b[..len]
    ensures a[i] == b[i]
  {
    assert a[..len][i] == b[..len][i];
  }

  // ----- Encoding, and compression that keeps the meaning ----------------------------------

  /** Length-prefixed labels, RFC 1035 section 3.1. */
  ghost function EncodeLabels(labels: seq<Label>): seq<byte>
    requires Short(labels)
  {
    if labels == [] then []
    else [|labels[0]|] + labels[0] + EncodeLabels(labels[1..])
  }

  lemma {:induction false} EncodeConcat(a: seq<Label>, b: seq<Label>)
    requires Short(a) && Short(b)
    ensures EncodeLabels(a + b) == EncodeLabels(a) + EncodeLabels(b)
  {
    if a == [] {
      assert a + b == b;
    } else {
      EncodeConcat(a[1..], b);
      assert (a + b)[1..] == a[1..] + b;
    }
  }

  lemma {:induction false} WellFormedSplit(name: Name)
    requires WellFormed(name)
    ensures name == name[..|name| - 1] + [[]]
    ensures EncodeLabels(name) == EncodeLabels(name[..|name| - 1]) + [0]
  {
    var inner := name[..|name| - 1];
    assert name == inner + [[]];
    EncodeConcat(inner, [[]]);
    assert EncodeLabels([[]]) == [0];
  }

  /** The two octets of a pointer to offset t. */
  function EncodePointer(t: nat): seq<byte>
    requires t + HEADER_SIZE < 0x4000
  {
    [0xC0 + (t + HEADER_SIZE) / 0x100, (t + HEADER_SIZE) % 0x100]
  }

  lemma {:induction false} EncodedLabelAt(buf: seq<byte>, off: nat, lab: Label, more: seq<byte>)
    requires |lab| <= MAX_LABEL
    requires off + 1 + |lab| + |more| <= |buf|
    requires buf[off..off + 1 + |lab| + |more|] == [|lab|] + lab + more
    ensures buf[off] == |lab|
    ensures buf[off + 1..off + 1 + |lab|] == lab
    ensures buf[off + 1 + |lab|..off + 1 + |lab| + |more|] == more
  {
    ConcatAssociates([|lab|], lab, more);
    SplitAt(buf, off, [|lab|], lab + more);
    assert buf[off..off + 1][0] == buf[off];
    SplitAt(buf, off + 1, lab, more);
  }

  /** Where labels are encoded the first of them is found, and the others after it. */
  lemma {:induction false} FirstOfLabels(buf: seq<byte>, off: nat, after: nat, labels: seq<Label>)
    requires Short(labels) && labels != [] && off <= after <= |buf| && buf[off..after] == EncodeLabels(labels)
    ensures var next := off + 1 + |labels[0]|;
            && next <= after && buf[off] == |labels[0]| && buf[off + 1..next] == labels[0]
            && buf[next..after] == EncodeLabels(labels[1..])
  {
    assert after == off + 1 + |labels[0]| + |EncodeLabels(labels[1..])|;
    EncodedLabelAt(buf, off, labels[0], EncodeLabels(labels[1..]));
  }

  /** Reading over encoded inner labels puts them in front of whatever follows. */
  lemma {:induction false} ParseOverLabels(
    buf: seq<byte>, off: nat, after: nat, base: nat, labels: seq<Label>, rest: Name, end: nat, name: Name)
    requires Inner(labels) && name == labels + rest
    requires base <= off <= after <= |buf| && buf[off..after] == EncodeLabels(labels)
    requires ParseName(buf, |buf|, after, base) == Some((rest, end))
    ensures ParseName(buf, |buf|, off, base) == Some((name, end))
    decreases |labels|
  {
    if labels == [] {
      EmptyConcat(labels, rest);
      assert after == off;
    } else {
      var next := off + 1 + |labels[0]|;
      FirstOfLabels(buf, off, after, labels);
      ParseOverLabels(buf, next, after, base, labels[1..], rest, end, labels[1..] + rest);
      HeadTailConcat(labels, rest);
      ParseOneLabel(buf, off, next, base, labels[1..] + rest, end, name);
    }
  }

  /** A name encoded somewhere in a buffer parses back to its labels. */
  lemma {:induction false} EncodedNameReads(buf: seq<byte>, off: nat, name: Name)
    requires WellFormed(name) && off + |EncodeLabels(name)| <= |buf|
    requires buf[off..off + |EncodeLabels(name)|] == EncodeLabels(name)
    ensures ParseName(buf, |buf|, off, off) == Some((name, off + |EncodeLabels(name)|))
  {
    var inner := name[..|name| - 1];
    WellFormedSplit(name);
    var at := off + |EncodeLabels(inner)|;
    SplitAt(buf, off, EncodeLabels(inner), [0]);
    assert buf[at..at + 1][0] == 0;
    ParseRoot(buf, |buf|, at, off);
    ParseOverLabels(buf, off, at, off, inner, [[]], at + 1, name);
  }

  lemma {:induction false} EncodedNameReadsTo(buf: seq<byte>, off: nat, end: nat, name: Name)
    requires WellFormed(name) && off <= end <= |buf| && buf[off..end] == EncodeLabels(name)
    ensures ParseName(buf, |buf|, off, off) == Some((name, end))
  {
    assert |buf[off..end]| == end - off;
    EncodedNameReads(buf, off, name);
  }

  /** An uncompressed name, anywhere in a message, parses back to its labels. */
  lemma {:induction false} EncodeParse(pre: seq<byte>, name: Name, post: seq<byte>)
    requires WellFormed(name)
    ensures var buf := pre + EncodeLabels(name) + post;
            ParseName(buf, |buf|, |pre|, |pre|) == Some((name, |pre| + |EncodeLabels(name)|))
  {
    var buf := pre + EncodeLabels(name) + post;
    MiddleSlice(pre, EncodeLabels(name), post);
    EncodedNameReads(buf, |pre|, name);
  }

  /** The same, wherever the encoding lies in a buffer read up to len. */
  lemma {:induction false} EncodeParseAt(buf: seq<byte>, len: nat, off: nat, name: Name)
    requires WellFormed(name)
    requires off + |EncodeLabels(name)| <= len <= |buf|
    requires buf[off..off + |EncodeLabels(name)|] == EncodeLabels(name)
    ensures ParseName(buf, len, off, off) == Some((name, off + |EncodeLabels(name)|))
  {
    var end := off + |EncodeLabels(name)|;
    SliceOfTake(buf, off, end);
    EncodedNameReads(buf[..end], off, name);
    MoreBuffer(buf[..end], end, buf, len, off, off);
  }

  /** Labels and a pointer to where the others can be read are read as the whole name. */
  lemma {:induction false} PointerReads(buf: seq<byte>, off: nat, end: nat, name: Name, k: nat, t: nat, e: nat)
    requires WellFormed(name) && k < |name| && t < e <= off <= end <= |buf| && t + HEADER_SIZE < 0x4000
    requires buf[off..end] == EncodeLabels(name[..k]) + EncodePointer(t)
    requires IsLabel(buf[t]) && ParseName(buf, |buf|, t, t) == Some((name[k..], e))
    ensures ParseName(buf, |buf|, off, off) == Some((name, end))
  {
    var front := name[..k];
    var at := off + |EncodeLabels(front)|;
    SplitAt(buf, off, EncodeLabels(front), EncodePointer(t));
    assert buf[at..at + 2] == EncodePointer(t);
    assert buf[at] == EncodePointer(t)[0] && buf[at + 1] == EncodePointer(t)[1];
    FirstLabelBefore(buf, t, name[k..], e);
    ParseOnePointer(buf, at, off, t);
    InnerPrefix(name, k);
    ParseOverLabels(buf, off, at, off, front, name[k..], at + 2, name);
  }

  lemma {:induction false} InnerPrefix(name: Name, k: nat)
    requires WellFormed(name) && k < |name|
    ensures Inner(name[..k]) && name == name[..k] + name[k..]
  {
    assert forall i :: 0 <= i < k ==> name[i] == name[..|name| - 1][i];
  }

  /** The first label of a name lies before the name's end. */
  lemma {:induction false} FirstLabelBefore(buf: seq<byte>, t: nat, name: Name, e: nat)
    requires t < |buf| && IsLabel(buf[t]) && ParseName(buf, |buf|, t, t) == Some((name, e))
    ensures t + buf[t] as int < e
  {
  }

  /**
   * Compression keeps the meaning. Where the octets before the name already hold some name at
   * offset t (itself compressed or not), writing a pointer to t after the first labels reads as
   * those labels followed by that name.
   */
  lemma {:induction false} PointerKeepsMeaning(pre: seq<byte>, front: seq<Label>, suffix: Name, t: nat, post: seq<byte>)
    requires Inner(front) && WellFormed(suffix)
    requires t < |pre| && t + HEADER_SIZE < 0x4000 && IsLabel(pre[t])
    requires ParseName(pre, |pre|, t, t).Some? && ParseName(pre, |pre|, t, t).value.0 == suffix
    ensures var buf := pre + EncodeLabels(front) + EncodePointer(t) + post;
            ParseName(buf, |buf|, |pre|, |pre|) == Some((front + suffix, |pre| + |EncodeLabels(front)| + 2))
  {
    WellFormedConcat(front, suffix);
    ConcatAssociates(pre, EncodeLabels(front), EncodePointer(t));
    PointerReadsAfter(pre, EncodeLabels(front) + EncodePointer(t), post, front + suffix, |front|, t);
  }

  lemma {:induction false} PointerReadsAfter(pre: seq<byte>, octets: seq<byte>, post: seq<byte>, name: Name, k: nat, t: nat)
    requires WellFormed(name) && k < |name| && t < |pre| && t + HEADER_SIZE < 0x4000 && IsLabel(pre[t])
    requires octets == EncodeLabels(name[..k]) + EncodePointer(t)
    requires ParseName(pre, |pre|, t, t).Some? && ParseName(pre, |pre|, t, t).value.0 == name[k..]
    ensures var buf := pre + octets + post; ParseName(buf, |buf|, |pre|, |pre|) == Some((name, |pre| + |octets|))
  {
    var buf := pre + octets + post;
    MiddleSlice(pre, octets, post);
    assert pre[..|pre|] == buf[..|pre|];
    MoreBuffer(pre, |pre|, buf, |buf|, t, t);
    PointerReads(buf, |pre|, |pre| + |octets|, name, k, t, ParseName(pre, |pre|, t, t).value.1);
  }

  lemma {:induction false} WellFormedConcat(front: seq<Label>, suffix: Name)
    requires Inner(front) && WellFormed(suffix)
    ensures WellFormed(front + suffix) && (front + suffix)[..|front|] == front && (front + suffix)[|front|..] == suffix
  {
    var name := front + suffix;
    assert name[..|name| - 1] == front + suffix[..|suffix| - 1];
  }

  lemma {:induction false} ParseOnePointer(buf: seq<byte>, off: nat, base: nat, t: nat)
    requires base <= off && off + 2 <= |buf| && t < base
    requires IsPointer(buf[off]) && Target(buf[off], buf[off + 1]) == t
    requires IsLabel(buf[t]) && buf[t] as int + t < base
    requires ParseName(buf, |buf|, t, t).Some?
    ensures ParseName(buf, |buf|, off, base) == Some((ParseName(buf, |buf|, t, t).value.0, off + 2))
  {
  }

  /** Replacing a name's suffix by a legal pointer to an earlier equal name changes no label. */
  lemma {:induction false} CompressionInvisible(pre: seq<byte>, front: seq<Label>, suffix: Name, t: nat, post: seq<byte>, post': seq<byte>)
    requires Inner(front) && WellFormed(suffix)
    requires t < |pre| && t + HEADER_SIZE < 0x4000 && IsLabel(pre[t])
    requires ParseName(pre, |pre|, t, t).Some? && ParseName(pre, |pre|, t, t).value.0 == suffix
    ensures WellFormed(front + suffix)
    ensures var plain := pre + EncodeLabels(front + suffix) + post;
            var short := pre + EncodeLabels(front) + EncodePointer(t) + post';
            ParseName(plain, |plain|, |pre|, |pre|).Some?
            && ParseName(short, |short|, |pre|, |pre|).Some?
            && ParseName(plain, |plain|, |pre|, |pre|).value.0 == ParseName(short, |short|, |pre|, |pre|).value.0
  {
    var name := front + suffix;
    assert name[..|name| - 1] == front + suffix[..|suffix| - 1];
    EncodeParse(pre, name, post);
    PointerKeepsMeaning(pre, front, suffix, t, post');
  }
}
