// Octets, big-endian integers and the small definitions the decoders share.

module Bytes {

  /** The header of a DNS message, RFC 1035 section 4.1.1, which a DSO message has too. */
  const HEADER_SIZE := 12

  type byte = b: int | 0 <= b < 0x100
  type uint16 = v: int | 0 <= v < 0x1_0000
  type uint32 = v: int | 0 <= v < 0x1_0000_0000
  type uint64 = v: int | 0 <= v < 0x1_0000_0000_0000_0000

  datatype Option<+T> = None | Some(value: T) {
    predicate IsFailure() { None? }

    function PropagateFailure<U>(): Option<U>
      requires None?
    {
      None
    }

    function Extract(): T
      requires Some?
    {
      value
    }
  }

  function Min(a: nat, b: nat): nat { if a < b then a else b }

  /** The number of distinct values that fit in n octets. */
  function Pow256(n: nat): (p: nat)
    ensures p > 0
  {
    if n == 0 then 1 else 256 * Pow256(n - 1)
  }

  lemma {:induction false} Pow256Values()
    ensures Pow256(1) == 0x100
    ensures Pow256(2) == 0x1_0000
    ensures Pow256(4) == 0x1_0000_0000
    ensures Pow256(8) == 0x1_0000_0000_0000_0000
  {
    assert Pow256(1) == 256 * Pow256(0);
    assert Pow256(2) == 256 * Pow256(1);
    assert Pow256(3) == 256 * Pow256(2);
    assert Pow256(4) == 256 * Pow256(3);
    assert Pow256(5) == 256 * Pow256(4);
    assert Pow256(6) == 256 * Pow256(5);
    assert Pow256(7) == 256 * Pow256(6);
    assert Pow256(8) == 256 * Pow256(7);
  }

  /** The n-octet big-endian ("network order") form of v. */
  function BigEndian(v: nat, n: nat): (s: seq<byte>)
    ensures |s| == n
  {
    if n == 0 then [] else BigEndian(v / 256, n - 1) + [v % 256]
  }

  /** The value of an octet string read as a big-endian integer. */
  function FromBigEndian(s: seq<byte>): nat
  {
    if s == [] then 0 else FromBigEndian(s[..|s| - 1]) * 256 + s[|s| - 1]
  }

  lemma {:induction false} FromBigEndianBound(s: seq<byte>)
    ensures FromBigEndian(s) < Pow256(|s|)
  {
    if s != [] {
      FromBigEndianBound(s[..|s| - 1]);
    }
  }

  lemma {:induction false} BigEndianRoundTrip(v: nat, n: nat)
    requires v < Pow256(n)
    ensures FromBigEndian(BigEndian(v, n)) == v
  {
    if n > 0 {
      BigEndianRoundTrip(v / 256, n - 1);
      var s := BigEndian(v, n);
      assert s[..|s| - 1] == BigEndian(v / 256, n - 1);
    }
  }

  lemma {:induction false} FromBigEndianRoundTrip(s: seq<byte>)
    ensures BigEndian(FromBigEndian(s), |s|) == s
  {
    if s != [] {
      FromBigEndianRoundTrip(s[..|s| - 1]);
      assert s == s[..|s| - 1] + [s[|s| - 1]];
    }
  }

  /** Two octets combined with a shift and an or. */
  function Be16(b0: byte, b1: byte): uint16
  {
    b0 as int * 0x100 + b1 as int
  }

  /** Four octets combined with shifts. */
  function Be32(b0: byte, b1: byte, b2: byte, b3: byte): uint32
  {
    b0 as int * 0x100_0000 + b1 as int * 0x1_0000 + b2 as int * 0x100 + b3 as int
  }

  lemma {:induction false} FromBigEndian2(s: seq<byte>)
    requires |s| == 2
    ensures FromBigEndian(s) == Be16(s[0], s[1])
  {
    assert s[..1] == [s[0]] && s[..1][..0] == [];
    assert FromBigEndian(s[..1]) == s[0];
  }

  lemma {:induction false} FromBigEndian4(s: seq<byte>)
    requires |s| == 4
    ensures FromBigEndian(s) == Be32(s[0], s[1], s[2], s[3])
  {
    FromBigEndian2(s[..2]);
    assert s[..3][..2] == s[..2];
    assert FromBigEndian(s[..3]) == FromBigEndian(s[..2]) * 256 + s[2];
  }

  lemma {:induction false} FromBigEndianConcat(a: seq<byte>, b: seq<byte>)
    ensures FromBigEndian(a + b) == FromBigEndian(a) * Pow256(|b|) + FromBigEndian(b)
  {
    if b == [] {
      assert a + b == a;
    } else {
      var b', last := b[..|b| - 1], b[|b| - 1];
      FromBigEndianConcat(a, b');
      assert (a + b)[..|a + b| - 1] == a + b';
      assert FromBigEndian(a + b) == FromBigEndian(a + b') * 256 + last as int;
      Regroup(FromBigEndian(a), Pow256(|b'|), FromBigEndian(b'), last);
    }
  }

  lemma {:induction false} Regroup(x: nat, p: nat, y: nat, last: nat)
    ensures (x * p + y) * 256 + last == x * (256 * p) + (y * 256 + last)
  {
  }

  lemma {:induction false} BigEndian2(v: nat)
    ensures BigEndian(v, 2) == [v / 256 % 256, v % 256]
  {
    assert BigEndian(v / 256, 1) == BigEndian(v / 256 / 256, 0) + [v / 256 % 256];
  }

  /** The parts of a concatenation found inside a buffer. */
  lemma {:induction false} SplitAt<T>(buf: seq<T>, off: nat, a: seq<T>, b: seq<T>)
    requires off + |a| + |b| <= |buf|
    requires buf[off..off + |a| + |b|] == a + b
    ensures buf[off..off + |a|] == a
    ensures buf[off + |a|..off + |a| + |b|] == b
  {
    var ab := buf[off..off + |a| + |b|];
    assert buf[off..off + |a|] == ab[..|a|] == a;
    assert buf[off + |a|..off + |a| + |b|] == ab[|a|..] == b;
  }

  lemma {:induction false} SliceOfTake<T>(buf: seq<T>, a: nat, b: nat)
    requires a <= b <= |buf|
    ensures buf[..b][a..b] == buf[a..b] && buf[..b][..b] == buf[..b]
  {
  }

  /** The n octets at off as a big-endian integer. */
  function Uint(buf: seq<byte>, off: nat, n: nat): nat
    requires off + n <= |buf|
  {
    FromBigEndian(buf[off..off + n])
  }

  /** A number encoded at off reads back, and what was encoded after it follows. */
  lemma {:induction false} FieldAt(buf: seq<byte>, off: nat, v: nat, n: nat, more: seq<byte>)
    requires off + n + |more| <= |buf| && v < Pow256(n)
    requires buf[off..off + n + |more|] == BigEndian(v, n) + more
    ensures Uint(buf, off, n) == v
    ensures buf[off + n..off + n + |more|] == more
  {
    SplitAt(buf, off, BigEndian(v, n), more);
    BigEndianRoundTrip(v, n);
  }

  /** A range of a buffer, found to be two parts. */
  lemma {:induction false} SplitRange<T>(buf: seq<T>, off: nat, end: nat, a: seq<T>, b: seq<T>)
    requires off <= end <= |buf| && buf[off..end] == a + b
    ensures off + |a| <= end && off + |a| + |b| == end
    ensures buf[off..off + |a|] == a && buf[off + |a|..end] == b
  {
    assert |buf[off..end]| == end - off;
    SplitAt(buf, off, a, b);
  }

  /** The rest of a buffer, found to be two parts. */
  lemma {:induction false} SplitRest<T>(buf: seq<T>, off: nat, a: seq<T>, b: seq<T>)
    requires off <= |buf| && buf[off..] == a + b
    ensures off + |a| + |b| == |buf|
    ensures buf[off..off + |a|] == a
    ensures buf[off + |a|..] == b
  {
    var rest := buf[off..];
    assert buf[off..off + |a|] == rest[..|a|] == a;
    assert buf[off + |a|..] == rest[|a|..] == b;
  }

  lemma {:induction false} HeadTailConcat<T>(s: seq<T>, more: seq<T>)
    requires s != []
    ensures [s[0]] + (s[1..] + more) == s + more
  {
  }

  /** A slice of a concatenation that is its middle part. */
  lemma {:induction false} MiddleSlice<T>(pre: seq<T>, mid: seq<T>, post: seq<T>)
    ensures (pre + mid + post)[|pre|..|pre| + |mid|] == mid
  {
  }

  lemma {:induction false} ConcatAssociates<T>(a: seq<T>, b: seq<T>, c: seq<T>)
    ensures a + (b + c) == (a + b) + c
  {
  }

  lemma {:induction false} EmptyConcat<T>(a: seq<T>, b: seq<T>)
    requires |a| == 0
    ensures a + b == b && b + a == b
  {
  }

  lemma {:induction false} SliceJoin<T>(s: seq<T>, a: nat, b: nat, c: nat)
    requires a <= b <= c <= |s|
    ensures s[a..c] == s[a..b] + s[b..c]
  {
  }
}
