// Base 64 into a bounded buffer (Clients/dns-sd.c:465-495; section 4 of RFC 4648).

module Base64 {
  import opened Bytes

  const UPPER: string := "ABCDEFGHIJKLMNOPQRSTUVWXYZ"
  const LOWER: string := "abcdefghijklmnopqrstuvwxyz"
  const OTHERS: string := "0123456789+/"

  /** kBase64EncodingTable. */
  const TABLE: string := UPPER + LOWER + OTHERS

  /** The character of a 6-bit value. */
  function Letter(n: nat): char
    requires n < 64
  {
    if n < 26 then ('A' as int + n) as char
    else if n < 52 then ('a' as int + n - 26) as char
    else if n < 62 then ('0' as int + n - 52) as char
    else if n == 62 then '+'
    else '/'
  }

  lemma {:induction false} TableHoldsLetters(n: nat)
    requires n < 64
    ensures |TABLE| == 64 && TABLE[n] == Letter(n)
  {
    assert |UPPER| == 26 && |LOWER| == 26 && |OTHERS| == 12;
    if n < 26 {
      assert TABLE[n] == UPPER[n];
    } else if n < 52 {
      assert TABLE[n] == LOWER[n - 26];
    } else {
      assert TABLE[n] == OTHERS[n - 52];
    }
  }

  /** The 24 bits of a group; less than three octets are filled up with zero bits. */
  function Bits(src: seq<byte>): (i: nat)
    requires src != []
    ensures i < 0x100_0000
  {
    src[0] as int * 0x1_0000 + (if |src| >= 2 then src[1] as int * 0x100 else 0)
    + (if |src| >= 3 then src[2] as int else 0)
  }

  /** The characters of one group. */
  function Group(src: seq<byte>): (r: string)
    requires src != []
    ensures |r| == 4
  {
    var i := Bits(src);
    [Letter(i / 0x4_0000 % 64), Letter(i / 0x1000 % 64),
     if |src| >= 2 then Letter(i / 64 % 64) else '=', if |src| >= 3 then Letter(i % 64) else '=']
  }

  /** The octets after one group. */
  function Rest(src: seq<byte>): (r: seq<byte>)
    ensures |r| == if |src| > 3 then |src| - 3 else 0
  {
    if |src| > 3 then src[3..] else []
  }

  /** The encoding with no bound. */
  function Encode(src: seq<byte>): string
    decreases |src|
  {
    if src == [] then [] else Group(src) + Encode(Rest(src))
  }

  /** Four characters for every three octets or part of them. */
  lemma {:induction false} EncodeLength(src: seq<byte>)
    ensures |Encode(src)| == 4 * ((|src| + 2) / 3)
    decreases |src|
  {
    if src != [] {
      EncodeLength(Rest(src));
      OneMoreGroup(|src|, Group(src), Encode(Rest(src)));
    }
  }

  lemma {:induction false} OneMoreGroup(n: nat, group: string, more: string)
    requires n > 0 && |group| == 4 && |more| == 4 * (((if n > 3 then n - 3 else 0) + 2) / 3)
    ensures |group + more| == 4 * ((n + 2) / 3)
  {
  }

  // ----- Decoding ------------------------------------------------------------------------------------

  /** The value of a character of the alphabet. */
  function Value(c: char): (v: Option<nat>)
    ensures v.Some? ==> v.value < 64
  {
    if 'A' <= c <= 'Z' then Some(c as int - 'A' as int)
    else if 'a' <= c <= 'z' then Some(c as int - 'a' as int + 26)
    else if '0' <= c <= '9' then Some(c as int - '0' as int + 52)
    else if c == '+' then Some(62)
    else if c == '/' then Some(63)
    else None
  }

  lemma {:induction false} ValueOfLetter(n: nat)
    requires n < 64
    ensures Value(Letter(n)) == Some(n) && Letter(n) != '='
  {
  }

  lemma {:induction false} LetterOfValue(c: char, n: nat)
    requires Value(c) == Some(n)
    ensures Letter(n) == c
  {
  }

  /** The octets of one group of four characters; the bits that fill it up must be zero. */
  function DecodeGroup(g: string): (r: Option<seq<byte>>)
    requires |g| == 4
    ensures r.Some? ==> 1 <= |r.value| <= 3
  {
    var a :- Value(g[0]);
    var b :- Value(g[1]);
    if g[2] == '=' && g[3] == '=' then
      if b % 16 == 0 then Some([(a * 4 + b / 16) as byte]) else None
    else
      var c :- Value(g[2]);
      if g[3] == '=' then
        if c % 4 == 0 then Some([(a * 4 + b / 16) as byte, (b % 16 * 16 + c / 4) as byte]) else None
      else
        var d :- Value(g[3]);
        Some([(a * 4 + b / 16) as byte, (b % 16 * 16 + c / 4) as byte, (c % 4 * 64 + d) as byte])
  }

  /** Only the last group may be filled up. */
  function Decode(s: string): Option<seq<byte>>
  {
    if s == "" then Some([])
    else if |s| < 4 then None
    else
      var octets :- DecodeGroup(s[..4]);
      if |s| == 4 then Some(octets)
      else if |octets| < 3 then None
      else
        var more :- Decode(s[4..]);
        Some(octets + more)
  }

  /** An octet of a group, or zero bits. */
  function OctetAt(src: seq<byte>, k: nat): byte
  {
    if k < |src| then src[k] else 0
  }

  lemma {:induction false} SixBits(p: nat, q: nat, r: nat, s: nat)
    requires p < 64 && q < 64 && r < 64 && s < 64
    ensures var i := p * 0x4_0000 + q * 0x1000 + r * 64 + s;
            i / 0x4_0000 % 64 == p && i / 0x1000 % 64 == q && i / 64 % 64 == r && i % 64 == s
  {
    var i := p * 0x4_0000 + q * 0x1000 + r * 64 + s;
    assert i / 0x4_0000 == p;
    assert i / 0x1000 == p * 64 + q;
    assert i / 64 == p * 0x1000 + q * 64 + r;
  }

  lemma {:induction false} SameBits(x: nat, y: nat, z: nat)
    requires x < 256 && y < 256 && z < 256
    ensures x * 0x1_0000 + y * 0x100 + z
         == x / 4 * 0x4_0000 + (x % 4 * 16 + y / 16) * 0x1000 + (y % 16 * 4 + z / 64) * 64 + z % 64
  {
  }

  /** The 24 bits cut by sixes instead of eights. */
  lemma {:induction false} Sextets(x: nat, y: nat, z: nat)
    requires x < 256 && y < 256 && z < 256
    ensures var i := x * 0x1_0000 + y * 0x100 + z;
            && i / 0x4_0000 % 64 == x / 4 && i / 0x1000 % 64 == x % 4 * 16 + y / 16
            && i / 64 % 64 == y % 16 * 4 + z / 64 && i % 64 == z % 64
  {
    SameBits(x, y, z);
    SixBits(x / 4, x % 4 * 16 + y / 16, y % 16 * 4 + z / 64, z % 64);
  }

  /** p, q, r and s are the sextets of a group. */
  ghost predicate AreSextets(src: seq<byte>, p: nat, q: nat, r: nat, s: nat)
  {
    var x, y, z := OctetAt(src, 0) as nat, OctetAt(src, 1) as nat, OctetAt(src, 2) as nat;
    p == x / 4 && q == x % 4 * 16 + y / 16 && r == y % 16 * 4 + z / 64 && s == z % 64
  }

  function Chars(n: nat, p: nat, q: nat, r: nat, s: nat): string
    requires p < 64 && q < 64 && r < 64 && s < 64
  {
    [Letter(p), Letter(q), if n >= 2 then Letter(r) else '=', if n >= 3 then Letter(s) else '=']
  }

  lemma {:induction false} GroupBySextets(src: seq<byte>, p: nat, q: nat, r: nat, s: nat)
    requires src != [] && AreSextets(src, p, q, r, s)
    ensures p < 64 && q < 64 && r < 64 && s < 64 && Group(src) == Chars(|src|, p, q, r, s)
  {
    var x, y, z := OctetAt(src, 0) as nat, OctetAt(src, 1) as nat, OctetAt(src, 2) as nat;
    Sextets(x, y, z);
    assert Bits(src) == x * 0x1_0000 + y * 0x100 + z;
  }

  /** Putting sextets together again. */
  lemma {:induction false} Octets(x: nat, y: nat, z: nat)
    requires x < 256 && y < 256 && z < 256
    ensures x / 4 * 4 + (x % 4 * 16 + y / 16) / 16 == x
    ensures (x % 4 * 16 + y / 16) % 16 * 16 + (y % 16 * 4 + z / 64) / 4 == y
    ensures (y % 16 * 4 + z / 64) % 4 * 64 + z % 64 == z
    ensures x % 4 * 16 + y / 16 < 64 && y % 16 * 4 + z / 64 < 64
    ensures z == 0 ==> (y % 16 * 4 + z / 64) % 4 == 0
    ensures y == 0 ==> (x % 4 * 16 + y / 16) % 16 == 0
  {
  }

  lemma {:induction false} DecodeOfLetters(p: nat, q: nat, r: nat, s: nat)
    requires p < 64 && q < 64 && r < 64 && s < 64
    ensures var x, y, z := (p * 4 + q / 16) as byte, (q % 16 * 16 + r / 4) as byte, (r % 4 * 64 + s) as byte;
            && DecodeGroup([Letter(p), Letter(q), Letter(r), Letter(s)]) == Some([x, y, z])
            && (r % 4 == 0 ==> DecodeGroup([Letter(p), Letter(q), Letter(r), '=']) == Some([x, y]))
            && (q % 16 == 0 ==> DecodeGroup([Letter(p), Letter(q), '=', '=']) == Some([x]))
  {
    ValueOfLetter(p);
    ValueOfLetter(q);
    ValueOfLetter(r);
    ValueOfLetter(s);
  }

  /** The octets of one group. */
  function Octets3(src: seq<byte>): seq<byte>
  {
    if |src| > 3 then src[..3] else src
  }

  lemma {:induction false} OctetsOfGroup(src: seq<byte>)
    requires src != []
    ensures var x, y, z := OctetAt(src, 0), OctetAt(src, 1), OctetAt(src, 2);
            && Octets3(src) == (if |src| >= 3 then [x, y, z] else if |src| == 2 then [x, y] else [x])
            && (|src| < 3 ==> z == 0) && (|src| < 2 ==> y == 0)
  {
  }

  lemma {:induction false} DecodeOfChars(src: seq<byte>, p: nat, q: nat, r: nat, s: nat)
    requires src != [] && AreSextets(src, p, q, r, s) && p < 64 && q < 64 && r < 64 && s < 64
    ensures DecodeGroup(Chars(|src|, p, q, r, s)) == Some(Octets3(src))
  {
    Octets(OctetAt(src, 0), OctetAt(src, 1), OctetAt(src, 2));
    OctetsOfGroup(src);
    DecodeOfChars3(|src|, p, q, r, s, OctetAt(src, 0), OctetAt(src, 1), OctetAt(src, 2));
  }

  /** The characters of n octets, the ones they do not reach being zero. */
  lemma {:induction false} DecodeOfChars3(n: nat, p: nat, q: nat, r: nat, s: nat, x: byte, y: byte, z: byte)
    requires n > 0 && p < 64 && q < 64 && r < 64 && s < 64
    requires x == p * 4 + q / 16 && y == q % 16 * 16 + r / 4 && z == r % 4 * 64 + s
    requires n < 3 ==> r % 4 == 0
    requires n < 2 ==> q % 16 == 0
    ensures DecodeGroup(Chars(n, p, q, r, s))
         == Some(if n >= 3 then [x, y, z] else if n == 2 then [x, y] else [x])
  {
    DecodeOfLetters(p, q, r, s);
  }

  lemma {:induction false} DecodeOfGroup(src: seq<byte>)
    requires src != []
    ensures DecodeGroup(Group(src)) == Some(Octets3(src))
  {
    var x, y, z := OctetAt(src, 0) as nat, OctetAt(src, 1) as nat, OctetAt(src, 2) as nat;
    GroupBySextets(src, x / 4, x % 4 * 16 + y / 16, y % 16 * 4 + z / 64, z % 64);
    DecodeOfChars(src, x / 4, x % 4 * 16 + y / 16, y % 16 * 4 + z / 64, z % 64);
  }

  /** Cutting octets made of sextets. */
  lemma {:induction false} SextetsAgain(a: nat, b: nat, c: nat, d: nat)
    requires a < 64 && b < 64 && c < 64 && d < 64
    ensures var x, y, z := a * 4 + b / 16, b % 16 * 16 + c / 4, c % 4 * 64 + d;
            && x / 4 == a && x % 4 * 16 + y / 16 == b && y % 16 * 4 + z / 64 == c && z % 64 == d
  {
  }

  lemma {:induction false} GroupOfOne(a: nat, b: nat, src: seq<byte>)
    requires a < 64 && b < 64 && b % 16 == 0 && src == [(a * 4 + b / 16) as byte]
    ensures Group(src) == [Letter(a), Letter(b), '=', '=']
  {
    SextetsAgain(a, b, 0, 0);
    GroupBySextets(src, a, b, 0, 0);
  }

  lemma {:induction false} GroupOfTwo(a: nat, b: nat, c: nat, src: seq<byte>)
    requires a < 64 && b < 64 && c < 64 && c % 4 == 0
    requires src == [(a * 4 + b / 16) as byte, (b % 16 * 16 + c / 4) as byte]
    ensures Group(src) == [Letter(a), Letter(b), Letter(c), '=']
  {
    SextetsAgain(a, b, c, 0);
    GroupBySextets(src, a, b, c, 0);
  }

  lemma {:induction false} GroupOfThree(a: nat, b: nat, c: nat, d: nat, src: seq<byte>)
    requires a < 64 && b < 64 && c < 64 && d < 64
    requires src == [(a * 4 + b / 16) as byte, (b % 16 * 16 + c / 4) as byte, (c % 4 * 64 + d) as byte]
    ensures Group(src) == [Letter(a), Letter(b), Letter(c), Letter(d)]
  {
    SextetsAgain(a, b, c, d);
    GroupBySextets(src, a, b, c, d);
  }

  lemma {:induction false} GroupOfDecoded(g: string, src: seq<byte>)
    requires |g| == 4 && DecodeGroup(g) == Some(src)
    ensures Group(src) == g
  {
    var a, b := Value(g[0]).value, Value(g[1]).value;
    LetterOfValue(g[0], a);
    LetterOfValue(g[1], b);
    if g[2] == '=' {
      GroupOfOne(a, b, src);
    } else {
      var c := Value(g[2]).value;
      LetterOfValue(g[2], c);
      if g[3] == '=' {
        GroupOfTwo(a, b, c, src);
      } else {
        LetterOfValue(g[3], Value(g[3]).value);
        GroupOfThree(a, b, c, Value(g[3]).value, src);
      }
    }
  }

  /** Decoding an encoding returns the input. */
  lemma {:induction false} DecodeEncode(src: seq<byte>)
    ensures Decode(Encode(src)) == Some(src)
    decreases |src|
  {
    if src != [] {
      DecodeOfGroup(src);
      DecodeEncode(Rest(src));
      var s := Encode(src);
      assert s[..4] == Group(src) && s[4..] == Encode(Rest(src));
      assert |src| > 3 ==> src == src[..3] + src[3..];
    }
  }

  lemma {:induction false} GroupFirst(octets: seq<byte>, more: seq<byte>)
    requires |octets| == 3
    ensures Group(octets + more) == Group(octets) && Rest(octets + more) == more
  {
    assert Bits(octets + more) == Bits(octets);
  }

  /** And only the encoding decodes to it. */
  lemma {:induction false} EncodeDecode(s: string, src: seq<byte>)
    requires Decode(s) == Some(src)
    ensures Encode(src) == s
    decreases |s|
  {
    if s != "" {
      var octets := DecodeGroup(s[..4]).value;
      GroupOfDecoded(s[..4], octets);
      if |s| == 4 {
        assert s[..4] == s && Rest(src) == [];
      } else {
        var more := Decode(s[4..]).value;
        EncodeDecode(s[4..], more);
        GroupFirst(octets, more);
        assert s == s[..4] + s[4..];
      }
    }
  }

  // ----- The bounded buffer -------------------------------------------------------------------------

  /** Writes four characters as far as they fit below lim. */
  method PutFour(buffer: array<char>, start: nat, lim: nat, c0: char, c1: char, c2: char, c3: char) returns (dst: nat)
    requires start < lim <= buffer.Length
    modifies buffer
    ensures dst == Min(start + 4, lim)
    ensures buffer[..dst] == old(buffer[..start]) + [c0, c1, c2, c3][..dst - start]
    ensures buffer[dst..] == old(buffer[dst..])
  {
    dst := start;
    buffer[dst] := c0;
    dst := dst + 1;
    if dst < lim {
      buffer[dst] := c1;
      dst := dst + 1;
    }
    if dst < lim {
      buffer[dst] := c2;
      dst := dst + 1;
    }
    if dst < lim {
      buffer[dst] := c3;
      dst := dst + 1;
    }
  }

  /** The characters of one group, from the table. */
  method FormGroup(src: seq<byte>) returns (c0: char, c1: char, c2: char, c3: char)
    requires src != []
    ensures Group(src) == [c0, c1, c2, c3]
  {
    var rem := |src|;
    var i := src[0] as int * 0x1_0000 + (if rem >= 2 then src[1] as int * 0x100 else 0)
             + (if rem >= 3 then src[2] as int else 0);
    TableHoldsLetters(i / 0x4_0000 % 64);
    TableHoldsLetters(i / 0x1000 % 64);
    TableHoldsLetters(i / 64 % 64);
    TableHoldsLetters(i % 64);
    c0, c1 := TABLE[i / 0x4_0000 % 64], TABLE[i / 0x1000 % 64];
    c2, c3 := if rem >= 2 then TABLE[i / 64 % 64] else '=', if rem >= 3 then TABLE[i % 64] else '=';
  }

  /** base64Encode: as much of the encoding as fits before the NUL, and nothing into an empty buffer. */
  method Base64Encode(buffer: array<char>, rdata: seq<byte>)
    modifies buffer
    ensures buffer.Length > 0 ==>
              var n := Min(|Encode(rdata)|, buffer.Length - 1);
              && buffer[..n] == Encode(rdata)[..n] && buffer[n] == '\0'
              && buffer[n + 1..] == old(buffer[n + 1..])
  {
    if buffer.Length == 0 {
      return;
    }
    var dst := FillWithGroups(buffer, rdata, buffer.Length - 1);
    buffer[dst] := '\0';
  }

  /** The loop: whole groups, and of the last one what fits below lim. */
  method FillWithGroups(buffer: array<char>, rdata: seq<byte>, lim: nat) returns (dst: nat)
    requires lim < buffer.Length
    modifies buffer
    ensures dst == Min(|Encode(rdata)|, lim)
    ensures Holds(buffer[..], dst, Encode(rdata), old(buffer[..]))
  {
    var src := rdata;
    dst := 0;
    ghost var done, was := "", buffer[..];
    EmptyConcat(done, Encode(src));
    while |src| > 0 && dst < lim
      invariant done + Encode(src) == Encode(rdata)
      invariant dst == Min(|done|, lim) && Holds(buffer[..], dst, done, was)
      decreases |src|
    {
      ConcatAssociates(done, Group(src), Encode(Rest(src)));
      ghost var before, start := buffer[..], dst;
      var c0, c1, c2, c3 := FormGroup(src);
      dst := PutFour(buffer, dst, lim, c0, c1, c2, c3);
      OneGroupMore(was, before, buffer[..], done, Group(src), start, dst);
      done, src := done + Group(src), Rest(src);
    }
    PartOfMore(done, Encode(src), dst);
  }

  /** The first n characters of b are those of s, and the others those of was. */
  ghost predicate Holds(b: seq<char>, n: nat, s: string, was: seq<char>)
  {
    n <= |b| == |was| && n <= |s| && b[..n] == s[..n] && b[n..] == was[n..]
  }

  lemma {:induction false} OneGroupMore(was: seq<char>, before: seq<char>, after: seq<char>, done: string, group: string, start: nat, dst: nat)
    requires Holds(before, start, done, was) && start == |done|
    requires start <= dst <= |after| == |before| && dst - start <= |group|
    requires after[..dst] == before[..start] + group[..dst - start] && after[dst..] == before[dst..]
    ensures Holds(after, dst, done + group, was)
  {
    PartOfMore(done, group, dst);
    assert done[..start] == done;
    assert before[dst..] == before[start..][dst - start..];
    assert was[dst..] == was[start..][dst - start..];
  }

  lemma {:induction false} PartOfMore(a: string, b: string, n: nat)
    requires n <= |a + b|
    ensures n <= |a| ==> (a + b)[..n] == a[..n]
    ensures |a| <= n ==> (a + b)[..n] == a + b[..n - |a|]
  {
  }
}
