// How RegisterService reads an argument and ShowTXTRecord prints an octet, by their characters
// (Clients/dns-sd.c:803-835 and 1533-1575).

module TxtReading {
  import opened Bytes
  import opened TxtText

  const UPPER_DIGITS := "0123456789ABCDEF"
  const LOWER_DIGITS := "0123456789abcdef"

  /** d is a hexadecimal digit of value v, in either case. */
  predicate IsDigit(d: byte, v: nat)
  {
    v < 16 && (UPPER_DIGITS[v] as int == d as int || LOWER_DIGITS[v] as int == d as int)
  }

  predicate SomeDigit(d: byte)
  {
    exists v: nat :: v < 16 && IsDigit(d, v)
  }

  lemma {:induction false} DigitValue(d: byte, v: nat)
    ensures IsDigit(d, v) <==> IsHexDigit(d) && v == HexVal(d)
  {
    if v < 16 {
      DigitsAre(v);
    }
    if IsHexDigit(d) {
      DigitsAre(HexVal(d));
    }
  }

  lemma {:induction false} DigitsAre(v: nat)
    requires v < 16
    ensures UPPER_DIGITS[v] as int == if v < 10 then 0x30 + v else 0x41 + v - 10
    ensures LOWER_DIGITS[v] as int == if v < 10 then 0x30 + v else 0x61 + v - 10
  {
  }

  // ----- Reading ----------------------------------------------------------------------------------

  /** What an argument is made of: a character that stands for itself, one after a backslash, an octet in hex. */
  datatype Piece = Plain(c: byte) | Escaped(c: byte) | Hex(v: byte, hi: byte, lo: byte)

  function Written(piece: Piece): seq<byte>
  {
    match piece
    case Plain(c) => [c]
    case Escaped(c) => [0x5c, c]
    case Hex(_, hi, lo) => [0x5c, 0x78, hi, lo]
  }

  function Meaning(piece: Piece): byte
  {
    match piece
    case Plain(c) => c
    case Escaped(c) => c
    case Hex(v, _, _) => v
  }

  function Text(pieces: seq<Piece>): seq<byte>
  {
    if pieces == [] then [] else Written(pieces[0]) + Text(pieces[1..])
  }

  function Meanings(pieces: seq<Piece>): seq<byte>
  {
    if pieces == [] then [] else [Meaning(pieces[0])] + Meanings(pieces[1..])
  }

  /**
   * A backslash stands for itself only at the end; an x and two hexadecimal digits after a backslash
   * are a hex piece, whose digits may be of either case, and not an escaped x.
   */
  ghost predicate Suits(piece: Piece, rest: seq<byte>)
  {
    match piece
    case Plain(c) => c != 0x5c || rest == []
    case Escaped(c) => !(c == 0x78 && |rest| >= 2 && SomeDigit(rest[0]) && SomeDigit(rest[1]))
    case Hex(v, hi, lo) => IsDigit(hi, v as int / 16) && IsDigit(lo, v as int % 16)
  }

  ghost predicate Proper(pieces: seq<Piece>)
  {
    pieces == [] || (Suits(pieces[0], Text(pieces[1..])) && Proper(pieces[1..]))
  }

  lemma {:induction false} PieceReads(piece: Piece, rest: seq<byte>)
    requires Suits(piece, rest)
    ensures TakeOctet(Written(piece) + rest) == (Meaning(piece), |Written(piece)|)
    ensures (Written(piece) + rest)[|Written(piece)|..] == rest
  {
    match piece
    case Plain(_) =>
    case Escaped(c) =>
      if c == 0x78 && |rest| >= 2 {
        NoDigits(rest[0], rest[1]);
      }
    case Hex(v, hi, lo) =>
      DigitValue(hi, v as int / 16);
      DigitValue(lo, v as int % 16);
  }

  lemma {:induction false} NoDigits(hi: byte, lo: byte)
    ensures SomeDigit(hi) && SomeDigit(lo) <==> IsHexDigit(hi) && IsHexDigit(lo)
  {
    SomeDigitIff(hi);
    SomeDigitIff(lo);
  }

  lemma {:induction false} SomeDigitIff(d: byte)
    ensures SomeDigit(d) <==> IsHexDigit(d)
  {
    DigitValue(d, HexVal(d));
    if v: nat :| v < 16 && IsDigit(d, v) {
      DigitValue(d, v);
    }
  }

  /** An argument is read as what its pieces mean, cut at 255 octets. */
  lemma {:induction false} ArgumentReads(pieces: seq<Piece>)
    requires Proper(pieces)
    ensures ReadArg(Text(pieces)) == Meanings(pieces)[..Min(|Meanings(pieces)|, 255)]
  {
    ReadsOn(pieces, []);
    assert [] + Meanings(pieces) == Meanings(pieces);
  }

  lemma {:induction false} ReadsOn(pieces: seq<Piece>, sofar: seq<byte>)
    requires Proper(pieces) && |sofar| <= 255
    ensures ReadOn(Text(pieces), sofar) == (sofar + Meanings(pieces))[..Min(|sofar + Meanings(pieces)|, 255)]
    decreases |pieces|
  {
    if pieces == [] {
      assert sofar + [] == sofar;
    } else if |sofar| < 255 {
      PieceReads(pieces[0], Text(pieces[1..]));
      ReadsOn(pieces[1..], sofar + [Meaning(pieces[0])]);
      ConcatAssociates(sofar, [Meaning(pieces[0])], Meanings(pieces[1..]));
    } else {
      assert (sofar + Meanings(pieces))[..255] == sofar;
    }
  }

  /** Every argument is made of pieces. */
  lemma {:induction false} PiecesOf(p: seq<byte>) returns (pieces: seq<Piece>)
    ensures Proper(pieces) && Text(pieces) == p
    decreases |p|
  {
    if p == [] {
      pieces := [];
    } else {
      var piece := FirstPiece(p);
      var more := PiecesOf(p[|Written(piece)|..]);
      pieces := [piece] + more;
      assert pieces[1..] == more;
    }
  }

  lemma {:induction false} FirstPiece(p: seq<byte>) returns (piece: Piece)
    requires p != []
    ensures |Written(piece)| <= |p| && p == Written(piece) + p[|Written(piece)|..]
    ensures Suits(piece, p[|Written(piece)|..])
  {
    if p[0] != 0x5c || |p| == 1 {
      piece := Plain(p[0]);
    } else if p[1] == 0x78 && |p| >= 4 && IsHexDigit(p[2]) && IsHexDigit(p[3]) {
      var v := HexVal(p[2]) * 16 + HexVal(p[3]);
      piece := Hex(v, p[2], p[3]);
      DigitValue(p[2], v / 16);
      DigitValue(p[3], v % 16);
    } else {
      piece := Escaped(p[1]);
      if |p| >= 4 {
        NoDigits(p[2], p[3]);
      }
    }
  }

  // ----- Printing ---------------------------------------------------------------------------------

  const INVALID_TEXT := "<< invalid data >>"

  /** A record whose first string would pass its end is printed as invalid. */
  lemma {:induction false} InvalidPrints(rec: seq<byte>)
    requires rec != [] && 1 + rec[0] as int > |rec|
    ensures |Show(rec)| == |INVALID_TEXT| && forall i :: 0 <= i < |INVALID_TEXT| ==> Show(rec)[i] as int == INVALID_TEXT[i] as int
  {
  }

  /** Any other record is printed string by string, each that is not empty after a space. */
  lemma {:induction false} StringPrints(s: seq<byte>, rest: seq<byte>)
    requires |s| <= 255
    ensures Show([|s| as byte] + s + rest) == (if s == [] then [] else [0x20] + ShowOctets(s)) + Show(rest)
  {
    var rec := [|s| as byte] + s + rest;
    assert rec[1..1 + |s|] == s && rec[1 + |s|..] == rest;
  }

  /**
   * An octet is printed as itself, after a backslash if the shell gives it a meaning; a backslash as
   * four; and a control character as two backslashes, an x and two upper-case hexadecimal digits,
   * NUL after one more backslash.
   */
  lemma {:induction false} OctetPrints(c: byte)
    ensures c == 0x5c ==> ShowOctet(c) == [0x5c, 0x5c, 0x5c, 0x5c]
    ensures c >= 0x20 && c != 0x5c ==> ShowOctet(c) == if InShellList(c) then [0x5c, c] else [c]
    ensures 0 < c < 0x20 ==>
              ShowOctet(c) == [0x5c, 0x5c, 0x78, UPPER_DIGITS[c as int / 16] as int, UPPER_DIGITS[c as int % 16] as int]
    ensures c == 0 ==> ShowOctet(c) == [0x5c, 0x5c, 0x5c, 0x78, 0x30, 0x30]
  {
    MetaIff(c);
    DigitsAre(c as int / 16);
    DigitsAre(c as int % 16);
  }
}
