// Printing a TXT record for the shell and reading its words back
// (Clients/dns-sd.c:803-835 and 1524-1575).

module TxtText {
  import opened Bytes

  const SPACE: byte := 0x20
  const BACKSLASH: byte := 0x5c
  const LOWER_X: byte := 0x78
  const MAX_TXT_RECORD: nat := 8900

  /** The characters that get a backslash: strchr finds those of its list and the NUL that ends it. */
  predicate Meta(c: byte)
  {
    c in {0, 0x20, 0x26, 0x3b, 0x60, 0x27, 0x22, 0x7c, 0x2a, 0x3f, 0x7e, 0x3c, 0x3e, 0x5e,
          0x28, 0x29, 0x5b, 0x5d, 0x7b, 0x7d, 0x24}
  }

  function HexDigit(n: nat): (c: byte)
    requires n < 16
  {
    if n < 10 then (0x30 + n) as byte else (0x41 + n - 10) as byte
  }

  /** What is printed for one octet of a string. */
  function ShowOctet(c: byte): seq<byte>
  {
    (if Meta(c) then [BACKSLASH] else [])
    + (if c == BACKSLASH then [BACKSLASH, BACKSLASH, BACKSLASH, BACKSLASH]
       else if c >= SPACE then [c]
       else [BACKSLASH, BACKSLASH, LOWER_X, HexDigit(c as int / 16), HexDigit(c as int % 16)])
  }

  function ShowOctets(s: seq<byte>): seq<byte>
  {
    if s == [] then [] else ShowOctet(s[0]) + ShowOctets(s[1..])
  }

  /** "<< invalid data >>" */
  const INVALID: seq<byte> := [0x3c, 0x3c, 0x20, 0x69, 0x6e, 0x76, 0x61, 0x6c, 0x69, 0x64, 0x20,
                               0x64, 0x61, 0x74, 0x61, 0x20, 0x3e, 0x3e]

  /** What is printed for a record. */
  function Show(rec: seq<byte>): seq<byte>
  {
    if rec == [] then []
    else
      var n := rec[0] as nat;
      if 1 + n > |rec| then INVALID
      else (if n > 0 then [SPACE] + ShowOctets(rec[1..1 + n]) else []) + Show(rec[1 + n..])
  }

  // ----- The shell and the reader -----------------------------------------------------------------

  function SoFar(word: Option<seq<byte>>): seq<byte>
  {
    if word.Some? then word.value else []
  }

  /** The words a shell makes of a text: a backslash goes from before any character, bare spaces separate. */
  function Words(text: seq<byte>, word: Option<seq<byte>>): seq<seq<byte>>
  {
    if text == [] then (if word.Some? then [word.value] else [])
    else if text[0] == SPACE then (if word.Some? then [word.value] else []) + Words(text[1..], None)
    else if text[0] == BACKSLASH && |text| > 1 then Words(text[2..], Some(SoFar(word) + [text[1]]))
    else Words(text[1..], Some(SoFar(word) + [text[0]]))
  }

  predicate IsHexDigit(c: byte)
  {
    0x30 <= c <= 0x39 || 0x41 <= c <= 0x46 || 0x61 <= c <= 0x66
  }

  function HexVal(c: byte): (v: nat)
    ensures v < 16
  {
    if 0x30 <= c <= 0x39 then c - 0x30
    else if 0x41 <= c <= 0x46 then c - 0x41 + 10
    else if 0x61 <= c <= 0x66 then c - 0x61 + 10
    else 0
  }

  /** What one step takes from a non-empty argument: the octet, and how many characters it was written in. */
  function TakeOctet(p: seq<byte>): (r: (byte, nat))
    requires p != []
    ensures 1 <= r.1 <= |p|
  {
    if p[0] != BACKSLASH || |p| == 1 then (p[0], 1)
    else if p[1] == LOWER_X && |p| >= 4 && IsHexDigit(p[2]) && IsHexDigit(p[3]) then
      ((HexVal(p[2]) * 16 + HexVal(p[3])) as byte, 4)
    else (p[1], 2)
  }

  /** The string an argument stands for, once sofar has been read; it gets no more than 255 octets. */
  function ReadOn(p: seq<byte>, sofar: seq<byte>): (s: seq<byte>)
    requires |sofar| <= 255
    ensures |sofar| <= |s| <= 255
    decreases 255 - |sofar|
  {
    if p == [] || |sofar| == 255 then sofar
    else
      var (octet, n) := TakeOctet(p);
      ReadOn(p[n..], sofar + [octet])
  }

  function ReadArg(p: seq<byte>): (s: seq<byte>)
    ensures |s| <= 255
  {
    ReadOn(p, [])
  }

  function ReadArgs(args: seq<seq<byte>>): (strings: seq<seq<byte>>)
    ensures |strings| == |args|
  {
    if args == [] then [] else [ReadArg(args[0])] + ReadArgs(args[1..])
  }

  /** Strings that fit a TXT record. */
  ghost predicate Fit(strings: seq<seq<byte>>)
  {
    forall i :: 0 <= i < |strings| ==> |strings[i]| <= 255
  }

  /** The TXT record of strings (section 3.3.14 of RFC 1035). */
  function Encode(strings: seq<seq<byte>>): seq<byte>
    requires Fit(strings)
  {
    if strings == [] then [] else [|strings[0]| as byte] + strings[0] + Encode(strings[1..])
  }

  lemma {:induction false} ReadArgsFit(args: seq<seq<byte>>)
    ensures Fit(ReadArgs(args))
  {
    if args != [] {
      ReadArgsFit(args[1..]);
    }
  }

  /** The octets RegisterService has when it has read these arguments. */
  ghost function Built(args: seq<seq<byte>>): seq<byte>
  {
    ReadArgsFit(args);
    Encode(ReadArgs(args))
  }

  /** The TXT record RegisterService makes of its arguments, unless it is too long. */
  ghost function Register(args: seq<seq<byte>>): Option<seq<byte>>
  {
    if |Built(args)| <= MAX_TXT_RECORD then Some(Built(args)) else None
  }

  // ----- Reading back what was printed --------------------------------------------------------------

  /** What the shell passes on for one printed octet. */
  function ArgOctet(c: byte): seq<byte>
  {
    if c == BACKSLASH then [BACKSLASH, BACKSLASH]
    else if c >= SPACE then [c]
    else [BACKSLASH, LOWER_X, HexDigit(c as int / 16), HexDigit(c as int % 16)]
  }

  function Arg(s: seq<byte>): seq<byte>
  {
    if s == [] then [] else ArgOctet(s[0]) + Arg(s[1..])
  }

  lemma {:induction false} WordsThen(c: byte, rest: seq<byte>, word: Option<seq<byte>>)
    requires c != SPACE && c != BACKSLASH
    ensures Words([c] + rest, word) == Words(rest, Some(SoFar(word) + [c]))
  {
    assert ([c] + rest)[1..] == rest;
  }

  lemma {:induction false} WordsEscaped(c: byte, rest: seq<byte>, word: Option<seq<byte>>)
    ensures Words([BACKSLASH, c] + rest, word) == Words(rest, Some(SoFar(word) + [c]))
  {
    assert ([BACKSLASH, c] + rest)[2..] == rest;
  }

  /** The shell turns the print of an octet into its argument form, inside a word. */
  lemma {:induction false} WordsOfOctet(c: byte, rest: seq<byte>, word: Option<seq<byte>>)
    ensures Words(ShowOctet(c) + rest, word) == Words(rest, Some(SoFar(word) + ArgOctet(c)))
  {
    var w := SoFar(word);
    if c == BACKSLASH {
      var half := [BACKSLASH, BACKSLASH] + rest;
      assert ShowOctet(c) + rest == [BACKSLASH, BACKSLASH] + half;
      WordsEscaped(BACKSLASH, half, word);
      WordsEscaped(BACKSLASH, rest, Some(w + [BACKSLASH]));
      assert w + [BACKSLASH] + [BACKSLASH] == w + ArgOctet(c);
    } else if c >= SPACE {
      if Meta(c) {
        assert ShowOctet(c) + rest == [BACKSLASH, c] + rest;
        WordsEscaped(c, rest, word);
      } else {
        assert ShowOctet(c) + rest == [c] + rest;
        WordsThen(c, rest, word);
      }
    } else {
      WordsOfControl(c, rest, word);
    }
  }

  lemma {:induction false} WordsOfHex(hi: byte, lo: byte, rest: seq<byte>, word: Option<seq<byte>>)
    requires IsHexDigit(hi) && IsHexDigit(lo)
    ensures Words([hi, lo] + rest, word) == Words(rest, Some(SoFar(word) + [hi, lo]))
  {
    WordsThen(hi, [lo] + rest, word);
    WordsThen(lo, rest, Some(SoFar(word) + [hi]));
    assert [hi, lo] + rest == [hi] + ([lo] + rest);
    assert SoFar(word) + [hi] + [lo] == SoFar(word) + [hi, lo];
  }

  lemma {:induction false} WordsOfControl(c: byte, rest: seq<byte>, word: Option<seq<byte>>)
    requires c < SPACE
    ensures Words(ShowOctet(c) + rest, word) == Words(rest, Some(SoFar(word) + ArgOctet(c)))
  {
    var w, hi, lo := SoFar(word), HexDigit(c as int / 16), HexDigit(c as int % 16);
    var digits := [hi, lo] + rest;
    if c == 0 {
      assert ShowOctet(c) + rest == [BACKSLASH, BACKSLASH] + ([BACKSLASH, LOWER_X] + digits);
      WordsEscaped(BACKSLASH, [BACKSLASH, LOWER_X] + digits, word);
      WordsEscaped(LOWER_X, digits, Some(w + [BACKSLASH]));
    } else {
      assert ShowOctet(c) + rest == [BACKSLASH, BACKSLASH] + ([LOWER_X] + digits);
      WordsEscaped(BACKSLASH, [LOWER_X] + digits, word);
      WordsThen(LOWER_X, digits, Some(w + [BACKSLASH]));
    }
    WordsOfHex(hi, lo, rest, Some(w + [BACKSLASH] + [LOWER_X]));
    assert w + [BACKSLASH] + [LOWER_X] + [hi, lo] == w + ArgOctet(c);
  }

  /** The shell turns a printed string into one word. */
  lemma {:induction false} WordsOfOctets(s: seq<byte>, rest: seq<byte>, word: Option<seq<byte>>)
    requires s != [] || word.Some?
    ensures Words(ShowOctets(s) + rest, word) == Words(rest, Some(SoFar(word) + Arg(s)))
    decreases |s|
  {
    if s == [] {
      EmptyConcat(ShowOctets(s), rest);
      EmptyConcat(Arg(s), SoFar(word));
    } else {
      var more := ShowOctets(s[1..]) + rest;
      ConcatAssociates(ShowOctet(s[0]), ShowOctets(s[1..]), rest);
      WordsOfOctet(s[0], more, word);
      WordsOfOctets(s[1..], rest, Some(SoFar(word) + ArgOctet(s[0])));
      ConcatAssociates(SoFar(word), ArgOctet(s[0]), Arg(s[1..]));
    }
  }

  lemma {:induction false} TakeShown(c: byte, rest: seq<byte>)
    ensures TakeOctet(ArgOctet(c) + rest) == (c, |ArgOctet(c)|)
  {
    if c < SPACE {
      var p := ArgOctet(c) + rest;
      assert p[0] == BACKSLASH && p[1] == LOWER_X && p[2] == HexDigit(c as int / 16) && p[3] == HexDigit(c as int % 16);
    }
  }

  /** The reader gets the string back from its argument form. */
  lemma {:induction false} ReadOnArg(s: seq<byte>, sofar: seq<byte>)
    requires |sofar + s| <= 255
    ensures ReadOn(Arg(s), sofar) == sofar + s
    decreases |s|
  {
    if s == [] {
      assert sofar + s == sofar;
    } else {
      var rest := Arg(s[1..]);
      TakeShown(s[0], rest);
      assert (ArgOctet(s[0]) + rest)[|ArgOctet(s[0])|..] == rest;
      assert sofar + [s[0]] + s[1..] == sofar + s;
      ReadOnArg(s[1..], sofar + [s[0]]);
    }
  }

  function NonEmpty(strings: seq<seq<byte>>): (r: seq<seq<byte>>)
  {
    if strings == [] then [] else (if strings[0] == [] then [] else [strings[0]]) + NonEmpty(strings[1..])
  }

  lemma {:induction false} ShowOfEncode(strings: seq<seq<byte>>)
    requires Fit(strings) && strings != []
    ensures Fit(strings[1..])
    ensures Show(Encode(strings))
         == (if strings[0] == [] then [] else [SPACE] + ShowOctets(strings[0])) + Show(Encode(strings[1..]))
  {
    var s, rest := strings[0], Encode(strings[1..]);
    var rec := [|s| as byte] + s + rest;
    assert rec[1..1 + |s|] == s && rec[1 + |s|..] == rest;
  }

  /** The words of what is printed, read as strings, are the non-empty strings of the record. */
  lemma {:induction false} WordsReadBack(strings: seq<seq<byte>>, word: Option<seq<byte>>)
    requires Fit(strings)
    ensures ReadArgs(Words(Show(Encode(strings)), word))
         == (if word.Some? then [ReadArg(word.value)] else []) + NonEmpty(strings)
    decreases |strings|
  {
    if strings == [] {
    } else {
      ShowOfEncode(strings);
      var s, rest := strings[0], Show(Encode(strings[1..]));
      if s == [] {
        assert Show(Encode(strings)) == rest;
        WordsReadBack(strings[1..], word);
        assert NonEmpty(strings) == NonEmpty(strings[1..]);
      } else {
        var text := ShowOctets(s) + rest;
        assert Show(Encode(strings)) == [SPACE] + text;
        assert ([SPACE] + text)[1..] == text;
        WordsOfOctets(s, rest, None);
        assert SoFar(None) + Arg(s) == Arg(s);
        WordsReadBack(strings[1..], Some(Arg(s)));
        ReadOnArg(s, []);
        assert [] + s == s;
        ReadArgsFirst(word, Words(text, None));
      }
    }
  }

  lemma {:induction false} ReadArgsFirst(word: Option<seq<byte>>, words: seq<seq<byte>>)
    ensures ReadArgs((if word.Some? then [word.value] else []) + words)
         == (if word.Some? then [ReadArg(word.value)] else []) + ReadArgs(words)
  {
    if word.Some? {
      assert ([word.value] + words)[1..] == words;
    } else {
      assert [] + words == words;
    }
  }

  // ----- Records as octets ---------------------------------------------------------------------------

  /** No string runs past the end. */
  predicate WellFormed(rec: seq<byte>)
  {
    rec == [] || (1 + rec[0] as nat <= |rec| && WellFormed(rec[1 + rec[0] as nat..]))
  }

  function StringsOf(rec: seq<byte>): (strings: seq<seq<byte>>)
    requires WellFormed(rec)
  {
    if rec == [] then [] else [rec[1..1 + rec[0] as nat]] + StringsOf(rec[1 + rec[0] as nat..])
  }

  lemma {:induction false} EncodeStringsOf(rec: seq<byte>)
    requires WellFormed(rec)
    ensures Fit(StringsOf(rec)) && Encode(StringsOf(rec)) == rec
  {
    if rec != [] {
      var n := rec[0] as nat;
      EncodeStringsOf(rec[1 + n..]);
      FirstStringOf(rec, n);
    }
  }

  lemma {:induction false} FirstStringOf(rec: seq<byte>, n: nat)
    requires 1 + n <= |rec|
    ensures rec == [rec[0]] + rec[1..1 + n] + rec[1 + n..]
  {
    assert [rec[0]] + rec[1..1 + n] == rec[..1 + n];
  }

  lemma {:induction false} NonEmptyEncode(strings: seq<seq<byte>>)
    requires Fit(strings)
    ensures Fit(NonEmpty(strings)) && |Encode(NonEmpty(strings))| <= |Encode(strings)|
    ensures |Encode(NonEmpty(strings))| == |Encode(strings)| <==> [] !in strings
    ensures [] !in strings ==> NonEmpty(strings) == strings
  {
    if strings != [] {
      NonEmptyEncode(strings[1..]);
      assert strings == [strings[0]] + strings[1..];
      assert [] in strings <==> strings[0] == [] || [] in strings[1..];
      if strings[0] != [] {
        assert NonEmpty(strings)[1..] == NonEmpty(strings[1..]);
      } else {
        assert NonEmpty(strings) == NonEmpty(strings[1..]);
      }
    }
  }

  /**
   * Registering the words of a printed record makes the record without its empty strings, unless
   * that is too long; so it makes the same record if and only if no string is empty and it is no
   * longer than the reader's buffer.
   */
  lemma {:induction false} RegisterReadsBack(rec: seq<byte>)
    requires WellFormed(rec)
    ensures Fit(StringsOf(rec)) && Fit(NonEmpty(StringsOf(rec)))
    ensures var kept := Encode(NonEmpty(StringsOf(rec)));
            Register(Words(Show(rec), None)) == if |kept| <= 8900 then Some(kept) else None
    ensures Register(Words(Show(rec), None)) == Some(rec) <==> [] !in StringsOf(rec) && |rec| <= 8900
  {
    EncodeStringsOf(rec);
    NonEmptyEncode(StringsOf(rec));
    WordsReadBack(StringsOf(rec), None);
    assert [] + NonEmpty(StringsOf(rec)) == NonEmpty(StringsOf(rec));
  }

  // ----- The printed text is safe -----------------------------------------------------------------

  /** The known shell metacharacters, apart from the backslash. */
  const SHELL := " &;`'\"|*?~<>^()[]{}$"

  predicate InShellList(c: byte)
  {
    exists i :: 0 <= i < |SHELL| && SHELL[i] as int == c as int
  }

  /** The characters that get a backslash are the shell's, and NUL. */
  lemma {:induction false} MetaIff(c: byte)
    ensures Meta(c) <==> c == 0 || InShellList(c)
  {
    assert |SHELL| == 20;
    assert SHELL[0] as int == 0x20 && SHELL[1] as int == 0x26 && SHELL[2] as int == 0x3b && SHELL[3] as int == 0x60;
    assert SHELL[4] as int == 0x27 && SHELL[5] as int == 0x22 && SHELL[6] as int == 0x7c && SHELL[7] as int == 0x2a;
    assert SHELL[8] as int == 0x3f && SHELL[9] as int == 0x7e && SHELL[10] as int == 0x3c && SHELL[11] as int == 0x3e;
    assert SHELL[12] as int == 0x5e && SHELL[13] as int == 0x28 && SHELL[14] as int == 0x29 && SHELL[15] as int == 0x5b;
    assert SHELL[16] as int == 0x5d && SHELL[17] as int == 0x7b && SHELL[18] as int == 0x7d && SHELL[19] as int == 0x24;
  }

  /**
   * The shell meets no bare metacharacter of the list but the separating spaces, and no control
   * character below 0x20.
   */
  predicate Quoted(text: seq<byte>)
  {
    if text == [] then true
    else if text[0] == SPACE then Quoted(text[1..])
    else if text[0] == BACKSLASH then |text| > 1 && text[1] >= SPACE && Quoted(text[2..])
    else !InShellList(text[0]) && text[0] > SPACE && Quoted(text[1..])
  }

  lemma {:induction false} QuotedEscape(c: byte, rest: seq<byte>)
    requires c >= SPACE && Quoted(rest)
    ensures Quoted([BACKSLASH, c] + rest)
  {
    assert ([BACKSLASH, c] + rest)[2..] == rest;
  }

  lemma {:induction false} QuotedPlain(c: byte, rest: seq<byte>)
    requires c == SPACE || (c > SPACE && !InShellList(c) && c != BACKSLASH)
    requires Quoted(rest)
    ensures Quoted([c] + rest)
  {
    assert ([c] + rest)[1..] == rest;
  }

  lemma {:induction false} QuotedOctet(c: byte, rest: seq<byte>)
    requires Quoted(rest)
    ensures Quoted(ShowOctet(c) + rest)
  {
    MetaIff(c);
    if c == BACKSLASH {
      QuotedEscape(BACKSLASH, rest);
      QuotedEscape(BACKSLASH, [BACKSLASH, BACKSLASH] + rest);
      assert ShowOctet(c) + rest == [BACKSLASH, BACKSLASH] + ([BACKSLASH, BACKSLASH] + rest);
    } else if c < SPACE {
      QuotedControl(c, rest);
    } else if Meta(c) {
      QuotedEscape(c, rest);
      assert ShowOctet(c) + rest == [BACKSLASH, c] + rest;
    } else {
      QuotedPlain(c, rest);
      assert ShowOctet(c) + rest == [c] + rest;
    }
  }

  lemma {:induction false} PlainForShell(c: byte)
    requires IsHexDigit(c) || c == LOWER_X
    ensures !InShellList(c) && c > SPACE && c != BACKSLASH
  {
    MetaIff(c);
  }

  lemma {:induction false} QuotedControl(c: byte, rest: seq<byte>)
    requires c < SPACE && Quoted(rest)
    ensures Quoted(ShowOctet(c) + rest)
  {
    var hi, lo := HexDigit(c as int / 16), HexDigit(c as int % 16);
    PlainForShell(hi);
    PlainForShell(lo);
    PlainForShell(LOWER_X);
    QuotedPlain(lo, rest);
    QuotedPlain(hi, [lo] + rest);
    var digits := [hi] + ([lo] + rest);
    if c == 0 {
      QuotedEscape(LOWER_X, digits);
      QuotedEscape(BACKSLASH, [BACKSLASH, LOWER_X] + digits);
      assert ShowOctet(c) + rest == [BACKSLASH, BACKSLASH] + ([BACKSLASH, LOWER_X] + digits);
    } else {
      QuotedPlain(LOWER_X, digits);
      QuotedEscape(BACKSLASH, [LOWER_X] + digits);
      assert ShowOctet(c) + rest == [BACKSLASH, BACKSLASH] + ([LOWER_X] + digits);
    }
  }

  lemma {:induction false} QuotedOctets(s: seq<byte>, rest: seq<byte>)
    requires Quoted(rest)
    ensures Quoted(ShowOctets(s) + rest)
  {
    if s == [] {
      assert ShowOctets(s) + rest == rest;
    } else {
      QuotedOctets(s[1..], rest);
      QuotedOctet(s[0], ShowOctets(s[1..]) + rest);
      ConcatAssociates(ShowOctet(s[0]), ShowOctets(s[1..]), rest);
    }
  }

  lemma {:induction false} QuotedString(s: seq<byte>, rest: seq<byte>)
    requires Quoted(rest)
    ensures Quoted((if s == [] then [] else [SPACE] + ShowOctets(s)) + rest)
  {
    if s == [] {
      EmptyConcat([], rest);
    } else {
      QuotedOctets(s, rest);
      QuotedPlain(SPACE, ShowOctets(s) + rest);
      ConcatAssociates([SPACE], ShowOctets(s), rest);
    }
  }

  /** What is printed for a well-formed record is shell-safe in this sense. */
  lemma {:induction false} ShowIsQuoted(strings: seq<seq<byte>>)
    requires Fit(strings)
    ensures Quoted(Show(Encode(strings)))
  {
    if strings != [] {
      ShowOfEncode(strings);
      ShowIsQuoted(strings[1..]);
      QuotedString(strings[0], Show(Encode(strings[1..])));
    }
  }

  // ----- The loops -----------------------------------------------------------------------------------

  /** ShowTXTRecord: what it prints. */
  method ShowTXTRecord(txtRecord: array<byte>) returns (out: seq<byte>)
    ensures out == Show(txtRecord[..])
  {
    var ptr, max := 0, txtRecord.Length;
    ghost var rec := txtRecord[..];
    out := [];
    assert rec[ptr..] == rec;
    while ptr < max
      invariant 0 <= ptr <= max && out + Show(rec[ptr..]) == Show(rec)
    {
      ghost var before, tail := out, rec[ptr..];
      var end := ptr + 1 + txtRecord[ptr] as int;
      if end > max {
        out := out + INVALID;
        return;
      }
      ptr := ptr + 1;
      if ptr < end {
        out := out + [SPACE];
      }
      var shown := ShowString(txtRecord, ptr, end);
      assert tail[1..1 + tail[0] as nat] == rec[ptr..end] && tail[1 + tail[0] as nat..] == rec[end..];
      ShownSoFar(before, rec[ptr..end], Show(rec[end..]));
      out := out + shown;
      ptr := end;
    }
    assert Show(rec[ptr..]) == [];
  }

  lemma {:induction false} ShownSoFar(before: seq<byte>, s: seq<byte>, rest: seq<byte>)
    ensures before + ((if |s| > 0 then [SPACE] + ShowOctets(s) else []) + rest)
         == (if |s| > 0 then before + [SPACE] else before) + ShowOctets(s) + rest
  {
  }

  /** One string of the record. */
  method ShowString(txtRecord: array<byte>, start: nat, end: nat) returns (out: seq<byte>)
    requires start <= end <= txtRecord.Length
    ensures out == ShowOctets(txtRecord[start..end])
  {
    var ptr := start;
    out := [];
    while ptr < end
      invariant start <= ptr <= end
      invariant out + ShowOctets(txtRecord[ptr..end]) == ShowOctets(txtRecord[start..end])
    {
      ShownOneMore(out, txtRecord[ptr..end]);
      assert txtRecord[ptr..end][1..] == txtRecord[ptr + 1..end];
      var one := PrintOctet(txtRecord[ptr]);
      out := out + one;
      ptr := ptr + 1;
    }
  }

  lemma {:induction false} ShownOneMore(out: seq<byte>, s: seq<byte>)
    requires s != []
    ensures out + ShowOctets(s) == out + ShowOctet(s[0]) + ShowOctets(s[1..])
  {
  }

  method PrintOctet(c: byte) returns (out: seq<byte>)
    ensures out == ShowOctet(c)
  {
    out := [];
    if Meta(c) {
      out := out + [BACKSLASH];
    }
    if c == BACKSLASH {
      out := out + [BACKSLASH, BACKSLASH, BACKSLASH, BACKSLASH];
    } else if c >= SPACE {
      out := out + [c];
    } else {
      out := out + [BACKSLASH, BACKSLASH, LOWER_X, HexDigit(c as int / 16), HexDigit(c as int % 16)];
    }
  }

  lemma {:induction false} EncodeAppend(a: seq<seq<byte>>, s: seq<byte>)
    requires Fit(a) && |s| <= 255
    ensures Fit(a + [s]) && Encode(a + [s]) == Encode(a) + [|s| as byte] + s
  {
    if a == [] {
      assert a + [s] == [s] && Encode([s][1..]) == [];
    } else {
      EncodeAppend(a[1..], s);
      assert (a + [s])[1..] == a[1..] + [s];
    }
  }

  lemma {:induction false} ReadArgsAppend(a: seq<seq<byte>>, p: seq<byte>)
    ensures ReadArgs(a + [p]) == ReadArgs(a) + [ReadArg(p)]
  {
    if a == [] {
      assert a + [p] == [p];
    } else {
      ReadArgsAppend(a[1..], p);
      assert (a + [p])[1..] == a[1..] + [p];
    }
  }

  lemma {:induction false} BuiltAppend(args: seq<seq<byte>>, k: nat)
    requires k < |args|
    ensures var s := ReadArg(args[k]);
            Built(args[..k + 1]) == Built(args[..k]) + [|s| as byte] + s
  {
    ReadArgsFit(args[..k]);
    assert args[..k + 1] == args[..k] + [args[k]];
    ReadArgsAppend(args[..k], args[k]);
    EncodeAppend(ReadArgs(args[..k]), ReadArg(args[k]));
  }

  lemma {:induction false} BuiltGrows(args: seq<seq<byte>>, k: nat)
    requires k <= |args|
    ensures |Built(args[..k])| <= |Built(args)|
    decreases |args| - k
  {
    if k < |args| {
      BuiltAppend(args, k);
      BuiltGrows(args, k + 1);
    } else {
      assert args[..k] == args;
    }
  }

  lemma {:induction false} TooLong(args: seq<seq<byte>>, k: nat)
    requires k <= |args| && |Built(args[..k])| > MAX_TXT_RECORD
    ensures Register(args) == None
  {
    BuiltGrows(args, k);
  }

  /** The part of RegisterService that builds the TXT record in its buffer; ok is false for a bad parameter. */
  method BuildTxt(args: seq<seq<byte>>, txt: array<byte>) returns (ok: bool, len: nat)
    requires txt.Length == MAX_TXT_RECORD
    modifies txt
    ensures len <= txt.Length && Register(args) == if ok then Some(txt[..len]) else None
  {
    txt[0] := 0;
    var ptr, i := 0, 0;
    while i < |args|
      invariant 0 <= i <= |args| && 0 <= ptr <= txt.Length
      invariant txt[..ptr] == Built(args[..i])
    {
      BuiltAppend(args, i);
      if ptr >= txt.Length {
        TooLong(args, i + 1);
        return false, 0;
      }
      var fits := BuildString(args[i], txt, ptr);
      if !fits {
        TooLong(args, i + 1);
        return false, 0;
      }
      ptr := ptr + 1 + txt[ptr] as int;
      i := i + 1;
    }
    assert args[..i] == args;
    return true, ptr;
  }

  /** One string of the record, at ptr: its length octet and its octets. */
  method BuildString(arg: seq<byte>, txt: array<byte>, ptr: nat) returns (fits: bool)
    requires ptr < txt.Length
    modifies txt
    ensures fits <==> ptr + 1 + |ReadArg(arg)| <= txt.Length
    ensures fits ==> txt[ptr] as int == |ReadArg(arg)|
    ensures fits ==> (txt[..ptr + 1 + |ReadArg(arg)|]
                      == old(txt[..ptr]) + [|ReadArg(arg)| as byte] + ReadArg(arg))
  {
    var p := arg;
    txt[ptr] := 0;
    ghost var sofar: seq<byte> := [];
    while |p| > 0 && txt[ptr] < 255
      invariant txt[ptr] as int == |sofar| && ptr + |sofar| < txt.Length
      invariant txt[..ptr] == old(txt[..ptr]) && txt[ptr + 1..ptr + 1 + |sofar|] == sofar
      invariant |sofar| <= 255 && ReadOn(p, sofar) == ReadArg(arg)
      decreases |p|
    {
      if ptr + 1 + txt[ptr] as int >= txt.Length {
        return false;
      }
      var (octet, used) := TakeOctet(p);
      StoreOctet(txt, ptr, octet, sofar);
      sofar := sofar + [octet];
      p := p[used..];
    }
    TookAll(txt[..], ptr, |sofar|);
    fits := true;
  }

  lemma {:induction false} TookAll(txt: seq<byte>, ptr: nat, n: nat)
    requires ptr + 1 + n <= |txt|
    ensures txt[..ptr + 1 + n] == txt[..ptr] + [txt[ptr]] + txt[ptr + 1..ptr + 1 + n]
  {
  }

  /** One octet goes after the string at ptr, which gets longer by one. */
  method StoreOctet(txt: array<byte>, ptr: nat, octet: byte, ghost sofar: seq<byte>)
    requires |sofar| < 255 && ptr + 1 + |sofar| < txt.Length
    requires txt[ptr] as int == |sofar| && txt[ptr + 1..ptr + 1 + |sofar|] == sofar
    modifies txt
    ensures txt[ptr] as int == |sofar| + 1 && txt[..ptr] == old(txt[..ptr])
    ensures txt[ptr + 1..ptr + 1 + |sofar + [octet]|] == sofar + [octet]
  {
    txt[ptr] := txt[ptr] + 1;
    txt[ptr + txt[ptr] as int] := octet;
    assert forall k :: 0 <= k < |sofar| ==> txt[ptr + 1 + k] == sofar[k];
  }
}
