/**
 * The standard base64 alphabet and padding (section 4 of RFC 4648), and the
 * Python 2 'base64' codec built on it, which encodes 57-byte chunks and ends
 * each encoded chunk with a newline.
 */
module Base64 {
  import opened Wrappers
  import opened Bytes

  /** The character for a 6-bit value. */
  function SextetChar(d: nat): (c: char)
    requires d < 64
    ensures SextetValue(c) == Some(d)
  {
    if d < 26 then ('A' as int + d) as char
    else if d < 52 then ('a' as int + d - 26) as char
    else if d < 62 then ('0' as int + d - 52) as char
    else if d == 62 then '+'
    else '/'
  }

  /** The 6-bit value of an alphabet character; None for '=', newline and everything else. */
  function SextetValue(c: char): (r: Option<nat>)
    ensures r.Some? ==> r.value < 64
  {
    if 'A' <= c <= 'Z' then Some(c as int - 'A' as int)
    else if 'a' <= c <= 'z' then Some(c as int - 'a' as int + 26)
    else if '0' <= c <= '9' then Some(c as int - '0' as int + 52)
    else if c == '+' then Some(62)
    else if c == '/' then Some(63)
    else None
  }

  predicate IsAlphabetChar(c: char) { SextetValue(c).Some? }

  /** The four characters of a 24-bit group. */
  function EncodeGroup(n: nat): (t: string)
    requires n < 0x100_0000
    ensures |t| == 4
    ensures IsAlphabetChar(t[0]) && IsAlphabetChar(t[1]) && IsAlphabetChar(t[2]) && IsAlphabetChar(t[3])
  {
    [SextetChar(n / 0x4_0000), SextetChar(n / 0x1000 % 64), SextetChar(n / 64 % 64), SextetChar(n % 64)]
  }

  /** The 24-bit group of three bytes, first byte most significant. */
  function Pack3(b0: Byte, b1: Byte, b2: Byte): (n: nat)
    ensures n < 0x100_0000
  {
    b0 as int * 0x1_0000 + b1 as int * 0x100 + b2 as int
  }

  /** The number of groups of three bytes, the last possibly partial, in `n` bytes. */
  function Groups(n: nat): nat
  {
    if n == 0 then 0 else if n <= 3 then 1 else 1 + Groups(n - 3)
  }

  /** base64 of `s`, padded with '=' to a multiple of four characters. */
  function Encode(s: seq<Byte>): (t: string)
    ensures |t| == 4 * Groups(|s|)
  {
    if s == [] then []
    else if |s| == 1 then EncodeGroup(Pack3(s[0], 0, 0))[..2] + "=="
    else if |s| == 2 then EncodeGroup(Pack3(s[0], s[1], 0))[..3] + "="
    else EncodeGroup(Pack3(s[0], s[1], s[2])) + Encode(s[3..])
  }

  /** Four characters for every three bytes or part of three bytes. */
  lemma {:induction false} EncodeLength(s: seq<Byte>)
    ensures |Encode(s)| == 4 * ((|s| + 2) / 3)
  {
    GroupsCount(|s|);
  }

  lemma {:induction false} GroupsCount(n: nat)
    ensures Groups(n) == (n + 2) / 3
  {
    if n > 3 {
      GroupsCount(n - 3);
    }
  }

  /** A character that may appear in padded base64. */
  predicate IsEncodedChar(c: char) { IsAlphabetChar(c) || c == '=' }

  /** The encoding uses only the alphabet and '=', and starts with an alphabet character. */
  lemma {:induction false} EncodeChars(s: seq<Byte>)
    ensures forall i :: 0 <= i < |Encode(s)| ==> IsEncodedChar(Encode(s)[i])
    ensures s != [] ==> IsAlphabetChar(Encode(s)[0])
    decreases |s|
  {
    if |s| >= 3 {
      EncodeChars(s[3..]);
      var g, t := EncodeGroup(Pack3(s[0], s[1], s[2])), Encode(s[3..]);
      assert Encode(s) == g + t;
      forall i | 0 <= i < |g + t| ensures IsEncodedChar((g + t)[i]) {
        if i >= 4 {
          assert (g + t)[i] == t[i - 4];
        }
      }
    }
  }

  /** The 24-bit group spelled by four alphabet characters. */
  function GroupValue(c0: char, c1: char, c2: char, c3: char): (n: nat)
    requires IsAlphabetChar(c0) && IsAlphabetChar(c1) && IsAlphabetChar(c2) && IsAlphabetChar(c3)
    ensures n < 0x100_0000
  {
    SextetValue(c0).value * 0x4_0000 + SextetValue(c1).value * 0x1000
      + SextetValue(c2).value * 64 + SextetValue(c3).value
  }

  /** The three bytes of a 24-bit group, most significant first. */
  function Unpack3(n: nat): (b: seq<Byte>)
    requires n < 0x100_0000
    ensures |b| == 3
  {
    [n / 0x1_0000, n / 0x100 % 0x100, n % 0x100]
  }

  /** Decodes one final group of four characters, which may end in one or two '='. */
  function DecodeLastGroup(t: string): Option<seq<Byte>>
    requires |t| == 4
  {
    if t[2] == '=' && t[3] == '=' then
      if IsAlphabetChar(t[0]) && IsAlphabetChar(t[1]) then Some(Unpack3(GroupValue(t[0], t[1], 'A', 'A'))[..1])
      else None
    else if t[3] == '=' then
      if IsAlphabetChar(t[0]) && IsAlphabetChar(t[1]) && IsAlphabetChar(t[2]) then
        Some(Unpack3(GroupValue(t[0], t[1], t[2], 'A'))[..2])
      else None
    else if IsAlphabetChar(t[0]) && IsAlphabetChar(t[1]) && IsAlphabetChar(t[2]) && IsAlphabetChar(t[3]) then
      Some(Unpack3(GroupValue(t[0], t[1], t[2], t[3])))
    else None
  }

  /** Decodes padded base64; None for text that is not a multiple of four characters of the alphabet. */
  function Decode(t: string): Option<seq<Byte>>
    decreases |t|
  {
    if t == [] then Some([])
    else if |t| < 4 then None
    else if |t| == 4 then DecodeLastGroup(t)
    else if IsAlphabetChar(t[0]) && IsAlphabetChar(t[1]) && IsAlphabetChar(t[2]) && IsAlphabetChar(t[3]) then
      match Decode(t[4..])
      case None => None
      case Some(rest) => Some(Unpack3(GroupValue(t[0], t[1], t[2], t[3])) + rest)
    else None
  }

  lemma DivMod64(n: int, q: int, r: int)
    requires n == q * 64 + r && 0 <= r < 64
    ensures n / 64 == q && n % 64 == r
  {
  }

  lemma DivMod65536(q: int, r: int)
    requires 0 <= r < 0x1_0000
    ensures (q * 0x1_0000 + r) / 0x1_0000 == q
  {
  }

  lemma DivDiv64(n: nat)
    ensures n / 64 / 64 == n / 0x1000 && n / 0x1000 / 64 == n / 0x4_0000
  {
  }

  /** A 24-bit group is the sum of its four sextets. */
  lemma Sextets(n: nat)
    requires n < 0x100_0000
    ensures n == n / 0x4_0000 * 0x4_0000 + n / 0x1000 % 64 * 0x1000 + n / 64 % 64 * 64 + n % 64
  {
    var a, b, c := n / 64, n / 0x1000, n / 0x4_0000;
    assert n == a * 64 + n % 64;
    assert a == b * 64 + a % 64 by { DivDiv64(n); }
    assert b == c * 64 + b % 64 by { DivDiv64(n); }
  }

  /** Spelling a group and reading it back gives the group. */
  lemma GroupRoundTrip(n: nat)
    requires n < 0x100_0000
    ensures var g := EncodeGroup(n); GroupValue(g[0], g[1], g[2], g[3]) == n
  {
    Sextets(n);
  }

  /** Unpack3 undoes Pack3. */
  lemma Unpack3Pack3(b0: Byte, b1: Byte, b2: Byte)
    ensures Unpack3(Pack3(b0, b1, b2)) == [b0, b1, b2]
  {
    var n := Pack3(b0, b1, b2);
    DivMod65536(b0, b1 * 0x100 + b2);
    assert n == (b0 * 0x100 + b1) * 0x100 + b2;
    DivMod256(b2, b0 * 0x100 + b1);
    DivMod256(b1, b0);
  }

  /** Decoding the encoding gives back the bytes. */
  lemma {:induction false} DecodeEncode(s: seq<Byte>)
    ensures Decode(Encode(s)) == Some(s)
    decreases |s|
  {
    if |s| == 1 {
      DecodeEncodeOne(s);
    } else if |s| == 2 {
      DecodeEncodeTwo(s);
    } else if |s| == 3 {
      DecodeEncodeThree(s);
    } else if |s| > 3 {
      DecodeEncode(s[3..]);
      DecodeEncodeGroup(s[0], s[1], s[2], s[3..]);
      SplitThree(s);
    }
  }

  /** A group made from one byte has zero third and fourth sextets, read back as 'A'. */
  lemma OneByteGroup(b: Byte)
    ensures var n := Pack3(b, 0, 0); var g := EncodeGroup(n); GroupValue(g[0], g[1], 'A', 'A') == n
  {
    var n := Pack3(b, 0, 0);
    var g := EncodeGroup(n);
    GroupRoundTrip(n);
    DivMod64(n, b as int * 0x400, 0);
    DivMod64(b as int * 0x400, b as int * 16, 0);
    assert SextetValue(g[2]) == Some(0) == SextetValue('A');
    assert SextetValue(g[3]) == Some(0);
  }

  /** A group made from two bytes has a zero fourth sextet, read back as 'A'. */
  lemma TwoByteGroup(b0: Byte, b1: Byte)
    ensures var n := Pack3(b0, b1, 0); var g := EncodeGroup(n); GroupValue(g[0], g[1], g[2], 'A') == n
  {
    var n := Pack3(b0, b1, 0);
    var g := EncodeGroup(n);
    GroupRoundTrip(n);
    DivMod64(n, b0 as int * 0x400 + b1 as int * 4, 0);
    assert SextetValue(g[3]) == Some(0) == SextetValue('A');
  }

  lemma DecodeEncodeOne(s: seq<Byte>)
    requires |s| == 1
    ensures Decode(Encode(s)) == Some(s)
  {
    var n := Pack3(s[0], 0, 0);
    var g := EncodeGroup(n);
    var t := Encode(s);
    OneByteGroup(s[0]);
    Unpack3Pack3(s[0], 0, 0);
    assert t == [g[0], g[1], '=', '='];
    assert DecodeLastGroup(t) == Some(Unpack3(n)[..1]);
    assert Decode(t) == DecodeLastGroup(t);
    assert Unpack3(n)[..1] == [s[0]] == s;
  }

  lemma DecodeEncodeTwo(s: seq<Byte>)
    requires |s| == 2
    ensures Decode(Encode(s)) == Some(s)
  {
    var n := Pack3(s[0], s[1], 0);
    var g := EncodeGroup(n);
    var t := Encode(s);
    TwoByteGroup(s[0], s[1]);
    Unpack3Pack3(s[0], s[1], 0);
    assert t == [g[0], g[1], g[2], '='];
    assert DecodeLastGroup(t) == Some(Unpack3(n)[..2]);
    assert Decode(t) == DecodeLastGroup(t);
    assert Unpack3(n)[..2] == [s[0], s[1]] == s;
  }

  lemma DecodeEncodeThree(s: seq<Byte>)
    requires |s| == 3
    ensures Decode(Encode(s)) == Some(s)
  {
    var n := Pack3(s[0], s[1], s[2]);
    GroupRoundTrip(n);
    Unpack3Pack3(s[0], s[1], s[2]);
    assert Encode(s) == EncodeGroup(n) + Encode([]);
    assert s == [s[0], s[1], s[2]];
  }

  /** Decoding a full group followed by more text. */
  lemma DecodeFullGroup(g: string, rest: string)
    requires |g| == 4 && IsAlphabetChar(g[0]) && IsAlphabetChar(g[1]) && IsAlphabetChar(g[2]) && IsAlphabetChar(g[3])
    requires rest != []
    ensures Decode(rest).Some? ==> Decode(g + rest) == Some(Unpack3(GroupValue(g[0], g[1], g[2], g[3])) + Decode(rest).value)
  {
    var t := g + rest;
    assert t[4..] == rest;
    assert t[0] == g[0] && t[1] == g[1] && t[2] == g[2] && t[3] == g[3];
  }

  lemma SplitThree(s: seq<Byte>)
    requires |s| >= 3
    ensures s == [s[0], s[1], s[2]] + s[3..]
  {
  }

  lemma EncodeCons(b0: Byte, b1: Byte, b2: Byte, rest: seq<Byte>)
    ensures Encode([b0, b1, b2] + rest) == EncodeGroup(Pack3(b0, b1, b2)) + Encode(rest)
  {
    var s := [b0, b1, b2] + rest;
    assert s[0] == b0 && s[1] == b1 && s[2] == b2 && s[3..] == rest;
  }

  lemma DecodeEncodeGroup(b0: Byte, b1: Byte, b2: Byte, rest: seq<Byte>)
    requires rest != []
    requires Decode(Encode(rest)) == Some(rest)
    ensures Decode(Encode([b0, b1, b2] + rest)) == Some([b0, b1, b2] + rest)
  {
    var n := Pack3(b0, b1, b2);
    var g := EncodeGroup(n);
    EncodeCons(b0, b1, b2, rest);
    GroupRoundTrip(n);
    DecodeFullGroup(g, Encode(rest));
    Unpack3Pack3(b0, b1, b2);
  }

  /** Encoding splits at any multiple of three bytes. */
  lemma {:induction false} EncodeAppend(a: seq<Byte>, b: seq<Byte>)
    requires |a| % 3 == 0
    ensures Encode(a + b) == Encode(a) + Encode(b)
    decreases |a|
  {
    if a == [] {
      assert a + b == b;
    } else {
      var ab := a + b;
      assert ab[0] == a[0] && ab[1] == a[1] && ab[2] == a[2];
      assert ab[3..] == a[3..] + b;
      EncodeAppend(a[3..], b);
      calc {
        Encode(ab);
        EncodeGroup(Pack3(a[0], a[1], a[2])) + Encode(a[3..] + b);
        EncodeGroup(Pack3(a[0], a[1], a[2])) + (Encode(a[3..]) + Encode(b));
        Encode(a) + Encode(b);
      }
    }
  }

  /** Bytes per encoded line of the Python 2 codec (76 characters). */
  const LINE_BYTES: nat := 57

  /** `s.encode('base64')` in Python 2: each chunk of up to 57 bytes encoded and followed by a newline. */
  function EncodeLines(s: seq<Byte>): string
    decreases |s|
  {
    if s == [] then []
    else if |s| <= LINE_BYTES then Encode(s) + "\n"
    else Encode(s[..LINE_BYTES]) + "\n" + EncodeLines(s[LINE_BYTES..])
  }

  /** The encoded lines joined by newlines, with no newline at the end. */
  function JoinedLines(s: seq<Byte>): (t: string)
    decreases |s|
  {
    if |s| <= LINE_BYTES then Encode(s)
    else Encode(s[..LINE_BYTES]) + "\n" + JoinedLines(s[LINE_BYTES..])
  }

  lemma {:induction false} EncodeLinesJoined(s: seq<Byte>)
    requires s != []
    ensures EncodeLines(s) == JoinedLines(s) + "\n"
    decreases |s|
  {
    if |s| > LINE_BYTES {
      EncodeLinesJoined(s[LINE_BYTES..]);
    }
  }

  /** `t` with every newline removed. */
  function RemoveNewlines(t: string): (r: string)
    ensures |r| <= |t|
  {
    if t == [] then []
    else (if t[0] == '\n' then [] else [t[0]]) + RemoveNewlines(t[1..])
  }

  lemma {:induction false} RemoveNewlinesAppend(a: string, b: string)
    ensures RemoveNewlines(a + b) == RemoveNewlines(a) + RemoveNewlines(b)
  {
    if a == [] {
      assert a + b == b;
    } else {
      assert (a + b)[1..] == a[1..] + b;
      RemoveNewlinesAppend(a[1..], b);
    }
  }

  lemma {:induction false} RemoveNewlinesNone(t: string)
    requires forall i :: 0 <= i < |t| ==> t[i] != '\n'
    ensures RemoveNewlines(t) == t
  {
    if t != [] {
      RemoveNewlinesNone(t[1..]);
    }
  }

  lemma EncodeNoNewline(s: seq<Byte>)
    ensures forall i :: 0 <= i < |Encode(s)| ==> Encode(s)[i] != '\n'
  {
    EncodeChars(s);
  }

  /** Without its newlines, the codec's text is the plain encoding. */
  /** Removing newlines from a line without newlines, its newline and more text. */
  lemma RemoveNewlinesLine(line: string, rest: string)
    requires forall i :: 0 <= i < |line| ==> line[i] != '\n'
    ensures RemoveNewlines(line + "\n" + rest) == line + RemoveNewlines(rest)
  {
    var nl := "\n";
    assert RemoveNewlines(nl) == [] by {
      assert nl[1..] == [];
    }
    calc {
      RemoveNewlines(line + nl + rest);
      { RemoveNewlinesAppend(line + nl, rest); }
      RemoveNewlines(line + nl) + RemoveNewlines(rest);
      { RemoveNewlinesAppend(line, nl); }
      RemoveNewlines(line) + RemoveNewlines(nl) + RemoveNewlines(rest);
      { RemoveNewlinesNone(line); }
      line + RemoveNewlines(nl) + RemoveNewlines(rest);
      line + [] + RemoveNewlines(rest);
      { assert line + [] == line; }
      line + RemoveNewlines(rest);
    }
  }

  lemma {:induction false} JoinedLinesContent(s: seq<Byte>)
    ensures RemoveNewlines(JoinedLines(s)) == Encode(s)
    decreases |s|
  {
    if |s| <= LINE_BYTES {
      EncodeNoNewline(s);
      RemoveNewlinesNone(Encode(s));
    } else {
      var head, tail := s[..LINE_BYTES], s[LINE_BYTES..];
      assert JoinedLines(s) == Encode(head) + "\n" + JoinedLines(tail);
      EncodeNoNewline(head);
      RemoveNewlinesLine(Encode(head), JoinedLines(tail));
      JoinedLinesContent(tail);
      assert Encode(s) == Encode(head) + Encode(tail) by {
        assert s == head + tail;
        EncodeAppend(head, tail);
      }
    }
  }

  /** The codec's text, before its final newline, starts with an alphabet character and ends with one or with '='. */
  lemma {:induction false} JoinedLinesEdges(s: seq<Byte>)
    requires s != []
    ensures var t := JoinedLines(s); t != [] && IsAlphabetChar(t[0]) && IsEncodedChar(t[|t| - 1])
    decreases |s|
  {
    var t := JoinedLines(s);
    if |s| <= LINE_BYTES {
      EncodeChars(s);
    } else {
      var head, tail := s[..LINE_BYTES], s[LINE_BYTES..];
      assert t == Encode(head) + "\n" + JoinedLines(tail);
      EncodeChars(head);
      JoinedLinesEdges(tail);
      assert t[0] == Encode(head)[0];
      assert t[|t| - 1] == JoinedLines(tail)[|JoinedLines(tail)| - 1];
    }
  }
}
