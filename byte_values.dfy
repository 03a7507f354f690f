/**
 * The derived fields of one symbolic solution (a key/value pair of a test
 * case): `byte_array_to_int`, and the hex, printable and base64 renderings of
 * the value bytes built in `TestCaseKeyValue.__init__`.
 */
module ByteValues {
  import opened Wrappers
  import opened Bytes
  import opened StructFormat
  import opened Numerals
  import opened PyStrings
  import Base64

  /** What `byte_array_to_int` produces: an integer, or the `struct.error` it raises. */
  datatype IntResult = Value(v: int) | StructError

  /**
   * The meaning of `byte_array_to_int`, by the length of its input: 0 past
   * eight bytes; up to four bytes, the signed 32-bit little-endian value of
   * the input padded with zero bytes; five to eight bytes, an error, because
   * the padded 8-byte buffer is unpacked with the 4-byte code 'l'.
   */
  function IntValue(value: seq<Byte>): IntResult
  {
    if |value| > 8 then Value(0)
    else if |value| <= 4 then Value(SignedLE(value + Zeros(4 - |value|)))
    else StructError
  }

  /** `byte_array_to_int(value)`: pads a copy with zero bytes, then unpacks it with '<i' or '<l'. */
  method ByteArrayToInt(value: seq<Byte>) returns (r: IntResult)
    ensures r == IntValue(value)
  {
    var l := |value|;
    if l > 8 {
      return Value(0);
    }
    var v := value;
    var padding: nat, structFormat: char;
    if l <= 4 {
      padding, structFormat := 4 - l, 'i';
    } else {
      padding, structFormat := 8 - l, 'l';
    }
    var i := 0;
    while i < padding
      invariant 0 <= i <= padding
      invariant v == value + Zeros(i)
    {
      v := v + [0];
      i := i + 1;
    }
    UnpackOneCode(structFormat, v);
    var fields := Unpack(['<', structFormat], v);
    // a one-code format unpacks to a one-element tuple holding an integer
    if fields.Some? && fields.value[0].IntField? {
      r := Value(fields.value[0].n);
    } else {
      r := StructError;
    }
  }

  /** A '<' format of one code takes exactly that code's size, and reads its bytes as one field. */
  lemma UnpackOneCode(code: char, v: seq<Byte>)
    requires StandardSize(code).Some?
    ensures CalcSize(['<', code]) == StandardSize(code)
    ensures StandardSize(code) == Some(|v|) ==> Unpack(['<', code], v) == Some([DecodeField(code, v)])
  {
    var fmt := ['<', code];
    var k := StandardSize(code).value;
    assert fmt[1..] == [code] && [code][1..] == [];
    assert CodesSize([code]) == Some(k + 0);
    if k == |v| {
      assert v[..k] == v && v[k..] == [];
      assert UnpackCodes([], v[k..]) == Some([]);
      assert UnpackCodes([code], v) == Some([DecodeField(code, v)] + []);
      assert Unpack(fmt, v) == UnpackCodes([code], v);
      assert [DecodeField(code, v)] + [] == [DecodeField(code, v)];
    }
  }

  /** Every value produced is a signed 32-bit integer. */
  lemma IntValueRange(value: seq<Byte>)
    requires IntValue(value).Value?
    ensures -0x8000_0000 <= IntValue(value).v < 0x8000_0000
  {
    assert Pow256(3) == 0x100_0000;
  }

  /** An input shorter than four bytes gives its unsigned value: the zero padding is the high end. */
  lemma IntValueShort(value: seq<Byte>)
    requires |value| < 4
    ensures IntValue(value) == Value(UnsignedLE(value))
  {
    UnsignedLEZeroPadded(value, 4 - |value|);
    Pow256Monotonic(|value|, 3);
    assert Pow256(3) == 0x100_0000;
  }

  lemma {:induction false} Pow256Monotonic(m: nat, n: nat)
    requires m <= n
    ensures Pow256(m) <= Pow256(n)
    decreases n
  {
    if m < n {
      Pow256Monotonic(m, n - 1);
    }
  }

  /** A four-byte input and the int32 it gives determine each other. */
  lemma IntValueFourBytes(value: seq<Byte>, x: int)
    requires |value| == 4
    ensures Pow256(3) == 0x100_0000
    ensures IntValue(value) == Value(x) <==> -0x8000_0000 <= x < 0x8000_0000 && value == ToSignedLE(x, 4)
  {
    assert Pow256(3) == 0x100_0000;
    assert value + Zeros(0) == value;
    SignedLERoundTrip(value);
  }

  /** `'0x' + c.encode('hex')` for one byte. */
  function HexToken(b: Byte): (t: string)
    ensures |t| == 4
  {
    "0x" + HexByte(b)
  }

  /** The tokens of `value_hex`, one per byte, in order. */
  function HexTokens(value: seq<Byte>): (r: seq<string>)
    ensures |r| == |value|
  {
    if value == [] then [] else [HexToken(value[0])] + HexTokens(value[1..])
  }

  /** `','.join('0x' + x.encode('hex') for x in value)`. */
  function ValueHex(value: seq<Byte>): string
  {
    Join(",", HexTokens(value))
  }

  /** Reads one "0x" token back. */
  function ParseHexToken(t: string): Option<Byte>
  {
    if |t| == 4 && t[..2] == "0x" then
      match NumeralValue(t[2..], 16)
      case Some(n) => if n < 256 then Some(n) else None
      case None => None
    else None
  }

  /** Reads a `value_hex` string back into its bytes. */
  function ParseValueHex(t: string): Option<seq<Byte>>
    decreases |t|
  {
    if t == [] then Some([])
    else if |t| < 4 then None
    else match ParseHexToken(t[..4])
      case None => None
      case Some(b) =>
        if |t| == 4 then Some([b])
        else if |t| < 9 || t[4] != ',' then None
        else match ParseValueHex(t[5..])
          case None => None
          case Some(rest) => Some([b] + rest)
  }

  lemma HexTokenRoundTrip(b: Byte)
    ensures ParseHexToken(HexToken(b)) == Some(b)
  {
    var t := HexToken(b);
    assert t[..2] == "0x" && t[2..] == HexByte(b);
  }

  /** One token per byte, each four characters, with a comma between neighbours. */
  lemma {:induction false} ValueHexLength(value: seq<Byte>)
    ensures |ValueHex(value)| == if value == [] then 0 else 5 * |value| - 1
  {
    if |value| > 1 {
      ValueHexLength(value[1..]);
      assert HexTokens(value)[1..] == HexTokens(value[1..]);
    }
  }

  /** Token `i` of `value_hex` sits at characters [5i, 5i+4) and reads back as byte `i`, with a comma after it unless it is the last. */
  lemma {:induction false} ValueHexToken(value: seq<Byte>, i: nat)
    requires i < |value|
    ensures |ValueHex(value)| == 5 * |value| - 1
    ensures ParseHexToken(ValueHex(value)[5 * i..5 * i + 4]) == Some(value[i])
    ensures i + 1 < |value| ==> ValueHex(value)[5 * i + 4] == ','
  {
    var t := ValueHex(value);
    ValueHexLength(value);
    if |value| == 1 {
      assert t == HexToken(value[0]) == t[5 * i..5 * i + 4];
      HexTokenRoundTrip(value[0]);
    } else {
      var rest := ValueHex(value[1..]);
      assert HexTokens(value)[1..] == HexTokens(value[1..]);
      assert t == HexToken(value[0]) + "," + rest;
      if i == 0 {
        assert t[..4] == HexToken(value[0]);
        HexTokenRoundTrip(value[0]);
      } else {
        ValueHexToken(value[1..], i - 1);
        SliceAfter(HexToken(value[0]) + ",", rest, 5 * i, 5 * i + 4);
        if i + 1 < |value| {
          assert t[5 * i + 4] == rest[5 * (i - 1) + 4];
        }
      }
    }
  }

  lemma SliceAfter<T>(a: seq<T>, b: seq<T>, k: nat, m: nat)
    requires |a| <= k <= m <= |a| + |b|
    ensures (a + b)[k..m] == b[k - |a|..m - |a|]
  {
  }

  /** `value_hex` reads back as the value bytes. */
  lemma {:induction false} ValueHexRoundTrip(value: seq<Byte>)
    ensures ParseValueHex(ValueHex(value)) == Some(value)
  {
    var t := ValueHex(value);
    if value != [] {
      HexTokenRoundTrip(value[0]);
      if |value| == 1 {
        assert t == HexToken(value[0]) == t[..4];
        assert value == [value[0]];
      } else {
        var rest := ValueHex(value[1..]);
        assert HexTokens(value)[1..] == HexTokens(value[1..]);
        assert t == HexToken(value[0]) + "," + rest;
        ValueHexLength(value[1..]);
        ValueHexRoundTrip(value[1..]);
        assert t[..4] == HexToken(value[0]) && t[4] == ',' && t[5..] == rest;
        assert value == [value[0]] + value[1..];
      }
    }
  }

  /** One byte of `value_printable`: the character itself if it is in `string.printable`, else '.'. */
  function PrintableChar(b: Byte): char
  {
    if IsPrintable(b as char) then b as char else '.'
  }

  /** `''.join(c if c in string.printable else '.' for c in value)`. */
  function ValuePrintable(value: seq<Byte>): (r: string)
    ensures |r| == |value|
  {
    seq(|value|, i requires 0 <= i < |value| => PrintableChar(value[i]))
  }

  /** The bytes read as characters, one for one. */
  function AsChars(value: seq<Byte>): (r: string)
    ensures |r| == |value|
  {
    seq(|value|, i requires 0 <= i < |value| => value[i] as char)
  }

  /** The characters of a string whose characters all fit in a byte, as bytes. */
  function AsBytes(s: string): (r: seq<Byte>)
    requires forall i :: 0 <= i < |s| ==> s[i] as int < 256
    ensures |r| == |s|
  {
    seq(|s|, i requires 0 <= i < |s| => s[i] as int)
  }

  /** Every character of `value_printable` is printable; each is its byte's character or, for a byte that is not printable, '.'. */
  lemma ValuePrintableChars(value: seq<Byte>, i: nat)
    requires i < |value|
    ensures IsPrintable(ValuePrintable(value)[i])
    ensures ValuePrintable(value)[i] == value[i] as char <==> IsPrintable(value[i] as char) || value[i] == '.' as int
    ensures IsPrintable(value[i] as char) ==> ValuePrintable(value)[i] == value[i] as char
    ensures !IsPrintable(value[i] as char) ==> ValuePrintable(value)[i] == '.'
  {
  }

  /** `value_printable` is the value read as characters exactly when every byte is printable. */
  lemma ValuePrintableUnchanged(value: seq<Byte>)
    ensures ValuePrintable(value) == AsChars(value) <==> forall i :: 0 <= i < |value| ==> IsPrintable(value[i] as char)
  {
    if ValuePrintable(value) == AsChars(value) {
      forall i | 0 <= i < |value| ensures IsPrintable(value[i] as char) {
        assert ValuePrintable(value)[i] == AsChars(value)[i];
      }
    }
  }

  /** Rendering a rendered value again changes nothing. */
  lemma ValuePrintableIdempotent(value: seq<Byte>)
    ensures var p := ValuePrintable(value);
      (forall i :: 0 <= i < |p| ==> p[i] as int < 256) && ValuePrintable(AsBytes(p)) == p
  {
    var p := ValuePrintable(value);
    forall i | 0 <= i < |p| ensures p[i] as int < 256 && PrintableChar(p[i] as int) == p[i] {
      assert IsPrintable(p[i]);
    }
  }

  /**
   * `value.encode('base64').strip()`: the codec's 57-byte lines joined by
   * newlines (`ValueBytesIsStripped` shows it is the stripped codec output).
   */
  function ValueBytes(value: seq<Byte>): string
  {
    Base64.JoinedLines(value)
  }

  lemma EncodedCharNotSpace(c: char)
    requires Base64.IsEncodedChar(c)
    ensures !IsSpace(c)
  {
  }

  /** `value_bytes` is the codec's output with its final newline stripped. */
  lemma ValueBytesIsStripped(value: seq<Byte>)
    ensures Strip(Base64.EncodeLines(value)) == ValueBytes(value)
  {
    if value == [] {
      assert Base64.EncodeLines(value) == [];
      assert Base64.JoinedLines(value) == Base64.Encode([]) == [];
    } else {
      var t := Base64.JoinedLines(value);
      Base64.EncodeLinesJoined(value);
      Base64.JoinedLinesEdges(value);
      EncodedCharNotSpace(t[0]);
      EncodedCharNotSpace(t[|t| - 1]);
      StripTrailingNewline(t);
    }
  }

  /** `value_bytes`, read without its line breaks, decodes back to the value. */
  lemma ValueBytesRoundTrip(value: seq<Byte>)
    ensures Base64.Decode(Base64.RemoveNewlines(ValueBytes(value))) == Some(value)
  {
    Base64.JoinedLinesContent(value);
    Base64.DecodeEncode(value);
  }
}
