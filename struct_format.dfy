/**
 * The part of Python's `struct` module this model relies on: format strings
 * with a standard-size byte-order prefix, `calcsize`, and `unpack`, which
 * fails unless the buffer is exactly `calcsize(fmt)` bytes long.
 *
 * Only the little-endian prefixes are modelled: '<', and '=' on a
 * little-endian host. Repeat counts and the native '@' mode are not.
 */
module StructFormat {
  import opened Wrappers
  import opened Bytes

  /** One unpacked value: an integer, or the raw bytes of a float, kept uninterpreted. */
  datatype Field = IntField(n: int) | FloatField(bits: seq<Byte>)

  /** The standard size in bytes of a format code, or None for a code outside the model. */
  function StandardSize(code: char): Option<nat>
  {
    match code
    case 'b' => Some(1)
    case 'B' => Some(1)
    case 'h' => Some(2)
    case 'H' => Some(2)
    case 'i' => Some(4)
    case 'I' => Some(4)
    case 'l' => Some(4)
    case 'L' => Some(4)
    case 'f' => Some(4)
    case 'q' => Some(8)
    case 'Q' => Some(8)
    case 'd' => Some(8)
    case _ => None
  }

  predicate IsFloatCode(code: char) { code == 'f' || code == 'd' }

  predicate IsSignedCode(code: char) { code in "bhilq" }

  predicate IsLittleEndianPrefix(c: char) { c == '<' || c == '=' }

  /** Total size of a run of format codes; None if one of them is unknown. */
  function CodesSize(codes: string): Option<nat>
  {
    if codes == [] then Some(0)
    else match (StandardSize(codes[0]), CodesSize(codes[1..]))
      case (Some(k), Some(m)) => Some(k + m)
      case _ => None
  }

  /** `struct.calcsize(fmt)`. */
  function CalcSize(fmt: string): Option<nat>
  {
    if fmt == [] || !IsLittleEndianPrefix(fmt[0]) then None else CodesSize(fmt[1..])
  }

  /** The value one code gives to exactly its standard size of bytes. */
  function DecodeField(code: char, bytes: seq<Byte>): Field
    requires StandardSize(code) == Some(|bytes|)
  {
    if IsFloatCode(code) then FloatField(bytes)
    else if IsSignedCode(code) then IntField(SignedLE(bytes))
    else IntField(UnsignedLE(bytes))
  }

  /** Unpacks `data` field by field; None where Python raises `struct.error`. */
  function UnpackCodes(codes: string, data: seq<Byte>): (r: Option<seq<Field>>)
    ensures r.Some? <==> CodesSize(codes) == Some(|data|)
    ensures r.Some? ==> |r.value| == |codes|
  {
    if codes == [] then (if data == [] then Some([]) else None)
    else match StandardSize(codes[0])
      case None => None
      case Some(k) =>
        if |data| < k then None
        else match UnpackCodes(codes[1..], data[k..])
          case None => None
          case Some(rest) => Some([DecodeField(codes[0], data[..k])] + rest)
  }

  /** `struct.unpack(fmt, data)`: one field per code, or None for `struct.error`. */
  function Unpack(fmt: string, data: seq<Byte>): (r: Option<seq<Field>>)
    ensures r.Some? <==> CalcSize(fmt) == Some(|data|)
    ensures r.Some? ==> |r.value| == |fmt| - 1
  {
    if fmt == [] || !IsLittleEndianPrefix(fmt[0]) then None else UnpackCodes(fmt[1..], data)
  }

  /** The size of a run of codes is the size of its first code plus the size of the rest. */
  lemma CodesSizeCons(codes: string)
    requires codes != [] && StandardSize(codes[0]).Some? && CodesSize(codes[1..]).Some?
    ensures CodesSize(codes) == Some(StandardSize(codes[0]).value + CodesSize(codes[1..]).value)
  {
  }

  /** A run of 8-byte codes takes 8 bytes per code. */
  lemma {:induction false} WideCodesSize(codes: string)
    requires forall j :: 0 <= j < |codes| ==> StandardSize(codes[j]) == Some(8)
    ensures CodesSize(codes) == Some(8 * |codes|)
  {
    if codes != [] {
      assert forall j :: 0 <= j < |codes| - 1 ==> codes[1..][j] == codes[j + 1];
      WideCodesSize(codes[1..]);
    }
  }

  /** A field that `struct.pack` accepts for `code` (an integer in range, or a float of the right width). */
  predicate Fits(code: char, f: Field)
  {
    match StandardSize(code)
    case None => false
    case Some(k) =>
      if IsFloatCode(code) then f.FloatField? && |f.bits| == k
      else if IsSignedCode(code) then f.IntField? && k > 0 && -128 * Pow256(k - 1) <= f.n < 128 * Pow256(k - 1)
      else f.IntField? && 0 <= f.n < Pow256(k)
  }

  predicate AllFit(codes: string, fields: seq<Field>)
  {
    |codes| == |fields| && forall i :: 0 <= i < |codes| ==> Fits(codes[i], fields[i])
  }

  /** The bytes of one field: the inverse of DecodeField. */
  function EncodeField(code: char, f: Field): (bytes: seq<Byte>)
    requires Fits(code, f)
    ensures StandardSize(code) == Some(|bytes|)
    ensures DecodeField(code, bytes) == f
  {
    var k := StandardSize(code).value;
    if IsFloatCode(code) then f.bits
    else if IsSignedCode(code) then ToSignedLE(f.n, k)
    else ToLE(f.n, k)
  }

  /** `struct.pack` over a run of codes. */
  function PackCodes(codes: string, fields: seq<Field>): (data: seq<Byte>)
    requires AllFit(codes, fields)
    ensures CodesSize(codes) == Some(|data|)
  {
    if codes == [] then []
    else
      assert AllFit(codes[1..], fields[1..]) by {
        forall i | 0 <= i < |codes| - 1 ensures Fits(codes[1..][i], fields[1..][i]) {
          assert Fits(codes[i + 1], fields[i + 1]);
        }
      }
      EncodeField(codes[0], fields[0]) + PackCodes(codes[1..], fields[1..])
  }

  /** Unpacking what was packed gives back the fields. */
  lemma {:induction false} UnpackPack(codes: string, fields: seq<Field>)
    requires AllFit(codes, fields)
    ensures UnpackCodes(codes, PackCodes(codes, fields)) == Some(fields)
  {
    if codes != [] {
      assert Fits(codes[0], fields[0]);
      var head := EncodeField(codes[0], fields[0]);
      assert AllFit(codes[1..], fields[1..]) by {
        forall i | 0 <= i < |codes| - 1 ensures Fits(codes[1..][i], fields[1..][i]) {
          assert Fits(codes[i + 1], fields[i + 1]);
        }
      }
      var tail := PackCodes(codes[1..], fields[1..]);
      assert PackCodes(codes, fields) == head + tail;
      assert (head + tail)[..|head|] == head;
      assert (head + tail)[|head|..] == tail;
      UnpackPack(codes[1..], fields[1..]);
      assert DecodeField(codes[0], head) == fields[0];
      assert fields == [fields[0]] + fields[1..];
    }
  }

  /** Packing what was unpacked gives back the bytes: unpack loses nothing. */
  lemma {:induction false} PackUnpack(codes: string, data: seq<Byte>)
    requires UnpackCodes(codes, data).Some?
    ensures AllFit(codes, UnpackCodes(codes, data).value)
    ensures PackCodes(codes, UnpackCodes(codes, data).value) == data
  {
    if codes != [] {
      var k := StandardSize(codes[0]).value;
      var fields := UnpackCodes(codes, data).value;
      PackUnpack(codes[1..], data[k..]);
      DecodeFieldFits(codes[0], data[..k]);
      assert fields[1..] == UnpackCodes(codes[1..], data[k..]).value;
      assert AllFit(codes, fields) by {
        forall i | 0 <= i < |codes| ensures Fits(codes[i], fields[i]) {
          if i > 0 {
            assert Fits(codes[1..][i - 1], fields[1..][i - 1]);
          }
        }
      }
      assert data == data[..k] + data[k..];
    }
  }

  /** A decoded field fits its code and encodes back to the same bytes. */
  lemma DecodeFieldFits(code: char, bytes: seq<Byte>)
    requires StandardSize(code) == Some(|bytes|)
    ensures Fits(code, DecodeField(code, bytes))
    ensures EncodeField(code, DecodeField(code, bytes)) == bytes
  {
    if !IsFloatCode(code) {
      if IsSignedCode(code) {
        SignedLERoundTrip(bytes);
      } else {
        ToLEOfUnsigned(bytes);
      }
    }
  }
}
