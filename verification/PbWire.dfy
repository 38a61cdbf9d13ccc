/** nanopb's field types and the wire form of single values (pb.h, pb_encode.c,
    pb_decode.c), after the sections "Base 128 Varints", "Signed Integers" and
    "Length-Delimited Records" of the Protocol Buffers Encoding document.
 */
module PbWire {
  import opened Coding
  import opened Comparator
  import opened Options

  /** data_size of an integer field: 1, 2, 4 or 8 bytes */
  datatype Width = W8 | W16 | W32 | W64

  /** 2 to the number of bits */
  function Span(w: Width): nat {
    match w
    case W8 => 0x100
    case W16 => 0x1_0000
    case W32 => MAX32
    case W64 => MAX64
  }

  /** The types of one value.  Bytes fields hold at most `max` bytes. */
  datatype LType =
    | LBool
    | LVarint(w: Width)
    | LUvarint(w: Width)
    | LSvarint(w: Width)
    | LFixed32
    | LFixed64
    | LBytes(max: nat)
    | LSubmessage(fields: seq<Field>)

  datatype HType = Required | Optional | Repeated(arraySize: nat)

  datatype Field = Field(tag: nat, htype: HType, ltype: LType, default: int)

  /** A value as the message structure holds it: a number, a byte array, a submessage. */
  datatype Value = Num(n: int) | Raw(bytes: Bytes) | Msg(slots: seq<Slot>)

  /** A field of the structure: the value, the value under a has_ flag, or counted values. */
  datatype Slot = One(v: Value) | Maybe(has: bool, v: Value) | Many(vs: seq<Value>)

  const WT_VARINT: nat := 0
  const WT_64BIT: nat := 1
  const WT_STRING: nat := 2
  const WT_32BIT: nat := 5

  predicate Packable(lt: LType) {
    !lt.LBytes? && !lt.LSubmessage?
  }

  function WireType(lt: LType): (wt: nat)
    ensures wt < 8
  {
    match lt
    case LBool => WT_VARINT
    case LVarint(_) => WT_VARINT
    case LUvarint(_) => WT_VARINT
    case LSvarint(_) => WT_VARINT
    case LFixed32 => WT_32BIT
    case LFixed64 => WT_64BIT
    case LBytes(_) => WT_STRING
    case LSubmessage(_) => WT_STRING
  }

  predicate SignedFits(n: int, w: Width) {
    -(Span(w) / 2) <= n < Span(w) / 2
  }

  /** The value is one its C type can hold. */
  predicate TypedScalar(lt: LType, v: Value) {
    match lt
    case LBool => v == Num(0) || v == Num(1)
    case LVarint(w) => v.Num? && SignedFits(v.n, w)
    case LUvarint(w) => v.Num? && 0 <= v.n < Span(w)
    case LSvarint(w) => v.Num? && SignedFits(v.n, w)
    case LFixed32 => v.Num? && 0 <= v.n < MAX32
    case LFixed64 => v.Num? && 0 <= v.n < MAX64
    case LBytes(_) => v.Raw? && |v.bytes| < MAX32
    case LSubmessage(_) => false
  }

  // ---- signed numbers ----

  /** (pb_uint64_t)value */
  function Unsigned64(n: int): (u: nat)
    requires SignedFits(n, W64)
    ensures u < MAX64
  {
    if n < 0 then n + MAX64 else n
  }

  /** (pb_int64_t)value and (int32_t)value */
  function Signed(u: nat, w: Width): (n: int)
    ensures SignedFits(n, w)
  {
    var low := LowBits(u, w);
    if low >= Span(w) / 2 then low - Span(w) else low
  }

  function LowBits(u: nat, w: Width): (r: nat)
    ensures r < Span(w)
  {
    u % Span(w)
  }

  lemma LowBitsSmall(u: nat, w: Width)
    requires u < Span(w)
    ensures LowBits(u, w) == u
  {
  }

  /** pb_encode_svarint: small magnitudes become small numbers. */
  function ZigZag(n: int): (u: nat)
    requires SignedFits(n, W64)
    ensures u < MAX64
  {
    if n < 0 then -2 * n - 1 else 2 * n
  }

  /** pb_decode_svarint */
  function UnZigZag(u: nat): int {
    if u % 2 == 1 then -(u / 2) - 1 else u / 2
  }

  lemma ZigZagRoundTrip(n: int)
    requires SignedFits(n, W64)
    ensures UnZigZag(ZigZag(n)) == n
  {
  }

  /** Sign extension to 64 bits and the cast back to the field's own width agree. */
  lemma SignRoundTrip(n: int, w: Width)
    requires SignedFits(n, w)
    ensures SignedFits(n, W64)
    ensures w == W64 ==> Signed(Unsigned64(n), W64) == n
    ensures w != W64 ==> Signed(Unsigned64(n), W32) == n
  {
    hide LowBits;
    var u := Unsigned64(n);
    LowBitsSmall(u, W64);
    if w != W64 {
      Low32Of(n);
    }
  }

  lemma Low32Of(n: int)
    requires SignedFits(n, W32)
    ensures n < 0 ==> LowBits(n + MAX64, W32) == n + MAX32
    ensures n >= 0 ==> LowBits(n, W32) == n
  {
  }

  // ---- 32-bit varints, which may be sign-extended ----

  /** v << bitpos, for the places a byte of a 32-bit varint past the first can have */
  function ShiftLeft(v: nat, bitpos: nat): nat {
    if bitpos == 7 then v * 0x80
    else if bitpos == 14 then v * 0x4000
    else if bitpos == 21 then v * 0x20_0000
    else v * 0x1000_0000
  }

  /** The loop of pb_decode_varint32_eof, past the first byte. */
  function MoreVarint32(s: Bytes, result: nat, bitpos: nat, used: nat): (r: Option<Parsed>)
    requires result < MAX32
    ensures r.Some? ==> used < r.value.used <= used + |s| && r.value.value < MAX32
  {
    if s == [] then None
    else
      var byte, low := s[0], Low7(s[0]);
      var signExtension := if bitpos < 63 then 0xff else 1;
      if bitpos >= 32 && low != 0 && (result < 0x8000_0000 || byte != signExtension) then None
      else
        var result' := if bitpos >= 32 then result else Low32(result + ShiftLeft(low, bitpos));
        if byte >= 128 then MoreVarint32(s[1..], result', bitpos + 7, used + 1)
        else if bitpos == 28 && low >= 16 then None
        else Some(Parsed(result', used + 1))
  }

  function Low7(b: Byte): (r: nat)
    ensures r < 128
  {
    b % 128
  }

  /** pb_decode_varint32 */
  function Varint32(s: Bytes): (r: Option<Parsed>)
    ensures r.Some? ==> 0 < r.value.used <= |s| && r.value.value < MAX32
  {
    if s == [] then None
    else if s[0] < 128 then Some(Parsed(s[0], 1))
    else MoreVarint32(s[1..], Low7(s[0]), 7, 1)
  }

  /** One more byte of a number that fits in 32 bits. */
  lemma {:induction false} MoreRoundTrip(v: nat, result: nat, bitpos: nat, used: nat, rest: Bytes)
    requires bitpos in {7, 14, 21, 28} && result < ShiftLeft(1, bitpos) && result + ShiftLeft(v, bitpos) < MAX32
    ensures result < MAX32
    ensures MoreVarint32(Varint(v) + rest, result, bitpos, used)
            == Some(Parsed(result + ShiftLeft(v, bitpos), used + |Varint(v)|))
    decreases 28 - bitpos
  {
    hide Low32, Low7;
    var s := Varint(v) + rest;
    var low, high := v % 128, v / 128;
    Low7Of(v);
    Low32Small(result + ShiftLeft(low, bitpos));
    if v < 128 {
      assert s[0] == v;
    } else {
      assert s[0] == low + 128;
      assert s[1..] == Varint(high) + rest;
      MoreRoundTrip(high, result + ShiftLeft(low, bitpos), bitpos + 7, used + 1, rest);
    }
  }

  lemma Low7Of(v: nat)
    ensures v < 128 ==> Low7(v) == v
    ensures Low7(v % 128 + 128) == v % 128
  {
  }

  /** A 32-bit number written as a varint is read back by the 32-bit decoder. */
  lemma Varint32RoundTrip(v: nat, rest: Bytes)
    requires v < MAX32
    ensures Varint32(Varint(v) + rest) == Some(Parsed(v, |Varint(v)|))
  {
    hide Low7, MoreVarint32;
    var s := Varint(v) + rest;
    Low7Of(v);
    if v < 128 {
      assert s[0] == v;
    } else {
      var low, high := v % 128, v / 128;
      assert s[0] == low + 128;
      assert s[1..] == Varint(high) + rest;
      MoreRoundTrip(high, low, 7, 1, rest);
    }
  }

  // ---- single values ----

  /** pb_encode_string: the length, then the bytes. */
  function Delimited(s: Bytes): Bytes {
    Varint(|s|) + s
  }

  /** The encoders of everything but submessages; a byte array may be too long. */
  function EncodeScalar(lt: LType, v: Value): (r: Option<Bytes>)
    requires TypedScalar(lt, v)
    ensures r.Some? ==> |r.value| > 0
  {
    match lt
    case LBool => Some(Varint(v.n))
    case LVarint(w) => SignRoundTrip(v.n, w); Some(Varint(Unsigned64(v.n)))
    case LUvarint(w) => Some(Varint(v.n))
    case LSvarint(w) => SignRoundTrip(v.n, w); Some(Varint(ZigZag(v.n)))
    case LFixed32 => Some(Fixed(v.n, 4))
    case LFixed64 => Some(Fixed(v.n, 8))
    case LBytes(max) => if |v.bytes| > max then None else Some(Delimited(v.bytes))
  }

  datatype Got = Got(v: Value, used: nat)

  /** pb_decode_varint */
  function Varint64(s: Bytes): (r: Option<Parsed>)
    ensures r.Some? ==> 0 < r.value.used <= |s| && r.value.value < MAX64
  {
    match Unvarint(s, 10)
    case None => None
    case Some(p) => Some(Parsed(LowBits(p.value, W64), p.used))
  }

  function IfFits(n: int, fits: bool, used: nat): Option<Got> {
    if fits then Some(Got(Num(n), used)) else None
  }

  /** A length and that many bytes, for pb_dec_bytes. */
  function DecodeBytes(max: nat, s: Bytes): Option<Got> {
    match Varint32(s)
    case None => None
    case Some(p) =>
      if p.value > max || |s| - p.used < p.value then None
      else Some(Got(Raw(s[p.used..p.used + p.value]), p.used + p.value))
  }

  /** The decoders of everything but submessages: the value and how much it took.  A number
      that does not fit the field is an error. */
  function DecodeScalar(lt: LType, s: Bytes): (r: Option<Got>)
    requires !lt.LSubmessage?
    ensures r.Some? ==> 0 < r.value.used <= |s| && TypedScalar(lt, r.value.v)
  {
    match lt
    case LBool =>
      (match Varint32(s)
       case None => None
       case Some(p) => Some(Got(Num(if p.value != 0 then 1 else 0), p.used)))
    case LVarint(w) =>
      (match Varint64(s)
       case None => None
       case Some(p) => var n := Signed(p.value, if w == W64 then W64 else W32); IfFits(n, SignedFits(n, w), p.used))
    case LUvarint(w) =>
      (match Varint64(s)
       case None => None
       case Some(p) => IfFits(p.value, p.value < Span(w), p.used))
    case LSvarint(w) =>
      (match Varint64(s)
       case None => None
       case Some(p) => var n := UnZigZag(p.value); IfFits(n, SignedFits(n, w), p.used))
    case LFixed32 => if |s| < 4 then None else UnfixedBound(s[..4]); Some(Got(Num(Unfixed(s[..4])), 4))
    case LFixed64 => if |s| < 8 then None else UnfixedBound(s[..8]); Some(Got(Num(Unfixed(s[..8])), 8))
    case LBytes(max) => DecodeBytes(max, s)
  }

  lemma {:induction false} UnfixedSmall(s: Bytes)
    ensures Unfixed(s) < Power(256, |s|)
  {
    if s != [] {
      UnfixedSmall(s[1..]);
    }
  }

  lemma UnfixedBound(s: Bytes)
    ensures |s| == 4 ==> Unfixed(s) < MAX32
    ensures |s| == 8 ==> Unfixed(s) < MAX64
  {
    hide Unfixed;
    UnfixedSmall(s);
    assert Power(256, 4) == 256 * (256 * (256 * (256 * Power(256, 0))));
    assert Power(256, 8) == 256 * (256 * (256 * (256 * Power(256, 4))));
  }

  lemma Varint64RoundTrip(v: nat, rest: Bytes)
    requires v < MAX64
    ensures Varint64(Varint(v) + rest) == Some(Parsed(v, |Varint(v)|))
  {
    hide LowBits;
    Varint64Length(v);
    VarintRoundTrip(v, 10, rest);
    LowBitsSmall(v, W64);
  }

  /** Whatever the type, a value that was written comes back, and no more is read. */
  lemma ScalarRoundTrip(lt: LType, v: Value, rest: Bytes)
    requires TypedScalar(lt, v) && EncodeScalar(lt, v).Some?
    ensures DecodeScalar(lt, EncodeScalar(lt, v).value + rest) == Some(Got(v, |EncodeScalar(lt, v).value|))
  {
    hide Varint, Varint32, Varint64, Signed, Unsigned64, ZigZag, UnZigZag, Unfixed, Fixed;
    match lt
    case LBool => Varint32RoundTrip(v.n, rest);
    case LVarint(w) =>
      SignRoundTrip(v.n, w);
      Unsigned64Bound(v.n);
      Varint64RoundTrip(Unsigned64(v.n), rest);
    case LUvarint(w) => Varint64RoundTrip(v.n, rest);
    case LSvarint(w) =>
      SignRoundTrip(v.n, w);
      ZigZagRoundTrip(v.n);
      ZigZagBound(v.n);
      Varint64RoundTrip(ZigZag(v.n), rest);
    case LFixed32 =>
      Fixed32RoundTrip(v.n);
      FixedFront(v.n, 4, rest);
    case LFixed64 =>
      Fixed64RoundTrip(v.n);
      FixedFront(v.n, 8, rest);
    case LBytes(max) =>
      Varint32RoundTrip(|v.bytes|, v.bytes + rest);
      DelimitedFront(v.bytes, rest);
  }

  lemma Unsigned64Bound(n: int)
    requires SignedFits(n, W64)
    ensures Unsigned64(n) < MAX64
  {
  }

  lemma ZigZagBound(n: int)
    requires SignedFits(n, W64)
    ensures ZigZag(n) < MAX64
  {
  }

  lemma FixedFront(v: nat, n: nat, rest: Bytes)
    ensures |Fixed(v, n)| == n && (Fixed(v, n) + rest)[..n] == Fixed(v, n)
  {
  }

  lemma DelimitedFront(b: Bytes, rest: Bytes)
    ensures Delimited(b) + rest == Varint(|b|) + (b + rest)
    ensures var n := |Varint(|b|)|; |Delimited(b)| == n + |b| && (Delimited(b) + rest)[n..n + |b|] == b
  {
    hide Varint;
  }
}
