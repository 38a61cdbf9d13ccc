/** The integer and string codecs the file formats rest on (util/coding.h, util/coding.cc). */
module Coding {
  import opened Comparator
  import opened Options

  const MAX32: nat := 0x1_0000_0000
  const MAX64: nat := 0x1_0000_0000_0000_0000

  /** What 32 bits keep of a number. */
  function Low32(v: nat): nat {
    v % MAX32
  }

  lemma Low32Small(v: nat)
    requires v < MAX32
    ensures Low32(v) == v
  {
  }

  // ---- little-endian integers of fixed width ----

  /** EncodeFixed32 and EncodeFixed64, for n of 4 and 8. */
  function Fixed(v: nat, n: nat): (s: Bytes)
    ensures |s| == n
  {
    if n == 0 then [] else [v % 256] + Fixed(v / 256, n - 1)
  }

  /** The four bytes of a number, least first. */
  lemma FixedBytes(v: nat)
    requires v < MAX32
    ensures Fixed(v, 4) == [v % 0x100, v / 0x100 % 0x100, v / 0x1_0000 % 0x100, v / 0x100_0000]
  {
    var v1, v2, v3 := v / 256, v / 256 / 256, v / 256 / 256 / 256;
    assert v2 == v / 0x1_0000 && v3 == v / 0x100_0000 && v3 % 256 == v3;
    assert Fixed(v3, 1) == [v3 % 256] + Fixed(v3 / 256, 0);
    assert Fixed(v2, 2) == [v2 % 256] + Fixed(v3, 1);
    assert Fixed(v1, 3) == [v1 % 256] + Fixed(v2, 2);
  }

  /** DecodeFixed32 and DecodeFixed64 */
  function Unfixed(s: Bytes): nat {
    if s == [] then 0 else s[0] + 256 * Unfixed(s[1..])
  }

  function Power(b: nat, n: nat): nat {
    if n == 0 then 1 else b * Power(b, n - 1)
  }

  /** Two numbers one after the other are one, the first being its low bytes. */
  lemma {:induction false} FixedJoins(low: nat, high: nat, n: nat, k: nat)
    requires low < Power(256, n)
    ensures Fixed(low + Power(256, n) * high, n + k) == Fixed(low, n) + Fixed(high, k)
  {
    if n > 0 {
      FixedJoins(low / 256, high, n - 1, k);
      Shift256(low, high, n - 1);
      assert Power(256, n) * high == 256 * (Power(256, n - 1) * high);
    }
  }

  lemma Shift256(low: nat, high: nat, n: nat)
    ensures Power(256, n + 1) * high == 256 * (Power(256, n) * high)
    ensures var v := low + 256 * (Power(256, n) * high);
            v % 256 == low % 256 && v / 256 == low / 256 + Power(256, n) * high
  {
  }

  /** Eight bytes are two times four, the low half first. */
  lemma FixedHalves(v: nat)
    ensures Fixed(v, 8) == Fixed(v % MAX32, 4) + Fixed(v / MAX32, 4)
  {
    hide Fixed;
    assert Power(256, 4) == 256 * (256 * (256 * (256 * Power(256, 0))));
    FixedJoins(v % MAX32, v / MAX32, 4, 4);
  }

  /** Four bytes read back, the first the lowest. */
  lemma UnfixedBytes(s: Bytes)
    requires |s| == 4
    ensures Unfixed(s) == s[0] as int + 0x100 * s[1] as int + 0x1_0000 * s[2] as int + 0x100_0000 * s[3] as int
  {
    assert Unfixed(s) == s[0] as int + 256 * Unfixed(s[1..]);
    assert Unfixed(s[1..]) == s[1] as int + 256 * Unfixed(s[1..][1..]);
    assert s[1..][1..] == s[2..];
    assert Unfixed(s[2..]) == s[2] as int + 256 * Unfixed(s[2..][1..]);
    assert s[2..][1..] == s[3..];
    assert Unfixed(s[3..]) == s[3] as int + 256 * Unfixed(s[3..][1..]);
  }

  /** ... and of eight the first four are the low half. */
  lemma UnfixedHalves(s: Bytes)
    requires |s| == 8
    ensures Unfixed(s) == Unfixed(s[..4]) + 0x1_0000_0000 * Unfixed(s[4..])
  {
    hide Unfixed;
    UnfixedDrop(s);
    UnfixedBytes(s[..4]);
  }

  lemma UnfixedDrop(s: Bytes)
    requires |s| == 8
    ensures Unfixed(s) == s[0] as int + 0x100 * s[1] as int + 0x1_0000 * s[2] as int + 0x100_0000 * s[3] as int
                          + 0x1_0000_0000 * Unfixed(s[4..])
  {
    assert Unfixed(s) == s[0] as int + 256 * Unfixed(s[1..]);
    assert Unfixed(s[1..]) == s[1] as int + 256 * Unfixed(s[1..][1..]);
    assert s[1..][1..] == s[2..];
    assert Unfixed(s[2..]) == s[2] as int + 256 * Unfixed(s[2..][1..]);
    assert s[2..][1..] == s[3..];
    assert Unfixed(s[3..]) == s[3] as int + 256 * Unfixed(s[3..][1..]);
    assert s[3..][1..] == s[4..];
  }

  /** What fits in n bytes comes back. */
  lemma {:induction false} FixedRoundTrip(v: nat, n: nat)
    requires v < Power(256, n)
    ensures Unfixed(Fixed(v, n)) == v
  {
    if n > 0 {
      FixedRoundTrip(v / 256, n - 1);
    }
  }

  lemma {:induction false} UnfixedFixed(s: Bytes)
    ensures Fixed(Unfixed(s), |s|) == s
  {
    if s != [] {
      UnfixedFixed(s[1..]);
    }
  }

  lemma Fixed32RoundTrip(v: nat)
    requires v < MAX32
    ensures Unfixed(Fixed(v, 4)) == v
  {
    assert Power(256, 4) == 256 * (256 * (256 * (256 * Power(256, 0))));
    FixedRoundTrip(v, 4);
  }

  /** Four bytes make a number of 32 bits. */
  lemma FourByteBound(w: seq<Byte>)
    requires |w| == 4
    ensures Unfixed(w) < MAX32
  {
    assert Unfixed(w) == w[0] + 256 * (w[1] + 256 * (w[2] + 256 * (w[3] + 256 * Unfixed(w[4..])))) by {
      assert Unfixed(w) == w[0] + 256 * Unfixed(w[1..]);
      assert Unfixed(w[1..]) == w[1] + 256 * Unfixed(w[1..][1..]);
      assert w[1..][1..] == w[2..];
      assert Unfixed(w[2..]) == w[2] + 256 * Unfixed(w[2..][1..]);
      assert w[2..][1..] == w[3..];
      assert Unfixed(w[3..]) == w[3] + 256 * Unfixed(w[3..][1..]);
      assert w[3..][1..] == w[4..];
    }
  }

  lemma Fixed64RoundTrip(v: nat)
    requires v < MAX64
    ensures Unfixed(Fixed(v, 8)) == v
  {
    assert Power(256, 4) == 0x1_0000_0000 by {
      assert Power(256, 4) == 256 * (256 * (256 * (256 * Power(256, 0))));
    }
    assert Power(256, 8) == 256 * (256 * (256 * (256 * Power(256, 4))));
    FixedRoundTrip(v, 8);
  }

  // ---- varints ----

  /** Seven bits a byte, lowest first, with the top bit set on all but the last. */
  function Varint(v: nat): (s: Bytes)
    ensures |s| >= 1
  {
    if v < 128 then [v] else [v % 128 + 128] + Varint(v / 128)
  }

  /** Numbers of 7 and of 14 bits take a byte and two; any number shares its low 7 bits with the
      first byte, and the bytes that follow are those of the rest. */
  lemma VarintBytes(v: nat)
    ensures v < 0x80 ==> Varint(v) == [v]
    ensures 0x80 <= v < 0x4000 ==> Varint(v) == [v % 0x80 + 0x80, v / 0x80]
    ensures v >= 0x80 ==> Varint(v)[0] == v % 0x80 + 0x80 && Varint(v)[1..] == Varint(v / 0x80)
  {
    if 0x80 <= v < 0x4000 {
      assert Varint(v / 0x80) == [v / 0x80];
    }
  }

  datatype Parsed = Parsed(value: nat, used: nat)

  /** The number a varint of at most n bytes at the front of s stands for, and its length. */
  function Unvarint(s: Bytes, n: nat): (r: Option<Parsed>)
    ensures r.Some? ==> 1 <= r.value.used <= n && r.value.used <= |s|
  {
    if n == 0 || s == [] then None
    else if s[0] < 128 then Some(Parsed(s[0], 1))
    else
      match Unvarint(s[1..], n - 1)
      case None => None
      case Some(p) => Some(Parsed(s[0] - 128 + 128 * p.value, p.used + 1))
  }

  /** What k bytes stand for, 7 bits each, the first the lowest. */
  function Groups(s: Bytes, k: nat): nat
    requires k <= |s|
  {
    if k == 0 then 0 else Groups(s, k - 1) + Power(128, k - 1) * (s[k - 1] % 128)
  }

  lemma {:induction false} GroupsFront(s: Bytes, k: nat)
    requires 0 < k <= |s|
    ensures Groups(s, k) == s[0] % 128 + 128 * Groups(s[1..], k - 1)
  {
    if k > 1 {
      GroupsFront(s, k - 1);
      ShiftDigit(k - 2, s[k - 1] % 128);
    }
  }

  lemma ShiftDigit(n: nat, digit: nat)
    ensures Power(128, n + 1) * digit == 128 * (Power(128, n) * digit)
  {
  }

  /** Any bytes are read up to the first with its top bit clear, in canonical form or not; there
      must be one among the first n. */
  lemma {:induction false} UnvarintIsSum(s: Bytes, n: nat, k: nat)
    requires k <= |s| && k <= n && forall i :: 0 <= i < k ==> s[i] >= 128
    ensures k == |s| || k == n ==> Unvarint(s, n) == None
    ensures k < |s| && k < n && s[k] < 128 ==> Unvarint(s, n) == Some(Parsed(Groups(s, k + 1), k + 1))
    decreases k
  {
    hide Groups;
    if k > 0 {
      UnvarintIsSum(s[1..], n - 1, k - 1);
      if k < |s| {
        GroupsFront(s, k + 1);
      }
    } else if |s| > 0 {
      OneGroup(s);
    }
  }

  lemma OneGroup(s: Bytes)
    requires s != []
    ensures Groups(s, 1) == s[0] % 128
  {
    assert Groups(s, 1) == Groups(s, 0) + Power(128, 0) * (s[0] % 128);
  }

  /** Encoding and decoding undo each other, whatever follows. */
  lemma {:induction false} VarintRoundTrip(v: nat, n: nat, rest: Bytes)
    requires |Varint(v)| <= n
    ensures Unvarint(Varint(v) + rest, n) == Some(Parsed(v, |Varint(v)|))
  {
    if v >= 128 {
      VarintRoundTrip(v / 128, n - 1, rest);
      assert (Varint(v) + rest)[1..] == Varint(v / 128) + rest;
    }
  }

  /** A varint cut short is not read at all. */
  lemma {:induction false} VarintCutShort(v: nat, n: nat, k: nat)
    requires k < |Varint(v)|
    ensures Unvarint(Varint(v)[..k], n) == None
  {
    if k > 0 && n > 0 {
      VarintCutShort(v / 128, n - 1, k - 1);
      assert Varint(v)[..k][1..] == Varint(v / 128)[..k - 1];
    }
  }

  lemma {:induction false} VarintLengths(v: nat, n: nat)
    requires n > 0 && v < Power(128, n)
    ensures |Varint(v)| <= n
  {
    if v >= 128 {
      assert n > 1;
      VarintLengths(v / 128, n - 1);
    }
  }

  lemma Varint32Length(v: nat)
    requires v < MAX32
    ensures |Varint(v)| <= 5
  {
    assert Power(128, 5) == 128 * (128 * (128 * (128 * (128 * Power(128, 0)))));
    VarintLengths(v, 5);
  }

  lemma Varint64Length(v: nat)
    requires v < MAX64
    ensures |Varint(v)| <= 10
  {
    assert Power(128, 5) == 128 * (128 * (128 * (128 * (128 * Power(128, 0)))));
    assert Power(128, 10) == 128 * (128 * (128 * (128 * (128 * Power(128, 5)))));
    VarintLengths(v, 10);
  }

  method EncodeVarint32(v: nat) returns (s: Bytes)
    requires v < MAX32
    ensures s == Varint(v)
  {
    if v < 0x80 {
      s := [v];
    } else if v < 0x4000 {
      s := [v % 128 + 128, v / 0x80];
    } else if v < 0x20_0000 {
      s := [v % 128 + 128, v / 0x80 % 128 + 128, v / 0x4000];
    } else if v < 0x1000_0000 {
      s := [v % 128 + 128, v / 0x80 % 128 + 128, v / 0x4000 % 128 + 128, v / 0x20_0000];
    } else {
      s := [v % 128 + 128, v / 0x80 % 128 + 128, v / 0x4000 % 128 + 128, v / 0x20_0000 % 128 + 128, v / 0x1000_0000];
    }
    Unroll(v, v / 128, v / 128 / 128, v / 128 / 128 / 128, v / 128 / 128 / 128 / 128);
    Digits(v);
  }

  lemma Unroll(v: nat, v1: nat, v2: nat, v3: nat, v4: nat)
    requires v < MAX32 && v1 == v / 128 && v2 == v1 / 128 && v3 == v2 / 128 && v4 == v3 / 128
    ensures Varint(v) ==
            if v < 128 then [v]
            else if v1 < 128 then [v % 128 + 128, v1]
            else if v2 < 128 then [v % 128 + 128, v1 % 128 + 128, v2]
            else if v3 < 128 then [v % 128 + 128, v1 % 128 + 128, v2 % 128 + 128, v3]
            else [v % 128 + 128, v1 % 128 + 128, v2 % 128 + 128, v3 % 128 + 128, v4]
  {
    assert Varint(v4) == [v4];
    assert Varint(v3) == if v3 < 128 then [v3] else [v3 % 128 + 128] + Varint(v4);
    assert Varint(v2) == if v2 < 128 then [v2] else [v2 % 128 + 128] + Varint(v3);
    assert Varint(v1) == if v1 < 128 then [v1] else [v1 % 128 + 128] + Varint(v2);
  }

  lemma Digits(v: nat)
    ensures v / 0x4000 == v / 128 / 128
    ensures v / 0x20_0000 == v / 128 / 128 / 128
    ensures v / 0x1000_0000 == v / 128 / 128 / 128 / 128
  {
  }

  method EncodeVarint64(v: nat) returns (s: Bytes)
    requires v < MAX64
    ensures s == Varint(v)
  {
    s := [];
    var left := v;
    while left >= 128
      invariant s + Varint(left) == Varint(v)
    {
      assert s + Varint(left) == (s + [left % 128 + 128]) + Varint(left / 128);
      s := s + [left % 128 + 128];
      left := left / 128;
    }
    s := s + [left];
  }

  method VarintLength(v: nat) returns (len: nat)
    ensures len == |Varint(v)|
  {
    len := 1;
    var left := v;
    while left >= 128
      invariant len - 1 + |Varint(left)| == |Varint(v)| && len >= 1
    {
      left := left / 128;
      len := len + 1;
    }
  }

  function Times(a: nat, b: nat): nat {
    a * b
  }

  /** What has been read of a varint so far: i bytes, worth `result`. */
  ghost predicate Reading(s: Bytes, n: nat, i: nat, mult: nat, result: nat) {
    && i <= n && i <= |s|
    && Unvarint(s, n) == match Unvarint(s[i..], n - i)
                         case None => None
                         case Some(p) => Some(Parsed(result + Times(mult, p.value), i + p.used))
  }

  lemma ReadingStarts(s: Bytes, n: nat)
    ensures Reading(s, n, 0, 1, 0)
  {
    assert s[0..] == s;
  }

  lemma ReadingEnds(s: Bytes, n: nat, i: nat, mult: nat, result: nat)
    requires Reading(s, n, i, mult, result) && (i == n || i == |s|)
    ensures Unvarint(s, n) == None
  {
  }

  lemma UnvarintStep(s: Bytes, n: nat)
    requires s != [] && n > 0
    ensures Unvarint(s, n) ==
            if s[0] < 128 then Some(Parsed(s[0], 1))
            else match Unvarint(s[1..], n - 1)
                 case None => None
                 case Some(p) => Some(Parsed(s[0] - 128 + 128 * p.value, p.used + 1))
  {
  }

  lemma ReadingStep(s: Bytes, n: nat, i: nat, mult: nat, result: nat)
    requires Reading(s, n, i, mult, result) && i < n && i < |s|
    ensures s[i] < 128 ==> Unvarint(s, n) == Some(Parsed(result + Times(mult, s[i]), i + 1))
    ensures s[i] >= 128 ==> Reading(s, n, i + 1, Times(mult, 128), result + Times(mult, s[i] - 128))
  {
    hide Times, Unvarint;
    var t, b := s[i..], s[i];
    Front(s, i);
    UnvarintStep(t, n - i);
    if b >= 128 {
      var rest := Unvarint(s[i + 1..], n - i - 1);
      if rest.Some? {
        Spread(mult, b - 128, rest.value.value);
      }
    }
  }

  lemma Front(s: Bytes, i: nat)
    requires i < |s|
    ensures var t := s[i..]; t != [] && t[0] == s[i] && t[1..] == s[i + 1..]
  {
  }

  lemma Spread(mult: nat, digit: nat, v: nat)
    ensures Times(mult, digit + 128 * v) == Times(mult, digit) + Times(Times(mult, 128), v)
  {
    assert mult * (128 * v) == mult * 128 * v;
    assert mult * (digit + 128 * v) == mult * digit + mult * (128 * v);
  }

  /** GetVarint32Ptr and its fallback: five bytes at most, and 32 bits of result.  Only the
      fifth byte can carry bits that the shift drops. */
  method GetVarint32(s: Bytes) returns (r: Option<Parsed>)
    ensures match Unvarint(s, 5)
            case None => r == None
            case Some(p) => r == Some(Parsed(Low32(p.value), p.used))
  {
    r := GetVarint(s, 5, MAX32);
  }

  /** GetVarint64Ptr: ten bytes at most, and 64 bits of result. */
  method GetVarint64(s: Bytes) returns (r: Option<Parsed>)
    ensures match Unvarint(s, 10)
            case None => r == None
            case Some(p) => r == Some(Parsed(p.value % MAX64, p.used))
  {
    r := GetVarint(s, 10, MAX64);
  }

  /** The loop both share: shift goes up by seven while bytes with the top bit set follow. */
  method GetVarint(s: Bytes, n: nat, limit: nat) returns (r: Option<Parsed>)
    requires limit > 0
    ensures match Unvarint(s, n)
            case None => r == None
            case Some(p) => r == Some(Parsed(p.value % limit, p.used))
  {
    hide Times, Reading, Unvarint;
    var result: nat, mult: nat, i: nat := 0, 1, 0;
    ReadingStarts(s, n);
    while i < n && i < |s|
      invariant i <= n && i <= |s| && Reading(s, n, i, mult, result)
    {
      ReadingStep(s, n, i, mult, result);
      var byte := s[i];
      i := i + 1;
      if byte >= 128 {
        result := result + Times(mult, byte - 128);
        mult := Times(mult, 128);
      } else {
        result := result + Times(mult, byte);
        return Some(Parsed(result % limit, i));
      }
    }
    ReadingEnds(s, n, i, mult, result);
    return None;
  }

  // ---- length-prefixed strings ----

  /** PutLengthPrefixedSlice; the length is cast to 32 bits. */
  function LengthPrefixed(s: Bytes): Bytes {
    Varint(Low32(|s|)) + s
  }

  datatype Cut = Cut(slice: Bytes, rest: Bytes)

  /** GetLengthPrefixedSlice */
  function GetLengthPrefixed(s: Bytes): (r: Option<Cut>) {
    match Unvarint(s, 5)
    case None => None
    case Some(p) =>
      var len := Low32(p.value);
      if |s| - p.used >= len then Some(Cut(s[p.used..p.used + len], s[p.used + len..])) else None
  }

  /** A string shorter than 4 GB comes back, and nothing of what follows is lost. */
  lemma LengthPrefixedRoundTrip(s: Bytes, rest: Bytes)
    requires |s| < MAX32
    ensures GetLengthPrefixed(LengthPrefixed(s) + rest) == Some(Cut(s, rest))
  {
    Varint32Length(|s|);
    VarintRoundTrip(|s|, 5, s + rest);
    assert LengthPrefixed(s) + rest == Varint(|s|) + (s + rest);
  }

  /** A string of up to 127 bytes is stored after one byte with its length. */
  lemma PrefixedBytes(s: Bytes)
    requires |s| < 0x80
    ensures LengthPrefixed(s) == [|s|] + s
  {
  }

  /** Any bytes: the length is in the bytes up to the first with its top bit clear, one of the first
      five, and that many must follow. */
  lemma PrefixedRead(s: Bytes, k: nat)
    requires k <= |s| && k <= 5 && forall i :: 0 <= i < k ==> s[i] >= 128
    ensures k == |s| || k == 5 ==> GetLengthPrefixed(s) == None
    ensures k < |s| && k < 5 && s[k] < 128 ==>
              var length := Groups(s, k + 1) % 0x1_0000_0000;
              GetLengthPrefixed(s) == if k + 1 + length > |s| then None
                                      else Some(Cut(s[k + 1..k + 1 + length], s[k + 1 + length..]))
  {
    hide Groups, Unvarint;
    UnvarintIsSum(s, 5, k);
  }
}
