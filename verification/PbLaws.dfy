/** The wire form that nanopb shares with every other protobuf implementation, byte by byte:
    single values, tags and whole fields (pb_encode.c, pb_decode.c), after the sections
    "Message Structure" and "More Integer Types" of the Protocol Buffers Encoding document.
 */
module PbLaws {
  import opened Coding
  import opened Comparator
  import opened Options
  import opened PbDecode
  import opened PbLimits
  import opened PbMessages
  import opened PbRoundTrip
  import opened PbWire

  // ---- single values ----

  /** What is written for a value of each type. */
  lemma ScalarBytes(lt: LType, v: Value)
    requires TypedScalar(lt, v)
    ensures EncodeScalar(lt, v) ==
            match lt
            case LBool => Some([v.n])
            case LVarint(_) => Some(Varint(if v.n >= 0 then v.n else v.n + 0x1_0000_0000_0000_0000))
            case LUvarint(_) => Some(Varint(v.n))
            case LSvarint(_) => Some(Varint(if v.n >= 0 then 2 * v.n else -2 * v.n - 1))
            case LFixed32 =>
              Some([v.n % 0x100, v.n / 0x100 % 0x100, v.n / 0x1_0000 % 0x100, v.n / 0x100_0000])
            case LFixed64 => Some(Fixed(v.n % 0x1_0000_0000, 4) + Fixed(v.n / 0x1_0000_0000, 4))
            case LBytes(max) => if |v.bytes| > max then None else Some(Varint(|v.bytes|) + v.bytes)
  {
    match lt
    case LBool => VarintBytes(v.n);
    case LFixed32 => FixedBytes(v.n);
    case LFixed64 => FixedHalves(v.n);
    case _ =>
  }

  /** A zigzag number is the plain number that is twice as large, or for a negative one, twice its
      size less one. */
  lemma ZigZagIsPlain(w: Width, n: int)
    requires SignedFits(n, w)
    ensures n >= 0 ==> TypedScalar(LUvarint(W64), Num(2 * n))
                       && EncodeScalar(LSvarint(w), Num(n)) == EncodeScalar(LUvarint(W64), Num(2 * n))
    ensures n < 0 ==> TypedScalar(LUvarint(W64), Num(-2 * n - 1))
                      && EncodeScalar(LSvarint(w), Num(n)) == EncodeScalar(LUvarint(W64), Num(-2 * n - 1))
  {
    SignRoundTrip(n, w);
  }

  /** What is read, for each type, from any bytes.  An integer that its field cannot hold is an
      error; a boolean is whether a 32-bit number is not zero. */
  lemma ScalarRead(lt: LType, s: Bytes)
    requires !lt.LSubmessage?
    ensures lt.LBool? ==> DecodeScalar(lt, s) ==
                          match Varint32(s)
                          case None => None
                          case Some(p) => Some(Got(Num(if p.value == 0 then 0 else 1), p.used))
    ensures lt.LUvarint? ==> DecodeScalar(lt, s) ==
                             match Varint64(s)
                             case None => None
                             case Some(p) => if p.value < 2 * Half(lt.w) then Some(Got(Num(p.value), p.used)) else None
    ensures lt.LSvarint? ==> DecodeScalar(lt, s) ==
                             match Varint64(s)
                             case None => None
                             case Some(p) =>
                               if p.value >= 2 * Half(lt.w) then None
                               else if p.value % 2 == 0 then Some(Got(Num(p.value / 2), p.used))
                               else Some(Got(Num(-(p.value / 2) - 1), p.used))
    ensures lt.LFixed32? ==> DecodeScalar(lt, s) == if |s| < 4 then None else
              Some(Got(Num(s[0] as int + 0x100 * s[1] as int + 0x1_0000 * s[2] as int + 0x100_0000 * s[3] as int), 4))
    ensures lt.LFixed64? ==> DecodeScalar(lt, s) == if |s| < 8 then None else
              Some(Got(Num(Unfixed(s[..4]) + 0x1_0000_0000 * Unfixed(s[4..8])), 8))
    ensures lt.LBytes? ==> DecodeScalar(lt, s) ==
                           match Varint32(s)
                           case None => None
                           case Some(p) =>
                             if p.value <= lt.max && p.used + p.value <= |s|
                             then Some(Got(Raw(s[p.used..p.used + p.value]), p.used + p.value)) else None
  {
    hide Varint32, Varint64, Unfixed;
    match lt
    case LFixed32 =>
      if |s| >= 4 { UnfixedBytes(s[..4]); }
    case LFixed64 =>
      if |s| >= 8 {
        UnfixedHalves(s[..8]);
        assert s[..8][..4] == s[..4] && s[..8][4..] == s[4..8];
      }
    case _ =>
  }

  /** The bound of the signed numbers of a width. */
  function Half(w: Width): nat {
    match w
    case W8 => 0x80
    case W16 => 0x8000
    case W32 => 0x8000_0000
    case W64 => 0x8000_0000_0000_0000
  }

  /** A plain signed number: of 64 bits for an int64 field, else the low 32, and they must fit. */
  lemma SignedRead(w: Width, s: Bytes, p: Parsed)
    requires Varint64(s) == Some(p)
    ensures w == W64 ==>
              var n := if p.value < 0x8000_0000_0000_0000 then p.value else p.value - 0x1_0000_0000_0000_0000;
              DecodeScalar(LVarint(w), s) == Some(Got(Num(n), p.used))
    ensures w != W64 ==>
              var low := p.value % 0x1_0000_0000;
              var n := if low < 0x8000_0000 then low else low - 0x1_0000_0000;
              DecodeScalar(LVarint(w), s)
              == if -n <= Half(w) && n < Half(w) then Some(Got(Num(n), p.used)) else None
  {
    hide Varint64, Signed;
    SignedIs(p.value);
  }

  lemma SignedIs(u: nat)
    ensures u < MAX64 ==> Signed(u, W64) == if u < 0x8000_0000_0000_0000 then u else u - 0x1_0000_0000_0000_0000
    ensures var low := u % 0x1_0000_0000;
            Signed(u, W32) == if low < 0x8000_0000 then low else low - 0x1_0000_0000
  {
  }

  /** pb_decode_varint, on any bytes: 7 bits each up to the first byte with its top bit clear, which
      must be among the first ten; bits past the 64th are lost. */
  lemma Varint64IsSum(s: Bytes, k: nat)
    requires k <= |s| && k <= 10 && forall i :: 0 <= i < k ==> s[i] >= 128
    ensures k == |s| || k == 10 ==> Varint64(s) == None
    ensures k < |s| && k < 10 && s[k] < 128 ==>
              Varint64(s) == Some(Parsed(Groups(s, k + 1) % 0x1_0000_0000_0000_0000, k + 1))
  {
    UnvarintIsSum(s, 10, k);
  }

  /** The sign extension of a 32-bit number, past its first five bytes. */
  lemma ExtensionRead(result: nat, rest: Bytes)
    requires 0x8000_0000 <= result < 0x1_0000_0000
    ensures MoreVarint32([255, 255, 255, 255, 1] + rest, result, 35, 5) == Some(Parsed(result, 10))
  {
    var s := [255, 255, 255, 255, 1] + rest;
    assert s[1..] == [255, 255, 255, 1] + rest && s[1..][1..] == [255, 255, 1] + rest;
    assert s[1..][1..][1..] == [255, 1] + rest && s[1..][1..][1..][1..] == [1] + rest;
    assert MoreVarint32([1] + rest, result, 63, 9) == Some(Parsed(result, 10));
    assert MoreVarint32([255, 1] + rest, result, 56, 8) == MoreVarint32([1] + rest, result, 63, 9);
    assert MoreVarint32([255, 255, 1] + rest, result, 49, 7) == MoreVarint32([255, 1] + rest, result, 56, 8);
    assert MoreVarint32([255, 255, 255, 1] + rest, result, 42, 6) == MoreVarint32([255, 255, 1] + rest, result, 49, 7);
  }

  lemma LowRead(a: nat, b: nat, c: nat, d: nat, e: nat, t: Bytes)
    requires a < 128 && b < 128 && c < 128 && d < 128 && 8 <= e < 16
    ensures var s := [b + 128, c + 128, d + 128, e + 0x70 + 128] + t;
            MoreVarint32(s, a, 7, 1)
            == MoreVarint32(t, a + 0x80 * b + 0x4000 * c + 0x20_0000 * d + 0x1000_0000 * e, 35, 5)
  {
    hide Low32, Low7;
    var s1, s2 := [b + 128, c + 128, d + 128, e + 0x70 + 128] + t, [c + 128, d + 128, e + 0x70 + 128] + t;
    var s3, s4 := [d + 128, e + 0x70 + 128] + t, [e + 0x70 + 128] + t;
    assert s1[1..] == s2 && s2[1..] == s3 && s3[1..] == s4 && s4[1..] == t;
    var v1, v2, v3 := a + 0x80 * b, a + 0x80 * b + 0x4000 * c, a + 0x80 * b + 0x4000 * c + 0x20_0000 * d;
    var v4 := v3 + 0x1000_0000 * e;
    Low32Small(v1);
    Low32Small(v2);
    Low32Small(v3);
    Wraps(v4);
    Low7Of(b);
    Low7Of(c);
    Low7Of(d);
    Low7Of(e + 0x70);
    assert MoreVarint32(s1, a, 7, 1) == MoreVarint32(s2, v1, 14, 2);
    assert MoreVarint32(s2, v1, 14, 2) == MoreVarint32(s3, v2, 21, 3);
    assert MoreVarint32(s3, v2, 21, 3) == MoreVarint32(s4, v3, 28, 4);
    assert MoreVarint32(s4, v3, 28, 4) == MoreVarint32(t, v4, 35, 5);
  }

  lemma Wraps(v: nat)
    requires v < MAX32
    ensures Low32(v + 0x70 * 0x1000_0000) == v
  {
  }

  /** A negative int32, sent as ten bytes, is read by the 32-bit decoder as its low 32 bits. */
  lemma SignExtendedRead(a: nat, b: nat, c: nat, d: nat, e: nat, rest: Bytes)
    requires a < 128 && b < 128 && c < 128 && d < 128 && 8 <= e < 16
    ensures Varint32([a + 128, b + 128, c + 128, d + 128, e + 0x70 + 128, 255, 255, 255, 255, 1] + rest)
            == Some(Parsed(a + 0x80 * b + 0x4000 * c + 0x20_0000 * d + 0x1000_0000 * e, 10))
  {
    hide MoreVarint32, Low7;
    var t := [255, 255, 255, 255, 1] + rest;
    var s := [a + 128, b + 128, c + 128, d + 128, e + 0x70 + 128, 255, 255, 255, 255, 1] + rest;
    LowRead(a, b, c, d, e, t);
    ExtensionRead(a + 0x80 * b + 0x4000 * c + 0x20_0000 * d + 0x1000_0000 * e, rest);
    Low7Of(a);
    assert s[1..] == [b + 128, c + 128, d + 128, e + 0x70 + 128] + t;
  }

  // ---- the end of a message ----

  lemma RequiredCount(fields: seq<Field>, n: nat)
    requires n <= |fields|
    ensures RequiredBefore(fields, n) == |set j | 0 <= j < n && fields[j].htype.Required?|
  {
    if n > 0 {
      RequiredCount(fields, n - 1);
      var before := set j | 0 <= j < n - 1 && fields[j].htype.Required?;
      assert (set j | 0 <= j < n && fields[j].htype.Required?)
             == if fields[n - 1].htype.Required? then before + {n - 1} else before;
    }
  }

  /** A required field that is missed: one with fewer than 64 required ones before it. */
  ghost predicate Missing(fields: seq<Field>, seen: set<nat>, i: nat) {
    && i < |fields| && fields[i].htype.Required? && i !in seen
    && |set j | 0 <= j < i && fields[j].htype.Required?| < 64
  }

  /** The bytes, or a tag of zero, end the message: it is good if no required field is missing. */
  lemma MessageEnds(fields: seq<Field>, slots: seq<Slot>, seen: set<nat>, rest: Bytes)
    requires GoodFields(fields) && Typed(fields, slots)
    ensures (exists i: nat :: Missing(fields, seen, i)) ==>
              DecodeFields(fields, slots, seen, []) == None && DecodeFields(fields, slots, seen, [0] + rest) == None
    ensures (forall i: nat :: !Missing(fields, seen, i)) ==>
              && DecodeFields(fields, slots, seen, []) == Some(slots)
              && DecodeFields(fields, slots, seen, [0] + rest) == Some(slots)
  {
    hide Varint32, RequiredBefore, Skip, DecodeField;
    MissingIs(fields, seen);
    ZeroTag(rest);
  }

  lemma ZeroTag(rest: Bytes)
    ensures DecodeTag([0] + rest) == EndTag
  {
    assert ([0] + rest)[0] == 0;
  }

  lemma MissingIs(fields: seq<Field>, seen: set<nat>)
    ensures RequiredSeen(fields, seen) <==> forall i: nat :: !Missing(fields, seen, i)
  {
    hide RequiredBefore;
    forall i: nat | i < |fields|
      ensures RequiredBefore(fields, i) == |set j | 0 <= j < i && fields[j].htype.Required?|
    {
      RequiredCount(fields, i);
    }
    if RequiredSeen(fields, seen) {
      forall i: nat
        ensures !Missing(fields, seen, i)
      {
      }
    } else {
      var i :| 0 <= i < |fields| && fields[i].htype.Required? && RequiredBefore(fields, i) < 64 && i !in seen;
      assert Missing(fields, seen, i);
    }
  }

  // ---- fields the receiver does not know ----

  /** A tag that is no field's, and what pb_skip_field makes of what follows it. */
  lemma UnknownStep(fields: seq<Field>, slots: seq<Slot>, seen: set<nat>, tag: nat, wt: nat, s: Bytes)
    requires GoodFields(fields) && Typed(fields, slots) && 0 < tag < 0x2000_0000 && wt < 8
    requires forall i :: 0 <= i < |fields| ==> fields[i].tag != tag
    ensures DecodeFields(fields, slots, seen, TagBytes(tag, wt) + s) ==
            match Skip(wt, s)
            case None => None
            case Some(k) => DecodeFields(fields, slots, seen, s[k..])
  {
    hide Varint, Varint32, Skip, Find, DecodeFields, DecodeTag, TagBytes;
    TagBack(tag, wt, s);
    TagNotEmpty(tag, wt);
    FindNone(fields, tag);
    var whole := TagBytes(tag, wt) + s;
    RoundSkips(fields, slots, seen, whole, tag, wt, |TagBytes(tag, wt)|);
    assert whole[|TagBytes(tag, wt)|..] == s;
  }

  lemma {:induction false} SkipsVarint(v: nat, rest: Bytes)
    ensures Skip(0, Varint(v) + rest) == Some(|Varint(v)|)
  {
    var s := Varint(v) + rest;
    VarintBytes(v);
    if v >= 128 {
      SkipsVarint(v / 128, rest);
      assert s[1..] == Varint(v / 128) + rest;
    }
  }

  lemma SkipsBytes(b: Bytes, rest: Bytes)
    requires |b| < 0x1_0000_0000
    ensures Skip(2, Varint(|b|) + b + rest) == Some(|Varint(|b|) + b|)
  {
    hide Varint, Varint32;
    assert Varint(|b|) + b + rest == Varint(|b|) + (b + rest);
    Varint32RoundTrip(|b|, b + rest);
  }

  lemma SkipsFour(b: Bytes, rest: Bytes)
    ensures |b| == 8 ==> Skip(1, b + rest) == Some(8)
    ensures |b| == 4 ==> Skip(5, b + rest) == Some(4)
    ensures forall s: Bytes :: |s| < 8 ==> Skip(1, s) == None
    ensures forall s: Bytes :: |s| < 4 ==> Skip(5, s) == None
  {
    hide Varint32;
  }

  /** A field of another version of the message has no effect, whatever its number and its value:
      a varint, eight bytes, a length and that many bytes, or four bytes. */
  lemma UnknownFieldIgnored(fields: seq<Field>, slots: seq<Slot>, seen: set<nat>, tag: nat, v: nat, b: Bytes,
                            rest: Bytes)
    requires GoodFields(fields) && Typed(fields, slots) && 0 < tag < 0x2000_0000
    requires forall i :: 0 <= i < |fields| ==> fields[i].tag != tag
    ensures DecodeFields(fields, slots, seen, Varint(8 * tag) + Varint(v) + rest)
            == DecodeFields(fields, slots, seen, rest)
    ensures |b| == 8 ==>
              DecodeFields(fields, slots, seen, Varint(8 * tag + 1) + b + rest)
              == DecodeFields(fields, slots, seen, rest)
    ensures |b| < 0x1_0000_0000 ==>
              DecodeFields(fields, slots, seen, Varint(8 * tag + 2) + (Varint(|b|) + b) + rest)
              == DecodeFields(fields, slots, seen, rest)
    ensures |b| == 4 ==>
              DecodeFields(fields, slots, seen, Varint(8 * tag + 5) + b + rest)
              == DecodeFields(fields, slots, seen, rest)
  {
    hide Varint, Varint32, Skip, DecodeFields;
    SkipsVarint(v, rest);
    Ignored(fields, slots, seen, tag, 0, Varint(v), rest);
    SkipsFour(b, rest);
    if |b| == 8 {
      Ignored(fields, slots, seen, tag, 1, b, rest);
    }
    if |b| == 4 {
      Ignored(fields, slots, seen, tag, 5, b, rest);
    }
    if |b| < 0x1_0000_0000 {
      SkipsBytes(b, rest);
      Ignored(fields, slots, seen, tag, 2, Varint(|b|) + b, rest);
    }
  }

  lemma Ignored(fields: seq<Field>, slots: seq<Slot>, seen: set<nat>, tag: nat, wt: nat, value: Bytes, rest: Bytes)
    requires GoodFields(fields) && Typed(fields, slots) && 0 < tag < 0x2000_0000 && wt < 8
    requires forall i :: 0 <= i < |fields| ==> fields[i].tag != tag
    requires Skip(wt, value + rest) == Some(|value|)
    ensures DecodeFields(fields, slots, seen, Varint(8 * tag + wt) + value + rest)
            == DecodeFields(fields, slots, seen, rest)
  {
    hide Varint, Varint32, Skip, DecodeFields;
    UnknownStep(fields, slots, seen, tag, wt, value + rest);
    assert Varint(8 * tag + wt) + value + rest == TagBytes(tag, wt) + (value + rest);
    assert (value + rest)[|value|..] == rest;
  }

  /** ... but a value that is cut short is an error, and so is any other wire type. */
  lemma UnknownFieldRejected(fields: seq<Field>, slots: seq<Slot>, seen: set<nat>, tag: nat, wt: nat, s: Bytes)
    requires GoodFields(fields) && Typed(fields, slots) && 0 < tag < 0x2000_0000 && wt < 8
    requires forall i :: 0 <= i < |fields| ==> fields[i].tag != tag
    requires || (wt == 0 && forall i :: 0 <= i < |s| ==> s[i] >= 128)
             || (wt == 1 && |s| < 8) || (wt == 5 && |s| < 4) || wt == 3 || wt == 4 || wt > 5
             || (wt == 2 && (Varint32(s) == None || Varint32(s).value.used + Varint32(s).value.value > |s|))
    ensures DecodeFields(fields, slots, seen, Varint(8 * tag + wt) + s) == None
  {
    hide Varint, Varint32, SkipVarint, DecodeFields;
    UnknownStep(fields, slots, seen, tag, wt, s);
    assert Varint(8 * tag + wt) + s == TagBytes(tag, wt) + s;
    if wt == 0 {
      NoEnd(s);
    }
  }

  lemma {:induction false} NoEnd(s: Bytes)
    requires forall i :: 0 <= i < |s| ==> s[i] >= 128
    ensures SkipVarint(s) == None
  {
    if s != [] {
      NoEnd(s[1..]);
    }
  }

  lemma SameLength(fields: seq<Field>, slots: seq<Slot>)
    requires Typed(fields, slots)
    ensures |fields| == |slots|
  {
  }

  // ---- fields the receiver knows, in any order and number ----

  /** A single value, under any wire type: the last one counts, and a required field is seen.  What
      cannot be read is an error. */
  lemma KnownScalar(fields: seq<Field>, slots: seq<Slot>, seen: set<nat>, i: nat, wt: nat, s: Bytes)
    requires GoodFields(fields) && Typed(fields, slots) && i < |fields| && wt < 8
    requires GoodField(fields[i]) && TypedSlot(fields[i], slots[i]) && !fields[i].ltype.LSubmessage?
    ensures var f, whole := fields[i], Varint(8 * fields[i].tag + wt) + s;
            match DecodeScalar(f.ltype, s)
            case None => !f.htype.Repeated? ==> DecodeFields(fields, slots, seen, whole) == None
            case Some(got) =>
              && (f.htype.Required? ==>
                    && Typed(fields, slots[i := One(got.v)])
                    && DecodeFields(fields, slots, seen, whole)
                    == DecodeFields(fields, slots[i := One(got.v)], seen + {i}, s[got.used..]))
              && (f.htype.Optional? ==>
                    && Typed(fields, slots[i := Maybe(true, got.v)])
                    && DecodeFields(fields, slots, seen, whole)
                    == DecodeFields(fields, slots[i := Maybe(true, got.v)], seen, s[got.used..]))
  {
    hide Varint, DecodeFields, DecodeScalar, Typed;
    var f := fields[i];
    assert TagBytes(f.tag, wt) + s == Varint(8 * f.tag + wt) + s;
    if f.htype.Repeated? {
    } else if DecodeScalar(f.ltype, s) == None {
      FieldStops(fields, slots, seen, i, wt, s);
    } else {
      var got := DecodeScalar(f.ltype, s).value;
      FieldStep(fields, slots, seen, i, wt, s,
                Taken(if f.htype.Required? then One(got.v) else Maybe(true, got.v), got.used));
    }
  }

  /** One more value of a repeated field under a tag of its own, if there is a place for it. */
  lemma KnownEntry(fields: seq<Field>, slots: seq<Slot>, seen: set<nat>, i: nat, wt: nat, s: Bytes)
    requires GoodFields(fields) && Typed(fields, slots) && i < |fields| && wt < 8
    requires GoodField(fields[i]) && TypedSlot(fields[i], slots[i]) && !fields[i].ltype.LSubmessage?
    requires fields[i].htype.Repeated? && (wt != 2 || fields[i].ltype.LBytes?)
    ensures var f, whole := fields[i], Varint(8 * fields[i].tag + wt) + s;
            match DecodeScalar(f.ltype, s)
            case None => DecodeFields(fields, slots, seen, whole) == None
            case Some(got) =>
              if |slots[i].vs| >= f.htype.arraySize then DecodeFields(fields, slots, seen, whole) == None
              else
                && Typed(fields, slots[i := Many(slots[i].vs + [got.v])])
                && DecodeFields(fields, slots, seen, whole)
                == DecodeFields(fields, slots[i := Many(slots[i].vs + [got.v])], seen, s[got.used..])
  {
    hide Varint, Varint32, DecodeFields, DecodeScalar, Typed;
    var f := fields[i];
    SameLength(fields, slots);
    assert TagBytes(f.tag, wt) + s == Varint(8 * f.tag + wt) + s;
    if DecodeScalar(f.ltype, s) == None || |slots[i].vs| >= f.htype.arraySize {
      FieldStops(fields, slots, seen, i, wt, s);
    } else {
      var got := DecodeScalar(f.ltype, s).value;
      FieldStep(fields, slots, seen, i, wt, s, Taken(Many(slots[i].vs + [got.v]), got.used));
    }
  }

  /** Values without tags fill what places are left, and there must be one for each. */
  lemma {:induction false} PackedOverflows(lt: LType, arraySize: nat, done: seq<Value>, vs: seq<Value>, b: Bytes)
    requires !lt.LSubmessage? && (forall i :: 0 <= i < |vs| ==> TypedValue(lt, vs[i]))
    requires (forall i :: 0 <= i < |done| ==> TypedValue(lt, done[i])) && vs != [] && |done| + |vs| > arraySize
    requires EncodePacked(lt, vs) == Some(b)
    ensures DecodePacked(lt, arraySize, done, b) == None
    decreases |vs|
  {
    hide EncodeScalar, DecodeScalar;
    assert TypedValue(lt, vs[0]) && TypedScalar(lt, vs[0]);
    var e, rest := EncodeScalar(lt, vs[0]).value, EncodePacked(lt, vs[1..]).value;
    ScalarNotEmpty(lt, vs[0]);
    if |done| < arraySize {
      ScalarRoundTrip(lt, vs[0], rest);
      assert (e + rest)[|e|..] == rest;
      PackedOverflows(lt, arraySize, done + [vs[0]], vs[1..], rest);
    }
  }

  /** A packed array is added to what came before it, or fails if it does not fit. */
  lemma KnownPacked(fields: seq<Field>, slots: seq<Slot>, seen: set<nat>, i: nat, vs: seq<Value>, b: Bytes,
                    rest: Bytes)
    requires GoodFields(fields) && Typed(fields, slots) && i < |fields|
    requires GoodField(fields[i]) && TypedSlot(fields[i], slots[i]) && fields[i].htype.Repeated?
    requires !fields[i].ltype.LSubmessage? && !fields[i].ltype.LBytes?
    requires (forall k :: 0 <= k < |vs| ==> TypedValue(fields[i].ltype, vs[k])) && vs != []
    requires EncodePacked(fields[i].ltype, vs) == Some(b) && |b| < 0x1_0000_0000
    ensures var f, whole := fields[i], Varint(8 * fields[i].tag + 2) + (Varint(|b|) + b) + rest;
            if |slots[i].vs| + |vs| > f.htype.arraySize then DecodeFields(fields, slots, seen, whole) == None
            else
              && Typed(fields, slots[i := Many(slots[i].vs + vs)])
              && DecodeFields(fields, slots, seen, whole)
              == DecodeFields(fields, slots[i := Many(slots[i].vs + vs)], seen, rest)
  {
    hide Varint, Varint32, DecodeFields, EncodePacked, DecodePacked, Typed;
    SameLength(fields, slots);
    var f, done := fields[i], slots[i].vs;
    var s := Varint(|b|) + b + rest;
    assert Varint(8 * f.tag + 2) + (Varint(|b|) + b) + rest == TagBytes(f.tag, 2) + s;
    assert s == Varint(|b|) + (b + rest);
    Varint32RoundTrip(|b|, b + rest);
    assert s[|Varint(|b|)|..|Varint(|b|)| + |b|] == b;
    if |done| + |vs| > f.htype.arraySize {
      PackedOverflows(f.ltype, f.htype.arraySize, done, vs, b);
      FieldStops(fields, slots, seen, i, 2, s);
    } else {
      PackedBack(f.ltype, f.htype.arraySize, done, vs, b);
      FieldStep(fields, slots, seen, i, 2, s, Taken(Many(done + vs), |Varint(|b|)| + |b|));
      assert s[|Varint(|b|)| + |b|..] == rest;
    }
  }

  lemma SubmessageTyped(f: Field, slot: Slot)
    requires GoodField(f) && TypedSlot(f, slot) && f.ltype.LSubmessage? && !f.htype.Repeated?
    ensures GoodFields(f.ltype.fields) && slot.v.Msg? && Typed(f.ltype.fields, slot.v.slots)
  {
    assert TypedValue(f.ltype, slot.v);
  }

  /** A submessage is decoded on top of what is there, so that a second one adds to the first. */
  lemma KnownSubmessage(fields: seq<Field>, slots: seq<Slot>, seen: set<nat>, i: nat, wt: nat, b: Bytes, rest: Bytes)
    requires GoodFields(fields) && Typed(fields, slots) && i < |fields| && wt < 8 && |b| < 0x1_0000_0000
    requires GoodField(fields[i]) && TypedSlot(fields[i], slots[i]) && fields[i].ltype.LSubmessage?
    requires !fields[i].htype.Repeated?
    ensures var f, whole := fields[i], Varint(8 * fields[i].tag + wt) + (Varint(|b|) + b) + rest;
            (SubmessageTyped(f, slots[i]);
            match DecodeFields(f.ltype.fields, slots[i].v.slots, {}, b)
            case None => DecodeFields(fields, slots, seen, whole) == None
            case Some(m) =>
              var next := if f.htype.Required? then One(Msg(m)) else Maybe(true, Msg(m));
              && Typed(fields, slots[i := next])
              && DecodeFields(fields, slots, seen, whole)
              == DecodeFields(fields, slots[i := next], if f.htype.Required? then seen + {i} else seen, rest))
  {
    hide Varint, Varint32, DecodeFields, Typed, Defaults, GoodFields;
    SubmessageThere(fields, slots, seen, i, wt, b, rest);
  }

  /** ... but a new array entry starts from the defaults, if there is a place for it. */
  lemma KnownSubmessageEntry(fields: seq<Field>, slots: seq<Slot>, seen: set<nat>, i: nat, wt: nat, b: Bytes,
                             rest: Bytes)
    requires GoodFields(fields) && Typed(fields, slots) && i < |fields| && wt < 8 && |b| < 0x1_0000_0000
    requires GoodField(fields[i]) && TypedSlot(fields[i], slots[i]) && fields[i].ltype.LSubmessage?
    requires fields[i].htype.Repeated?
    ensures var f, whole := fields[i], Varint(8 * fields[i].tag + wt) + (Varint(|b|) + b) + rest;
            (DefaultsTyped(f.ltype.fields);
            match DecodeFields(f.ltype.fields, Defaults(f.ltype.fields), {}, b)
            case None => DecodeFields(fields, slots, seen, whole) == None
            case Some(m) =>
              if |slots[i].vs| >= f.htype.arraySize then DecodeFields(fields, slots, seen, whole) == None
              else
                && Typed(fields, slots[i := Many(slots[i].vs + [Msg(m)])])
                && DecodeFields(fields, slots, seen, whole)
                == DecodeFields(fields, slots[i := Many(slots[i].vs + [Msg(m)])], seen, rest))
  {
    hide Varint, Varint32, DecodeFields, Typed, Defaults, GoodFields;
    SubmessageThere(fields, slots, seen, i, wt, b, rest);
  }

  lemma SubmessageThere(fields: seq<Field>, slots: seq<Slot>, seen: set<nat>, i: nat, wt: nat, b: Bytes, rest: Bytes)
    requires GoodFields(fields) && Typed(fields, slots) && i < |fields| && wt < 8 && |b| < 0x1_0000_0000
    requires GoodField(fields[i]) && TypedSlot(fields[i], slots[i]) && fields[i].ltype.LSubmessage?
    ensures var s, n := Varint(|b|) + (b + rest), |Varint(|b|)|;
            Varint32(s) == Some(Parsed(|b|, n)) && n + |b| <= |s| && s[n..n + |b|] == b
    ensures var s, whole := Varint(|b|) + (b + rest), Varint(8 * fields[i].tag + wt) + (Varint(|b|) + b) + rest;
            match DecodeField(fields[i], slots[i], wt, s)
            case None => DecodeFields(fields, slots, seen, whole) == None
            case Some(t) =>
              && t.used <= |s| && Typed(fields, slots[i := t.slot])
              && DecodeFields(fields, slots, seen, whole)
              == DecodeFields(fields, slots[i := t.slot], if fields[i].htype.Required? then seen + {i} else seen,
                              s[t.used..])
              && (t.used == |Varint(|b|)| + |b| ==> s[t.used..] == rest)
  {
    hide Varint, Varint32, DecodeFields, Typed, DecodeField, GoodFields;
    SameLength(fields, slots);
    var f, n := fields[i], |Varint(|b|)|;
    var s := Varint(|b|) + (b + rest);
    assert Varint(8 * f.tag + wt) + (Varint(|b|) + b) + rest == TagBytes(f.tag, wt) + s;
    Varint32RoundTrip(|b|, b + rest);
    assert s[n..n + |b|] == b && s[n + |b|..] == rest;
    if DecodeField(f, slots[i], wt, s) == None {
      FieldStops(fields, slots, seen, i, wt, s);
    } else {
      FieldStep(fields, slots, seen, i, wt, s, DecodeField(f, slots[i], wt, s).value);
    }
  }

  /** What pb_message_set_to_defaults leaves. */
  lemma FreshMessage(fields: seq<Field>, i: nat)
    requires i < |fields|
    ensures var f := fields[i];
            var v := if f.ltype.LSubmessage? then Msg(Defaults(f.ltype.fields))
                     else if f.ltype.LBytes? then Raw([]) else Num(f.default);
            Defaults(fields)[i]
            == match f.htype case Required => One(v) case Optional => Maybe(false, v) case Repeated(_) => Many([])
  {
    var f := fields[i];
    assert Defaults(fields)[i] == DefaultSlot(f);
    assert f.ltype.LSubmessage? ==> DefaultValue(f.ltype, f.default) == Msg(Defaults(f.ltype.fields));
  }

  // ---- the fields of a message that is written ----

  /** The wire type that goes with a type. */
  function TypeNumber(lt: LType): nat {
    match lt
    case LFixed64 => 1
    case LBytes(_) => 2
    case LSubmessage(_) => 2
    case LFixed32 => 5
    case _ => 0
  }

  /** A submessage is written like a byte array, without a limit of its own. */
  lemma ValueBytes(lt: LType, v: Value)
    requires TypedValue(lt, v)
    ensures !lt.LSubmessage? ==> EncodeValue(lt, v) == EncodeScalar(lt, v)
    ensures lt.LSubmessage? ==> EncodeValue(lt, v) ==
                                match EncodeFields(lt.fields, v.slots)
                                case None => None
                                case Some(b) => Some(Varint(|b|) + b)
  {
    hide Varint, EncodeScalar, EncodeFields;
    assert lt.LSubmessage? ==> forall b :: Delimited(b) == Varint(|b|) + b;
  }

  /** A field as it is written: nothing for an optional one that is not set, or for no values; one
      tag for each value; one for all of a packed array.  More values than places are an error. */
  lemma FieldBytes(f: Field, slot: Slot)
    requires TypedSlot(f, slot)
    ensures var head := Some(Varint(8 * f.tag + TypeNumber(f.ltype)));
            && (slot.One? ==> EncodeField(f, slot) == Then(head, EncodeValue(f.ltype, slot.v)))
            && (slot.Maybe? ==>
                  EncodeField(f, slot) == if slot.has then Then(head, EncodeValue(f.ltype, slot.v)) else Some([]))
            && (slot.Many? && |slot.vs| > f.htype.arraySize ==> EncodeField(f, slot) == None)
            && (slot.Many? && slot.vs == [] ==> EncodeField(f, slot) == Some([]))
            && (slot.Many? && 0 < |slot.vs| <= f.htype.arraySize && !f.ltype.LBytes? && !f.ltype.LSubmessage? ==>
                  EncodeField(f, slot) ==
                  match EncodePacked(f.ltype, slot.vs)
                  case None => None
                  case Some(b) => Some(Varint(8 * f.tag + 2) + (Varint(|b|) + b)))
            && (slot.Many? && |slot.vs| == 1 <= f.htype.arraySize && (f.ltype.LBytes? || f.ltype.LSubmessage?) ==>
                  EncodeField(f, slot) == Then(head, EncodeValue(f.ltype, slot.vs[0])))
  {
    hide Varint, EncodeValue;
    if slot.Many? && |slot.vs| == 1 {
      var e := Then(Some(Varint(8 * f.tag + TypeNumber(f.ltype))), EncodeValue(f.ltype, slot.vs[0]));
      assert f.ltype.LBytes? || f.ltype.LSubmessage? ==> EncodeEach(f, slot.vs) == Then(e, EncodeEach(f, slot.vs[1..]));
      assert e.Some? ==> e.value + [] == e.value;
    }
  }
}
