/** The limit of nanopb's round trip.  The encoder writes length prefixes of any size, the
    decoder reads 32 bits of them: what it cannot read it rejects (pb_decode.c:187-247).
 */
module PbLimits {
  import opened Coding
  import opened Comparator
  import opened Options
  import opened PbMessages
  import opened PbRoundTrip
  import opened PbWire

  /** Half of what a 64-bit size can be; no object in memory is larger. */
  const MAX63: nat := 0x8000_0000_0000_0000

  // ---- lengths that do not fit ----

  /** A number of which `bitpos` low bits have been read has something in the bits from 32 up. */
  predicate Beyond(v: nat, bitpos: nat) {
    match bitpos
    case 7 => 0x200_0000 <= v < 0x100_0000_0000_0000
    case 14 => 0x4_0000 <= v < 0x2_0000_0000_0000
    case 21 => 0x800 <= v < 0x400_0000_0000
    case 28 => 0x10 <= v < 0x8_0000_0000
    case 35 => 0 < v < 0x1000_0000
    case 42 => 0 < v < 0x20_0000
    case 49 => 0 < v < 0x4000
    case 56 => 0 < v < 0x80
    case _ => false
  }

  lemma {:induction false} MoreRejects(v: nat, result: nat, bitpos: nat, used: nat, rest: Bytes)
    requires Beyond(v, bitpos) && result < MAX32
    ensures MoreVarint32(Varint(v) + rest, result, bitpos, used) == None
    decreases 56 - bitpos
  {
    hide Low32, Low7, ShiftLeft;
    var s := Varint(v) + rest;
    Low7Of(v);
    if v < 128 {
      assert s[0] == v;
    } else {
      assert s[0] == v % 128 + 128;
      assert s[1..] == Varint(v / 128) + rest;
      assert Beyond(v / 128, bitpos + 7);
      var result' := if bitpos >= 32 then result else Low32(result + ShiftLeft(v % 128, bitpos));
      assert result' < MAX32 by { LowIsSmall(result + ShiftLeft(v % 128, bitpos)); }
      MoreRejects(v / 128, result', bitpos + 7, used + 1, rest);
    }
  }

  lemma LowIsSmall(v: nat)
    ensures Low32(v) < MAX32
  {
  }

  lemma FirstByte(length: nat, rest: Bytes)
    requires MAX32 <= length < MAX63
    ensures var s := Varint(length) + rest; s[0] >= 128 && s[1..] == Varint(length / 128) + rest
    ensures Beyond(length / 128, 7)
  {
  }

  lemma TooLong(length: nat, rest: Bytes)
    requires MAX32 <= length < MAX63
    ensures Varint32(Varint(length) + rest) == None
  {
    hide Low7, MoreVarint32, Beyond, Varint;
    var s := Varint(length) + rest;
    FirstByte(length, rest);
    MoreRejects(length / 128, Low7(s[0]), 7, 1, rest);
  }

  // ---- values ----

  lemma DelimitedRejects(b: Bytes, rest: Bytes)
    requires MAX32 <= |b| < MAX63
    ensures Varint32(Delimited(b) + rest) == None
  {
    hide Varint, Varint32;
    DelimitedFront(b, rest);
    TooLong(|b|, b + rest);
  }

  lemma {:induction false} ValueRejected(lt: LType, current: Value, default: int, v: Value, e: Bytes, rest: Bytes)
    requires GoodType(lt) && TypedValue(lt, v) && EncodeValue(lt, v) == Some(e) && |e| < MAX63 && !ValueFits(lt, v)
    requires current == DefaultValue(lt, default) && TypedValue(lt, current)
    ensures DecodeValue(lt, current, e + rest) == None
    decreases lt, 0, 0
  {
    hide Varint, Varint32, DecodeFields, EncodeFields;
    var b := EncodeFields(lt.fields, v.slots).value;
    DelimitedFront(b, rest);
    if |b| >= MAX32 {
      DelimitedRejects(b, rest);
    } else {
      Varint32RoundTrip(|b|, b + rest);
      assert v.slots[0..] == v.slots && lt.fields[0..] == lt.fields;
      FieldsRejected(lt.fields, v.slots, 0, current.slots, {}, b);
    }
  }

  /** One field that cannot be read ends the decoding. */
  lemma FieldStops(fields: seq<Field>, slots: seq<Slot>, seen: set<nat>, i: nat, wt: nat, s: Bytes)
    requires GoodFields(fields) && Typed(fields, slots) && i < |fields| && wt < 8
    requires GoodField(fields[i]) && TypedSlot(fields[i], slots[i]) && DecodeField(fields[i], slots[i], wt, s) == None
    ensures DecodeFields(fields, slots, seen, TagBytes(fields[i].tag, wt) + s) == None
  {
    hide DecodeField, DecodeTag, TagBytes, Find;
    var f := fields[i];
    var whole := TagBytes(f.tag, wt) + s;
    TagNotEmpty(f.tag, wt);
    TagBack(f.tag, wt, s);
    FindIs(fields, i);
    assert whole[|TagBytes(f.tag, wt)|..] == s;
  }

  lemma {:induction false} EachRejected(fields: seq<Field>, slots: seq<Slot>, seen: set<nat>, i: nat,
                                        done: seq<Value>, vs: seq<Value>, e: Bytes, rest: Bytes)
    requires GoodFields(fields) && Typed(fields, slots) && i < |fields|
    requires GoodField(fields[i]) && fields[i].htype.Repeated? && !Packable(fields[i].ltype)
             && GoodType(fields[i].ltype)
    requires slots[i] == Many(done) && |done| + |vs| <= fields[i].htype.arraySize
    requires forall k :: 0 <= k < |vs| ==> TypedValue(fields[i].ltype, vs[k])
    requires exists k :: 0 <= k < |vs| && !ValueFits(fields[i].ltype, vs[k])
    requires EncodeEach(fields[i], vs) == Some(e) && |e| < MAX63
    ensures DecodeFields(fields, slots, seen, e + rest) == None
    decreases fields[i].ltype, 1, |vs|
  {
    hide DecodeFields, EncodeValue, DecodeValue, TagBytes, ValueFits;
    var f := fields[i];
    var tag, b, more := TagBytes(f.tag, WireType(f.ltype)), EncodeValue(f.ltype, vs[0]).value,
      EncodeEach(f, vs[1..]).value;
    assert e + rest == tag + (b + (more + rest));
    if ValueFits(f.ltype, vs[0]) {
      EntryBack(f, slots[i], vs[0], b, more + rest);
      var next := Many(done + [TidyValue(f.ltype, vs[0])]);
      FieldStep(fields, slots, seen, i, WireType(f.ltype), b + (more + rest), Taken(next, |b|));
      assert (b + (more + rest))[|b|..] == more + rest;
      var k :| 0 <= k < |vs| && !ValueFits(f.ltype, vs[k]);
      assert vs[1..][k - 1] == vs[k];
      EachRejected(fields, slots[i := next], seen, i, next.vs, vs[1..], more, rest);
    } else {
      EntryRejected(f, slots[i], vs[0], b, more + rest);
      FieldStops(fields, slots, seen, i, WireType(f.ltype), b + (more + rest));
    }
  }

  lemma {:induction false} EntryRejected(f: Field, slot: Slot, v: Value, b: Bytes, rest: Bytes)
    requires GoodField(f) && TypedSlot(f, slot) && f.htype.Repeated? && !Packable(f.ltype) && GoodType(f.ltype)
    requires |slot.vs| < f.htype.arraySize && TypedValue(f.ltype, v)
    requires EncodeValue(f.ltype, v) == Some(b) && |b| < MAX63 && !ValueFits(f.ltype, v)
    ensures DecodeField(f, slot, WireType(f.ltype), b + rest) == None
    decreases f.ltype, 1, 0
  {
    hide DecodeValue, EncodeValue, ValueFits;
    DefaultTyped(f);
    ValueRejected(f.ltype, DefaultValue(f.ltype, f.default), f.default, v, b, rest);
  }

  // ---- fields and messages ----

  lemma {:induction false} FieldRejected(fields: seq<Field>, slots: seq<Slot>, seen: set<nat>, i: nat, slot: Slot,
                                         e: Bytes, rest: Bytes)
    requires GoodFields(fields) && Typed(fields, slots) && i < |fields|
    requires GoodField(fields[i]) && GoodType(fields[i].ltype)
    requires slots[i] == DefaultSlot(fields[i]) && TypedSlot(fields[i], slot)
    requires EncodeField(fields[i], slot) == Some(e) && |e| < MAX63 && !SlotFits(fields[i], slot)
    ensures DecodeFields(fields, slots, seen, e + rest) == None
    decreases fields[i], 1, 0
  {
    hide DecodeFields, EncodeValue, DecodeValue, TagBytes, EncodePacked, DecodePacked, EncodeEach, Varint, Varint32,
      ValueFits;
    var f := fields[i];
    DefaultTyped(f);
    if f.htype.Repeated? {
      if Packable(f.ltype) {
        PackedRejected(fields, slots, seen, i, slot, e, rest);
      } else {
        EachRejected(fields, slots, seen, i, [], slot.vs, e, rest);
      }
    } else {
      var tag, b := TagBytes(f.tag, WireType(f.ltype)), EncodeValue(f.ltype, slot.v).value;
      assert e + rest == tag + (b + rest);
      ValueRejected(f.ltype, slots[i].v, f.default, slot.v, b, rest);
      FieldStops(fields, slots, seen, i, WireType(f.ltype), b + rest);
    }
  }

  lemma PackedRejected(fields: seq<Field>, slots: seq<Slot>, seen: set<nat>, i: nat, slot: Slot, e: Bytes, rest: Bytes)
    requires GoodFields(fields) && Typed(fields, slots) && i < |fields|
    requires GoodField(fields[i]) && slots[i] == Many([]) && TypedSlot(fields[i], slot)
    requires fields[i].htype.Repeated? && Packable(fields[i].ltype)
    requires EncodeField(fields[i], slot) == Some(e) && |e| < MAX63 && !SlotFits(fields[i], slot)
    ensures DecodeFields(fields, slots, seen, e + rest) == None
  {
    hide DecodeFields, TagBytes, DecodePacked, Varint, Varint32;
    var f := fields[i];
    var tag, b := TagBytes(f.tag, WT_STRING), EncodePacked(f.ltype, slot.vs).value;
    assert e + rest == tag + (Delimited(b) + rest);
    DelimitedRejects(b, rest);
    FieldStops(fields, slots, seen, i, WT_STRING, Delimited(b) + rest);
  }

  lemma {:induction false} FieldsRejected(fields: seq<Field>, m: seq<Slot>, i: nat, slots: seq<Slot>, seen: set<nat>,
                                          e: Bytes)
    requires GoodFields(fields) && Typed(fields, m) && Typed(fields, slots) && i <= |fields|
    requires Typed(fields[i..], m[i..]) && EncodeFields(fields[i..], m[i..]) == Some(e) && |e| < MAX63
    requires forall j :: 0 <= j < |fields| ==> TypedSlot(fields[j], m[j])
    requires exists j :: i <= j < |fields| && !SlotFits(fields[j], m[j])
    requires forall j :: i <= j < |fields| ==> slots[j] == DefaultSlot(fields[j])
    ensures DecodeFields(fields, slots, seen, e) == None
    decreases fields, 2, |fields| - i
  {
    hide EncodeField, DecodeField, DecodeFields, TidySlot, DefaultSlot, TypedSlot, SlotFits;
    TypedDrops(fields, m, i);
    FieldFacts(fields, i);
    var b, rest := EncodeField(fields[i], m[i]).value, EncodeFields(fields[i + 1..], m[i + 1..]).value;
    if SlotFits(fields[i], m[i]) {
      var seen' := FieldBack(fields, slots, seen, i, m[i], b, rest);
      FieldsRejected(fields, m, i + 1, slots[i := TidySlot(fields[i], m[i])], seen', rest);
    } else {
      FieldRejected(fields, slots, seen, i, m[i], b, rest);
    }
  }

  /** Decoding what was encoded gives the message back exactly when every length in it fits
      in 32 bits, and fails otherwise. */
  lemma RoundTripIff(fields: seq<Field>, m: seq<Slot>)
    requires GoodFields(fields) && Typed(fields, m)
    requires EncodeFields(fields, m).Some? && |EncodeFields(fields, m).value| < MAX63
    ensures Decode(fields, EncodeFields(fields, m).value) == if LengthsFit(fields, m) then Some(Tidy(fields, m))
            else None
  {
    hide EncodeFields, DecodeFields, TidySlot, TypedSlot, SlotFits;
    if LengthsFit(fields, m) {
      RoundTrip(fields, m);
    } else {
      DefaultsTyped(fields);
      assert fields[0..] == fields && m[0..] == m;
      FieldsRejected(fields, m, 0, Defaults(fields), {}, EncodeFields(fields, m).value);
    }
  }

  // ---- a message that is lost ----

  const HALF: nat := 0x8000_0000

  /** A submessage with two byte arrays of 2 GB. */
  const LARGE_FIELDS := [Field(1, Required, LBytes(HALF), 0), Field(2, Required, LBytes(HALF), 0)]

  function LargeSlots(b: Bytes): seq<Slot> {
    [One(Raw(b)), One(Raw(b))]
  }

  lemma LargeField(tag: nat, b: Bytes)
    requires |b| == HALF && tag < 16
    ensures var f, slot := Field(tag, Required, LBytes(HALF), 0), One(Raw(b));
            && TypedSlot(f, slot) && EncodeField(f, slot).Some?
            && HALF < |EncodeField(f, slot).value| <= HALF + 10
  {
    hide Varint;
    Varint32Length(HALF);
    Varint32Length(tag * 8 + WT_STRING);
    assert |Delimited(b)| == |Varint(HALF)| + HALF;
  }

  lemma LargeEncodes(b: Bytes)
    requires |b| == HALF
    ensures GoodFields(LARGE_FIELDS) && Typed(LARGE_FIELDS, LargeSlots(b))
    ensures var e := EncodeFields(LARGE_FIELDS, LargeSlots(b)); e.Some? && MAX32 <= |e.value| < MAX32 + 100
  {
    var fields, slots := LARGE_FIELDS, LargeSlots(b);
    LargeField(1, b);
    LargeField(2, b);
    hide EncodeField;
    assert fields[1..] == [fields[1]] && slots[1..] == [slots[1]];
    assert Typed(fields[1..], slots[1..]);
    assert fields[1..][1..] == [] && slots[1..][1..] == [];
    assert EncodeFields(fields[1..][1..], slots[1..][1..]) == Some([]);
  }

  /** The encoder takes it, and the decoder cannot read the submessage's length. */
  lemma LargeIsLost(b: Bytes)
    requires |b| == HALF
    ensures var fields, m := [Field(1, Required, LSubmessage(LARGE_FIELDS), 0)], [One(Msg(LargeSlots(b)))];
            && GoodFields(fields) && Typed(fields, m) && !LengthsFit(fields, m)
            && EncodeFields(fields, m).Some? && |EncodeFields(fields, m).value| < MAX63
            && Decode(fields, EncodeFields(fields, m).value) == None
  {
    var fields, m := [Field(1, Required, LSubmessage(LARGE_FIELDS), 0)], [One(Msg(LargeSlots(b)))];
    LargeEncodes(b);
    var inner := EncodeFields(LARGE_FIELDS, LargeSlots(b)).value;
    Varint64Length(|inner|);
    Varint32Length(10);
    hide Varint, Decode, LARGE_FIELDS, LargeSlots, GoodFields, LengthsFit;
    assert GoodFields(fields) by { OneGood(LARGE_FIELDS); }
    OneUnfit(LARGE_FIELDS, LargeSlots(b));
    assert EncodeField(fields[0], m[0]) == Some(TagBytes(1, WT_STRING) + Delimited(inner));
    assert fields[1..] == [] && m[1..] == [];
    assert EncodeFields(fields[1..], m[1..]) == Some([]);
    RoundTripIff(fields, m);
  }

  lemma OneGood(inner: seq<Field>)
    requires GoodFields(inner)
    ensures GoodFields([Field(1, Required, LSubmessage(inner), 0)])
  {
  }

  lemma OneUnfit(inner: seq<Field>, slots: seq<Slot>)
    requires Typed(inner, slots) && EncodeFields(inner, slots).Some? && |EncodeFields(inner, slots).value| >= MAX32
    ensures Typed([Field(1, Required, LSubmessage(inner), 0)], [One(Msg(slots))])
    ensures !LengthsFit([Field(1, Required, LSubmessage(inner), 0)], [One(Msg(slots))])
  {
    var fields, m := [Field(1, Required, LSubmessage(inner), 0)], [One(Msg(slots))];
    assert TypedValue(LSubmessage(inner), Msg(slots));
    assert TypedSlot(fields[0], m[0]);
    assert !SlotFits(fields[0], m[0]);
  }
}
