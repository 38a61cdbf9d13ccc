/** nanopb's decoder undoes its encoder: what pb_encode writes for a message, pb_decode reads
    back, whatever the descriptor (pb_encode.c:366-394, pb_decode.c:934-1082).
 */
module PbRoundTrip {
  import opened Coding
  import opened Comparator
  import opened Options
  import opened PbMessages
  import opened PbWire

  // ---- what comes back ----

  /** The message as a decoder can know it: what lies under a has_ flag that is not set is
      never sent, and comes back as the default. */
  function TidyValue(lt: LType, v: Value): Value
    requires TypedValue(lt, v)
    decreases lt, 0
  {
    if lt.LSubmessage? then Msg(Tidy(lt.fields, v.slots)) else v
  }

  function TidySlot(f: Field, slot: Slot): Slot
    requires TypedSlot(f, slot)
    decreases f, 1
  {
    match f.htype
    case Required => One(TidyValue(f.ltype, slot.v))
    case Optional => if slot.has then Maybe(true, TidyValue(f.ltype, slot.v)) else DefaultSlot(f)
    case Repeated(_) => Many(TidyEach(f.ltype, slot.vs))
  }

  function TidyEach(lt: LType, vs: seq<Value>): (r: seq<Value>)
    requires forall i :: 0 <= i < |vs| ==> TypedValue(lt, vs[i])
    ensures |r| == |vs|
    decreases lt, 1, |vs|
  {
    if vs == [] then [] else [TidyValue(lt, vs[0])] + TidyEach(lt, vs[1..])
  }

  function Tidy(fields: seq<Field>, slots: seq<Slot>): (r: seq<Slot>)
    requires Typed(fields, slots)
    ensures |r| == |fields|
    decreases fields, 2
  {
    seq(|fields|, i requires 0 <= i < |fields| => TidySlot(fields[i], slots[i]))
  }

  lemma {:induction false} TidyTyped(fields: seq<Field>, slots: seq<Slot>)
    requires GoodFields(fields) && Typed(fields, slots)
    ensures Typed(fields, Tidy(fields, slots))
    decreases fields, 2
  {
    forall i | 0 <= i < |fields|
      ensures TypedSlot(fields[i], TidySlot(fields[i], slots[i]))
    {
      TidySlotTyped(fields[i], slots[i]);
    }
  }

  lemma {:induction false} TidySlotTyped(f: Field, slot: Slot)
    requires GoodField(f) && TypedSlot(f, slot)
    ensures TypedSlot(f, TidySlot(f, slot))
    decreases f, 1, 0
  {
    DefaultTyped(f);
    match f.htype
    case Required => TidyValueTyped(f.ltype, slot.v);
    case Optional => TidyValueTyped(f.ltype, slot.v);
    case Repeated(_) => TidyEachTyped(f.ltype, slot.vs);
  }

  ghost predicate GoodType(lt: LType) {
    lt.LSubmessage? ==> GoodFields(lt.fields)
  }

  lemma {:induction false} TidyEachTyped(lt: LType, vs: seq<Value>)
    requires GoodType(lt) && forall i :: 0 <= i < |vs| ==> TypedValue(lt, vs[i])
    ensures forall i :: 0 <= i < |vs| ==> TypedValue(lt, TidyEach(lt, vs)[i])
    decreases lt, 1, |vs|
  {
    if vs != [] {
      TidyValueTyped(lt, vs[0]);
      TidyEachTyped(lt, vs[1..]);
    }
  }

  lemma {:induction false} TidyValueTyped(lt: LType, v: Value)
    requires GoodType(lt) && TypedValue(lt, v)
    ensures TypedValue(lt, TidyValue(lt, v))
    decreases lt, 0, 0
  {
    if lt.LSubmessage? {
      TidyTyped(lt.fields, v.slots);
    }
  }

  // ---- lengths ----

  predicate Short(e: Option<Bytes>) {
    e.Some? ==> |e.value| < MAX32
  }

  /** Every length prefix in the encoding fits in the 32 bits that the decoder reads. */
  predicate ValueFits(lt: LType, v: Value)
    requires TypedValue(lt, v)
    decreases lt, 0
  {
    lt.LSubmessage? ==> LengthsFit(lt.fields, v.slots) && Short(EncodeFields(lt.fields, v.slots))
  }

  predicate SlotFits(f: Field, slot: Slot)
    requires TypedSlot(f, slot)
    decreases f, 1
  {
    match f.htype
    case Required => ValueFits(f.ltype, slot.v)
    case Optional => slot.has ==> ValueFits(f.ltype, slot.v)
    case Repeated(_) =>
      if Packable(f.ltype) then Short(EncodePacked(f.ltype, slot.vs))
      else forall i :: 0 <= i < |slot.vs| ==> ValueFits(f.ltype, slot.vs[i])
  }

  predicate LengthsFit(fields: seq<Field>, slots: seq<Slot>)
    requires Typed(fields, slots)
    decreases fields, 2
  {
    forall i :: 0 <= i < |fields| ==> SlotFits(fields[i], slots[i])
  }

  // ---- one tag ----

  lemma TagBack(tag: nat, wt: nat, rest: Bytes)
    requires 0 < tag < 0x2000_0000 && wt < 8
    ensures DecodeTag(TagBytes(tag, wt) + rest) == Tag(tag, wt, |TagBytes(tag, wt)|)
  {
    hide Varint, Varint32;
    Varint32RoundTrip(tag * 8 + wt, rest);
  }

  lemma {:induction false} FindIs(fields: seq<Field>, i: nat)
    requires i < |fields| && forall j :: 0 <= j < i ==> fields[j].tag != fields[i].tag
    ensures Find(fields, fields[i].tag) == Some(i)
  {
    if i > 0 {
      FindIs(fields[1..], i - 1);
    }
  }

  /** One field of the message read. */
  lemma FieldStep(fields: seq<Field>, slots: seq<Slot>, seen: set<nat>, i: nat, wt: nat, s: Bytes, t: Taken)
    requires GoodFields(fields) && Typed(fields, slots) && i < |fields| && wt < 8
    requires GoodField(fields[i]) && TypedSlot(fields[i], slots[i])
             && DecodeField(fields[i], slots[i], wt, s) == Some(t)
    ensures t.used <= |s| && Typed(fields, slots[i := t.slot])
    ensures DecodeFields(fields, slots, seen, TagBytes(fields[i].tag, wt) + s)
            == DecodeFields(fields, slots[i := t.slot], if fields[i].htype.Required? then seen + {i} else seen,
                            s[t.used..])
  {
    hide DecodeField, DecodeTag, TagBytes, Find;
    var f := fields[i];
    var whole := TagBytes(f.tag, wt) + s;
    TagNotEmpty(f.tag, wt);
    TagBack(f.tag, wt, s);
    FindIs(fields, i);
    TakenTyped(f, slots[i], wt, s);
    assert whole[|TagBytes(f.tag, wt)|..] == s;
  }

  lemma TagNotEmpty(tag: nat, wt: nat)
    ensures |TagBytes(tag, wt)| > 0
  {
  }

  lemma TakenTyped(f: Field, slot: Slot, wt: nat, s: Bytes)
    requires GoodField(f) && TypedSlot(f, slot) && DecodeField(f, slot, wt, s).Some?
    ensures DecodeField(f, slot, wt, s).value.used <= |s| && TypedSlot(f, DecodeField(f, slot, wt, s).value.slot)
  {
  }

  // ---- one value ----

  lemma {:induction false} ValueBack(lt: LType, current: Value, default: int, v: Value, e: Bytes, rest: Bytes)
    requires GoodType(lt) && TypedValue(lt, v) && EncodeValue(lt, v) == Some(e) && ValueFits(lt, v)
    requires current == DefaultValue(lt, default) && TypedValue(lt, current)
    ensures DecodeValue(lt, current, e + rest) == Some(Got(TidyValue(lt, v), |e|))
    decreases lt, 0, 0
  {
    hide Varint, Varint32, DecodeFields, EncodeFields;
    if lt.LSubmessage? {
      var b := EncodeFields(lt.fields, v.slots).value;
      DelimitedFront(b, rest);
      Varint32RoundTrip(|b|, b + rest);
      assert v.slots[0..] == v.slots && lt.fields[0..] == lt.fields;
      FieldsBack(lt.fields, v.slots, 0, current.slots, {}, b);
    } else {
      assert TypedScalar(lt, v);
      ScalarRoundTrip(lt, v, rest);
    }
  }

  lemma {:induction false} PackedBack(lt: LType, arraySize: nat, done: seq<Value>, vs: seq<Value>, b: Bytes)
    requires !lt.LSubmessage? && (forall i :: 0 <= i < |vs| ==> TypedValue(lt, vs[i]))
    requires (forall i :: 0 <= i < |done| ==> TypedValue(lt, done[i])) && |done| + |vs| <= arraySize
    requires EncodePacked(lt, vs) == Some(b)
    ensures DecodePacked(lt, arraySize, done, b) == Some(done + vs)
    decreases |vs|
  {
    hide EncodeScalar, DecodeScalar;
    if vs == [] {
      assert done + vs == done;
    } else {
      assert TypedValue(lt, vs[0]) && TypedScalar(lt, vs[0]);
      var e, rest := EncodeScalar(lt, vs[0]).value, EncodePacked(lt, vs[1..]).value;
      ScalarNotEmpty(lt, vs[0]);
      ScalarRoundTrip(lt, vs[0], rest);
      assert (e + rest)[|e|..] == rest;
      PackedBack(lt, arraySize, done + [vs[0]], vs[1..], rest);
      assert done + [vs[0]] + vs[1..] == done + vs;
    }
  }

  lemma ScalarNotEmpty(lt: LType, v: Value)
    requires TypedScalar(lt, v) && EncodeScalar(lt, v).Some?
    ensures |EncodeScalar(lt, v).value| > 0
  {
  }

  lemma {:induction false} TidyScalars(lt: LType, vs: seq<Value>)
    requires !lt.LSubmessage? && forall i :: 0 <= i < |vs| ==> TypedValue(lt, vs[i])
    ensures TidyEach(lt, vs) == vs
    decreases |vs|
  {
    if vs != [] {
      TidyScalars(lt, vs[1..]);
    }
  }

  /** Array entries under a tag each, read one after the other. */
  lemma {:induction false} EachBack(fields: seq<Field>, slots: seq<Slot>, seen: set<nat>, i: nat,
                                    done: seq<Value>, vs: seq<Value>, e: Bytes, rest: Bytes)
    requires GoodFields(fields) && Typed(fields, slots) && i < |fields|
    requires GoodField(fields[i]) && fields[i].htype.Repeated? && !Packable(fields[i].ltype)
             && GoodType(fields[i].ltype)
    requires slots[i] == Many(done) && |done| + |vs| <= fields[i].htype.arraySize
    requires forall k :: 0 <= k < |vs| ==> TypedValue(fields[i].ltype, vs[k]) && ValueFits(fields[i].ltype, vs[k])
    requires EncodeEach(fields[i], vs) == Some(e)
    ensures Typed(fields, slots[i := Many(done + TidyEach(fields[i].ltype, vs))])
    ensures DecodeFields(fields, slots, seen, e + rest)
            == DecodeFields(fields, slots[i := Many(done + TidyEach(fields[i].ltype, vs))], seen, rest)
    decreases fields[i].ltype, 1, |vs|
  {
    hide DecodeFields, EncodeValue, DecodeValue, TagBytes;
    var f := fields[i];
    if vs == [] {
      assert e + rest == rest;
      assert done + TidyEach(f.ltype, vs) == done && slots[i := slots[i]] == slots;
    } else {
      var tag, b, more := TagBytes(f.tag, WireType(f.ltype)), EncodeValue(f.ltype, vs[0]).value,
        EncodeEach(f, vs[1..]).value;
      assert e + rest == tag + (b + (more + rest));
      EntryBack(f, slots[i], vs[0], b, more + rest);
      var next := Many(done + [TidyValue(f.ltype, vs[0])]);
      FieldStep(fields, slots, seen, i, WireType(f.ltype), b + (more + rest), Taken(next, |b|));
      assert (b + (more + rest))[|b|..] == more + rest;
      EachBack(fields, slots[i := next], seen, i, next.vs, vs[1..], more, rest);
      assert next.vs + TidyEach(f.ltype, vs[1..]) == done + TidyEach(f.ltype, vs);
      assert slots[i := next][i := Many(done + TidyEach(f.ltype, vs))]
        == slots[i := Many(done + TidyEach(f.ltype, vs))];
    }
  }

  lemma {:induction false} EntryBack(f: Field, slot: Slot, v: Value, b: Bytes, rest: Bytes)
    requires GoodField(f) && TypedSlot(f, slot) && f.htype.Repeated? && !Packable(f.ltype) && GoodType(f.ltype)
    requires |slot.vs| < f.htype.arraySize && TypedValue(f.ltype, v) && EncodeValue(f.ltype, v) == Some(b)
             && ValueFits(f.ltype, v)
    ensures DecodeField(f, slot, WireType(f.ltype), b + rest)
            == Some(Taken(Many(slot.vs + [TidyValue(f.ltype, v)]), |b|))
    decreases f.ltype, 1, 0
  {
    hide DecodeValue, EncodeValue;
    DefaultTyped(f);
    ValueBack(f.ltype, DefaultValue(f.ltype, f.default), f.default, v, b, rest);
  }

  // ---- one field ----

  /** What a field wrote is read back into a slot that holds the default, and the decoder
      goes on with what follows. */
  lemma {:induction false} FieldBack(fields: seq<Field>, slots: seq<Slot>, seen: set<nat>, i: nat, slot: Slot,
                                     e: Bytes, rest: Bytes)
      returns (seen': set<nat>)
    requires GoodFields(fields) && Typed(fields, slots) && i < |fields|
    requires GoodField(fields[i]) && GoodType(fields[i].ltype)
    requires slots[i] == DefaultSlot(fields[i]) && TypedSlot(fields[i], slot)
    requires EncodeField(fields[i], slot) == Some(e) && SlotFits(fields[i], slot)
    ensures seen <= seen' && (fields[i].htype.Required? ==> i in seen')
    ensures Typed(fields, slots[i := TidySlot(fields[i], slot)])
    ensures DecodeFields(fields, slots, seen, e + rest)
            == DecodeFields(fields, slots[i := TidySlot(fields[i], slot)], seen', rest)
    decreases fields[i], 1, 0
  {
    hide DecodeFields, EncodeValue, DecodeValue, TagBytes, EncodePacked, DecodePacked, EncodeEach, Varint, Varint32;
    var f := fields[i];
    TidySlotTyped(f, slot);
    DefaultTyped(f);
    seen' := seen;
    if f.htype.Repeated? {
      if slot.vs == [] {
        assert e + rest == rest && slots[i := slots[i]] == slots;
      } else if Packable(f.ltype) {
        PackedFieldBack(fields, slots, seen, i, slot, e, rest);
      } else {
        EachBack(fields, slots, seen, i, [], slot.vs, e, rest);
        assert [] + TidyEach(f.ltype, slot.vs) == TidyEach(f.ltype, slot.vs);
      }
    } else if f.htype.Required? || slot.has {
      var tag, b := TagBytes(f.tag, WireType(f.ltype)), EncodeValue(f.ltype, slot.v).value;
      assert e + rest == tag + (b + rest);
      ValueBack(f.ltype, slots[i].v, f.default, slot.v, b, rest);
      var next := if f.htype.Required? then One(TidyValue(f.ltype, slot.v))
        else Maybe(true, TidyValue(f.ltype, slot.v));
      FieldStep(fields, slots, seen, i, WireType(f.ltype), b + rest, Taken(next, |b|));
      assert (b + rest)[|b|..] == rest;
      seen' := if f.htype.Required? then seen + {i} else seen;
    } else {
      assert e + rest == rest && slots[i := slots[i]] == slots;
    }
  }

  lemma {:induction false} PackedFieldBack(fields: seq<Field>, slots: seq<Slot>, seen: set<nat>, i: nat, slot: Slot,
                                           e: Bytes, rest: Bytes)
    requires GoodFields(fields) && Typed(fields, slots) && i < |fields|
    requires GoodField(fields[i]) && slots[i] == Many([]) && TypedSlot(fields[i], slot)
    requires fields[i].htype.Repeated? && Packable(fields[i].ltype) && slot.vs != []
    requires EncodeField(fields[i], slot) == Some(e) && SlotFits(fields[i], slot)
    ensures Typed(fields, slots[i := TidySlot(fields[i], slot)])
    ensures DecodeFields(fields, slots, seen, e + rest)
            == DecodeFields(fields, slots[i := TidySlot(fields[i], slot)], seen, rest)
  {
    hide DecodeFields, TagBytes, EncodePacked, DecodePacked, Varint, Varint32;
    var f := fields[i];
    var tag, b := TagBytes(f.tag, WT_STRING), EncodePacked(f.ltype, slot.vs).value;
    assert e + rest == tag + (Delimited(b) + rest);
    DelimitedFront(b, rest);
    Varint32RoundTrip(|b|, b + rest);
    PackedBack(f.ltype, f.htype.arraySize, [], slot.vs, b);
    TidyScalars(f.ltype, slot.vs);
    assert [] + slot.vs == slot.vs;
    FieldStep(fields, slots, seen, i, WT_STRING, Delimited(b) + rest, Taken(Many(slot.vs), |Delimited(b)|));
    assert (Delimited(b) + rest)[|Delimited(b)|..] == rest;
  }

  // ---- whole messages ----

  lemma FieldFacts(fields: seq<Field>, i: nat)
    requires GoodFields(fields) && i < |fields|
    ensures GoodField(fields[i]) && GoodType(fields[i].ltype)
  {
  }

  lemma TypedDrops(fields: seq<Field>, m: seq<Slot>, i: nat)
    requires Typed(fields, m) && i < |fields|
    ensures Typed(fields[i..], m[i..]) && Typed(fields[i + 1..], m[i + 1..]) && TypedSlot(fields[i], m[i])
    ensures EncodeFields(fields[i..], m[i..])
            == Then(EncodeField(fields[i], m[i]), EncodeFields(fields[i + 1..], m[i + 1..]))
  {
    hide EncodeField;
    assert fields[i..][1..] == fields[i + 1..] && m[i..][1..] == m[i + 1..];
  }

  /** With the fields before i read and the others at their defaults, the rest follows. */
  lemma {:induction false} FieldsBack(fields: seq<Field>, m: seq<Slot>, i: nat, slots: seq<Slot>, seen: set<nat>,
                                      e: Bytes)
    requires GoodFields(fields) && Typed(fields, m) && Typed(fields, slots) && i <= |fields|
    requires Typed(fields[i..], m[i..]) && EncodeFields(fields[i..], m[i..]) == Some(e)
    requires forall j :: 0 <= j < |fields| ==> TypedSlot(fields[j], m[j])
    requires forall j :: i <= j < |fields| ==> SlotFits(fields[j], m[j])
    requires forall j :: 0 <= j < i ==> slots[j] == TidySlot(fields[j], m[j])
    requires forall j :: i <= j < |fields| ==> slots[j] == DefaultSlot(fields[j])
    requires forall j :: 0 <= j < i && fields[j].htype.Required? ==> j in seen
    ensures DecodeFields(fields, slots, seen, e) == Some(Tidy(fields, m))
    decreases fields, 2, |fields| - i
  {
    hide EncodeField, DecodeField, TidySlot, DefaultSlot, TypedSlot;
    if i == |fields| {
      assert fields[i..] == [] && e == [];
      assert slots == Tidy(fields, m);
    } else {
      TypedDrops(fields, m, i);
      FieldFacts(fields, i);
      var b, rest := EncodeField(fields[i], m[i]).value, EncodeFields(fields[i + 1..], m[i + 1..]).value;
      var seen' := FieldBack(fields, slots, seen, i, m[i], b, rest);
      FieldsBack(fields, m, i + 1, slots[i := TidySlot(fields[i], m[i])], seen', rest);
    }
  }

  /** pb_decode of what pb_encode wrote succeeds and gives the message back. */
  lemma RoundTrip(fields: seq<Field>, m: seq<Slot>)
    requires GoodFields(fields) && Typed(fields, m)
    requires EncodeFields(fields, m).Some? && LengthsFit(fields, m)
    ensures Decode(fields, EncodeFields(fields, m).value) == Some(Tidy(fields, m))
  {
    hide EncodeFields, DecodeFields, TidySlot, TypedSlot;
    DefaultsTyped(fields);
    assert fields[0..] == fields && m[0..] == m;
    FieldsBack(fields, m, 0, Defaults(fields), {}, EncodeFields(fields, m).value);
  }

  // ---- which messages can be written ----

  /** No byte array and no count exceeds what its field may hold. */
  predicate ValueInBounds(lt: LType, v: Value)
    requires TypedValue(lt, v)
    decreases lt, 0
  {
    match lt
    case LSubmessage(fields) => InBounds(fields, v.slots)
    case LBytes(max) => |v.bytes| <= max
    case _ => true
  }

  predicate SlotInBounds(f: Field, slot: Slot)
    requires TypedSlot(f, slot)
    decreases f, 1
  {
    match f.htype
    case Required => ValueInBounds(f.ltype, slot.v)
    case Optional => slot.has ==> ValueInBounds(f.ltype, slot.v)
    case Repeated(arraySize) =>
      |slot.vs| <= arraySize && forall i :: 0 <= i < |slot.vs| ==> ValueInBounds(f.ltype, slot.vs[i])
  }

  predicate InBounds(fields: seq<Field>, slots: seq<Slot>)
    requires Typed(fields, slots)
    decreases fields, 2
  {
    forall i :: 0 <= i < |fields| ==> SlotInBounds(fields[i], slots[i])
  }

  lemma {:induction false} ValueEncodes(lt: LType, v: Value)
    requires TypedValue(lt, v)
    ensures EncodeValue(lt, v).Some? <==> ValueInBounds(lt, v)
    decreases lt, 0
  {
    hide Varint;
    if lt.LSubmessage? {
      MessageEncodes(lt.fields, v.slots, 0);
      assert lt.fields[0..] == lt.fields && v.slots[0..] == v.slots;
    }
  }

  lemma {:induction false} EachEncodes(f: Field, vs: seq<Value>)
    requires forall i :: 0 <= i < |vs| ==> TypedValue(f.ltype, vs[i])
    ensures EncodeEach(f, vs).Some? <==> forall i :: 0 <= i < |vs| ==> ValueInBounds(f.ltype, vs[i])
    decreases f, 0, |vs|
  {
    hide ValueInBounds, TagBytes;
    if vs != [] {
      ValueEncodes(f.ltype, vs[0]);
      EachEncodes(f, vs[1..]);
      assert forall i :: 1 <= i < |vs| ==> vs[i] == vs[1..][i - 1];
    }
  }

  lemma {:induction false} PackedEncodes(lt: LType, vs: seq<Value>)
    requires Packable(lt) && forall i :: 0 <= i < |vs| ==> TypedValue(lt, vs[i])
    ensures EncodePacked(lt, vs).Some?
  {
    if vs != [] {
      assert TypedValue(lt, vs[0]);
      PackedEncodes(lt, vs[1..]);
    }
  }

  lemma SlotEncodes(f: Field, slot: Slot)
    requires TypedSlot(f, slot)
    ensures EncodeField(f, slot).Some? <==> SlotInBounds(f, slot)
    decreases f, 1
  {
    hide EncodeValue, ValueInBounds, TagBytes, Varint, TypedValue;
    match f.htype
    case Required => ValueEncodes(f.ltype, slot.v);
    case Optional => ValueEncodes(f.ltype, slot.v);
    case Repeated(_) =>
      EachEncodes(f, slot.vs);
      if Packable(f.ltype) {
        PackedEncodes(f.ltype, slot.vs);
        PackedInBounds(f.ltype, slot.vs);
      }
  }

  lemma PackedInBounds(lt: LType, vs: seq<Value>)
    requires Packable(lt) && forall i :: 0 <= i < |vs| ==> TypedValue(lt, vs[i])
    ensures forall i :: 0 <= i < |vs| ==> ValueInBounds(lt, vs[i])
  {
  }

  /** Encoding fails exactly for the messages that overfill a field. */
  lemma {:induction false} MessageEncodes(fields: seq<Field>, slots: seq<Slot>, k: nat)
    requires Typed(fields, slots) && k <= |fields|
    ensures Typed(fields[k..], slots[k..])
    ensures EncodeFields(fields[k..], slots[k..]).Some? <==> forall i :: k <= i < |fields| ==>
              SlotInBounds(fields[i], slots[i])
    decreases fields, 2, |fields| - k
  {
    hide EncodeField, SlotInBounds, TypedSlot;
    if k < |fields| {
      TypedDrops(fields, slots, k);
      SlotEncodes(fields[k], slots[k]);
      MessageEncodes(fields, slots, k + 1);
    }
  }

  lemma Encodes(fields: seq<Field>, m: seq<Slot>)
    requires Typed(fields, m)
    ensures EncodeFields(fields, m).Some? <==> InBounds(fields, m)
  {
    hide EncodeFields, SlotInBounds, TypedSlot;
    assert fields[0..] == fields && m[0..] == m;
    MessageEncodes(fields, m, 0);
  }
}
