/** nanopb's encoder (pb_encode.c): one walk over the message that writes to a stream, or
    only counts bytes when the stream has nowhere to write.
 */
module PbEncode {
  import opened Coding
  import opened Comparator
  import opened Options
  import opened PbCommon
  import opened PbMessages
  import opened PbWire

  /** pb_ostream_t.  A stream without a callback is a sizing stream. */
  class OStream {
    const writing: bool
    const maxSize: nat
    var data: Bytes  // the bytes written through the callback
    var bytesWritten: nat

    ghost predicate Valid()
      reads this
    {
      writing ==> bytesWritten <= maxSize
    }

    constructor (writing: bool, maxSize: nat, data: Bytes)
      ensures this.writing == writing && this.maxSize == maxSize && this.data == data && bytesWritten == 0 && Valid()
    {
      this.writing, this.maxSize, this.data, bytesWritten := writing, maxSize, data, 0;
    }

    /** pb_write; a sizing stream is told only how much. */
    method Write(buf: Bytes, count: nat) returns (ok: bool)
      requires Valid() && (writing ==> |buf| == count)
      modifies this
      ensures Valid()
      ensures ok <==> !writing || old(bytesWritten) + count <= maxSize
      ensures ok ==> bytesWritten == old(bytesWritten) + count && data == if writing then old(data) + buf else old(data)
      ensures !ok ==> bytesWritten == old(bytesWritten) && data == old(data)
    {
      if count > 0 && writing {
        if bytesWritten + count > maxSize {
          return false;
        }
        data := data + buf;
      }
      bytesWritten := bytesWritten + count;
      return true;
    }
  }

  /** What an encoder does to a stream: all of the bytes, if there are any to give and there
      is room for them; a sizing stream counts exactly as many. */
  predicate Emits(stream: OStream, bytes0: nat, data0: Bytes, ok: bool, r: Option<Bytes>)
    reads stream
  {
    && (stream.writing ==> stream.bytesWritten <= stream.maxSize)
    && (ok <==> r.Some? && (stream.writing ==> bytes0 + |r.value| <= stream.maxSize))
    && (ok ==>
          && stream.bytesWritten == bytes0 + |r.value|
          && stream.data == if stream.writing then data0 + r.value else data0)
  }

  /** pb_encode_varint.  What it is given, numbers and sizes alike, fits in 64 bits. */
  method EncodeVarint(stream: OStream, value: nat) returns (ok: bool)
    requires stream.Valid()
    modifies stream
    ensures Emits(stream, old(stream.bytesWritten), old(stream.data), ok, Some(Varint(value)))
  {
    if value <= 0x7f {
      ok := stream.Write([value], 1);
      return;
    }
    var buffer := VarintBuffer(value);
    ok := stream.Write(buffer, |buffer|);
  }

  /** Seven bits at a time, every byte with the top bit set, cleared in the last at the end. */
  method VarintBuffer(value: nat) returns (buffer: Bytes)
    requires value > 0x7f
    ensures buffer == Varint(value)
  {
    hide Varint, ClearLast;
    buffer := [];
    var v: nat := value;
    assert [] + Varint(v) == Varint(value);
    while v > 0
      invariant v > 0 ==> buffer + Varint(v) == Varint(value)
      invariant v == 0 ==> buffer != [] && ClearLast(buffer) == Varint(value)
    {
      DigitOf(buffer, v);
      buffer := buffer + [v % 128 + 128];
      v := v / 128;
    }
    buffer := ClearLast(buffer);
  }

  /** buffer[i-1] &= 0x7F */
  function ClearLast(buffer: Bytes): Bytes
    requires buffer != []
  {
    var m := |buffer| - 1;
    buffer[..m] + [Low7(buffer[m])]
  }

  lemma DigitOf(buffer: Bytes, v: nat)
    requires v > 0
    ensures v >= 128 ==> v / 128 > 0 && buffer + [v % 128 + 128] + Varint(v / 128) == buffer + Varint(v)
    ensures v < 128 ==> v / 128 == 0 && ClearLast(buffer + [v % 128 + 128]) == buffer + Varint(v)
  {
    hide Low7;
    Low7Of(v);
    if v >= 128 {
      Joined(buffer, [v % 128 + 128], Varint(v / 128));
    } else {
      assert (buffer + [v % 128 + 128])[..|buffer|] == buffer;
    }
  }

  lemma Joined(a: Bytes, b: Bytes, c: Bytes)
    ensures a + b + c == a + (b + c)
  {
  }

  /** pb_encode_svarint */
  method EncodeSvarint(stream: OStream, value: int) returns (ok: bool)
    requires stream.Valid() && SignedFits(value, W64)
    modifies stream
    ensures Emits(stream, old(stream.bytesWritten), old(stream.data), ok,
                  Some(Varint(if value >= 0 then 2 * value else -2 * value - 1)))
  {
    var zigzagged: nat := if value < 0 then MAX64 - 1 - (2 * (value + MAX64)) % MAX64 else 2 * value;
    assert value < 0 ==> (2 * (value + MAX64)) % MAX64 == 2 * value + MAX64;
    ok := EncodeVarint(stream, zigzagged);
  }

  /** pb_encode_tag */
  method EncodeTag(stream: OStream, wireType: nat, tag: nat) returns (ok: bool)
    requires stream.Valid() && wireType < 8
    modifies stream
    ensures Emits(stream, old(stream.bytesWritten), old(stream.data), ok, Some(TagBytes(tag, wireType)))
  {
    ok := EncodeVarint(stream, tag * 8 + wireType);
  }

  /** pb_encode_string */
  method EncodeString(stream: OStream, b: Bytes) returns (ok: bool)
    requires stream.Valid()
    modifies stream
    ensures Emits(stream, old(stream.bytesWritten), old(stream.data), ok, Some(Delimited(b)))
  {
    hide Varint;
    ok := EncodeVarint(stream, |b|);
    if !ok {
      return;
    }
    ghost var data0, prefix := old(stream.data), Varint(|b|);
    assert data0 + prefix + b == data0 + (prefix + b);
    ok := stream.Write(b, |b|);
  }

  /** The functions in PB_ENCODERS, submessages aside. */
  method EncodeScalarTo(stream: OStream, lt: LType, v: Value) returns (ok: bool)
    requires stream.Valid() && TypedScalar(lt, v)
    modifies stream
    ensures Emits(stream, old(stream.bytesWritten), old(stream.data), ok, EncodeScalar(lt, v))
  {
    hide Varint, Unsigned64, Fixed;
    match lt
    case LBool => ok := EncodeVarint(stream, v.n);
    case LVarint(w) =>
      SignRoundTrip(v.n, w);
      Unsigned64Bound(v.n);
      ok := EncodeVarint(stream, Unsigned64(v.n));
    case LUvarint(w) => ok := EncodeVarint(stream, v.n);
    case LSvarint(w) =>
      SignRoundTrip(v.n, w);
      ok := EncodeSvarint(stream, v.n);
    case LFixed32 =>
      FixedFront(v.n, 4, []);
      ok := stream.Write(Fixed(v.n, 4), 4);
    case LFixed64 =>
      FixedFront(v.n, 8, []);
      ok := stream.Write(Fixed(v.n, 8), 8);
    case LBytes(max) =>
      if |v.bytes| > max {
        return false;
      }
      ok := EncodeString(stream, v.bytes);
  }

  // ---- arrays, submessages, fields ----

  lemma PackableEncodes(lt: LType, v: Value)
    requires Packable(lt) && TypedValue(lt, v)
    ensures TypedScalar(lt, v) && EncodeScalar(lt, v).Some?
    ensures lt.LFixed32? ==> |EncodeScalar(lt, v).value| == 4
    ensures lt.LFixed64? ==> |EncodeScalar(lt, v).value| == 8
  {
    if lt.LFixed32? { FixedFront(v.n, 4, []); }
    if lt.LFixed64? { FixedFront(v.n, 8, []); }
  }

  lemma {:induction false} PackedSize(lt: LType, vs: seq<Value>)
    requires Packable(lt) && forall i :: 0 <= i < |vs| ==> TypedValue(lt, vs[i])
    ensures EncodePacked(lt, vs).Some?
    ensures lt.LFixed32? ==> |EncodePacked(lt, vs).value| == 4 * |vs|
    ensures lt.LFixed64? ==> |EncodePacked(lt, vs).value| == 8 * |vs|
  {
    hide EncodeScalar;
    if vs != [] {
      PackableEncodes(lt, vs[0]);
      PackedSize(lt, vs[1..]);
    }
  }

  /** The values one after the other, on a stream that writes or on one that counts. */
  method EncodeItems(stream: OStream, lt: LType, vs: seq<Value>) returns (ok: bool)
    requires stream.Valid() && Packable(lt) && forall i :: 0 <= i < |vs| ==> TypedValue(lt, vs[i])
    modifies stream
    ensures Emits(stream, old(stream.bytesWritten), old(stream.data), ok, EncodePacked(lt, vs))
  {
    hide EncodeScalar;
    ghost var bytes0, data0, done: Bytes := stream.bytesWritten, stream.data, [];
    PackedSize(lt, vs);
    ghost var all := EncodePacked(lt, vs).value;
    assert vs[0..] == vs && [] + all == all && data0 + [] == data0;
    for i := 0 to |vs|
      invariant EncodePacked(lt, vs[i..]).Some? && done + EncodePacked(lt, vs[i..]).value == all
      invariant stream.Valid() && stream.bytesWritten == bytes0 + |done|
      invariant stream.data == if stream.writing then data0 + done else data0
    {
      PackedStep(lt, vs, i);
      ghost var e, rest := EncodeScalar(lt, vs[i]).value, EncodePacked(lt, vs[i + 1..]).value;
      Joined(done, e, rest);
      Joined(data0, done, e);
      ok := EncodeScalarTo(stream, lt, vs[i]);
      if !ok {
        return;
      }
      done := done + e;
    }
    assert vs[|vs|..] == [] && done + [] == done;
    ok := true;
  }

  lemma PackedStep(lt: LType, vs: seq<Value>, i: nat)
    requires Packable(lt) && i < |vs| && forall k :: 0 <= k < |vs| ==> TypedValue(lt, vs[k])
    ensures TypedScalar(lt, vs[i]) && EncodeScalar(lt, vs[i]).Some? && EncodePacked(lt, vs[i + 1..]).Some?
    ensures EncodePacked(lt, vs[i..]) == Some(EncodeScalar(lt, vs[i]).value + EncodePacked(lt, vs[i + 1..]).value)
  {
    hide EncodeScalar;
    PackableEncodes(lt, vs[i]);
    PackedSize(lt, vs[i + 1..]);
    assert vs[i..][1..] == vs[i + 1..];
  }

  /** Two parts written one after the other. */
  lemma EmitsThen(stream: OStream, bytes0: nat, data0: Bytes, a: Bytes, ok: bool, b: Option<Bytes>)
    requires Emits(stream, bytes0 + |a|, if stream.writing then data0 + a else data0, ok, b)
    ensures Emits(stream, bytes0, data0, ok, Then(Some(a), b))
  {
    if b.Some? {
      Joined(data0, a, b.value);
    }
  }

  /** The packed half of encode_array: the size first, counted on a sizing stream unless it
      follows from the number of values. */
  method EncodePackedArray(stream: OStream, f: Field, vs: seq<Value>) returns (ok: bool)
    requires stream.Valid() && Packable(f.ltype) && forall i :: 0 <= i < |vs| ==> TypedValue(f.ltype, vs[i])
    modifies stream
    ensures EncodePacked(f.ltype, vs).Some?
    ensures Emits(stream, old(stream.bytesWritten), old(stream.data), ok,
                  Some(TagBytes(f.tag, WT_STRING) + Delimited(EncodePacked(f.ltype, vs).value)))
  {
    hide EncodePacked, TagBytes, Varint, Emits;
    PackedSize(f.ltype, vs);
    ghost var bytes0, data0, tag, b := stream.bytesWritten, stream.data, TagBytes(f.tag, WT_STRING),
      EncodePacked(f.ltype, vs).value;
    Joined(tag, Varint(|b|), b);
    ok := EncodeTag(stream, WT_STRING, f.tag);
    AfterPart(stream, bytes0, data0, ok, tag, Delimited(b));
    if !ok {
      return;
    }
    var size;
    if f.ltype.LFixed32? {
      size := 4 * |vs|;
    } else if f.ltype.LFixed64? {
      size := 8 * |vs|;
    } else {
      var sizeStream := new OStream(false, 0, []);
      ok := EncodeItems(sizeStream, f.ltype, vs);
      Counted(sizeStream, 0, [], ok, b);
      size := sizeStream.bytesWritten;
    }
    assert size == |b|;
    ok := EncodeVarint(stream, size);
    Joined(data0, tag, Varint(|b|));
    AfterPart(stream, bytes0 + |tag|, if stream.writing then data0 + tag else data0, ok, Varint(|b|), b);
    if !ok {
      EmitsThen(stream, bytes0, data0, tag, ok, Some(Delimited(b)));
      return;
    }
    if !stream.writing {
      ok := stream.Write([], size);
      JustCounted(stream, bytes0 + |tag| + |Varint(|b|)|, data0, ok, b);
    } else {
      ok := EncodeItems(stream, f.ltype, vs);
    }
    EmitsThen(stream, bytes0 + |tag|, if stream.writing then data0 + tag else data0, Varint(|b|), ok, Some(b));
    EmitsThen(stream, bytes0, data0, tag, ok, Some(Delimited(b)));
  }

  /** What is known after one part: where the stream stands, or that the whole cannot fit. */
  lemma AfterPart(stream: OStream, bytes0: nat, data0: Bytes, ok: bool, a: Bytes, b: Bytes)
    requires Emits(stream, bytes0, data0, ok, Some(a))
    ensures stream.Valid()
    ensures ok ==> stream.bytesWritten == bytes0 + |a| && stream.data == if stream.writing then data0 + a else data0
    ensures !ok ==> Emits(stream, bytes0, data0, ok, Some(a + b))
  {
  }

  lemma Counted(stream: OStream, bytes0: nat, data0: Bytes, ok: bool, b: Bytes)
    requires Emits(stream, bytes0, data0, ok, Some(b)) && !stream.writing
    ensures ok && stream.bytesWritten == bytes0 + |b|
  {
  }

  lemma JustCounted(stream: OStream, bytes0: nat, data0: Bytes, ok: bool, b: Bytes)
    requires !stream.writing && ok && stream.bytesWritten == bytes0 + |b| && stream.data == data0
    ensures Emits(stream, bytes0, data0, ok, Some(b))
  {
  }

  // ---- arrays of unpackable values, submessages, fields, messages ----

  function Before(stream: OStream, data0: Bytes, done: Bytes): Bytes {
    if stream.writing then data0 + done else data0
  }

  /** The stream has taken exactly `done` since it stood at `bytes0` and `data0`. */
  ghost predicate At(stream: OStream, bytes0: nat, data0: Bytes, done: Bytes)
    reads stream
  {
    && stream.Valid()
    && stream.bytesWritten == bytes0 + |done|
    && stream.data == Before(stream, data0, done)
  }

  lemma Starts(stream: OStream, whole: Option<Bytes>)
    requires stream.Valid()
    ensures At(stream, stream.bytesWritten, stream.data, [])
    ensures Then(Some([]), whole) == whole
  {
    assert stream.data + [] == stream.data;
    if whole.Some? { assert [] + whole.value == whole.value; }
  }

  /** One more part of a whole: it went in, or the whole cannot. */
  lemma PartWritten(stream: OStream, bytes0: nat, data0: Bytes, done: Bytes, ok: bool, part: Option<Bytes>,
                    rest: Option<Bytes>)
    requires Emits(stream, bytes0 + |done|, Before(stream, data0, done), ok, part)
    ensures !ok ==> Emits(stream, bytes0, data0, ok, Then(Some(done), Then(part, rest)))
    ensures ok ==> part.Some? && At(stream, bytes0, data0, done + part.value)
    ensures part.Some? ==> Then(Some(done), Then(part, rest)) == Then(Some(done + part.value), rest)
  {
    if part.Some? {
      Joined(data0, done, part.value);
      if rest.Some? {
        Joined(done, part.value, rest.value);
      }
    }
  }

  lemma AllWritten(stream: OStream, bytes0: nat, data0: Bytes, done: Bytes)
    requires At(stream, bytes0, data0, done)
    ensures Emits(stream, bytes0, data0, true, Then(Some(done), Some([])))
  {
    assert done + [] == done;
  }

  /** pb_encode_tag_for_field, then the encoder of the field's type. */
  method EncodeTagged(stream: OStream, f: Field, v: Value) returns (ok: bool)
    requires stream.Valid() && TypedValue(f.ltype, v)
    modifies stream
    ensures Emits(stream, old(stream.bytesWritten), old(stream.data), ok,
                  Then(Some(TagBytes(f.tag, WireType(f.ltype))), EncodeValue(f.ltype, v)))
    decreases f, 0, 0
  {
    hide TagBytes, EncodeValue, Emits;
    ghost var bytes0, data0, tag := stream.bytesWritten, stream.data, TagBytes(f.tag, WireType(f.ltype));
    ghost var value := EncodeValue(f.ltype, v);
    Starts(stream, Then(Some(tag), value));
    ok := EncodeTag(stream, WireType(f.ltype), f.tag);
    PartWritten(stream, bytes0, data0, [], ok, Some(tag), value);
    if !ok {
      return;
    }
    assert [] + tag == tag;
    ok := EncodeValueTo(stream, f.ltype, v);
    EmitsThen(stream, bytes0, data0, tag, ok, value);
  }

  /** A field's encoder: that of its scalar type, or pb_enc_submessage. */
  method EncodeValueTo(stream: OStream, lt: LType, v: Value) returns (ok: bool)
    requires stream.Valid() && TypedValue(lt, v)
    modifies stream
    ensures Emits(stream, old(stream.bytesWritten), old(stream.data), ok, EncodeValue(lt, v))
    decreases lt, 0, 0
  {
    hide Emits;
    if lt.LSubmessage? {
      ok := EncodeSubmessage(stream, lt.fields, v.slots);
    } else {
      ok := EncodeScalarTo(stream, lt, v);
    }
  }

  function Prefixed(b: Option<Bytes>): Option<Bytes> {
    if b.Some? then Some(Delimited(b.value)) else None
  }

  /** pb_encode_submessage: the size comes from a first pass that only counts, and the
      second pass always writes that many bytes. */
  method EncodeSubmessage(stream: OStream, fields: seq<Field>, slots: seq<Slot>) returns (ok: bool)
    requires stream.Valid() && Typed(fields, slots)
    modifies stream
    ensures Emits(stream, old(stream.bytesWritten), old(stream.data), ok, Prefixed(EncodeFields(fields, slots)))
    decreases fields, 3, 0
  {
    hide EncodeFields, Varint;
    ghost var bytes0, data0, b := stream.bytesWritten, stream.data, EncodeFields(fields, slots);
    var substream := new OStream(false, 0, []);
    ok := Encode(substream, fields, slots);
    if !ok {
      return;
    }
    var size := substream.bytesWritten;
    assert b.Some? && size == |b.value|;
    ok := EncodeVarint(stream, size);
    ghost var prefix := Varint(size);
    if !ok {
      return;
    }
    if !stream.writing {
      ok := stream.Write([], size);
      return;
    }
    Joined(data0, prefix, b.value);
    if stream.bytesWritten + size > stream.maxSize {
      return false;
    }
    substream := new OStream(true, size, stream.data);
    ok := Encode(substream, fields, slots);
    stream.bytesWritten := stream.bytesWritten + substream.bytesWritten;
    stream.data := substream.data;
    if substream.bytesWritten != size {
      assert false;  // "submsg size changed" takes a callback
      return false;
    }
  }

  /** encode_array */
  method EncodeArray(stream: OStream, f: Field, vs: seq<Value>) returns (ok: bool)
    requires stream.Valid() && f.htype.Repeated? && TypedSlot(f, Many(vs))
    modifies stream
    ensures Emits(stream, old(stream.bytesWritten), old(stream.data), ok, EncodeField(f, Many(vs)))
    decreases f, 0, 2
  {
    hide EncodePacked, EncodeEach, TagBytes, Varint;
    ghost var bytes0, data0 := stream.bytesWritten, stream.data;
    if |vs| == 0 {
      assert data0 + [] == data0;
      return true;
    }
    if |vs| > f.htype.arraySize {
      return false;
    }
    if Packable(f.ltype) {
      ok := EncodePackedArray(stream, f, vs);
      return;
    }
    ok := EncodeEntries(stream, f, vs);
  }

  /** The unpacked half of encode_array: every value under its own tag. */
  method EncodeEntries(stream: OStream, f: Field, vs: seq<Value>) returns (ok: bool)
    requires stream.Valid() && forall i :: 0 <= i < |vs| ==> TypedValue(f.ltype, vs[i])
    modifies stream
    ensures Emits(stream, old(stream.bytesWritten), old(stream.data), ok, EncodeEach(f, vs))
    decreases f, 0, 1
  {
    hide EncodeEach, EncodeValue, TagBytes, Emits;
    ghost var bytes0, data0, whole, done: Bytes := stream.bytesWritten, stream.data, EncodeEach(f, vs), [];
    Starts(stream, whole);
    assert vs[0..] == vs;
    for i := 0 to |vs|
      invariant At(stream, bytes0, data0, done)
      invariant Then(Some(done), EncodeEach(f, vs[i..])) == whole
    {
      EachStep(f, vs, i);
      ghost var part := Then(Some(TagBytes(f.tag, WireType(f.ltype))), EncodeValue(f.ltype, vs[i]));
      ok := EncodeTagged(stream, f, vs[i]);
      PartWritten(stream, bytes0, data0, done, ok, part, EncodeEach(f, vs[i + 1..]));
      if !ok {
        return;
      }
      done := done + part.value;
    }
    NoneLeft(f, vs);
    AllWritten(stream, bytes0, data0, done);
    ok := true;
  }

  lemma EachStep(f: Field, vs: seq<Value>, i: nat)
    requires i < |vs| && forall k :: 0 <= k < |vs| ==> TypedValue(f.ltype, vs[k])
    ensures EncodeEach(f, vs[i..])
         == Then(Then(Some(TagBytes(f.tag, WireType(f.ltype))), EncodeValue(f.ltype, vs[i])),
                 EncodeEach(f, vs[i + 1..]))
  {
    hide EncodeValue, TagBytes;
    assert vs[i..][1..] == vs[i + 1..];
  }

  lemma NoneLeft(f: Field, vs: seq<Value>)
    requires forall k :: 0 <= k < |vs| ==> TypedValue(f.ltype, vs[k])
    ensures EncodeEach(f, vs[|vs|..]) == Some([])
  {
  }

  /** encode_basic_field */
  method EncodeFieldTo(stream: OStream, f: Field, slot: Slot) returns (ok: bool)
    requires stream.Valid() && TypedSlot(f, slot)
    modifies stream
    ensures Emits(stream, old(stream.bytesWritten), old(stream.data), ok, EncodeField(f, slot))
    decreases f, 1, 0
  {
    hide EncodeValue, TagBytes;
    ghost var data0 := stream.data;
    match f.htype
    case Required => ok := EncodeTagged(stream, f, slot.v);
    case Optional =>
      if slot.has {
        ok := EncodeTagged(stream, f, slot.v);
      } else {
        assert data0 + [] == data0;
        ok := true;
      }
    case Repeated(_) => ok := EncodeArray(stream, f, slot.vs);
  }

  /** pb_encode: once round the fields. */
  method Encode(stream: OStream, fields: seq<Field>, slots: seq<Slot>) returns (ok: bool)
    requires stream.Valid() && Typed(fields, slots)
    modifies stream
    ensures Emits(stream, old(stream.bytesWritten), old(stream.data), ok, EncodeFields(fields, slots))
    decreases fields, 2, 0
  {
    hide EncodeFields, EncodeField, Emits;
    ghost var bytes0, data0, whole, done: Bytes := stream.bytesWritten, stream.data, EncodeFields(fields, slots), [];
    Starts(stream, whole);
    FieldsStep(fields, slots, 0);
    if fields == [] {
      AllWritten(stream, bytes0, data0, done);
      return true;
    }
    var iter := new FieldIter(fields);
    var more := true;
    assert fields[0..] == fields && slots[0..] == slots;
    ghost var i: nat := 0;  // the fields done
    while more
      invariant iter.Valid() && iter.fields == fields
      invariant i <= |fields| && if more then i < |fields| && iter.pos == i else i == |fields|
      invariant At(stream, bytes0, data0, done)
      invariant Typed(fields[i..], slots[i..])
      invariant Then(Some(done), EncodeFields(fields[i..], slots[i..])) == whole
      decreases |fields| - i
    {
      FieldsStep(fields, slots, i);
      ghost var part := EncodeField(fields[i], slots[i]);
      ok := EncodeFieldTo(stream, fields[iter.pos], slots[iter.pos]);
      PartWritten(stream, bytes0, data0, done, ok, part, EncodeFields(fields[i + 1..], slots[i + 1..]));
      if !ok {
        return;
      }
      done := done + part.value;
      i := i + 1;
      more := iter.Next();
    }
    FieldsStep(fields, slots, |fields|);
    AllWritten(stream, bytes0, data0, done);
    ok := true;
  }

  lemma FieldsStep(fields: seq<Field>, slots: seq<Slot>, i: nat)
    requires Typed(fields, slots) && i <= |fields|
    ensures Typed(fields[i..], slots[i..])
    ensures i == |fields| ==> EncodeFields(fields[i..], slots[i..]) == Some([])
    ensures i < |fields| ==>
      && Typed(fields[i + 1..], slots[i + 1..])
      && EncodeFields(fields[i..], slots[i..])
         == Then(EncodeField(fields[i], slots[i]), EncodeFields(fields[i + 1..], slots[i + 1..]))
  {
    hide EncodeField, TypedSlot;
    if i < |fields| {
      assert fields[i..][1..] == fields[i + 1..] && slots[i..][1..] == slots[i + 1..];
    }
  }

  /** pb_get_encoded_size */
  method GetEncodedSize(fields: seq<Field>, slots: seq<Slot>) returns (size: Option<nat>)
    requires Typed(fields, slots)
    ensures size == match EncodeFields(fields, slots) case Some(b) => Some(|b|) case None => None
  {
    var stream := new OStream(false, 0, []);
    var ok := Encode(stream, fields, slots);
    size := if ok then Some(stream.bytesWritten) else None;
  }
}
