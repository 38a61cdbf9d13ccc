/** nanopb's decoder (pb_decode.c): streams that share a buffer, substreams for what has a
    length, and a loop over the fields in whatever order they come.
 */
module PbDecode {
  import opened Coding
  import opened Comparator
  import opened Options
  import opened PbCommon
  import opened PbMessages
  import opened PbSeen
  import opened PbWire

  /** pb_istream_t over memory: `pos` is its state, and it may stop before the buffer does. */
  class IStream {
    const buffer: Bytes
    var pos: nat
    var bytesLeft: nat

    ghost predicate Valid()
      reads this
    {
      pos + bytesLeft <= |buffer|
    }

    ghost function Left(): (s: Bytes)
      requires Valid()
      reads this
      ensures |s| == bytesLeft
    {
      buffer[pos..pos + bytesLeft]
    }

    ghost function End(): nat
      reads this
    {
      pos + bytesLeft
    }

    constructor (buffer: Bytes, pos: nat, bytesLeft: nat)
      requires pos + bytesLeft <= |buffer|
      ensures Valid() && this.buffer == buffer && this.pos == pos && this.bytesLeft == bytesLeft
    {
      this.buffer, this.pos, this.bytesLeft := buffer, pos, bytesLeft;
    }

    /** It has given up `used` of the bytes it had. */
    ghost predicate Took(pos0: nat, left0: nat, used: nat)
      reads this
    {
      Valid() && used <= left0 && pos == pos0 + used && bytesLeft == left0 - used
    }

    /** pb_read */
    method Read(count: nat) returns (ok: bool, buf: Bytes)
      requires Valid()
      modifies this
      ensures ok <==> count <= old(bytesLeft)
      ensures ok ==> Took(old(pos), old(bytesLeft), count) && buf == old(Left())[..count]
      ensures !ok ==> Took(old(pos), old(bytesLeft), 0)
    {
      if count == 0 {
        return true, [];
      }
      if bytesLeft < count {
        return false, [];
      }
      buf := buffer[pos..pos + count];
      pos, bytesLeft := pos + count, bytesLeft - count;
      return true, buf;
    }

    /** pb_readbyte */
    method ReadByte() returns (ok: bool, byte: Byte)
      requires Valid()
      modifies this
      ensures ok <==> old(bytesLeft) > 0
      ensures ok ==> Took(old(pos), old(bytesLeft), 1) && byte == old(Left())[0]
      ensures !ok ==> Took(old(pos), old(bytesLeft), 0)
    {
      if bytesLeft == 0 {
        return false, 0;
      }
      byte := buffer[pos];
      pos, bytesLeft := pos + 1, bytesLeft - 1;
      return true, byte;
    }
  }

  /** The bytes of a substream. */
  lemma InnerBytes(buffer: Bytes, pos: nat, left: nat, used: nat, size: nat)
    requires pos + left <= |buffer| && used + size <= left
    ensures buffer[pos + used..pos + used + size] == buffer[pos..pos + left][used..used + size]
  {
    var inside := buffer[pos..pos + left];
    assert forall i :: 0 <= i < left ==> inside[i] == buffer[pos + i];
  }

  // ---- varints ----

  /** pb_decode_varint32_eof */
  method DecodeVarint32Eof(stream: IStream) returns (r: Option<nat>, eof: bool)
    requires stream.Valid()
    modifies stream
    ensures stream.Valid() && stream.End() <= old(stream.End())
    ensures eof <==> old(stream.Left()) == []
    ensures eof ==> stream.End() == old(stream.End())
    ensures match Varint32(old(stream.Left()))
            case None => r == None
            case Some(p) => r == Some(p.value) && stream.Took(old(stream.pos), old(stream.bytesLeft), p.used)
  {
    hide MoreVarint32, Low7, Low32, ShiftLeft;
    ghost var s := stream.Left();
    eof := false;
    var ok, byte := stream.ReadByte();
    if !ok {
      return None, true;
    }
    if byte < 128 {
      return Some(byte), eof;
    }
    var bitpos: nat, result: nat, more := 7, Low7(byte), true;
    ghost var used: nat := 1;
    while more
      invariant stream.Valid() && stream.Took(old(stream.pos), old(stream.bytesLeft), used)
      invariant result < MAX32 && used <= |s|
      invariant more ==> Varint32(s) == MoreVarint32(s[used..], result, bitpos, used)
      invariant !more ==> byte < 128
      invariant !more ==> Varint32(s) == if bitpos == 35 && Low7(byte) >= 16 then None else Some(Parsed(result, used))
      decreases more, stream.bytesLeft
    {
      MoreStep(s, result, bitpos, used);
      ok, byte := stream.ReadByte();
      if !ok {
        return None, eof;
      }
      assert byte == s[used];
      if bitpos >= 32 {
        var signExtension := if bitpos < 63 then 0xff else 1;
        if Low7(byte) != 0 && (result < 0x8000_0000 || byte != signExtension) {
          return None, eof;
        }
      } else {
        result := Low32(result + ShiftLeft(Low7(byte), bitpos));
      }
      bitpos := bitpos + 7;
      used := used + 1;
      more := byte >= 128;
    }
    if bitpos == 35 && Low7(byte) >= 16 {
      return None, eof;
    }
    return Some(result), eof;
  }

  lemma MoreStep(s: Bytes, result: nat, bitpos: nat, used: nat)
    requires result < MAX32 && used <= |s|
    ensures used == |s| ==> MoreVarint32(s[used..], result, bitpos, used) == None
    ensures used < |s| ==>
      var byte, low := s[used], Low7(s[used]);
      var result' := if bitpos >= 32 then result else Low32(result + ShiftLeft(low, bitpos));
      && result' < MAX32
      && MoreVarint32(s[used..], result, bitpos, used) ==
         if bitpos >= 32 && low != 0 && (result < 0x8000_0000 || byte != if bitpos < 63 then 0xff else 1) then None
         else if byte >= 128 then MoreVarint32(s[used + 1..], result', bitpos + 7, used + 1)
         else if bitpos == 28 && low >= 16 then None
         else Some(Parsed(result', used + 1))
  {
    hide Low7, ShiftLeft;
    if used < |s| {
      assert s[used..][1..] == s[used + 1..];
    }
  }

  /** pb_decode_varint32 */
  method DecodeVarint32(stream: IStream) returns (r: Option<nat>)
    requires stream.Valid()
    modifies stream
    ensures stream.Valid() && stream.End() <= old(stream.End())
    ensures match Varint32(old(stream.Left()))
            case None => r == None
            case Some(p) => r == Some(p.value) && stream.Took(old(stream.pos), old(stream.bytesLeft), p.used)
  {
    var eof;
    r, eof := DecodeVarint32Eof(stream);
  }

  /** pb_decode_varint: 64 bits of result, and no more than ten bytes. */
  method DecodeVarint(stream: IStream) returns (r: Option<nat>)
    requires stream.Valid()
    modifies stream
    ensures stream.Valid() && stream.End() <= old(stream.End())
    ensures match Varint64(old(stream.Left()))
            case None => r == None
            case Some(p) => r == Some(p.value) && stream.Took(old(stream.pos), old(stream.bytesLeft), p.used)
  {
    hide Times, Reading, Unvarint, LowBits, Low7;
    ghost var s, full: nat, i: nat := stream.Left(), 0, 0;
    var bitpos: nat, weight: nat, result: nat := 0, 1, 0;  // weight is 1 << bitpos
    ReadingStarts(s, 10);
    LowBitsSmall(0, W64);
    while true
      invariant stream.Took(old(stream.pos), old(stream.bytesLeft), i) && bitpos == 7 * i && i <= 10
      invariant Reading(s, 10, i, weight, full) && result == LowBits(full, W64)
      decreases stream.bytesLeft
    {
      if bitpos >= 64 {
        ReadingEnds(s, 10, i, weight, full);
        return None;
      }
      var ok, byte := stream.ReadByte();
      if !ok {
        ReadingEnds(s, 10, i, weight, full);
        return None;
      }
      assert byte == s[i];
      ReadingStep(s, 10, i, weight, full);
      Low7Is(byte);
      LowBitsAdd(full, Times(weight, Low7(byte)));
      result := LowBits(result + Times(weight, Low7(byte)), W64);
      full := full + Times(weight, Low7(byte));
      weight, bitpos, i := Times(weight, 128), bitpos + 7, i + 1;
      if byte < 128 {
        return Some(result);
      }
    }
  }

  lemma Low7Is(b: Byte)
    ensures Low7(b) == if b < 128 then b else b - 128
  {
  }

  lemma LowBitsAdd(a: nat, b: nat)
    ensures LowBits(LowBits(a, W64) + b, W64) == LowBits(a + b, W64)
  {
  }

  // ---- skipping ----

  /** pb_skip_varint */
  method SkipVarintOf(stream: IStream) returns (ok: bool)
    requires stream.Valid()
    modifies stream
    ensures stream.Valid() && stream.End() <= old(stream.End())
    ensures match SkipVarint(old(stream.Left()))
            case None => !ok
            case Some(k) => ok && stream.Took(old(stream.pos), old(stream.bytesLeft), k)
  {
    hide SkipVarint;
    ghost var s, k: nat := stream.Left(), 0;
    assert s[0..] == s;
    while true
      invariant stream.Took(old(stream.pos), old(stream.bytesLeft), k)
      invariant SkipVarint(s) == match SkipVarint(s[k..]) case None => None case Some(j) => Some(k + j)
      decreases stream.bytesLeft
    {
      SkipStep(s, k);
      var buf;
      ok, buf := stream.Read(1);
      if !ok {
        return;
      }
      assert buf[0] == s[k];
      k := k + 1;
      if buf[0] < 128 {
        return;
      }
    }
  }

  lemma SkipStep(s: Bytes, k: nat)
    requires k <= |s|
    ensures k == |s| ==> SkipVarint(s[k..]) == None
    ensures k < |s| && s[k] < 128 ==> SkipVarint(s[k..]) == Some(1)
    ensures k < |s| && s[k] >= 128 ==>
      SkipVarint(s[k..]) == match SkipVarint(s[k + 1..]) case None => None case Some(j) => Some(j + 1)
  {
    if k < |s| {
      assert s[k..][1..] == s[k + 1..];
    }
  }

  /** pb_skip_field */
  method SkipField(stream: IStream, wireType: nat) returns (ok: bool)
    requires stream.Valid()
    modifies stream
    ensures stream.Valid() && stream.End() <= old(stream.End())
    ensures match Skip(wireType, old(stream.Left()))
            case None => !ok
            case Some(k) => ok && stream.Took(old(stream.pos), old(stream.bytesLeft), k)
    ensures wireType == 1 && old(stream.bytesLeft) >= 8 ==> ok && stream.bytesLeft == old(stream.bytesLeft) - 8
    ensures wireType == 5 && old(stream.bytesLeft) >= 4 ==> ok && stream.bytesLeft == old(stream.bytesLeft) - 4
    ensures wireType !in {0, 1, 2, 5} ==> !ok
  {
    hide SkipVarint, Varint32;
    var skipped;
    if wireType == WT_VARINT {
      ok := SkipVarintOf(stream);
    } else if wireType == WT_64BIT {
      ok, skipped := stream.Read(8);
    } else if wireType == WT_STRING {
      var length := DecodeVarint32(stream);
      if length == None {
        return false;
      }
      ok, skipped := stream.Read(length.value);
    } else if wireType == WT_32BIT {
      ok, skipped := stream.Read(4);
    } else {
      ok := false;
    }
  }

  /** pb_decode_tag: on an empty stream, as on a zero, the message has ended. */
  method DecodeTagOf(stream: IStream) returns (ok: bool, wireType: nat, tag: nat, eof: bool)
    requires stream.Valid()
    modifies stream
    ensures stream.Valid() && stream.End() <= old(stream.End())
    ensures eof ==> stream.End() == old(stream.End())
    ensures if old(stream.Left()) == [] then !ok && eof else
            match DecodeTag(old(stream.Left()))
            case BadTag => !ok && !eof
            case EndTag => !ok && eof
            case Tag(t, wt, used) =>
              ok && tag == t && wireType == wt && stream.Took(old(stream.pos), old(stream.bytesLeft), used)
  {
    hide Varint32;
    ok, wireType, tag := false, 0, 0;
    var temp;
    temp, eof := DecodeVarint32Eof(stream);
    if temp == None {
      return;
    }
    if temp.value == 0 {
      eof := true;
      return;
    }
    ok, tag, wireType := true, temp.value / 8, temp.value % 8;
  }

  // ---- substreams ----

  /** What follows a length at the front of s, if all of it is there. */
  function Inner(s: Bytes): (r: Option<Cut>)
    ensures r.Some? ==> |r.value.slice| < |s|
  {
    match Varint32(s)
    case None => None
    case Some(p) =>
      if |s| - p.used < p.value then None
      else Some(Cut(s[p.used..p.used + p.value], s[p.used + p.value..]))
  }

  /** pb_make_string_substream: the parent's bytes are counted off at once, and its state
      follows when the substream is closed. */
  method MakeSubstream(stream: IStream) returns (ok: bool, substream: IStream)
    requires stream.Valid()
    modifies stream
    ensures stream.Valid() && stream.End() <= old(stream.End())
    ensures ok <==> Inner(old(stream.Left())).Some?
    ensures ok ==>
      && fresh(substream) && substream.Valid() && substream.buffer == stream.buffer
      && substream.Left() == Inner(old(stream.Left())).value.slice
      && substream.End() + stream.bytesLeft == old(stream.End())
      && stream.bytesLeft == |Inner(old(stream.Left())).value.rest|
      && substream.bytesLeft < old(stream.bytesLeft)
    ensures ok ==>
      && Varint32(old(stream.Left())).Some?
      && Varint32(old(stream.Left())).value.value == substream.bytesLeft
      && Varint32(old(stream.Left())).value.used + substream.bytesLeft + stream.bytesLeft == old(stream.bytesLeft)
  {
    hide Varint32;
    substream := stream;
    ghost var s, pos0, left0 := stream.Left(), stream.pos, stream.bytesLeft;
    var size := DecodeVarint32(stream);
    if size == None {
      return false, substream;
    }
    if stream.bytesLeft < size.value {
      return false, substream;
    }
    substream := new IStream(stream.buffer, stream.pos, size.value);
    ghost var used := Varint32(s).value.used;
    assert stream.pos == pos0 + used;
    InnerBytes(stream.buffer, pos0, left0, used, size.value);
    stream.bytesLeft := stream.bytesLeft - size.value;
    ok := true;
  }

  /** pb_close_string_substream: what nobody read is skipped. */
  method CloseSubstream(stream: IStream, substream: IStream)
    requires substream.Valid() && stream != substream
    requires substream.End() + stream.bytesLeft <= |stream.buffer|
    modifies stream, substream
    ensures stream.Valid() && stream.pos == old(substream.End()) && stream.bytesLeft == old(stream.bytesLeft)
  {
    if substream.bytesLeft > 0 {
      var _, _ := substream.Read(substream.bytesLeft);
    }
    stream.pos := substream.pos;
  }

  // ---- single values ----

  /** The functions in PB_DECODERS, submessages aside. */
  method DecodeScalarFrom(stream: IStream, lt: LType) returns (r: Option<Value>)
    requires stream.Valid() && !lt.LSubmessage?
    modifies stream
    ensures stream.Valid() && stream.End() <= old(stream.End())
    ensures match DecodeScalar(lt, old(stream.Left()))
            case None => r == None
            case Some(got) => r == Some(got.v) && stream.Took(old(stream.pos), old(stream.bytesLeft), got.used)
  {
    hide Varint32, Varint64, Signed, UnZigZag, Unfixed;
    var n: Option<nat>;
    match lt
    case LBool =>
      n := DecodeVarint32(stream);
      return if n.Some? then Some(Num(if n.value != 0 then 1 else 0)) else None;
    case LVarint(w) =>
      n := DecodeVarint(stream);
      if n == None {
        return None;
      }
      var svalue := Signed(n.value, if w == W64 then W64 else W32);
      return if SignedFits(svalue, w) then Some(Num(svalue)) else None;
    case LUvarint(w) =>
      n := DecodeVarint(stream);
      return if n.Some? && n.value < Span(w) then Some(Num(n.value)) else None;
    case LSvarint(w) =>
      n := DecodeVarint(stream);
      if n == None {
        return None;
      }
      var value := UnZigZag(n.value);
      return if SignedFits(value, w) then Some(Num(value)) else None;
    case LFixed32 =>
      var ok, bytes := stream.Read(4);
      return if ok then Some(Num(Unfixed(bytes))) else None;
    case LFixed64 =>
      var ok, bytes := stream.Read(8);
      return if ok then Some(Num(Unfixed(bytes))) else None;
    case LBytes(max) =>
      r := DecodeBytesFrom(stream, max);
  }

  /** pb_dec_bytes */
  method DecodeBytesFrom(stream: IStream, max: nat) returns (r: Option<Value>)
    requires stream.Valid()
    modifies stream
    ensures stream.Valid() && stream.End() <= old(stream.End())
    ensures match DecodeBytes(max, old(stream.Left()))
            case None => r == None
            case Some(got) => r == Some(got.v) && stream.Took(old(stream.pos), old(stream.bytesLeft), got.used)
  {
    hide Varint32;
    ghost var s := stream.Left();
    var size := DecodeVarint32(stream);
    if size == None || size.value > max {
      return None;
    }
    ghost var used := Varint32(s).value.used;
    assert stream.Left() == s[used..];
    var ok, bytes := stream.Read(size.value);
    if !ok {
      return None;
    }
    assert bytes == s[used..used + size.value];
    return Some(Raw(bytes));
  }

  // ---- fields and messages ----

  /** pb_field_set_to_default: an array is only given the count 0. */
  method SetFieldToDefault(f: Field) returns (slot: Slot)
    ensures slot == DefaultSlot(f)
    decreases f, 1
  {
    if f.htype.Repeated? {
      return Many([]);
    }
    var v;
    if f.ltype.LSubmessage? {
      var inner := SetToDefaults(f.ltype.fields);
      v := Msg(inner);
    } else {
      v := DefaultValue(f.ltype, f.default);
    }
    return if f.htype.Optional? then Maybe(false, v) else One(v);
  }

  /** pb_message_set_to_defaults */
  method SetToDefaults(fields: seq<Field>) returns (slots: seq<Slot>)
    ensures slots == Defaults(fields)
    decreases fields, 2
  {
    slots := [];
    if fields == [] {
      return;
    }
    var iter := new FieldIter(fields);
    var more := true;
    while more
      invariant iter.Valid() && iter.fields == fields && |slots| <= |fields|
      invariant if more then |slots| < |fields| && iter.pos == |slots| else |slots| == |fields|
      invariant forall k :: 0 <= k < |slots| ==> slots[k] == DefaultSlot(fields[k])
      decreases |fields| - |slots|
    {
      var slot := SetFieldToDefault(fields[iter.pos]);
      slots := slots + [slot];
      more := iter.Next();
    }
  }

  /** The bytes after a value that took some from the front of s. */
  lemma TookSome(stream: IStream, pos0: nat, left0: nat, s: Bytes, used: nat)
    requires stream.Took(pos0, left0, used) && pos0 + left0 <= |stream.buffer| && s == stream.buffer[pos0..pos0 + left0]
    ensures stream.Valid() && stream.Left() == s[used..]
    ensures stream.End() == pos0 + left0 && stream.pos == pos0 + used && stream.bytesLeft == left0 - used
  {
  }

  lemma Looks(stream: IStream)
    requires stream.Valid()
    ensures stream.pos + stream.bytesLeft <= |stream.buffer|
    ensures stream.Left() == stream.buffer[stream.pos..stream.pos + stream.bytesLeft]
    ensures stream.Left() == [] <==> stream.bytesLeft == 0
    ensures stream.End() == stream.pos + stream.bytesLeft
  {
  }

  /** A field's decoder.  pb_dec_submessage starts a new array entry from defaults, and
      anything else from what is there. */
  method DecodeValueFrom(stream: IStream, f: Field, current: Value) returns (r: Option<Value>)
    requires stream.Valid() && GoodField(f) && TypedValue(f.ltype, current)
    requires f.htype.Repeated? ==> current == DefaultValue(f.ltype, f.default)
    modifies stream
    ensures stream.Valid() && stream.End() <= old(stream.End())
    ensures match DecodeValue(f.ltype, current, old(stream.Left()))
            case None => r == None
            case Some(got) => r == Some(got.v) && stream.Took(old(stream.pos), old(stream.bytesLeft), got.used)
    decreases stream.bytesLeft, 1
  {
    hide DecodeFields, Varint32, DecodeScalar, Typed, GoodFields;
    if !f.ltype.LSubmessage? {
      r := DecodeScalarFrom(stream, f.ltype);
      return;
    }
    var ok, substream := MakeSubstream(stream);
    if !ok {
      return None;
    }
    var slots;
    if f.htype.Repeated? {
      slots := DecodeMessage(substream, f.ltype.fields);
    } else {
      slots := DecodeNoInit(substream, f.ltype.fields, current.slots);
    }
    CloseSubstream(stream, substream);
    return if slots.Some? then Some(Msg(slots.value)) else None;
  }

  /** The packed half of decode_static_field for arrays. */
  method DecodePackedFrom(stream: IStream, lt: LType, arraySize: nat, values: seq<Value>)
    returns (r: Option<seq<Value>>)
    requires stream.Valid() && !lt.LSubmessage? && forall i :: 0 <= i < |values| ==> TypedValue(lt, values[i])
    modifies stream
    ensures stream.Valid() && stream.End() <= old(stream.End())
    ensures var inner := Inner(old(stream.Left()));
            match (if inner.None? then None else DecodePacked(lt, arraySize, values, inner.value.slice))
            case None => r == None
            case Some(vs) =>
              r == Some(vs)
              && stream.Took(old(stream.pos), old(stream.bytesLeft), old(stream.bytesLeft) - |inner.value.rest|)
  {
    hide DecodeScalar, Inner, Varint32;
    var ok, substream := MakeSubstream(stream);
    if !ok {
      return None;
    }
    var status, vs := true, values;
    ghost var whole := DecodePacked(lt, arraySize, values, substream.Left());
    while status && substream.bytesLeft > 0 && |vs| < arraySize
      invariant substream.Valid() && substream.buffer == stream.buffer
      invariant substream.End() + stream.bytesLeft <= old(stream.End())
      invariant status ==> substream.End() + stream.bytesLeft == old(stream.End())
      invariant forall i :: 0 <= i < |vs| ==> TypedValue(lt, vs[i])
      invariant status ==> whole == DecodePacked(lt, arraySize, vs, substream.Left())
      invariant !status ==> whole == None
      decreases status, substream.bytesLeft
      modifies substream
    {
      ghost var s, pos0, left0 := substream.Left(), substream.pos, substream.bytesLeft;
      var v := DecodeScalarFrom(substream, lt);
      if v == None {
        status := false;
      } else {
        TookSome(substream, pos0, left0, s, DecodeScalar(lt, s).value.used);
        vs := vs + [v.value];
      }
    }
    if substream.bytesLeft != 0 {
      return None;
    }
    CloseSubstream(stream, substream);
    return if status then Some(vs) else None;
  }

  /** decode_static_field */
  method DecodeFieldFrom(stream: IStream, f: Field, slot: Slot, wireType: nat) returns (r: Option<Slot>)
    requires stream.Valid() && GoodField(f) && TypedSlot(f, slot)
    modifies stream
    ensures stream.Valid() && stream.End() <= old(stream.End())
    ensures match DecodeField(f, slot, wireType, old(stream.Left()))
            case None => r == None
            case Some(t) => r == Some(t.slot) && stream.Took(old(stream.pos), old(stream.bytesLeft), t.used)
    decreases stream.bytesLeft, 2
  {
    hide DecodeValue, DecodePacked, TypedValue, Varint32, GoodFields;
    var v;
    match f.htype
    case Required =>
      v := DecodeValueFrom(stream, f, slot.v);
      return if v.Some? then Some(One(v.value)) else None;
    case Optional =>
      v := DecodeValueFrom(stream, f, slot.v);
      return if v.Some? then Some(Maybe(true, v.value)) else None;
    case Repeated(arraySize) =>
      if wireType == WT_STRING && Packable(f.ltype) {
        var vs := DecodePackedFrom(stream, f.ltype, arraySize, slot.vs);
        return if vs.Some? then Some(Many(vs.value)) else None;
      }
      if |slot.vs| >= arraySize {
        return None;
      }
      DefaultTyped(f);
      v := DecodeValueFrom(stream, f, DefaultValue(f.ltype, f.default));
      return if v.Some? then Some(Many(slot.vs + [v.value])) else None;
  }

  lemma FindPlace(fields: seq<Field>, i: nat)
    requires i < |fields| && GoodFields(fields)
    ensures Find(fields, fields[i].tag) == Some(i)
  {
  }

  lemma FindNone(fields: seq<Field>, tag: nat)
    requires forall i :: 0 <= i < |fields| ==> fields[i].tag != tag
    ensures Find(fields, tag) == None
  {
  }

  /** Rounds of the loop, as DecodeFields has them: the end, an unknown field, a known one. */
  lemma RoundEnds(fields: seq<Field>, slots: seq<Slot>, seen: set<nat>, s: Bytes)
    requires GoodFields(fields) && Typed(fields, slots) && s != []
    ensures DecodeTag(s) == BadTag ==> DecodeFields(fields, slots, seen, s) == None
    ensures DecodeTag(s) == EndTag ==>
      DecodeFields(fields, slots, seen, s) == if RequiredSeen(fields, seen) then Some(slots) else None
  {
    hide DecodeTag, Skip, Find, DecodeField, RequiredSeen, GoodField, TypedSlot;
  }

  lemma RoundSkips(fields: seq<Field>, slots: seq<Slot>, seen: set<nat>, s: Bytes, tag: nat, wireType: nat, used: nat)
    requires GoodFields(fields) && Typed(fields, slots) && s != []
    requires DecodeTag(s) == Tag(tag, wireType, used) && Find(fields, tag) == None
    ensures DecodeFields(fields, slots, seen, s) ==
            match Skip(wireType, s[used..])
            case None => None
            case Some(k) => DecodeFields(fields, slots, seen, s[used..][k..])
  {
    hide DecodeTag, Skip, Find, DecodeField, RequiredSeen, GoodField, TypedSlot;
  }

  lemma RoundTakes(fields: seq<Field>, slots: seq<Slot>, seen: set<nat>, s: Bytes, tag: nat, wireType: nat, used: nat,
                   i: nat)
    requires GoodFields(fields) && Typed(fields, slots) && s != []
    requires DecodeTag(s) == Tag(tag, wireType, used) && Find(fields, tag) == Some(i)
    ensures |slots| == |fields| && i < |fields| && GoodField(fields[i]) && TypedSlot(fields[i], slots[i])
    ensures match DecodeField(fields[i], slots[i], wireType, s[used..])
            case None => DecodeFields(fields, slots, seen, s) == None
            case Some(t) =>
              && Typed(fields, slots[i := t.slot])
              && DecodeFields(fields, slots, seen, s)
              == DecodeFields(fields, slots[i := t.slot], if fields[i].htype.Required? then seen + {i} else seen,
                              s[used..][t.used..])
  {
    hide DecodeTag, Skip, Find, DecodeField, RequiredSeen, GoodField, TypedSlot;
    FindInside(fields, tag);
  }

  lemma FindInside(fields: seq<Field>, tag: nat)
    ensures Find(fields, tag).Some? ==> Find(fields, tag).value < |fields|
  {
  }

  /** A required field is marked, if it is among the first 64. */
  method MarkSeen(iter: FieldIter, fieldsSeen: Words, ghost seen: set<nat>) returns (r: Words)
    requires iter.Valid() && iter.pos < |iter.fields| && Agrees(iter.fields, fieldsSeen, seen)
    ensures Agrees(iter.fields, r, if iter.fields[iter.pos].htype.Required? then seen + {iter.pos} else seen)
  {
    hide Agrees, SetBit;
    r := fieldsSeen;
    if iter.fields[iter.pos].htype.Required? {
      SeesOne(iter.fields, fieldsSeen, seen, iter.pos);
      if iter.requiredFieldIndex < MAX_REQUIRED {
        r := SetBit(fieldsSeen, iter.requiredFieldIndex);
      }
    }
  }

  /** pb_decode_noinit */
  method DecodeNoInit(stream: IStream, fields: seq<Field>, initial: seq<Slot>) returns (r: Option<seq<Slot>>)
    requires stream.Valid() && GoodFields(fields) && Typed(fields, initial)
    modifies stream
    ensures stream.Valid() && stream.End() <= old(stream.End())
    ensures r == DecodeFields(fields, initial, {}, old(stream.Left()))
    ensures r.Some? ==> stream.End() == old(stream.End())
    decreases stream.bytesLeft, 0, 1
  {
    hide DecodeFields, DecodeField, DecodeTag, Skip, RequiredSeen, Agrees, SeenAt, Typed, GoodFields, RequiredBefore,
      Find;
    hide IStream.Took, IStream.Left, IStream.Valid, IStream.End;
    Looks(stream);
    var slots := initial;
    var fieldsSeen: Words := [NO_BITS, NO_BITS];
    ghost var seen: set<nat>, whole := {}, DecodeFields(fields, slots, {}, stream.Left());
    NoneSeen(fields);
    var iter := new FieldIter(fields);
    while stream.bytesLeft > 0
      invariant stream.Valid() && stream.End() == old(stream.End()) && stream.bytesLeft <= old(stream.bytesLeft)
      invariant iter.Valid() && iter.fields == fields
      invariant Typed(fields, slots) && whole == DecodeFields(fields, slots, seen, stream.Left())
      invariant Agrees(fields, fieldsSeen, seen)
      decreases stream.bytesLeft
    {
      Looks(stream);
      ghost var s, pos0, left0 := stream.Left(), stream.pos, stream.bytesLeft;
      var ok, wireType, tag, eof := DecodeTagOf(stream);
      if !ok {
        RoundEnds(fields, slots, seen, s);
        if eof {
          break;
        }
        return None;
      }
      ghost var used := DecodeTag(s).used;
      TookSome(stream, pos0, left0, s, used);
      var found := iter.Find(tag);
      if !found {
        FindNone(fields, tag);
        RoundSkips(fields, slots, seen, s, tag, wireType, used);
        ok := SkipField(stream, wireType);
        if !ok {
          return None;
        }
        TookSome(stream, pos0 + used, left0 - used, s[used..], Skip(wireType, s[used..]).value);
      } else {
        var i := iter.pos;
        FindPlace(fields, i);
        fieldsSeen := MarkSeen(iter, fieldsSeen, seen);
        RoundTakes(fields, slots, seen, s, tag, wireType, used, i);
        var slot := DecodeFieldFrom(stream, fields[i], slots[i], wireType);
        if slot == None {
          return None;
        }
        ghost var t := DecodeField(fields[i], slots[i], wireType, s[used..]).value;
        TookSome(stream, pos0 + used, left0 - used, s[used..], t.used);
        slots := slots[i := slot.value];
        seen := if fields[i].htype.Required? then seen + {i} else seen;
      }
    }
    Looks(stream);
    NothingLeft(fields, slots, seen);
    var all := CheckRequired(iter, fieldsSeen, seen);
    return if all then Some(slots) else None;
  }

  lemma NothingLeft(fields: seq<Field>, slots: seq<Slot>, seen: set<nat>)
    requires GoodFields(fields) && Typed(fields, slots)
    ensures DecodeFields(fields, slots, seen, []) == if RequiredSeen(fields, seen) then Some(slots) else None
  {
  }

  /** The end of pb_decode_noinit: round to the last field for the number of required ones,
      and then their bits. */
  method CheckRequired(iter: FieldIter, fieldsSeen: Words, ghost seen: set<nat>) returns (all: bool)
    requires iter.Valid() && Agrees(iter.fields, fieldsSeen, seen)
    modifies iter
    ensures all <==> RequiredSeen(iter.fields, seen)
  {
    hide Agrees, SeenAt, RequiredSeen, Bit;
    ghost var fields := iter.fields;
    SeenByBits(fields, fieldsSeen, seen);
    var reqFieldCount: nat, lastRequired, more := 0, false, true;
    while more
      invariant iter.Valid()
      invariant !more && fields != [] ==>
        reqFieldCount == RequiredBefore(fields, |fields| - 1) && lastRequired == fields[|fields| - 1].htype.Required?
      invariant !more && fields == [] ==> reqFieldCount == 0
      decreases more, |fields| - iter.pos
    {
      reqFieldCount := iter.requiredFieldIndex;
      lastRequired := iter.fields != [] && iter.fields[iter.pos].htype.Required?;
      more := iter.Next();
    }
    if lastRequired && iter.fields != [] {
      reqFieldCount := reqFieldCount + 1;
    }
    assert reqFieldCount == RequiredBefore(fields, |fields|);
    if reqFieldCount > MAX_REQUIRED {
      reqFieldCount := MAX_REQUIRED;
    }
    all := AllSeen(fieldsSeen, reqFieldCount);
  }

  /** pb_decode */
  method DecodeMessage(stream: IStream, fields: seq<Field>) returns (r: Option<seq<Slot>>)
    requires stream.Valid() && GoodFields(fields)
    modifies stream
    ensures stream.Valid() && stream.End() <= old(stream.End())
    ensures r == Decode(fields, old(stream.Left()))
    ensures r.Some? ==> stream.End() == old(stream.End())
    decreases stream.bytesLeft, 0, 2
  {
    hide DecodeFields;
    var slots := SetToDefaults(fields);
    DefaultsTyped(fields);
    r := DecodeNoInit(stream, fields, slots);
  }
}
