/** What nanopb's descriptor-driven encoder and decoder compute (pb_encode.c, pb_decode.c),
    for static fields: required, optional with a has_ flag, and counted repeated ones, of
    every scalar type, bytes and submessages.
 */
module PbMessages {
  import opened Coding
  import opened Comparator
  import opened Options
  import opened PbWire

  // ---- messages that match a descriptor ----

  predicate TypedValue(lt: LType, v: Value)
    decreases lt, 0
  {
    if lt.LSubmessage? then v.Msg? && Typed(lt.fields, v.slots) else TypedScalar(lt, v)
  }

  predicate TypedSlot(f: Field, slot: Slot)
    decreases f, 1
  {
    match f.htype
    case Required => slot.One? && TypedValue(f.ltype, slot.v)
    case Optional => slot.Maybe? && TypedValue(f.ltype, slot.v)
    case Repeated(_) => slot.Many? && forall i :: 0 <= i < |slot.vs| ==> TypedValue(f.ltype, slot.vs[i])
  }

  predicate Typed(fields: seq<Field>, slots: seq<Slot>)
    decreases fields, 2
  {
    |fields| == |slots| && forall i :: 0 <= i < |fields| ==> TypedSlot(fields[i], slots[i])
  }

  /** A descriptor the generator produces: distinct tags, and defaults of the right type. */
  predicate GoodField(f: Field)
    decreases f, 1
  {
    && 0 < f.tag < 0x2000_0000
    && match f.ltype
       case LSubmessage(fields) => GoodFields(fields)
       case LBytes(_) => true
       case _ => TypedScalar(f.ltype, Num(f.default))
  }

  predicate GoodFields(fields: seq<Field>)
    decreases fields, 2
  {
    && (forall i :: 0 <= i < |fields| ==> GoodField(fields[i]))
    && forall i, j :: 0 <= i < j < |fields| ==> fields[i].tag != fields[j].tag
  }

  // ---- pb_message_set_to_defaults ----

  function DefaultValue(lt: LType, default: int): Value
    decreases lt, 0
  {
    match lt
    case LSubmessage(fields) => Msg(Defaults(fields))
    case LBytes(_) => Raw([])
    case _ => Num(default)
  }

  function DefaultSlot(f: Field): Slot
    decreases f, 1
  {
    match f.htype
    case Required => One(DefaultValue(f.ltype, f.default))
    case Optional => Maybe(false, DefaultValue(f.ltype, f.default))
    case Repeated(_) => Many([])
  }

  function Defaults(fields: seq<Field>): (slots: seq<Slot>)
    ensures |slots| == |fields|
    decreases fields, 2
  {
    seq(|fields|, i requires 0 <= i < |fields| => DefaultSlot(fields[i]))
  }

  lemma {:induction false} DefaultsTyped(fields: seq<Field>)
    requires GoodFields(fields)
    ensures Typed(fields, Defaults(fields))
    decreases fields, 2
  {
    forall i | 0 <= i < |fields|
      ensures TypedSlot(fields[i], DefaultSlot(fields[i]))
    {
      DefaultTyped(fields[i]);
    }
  }

  lemma {:induction false} DefaultTyped(f: Field)
    requires GoodField(f)
    ensures TypedValue(f.ltype, DefaultValue(f.ltype, f.default)) && TypedSlot(f, DefaultSlot(f))
    decreases f, 1
  {
    if f.ltype.LSubmessage? {
      DefaultsTyped(f.ltype.fields);
    }
  }

  // ---- encoding ----

  function TagBytes(tag: nat, wt: nat): (s: Bytes)
    ensures |s| > 0
  {
    Varint(tag * 8 + wt)
  }

  function Then(a: Option<Bytes>, b: Option<Bytes>): Option<Bytes> {
    if a.Some? && b.Some? then Some(a.value + b.value) else None
  }

  function EncodeValue(lt: LType, v: Value): (r: Option<Bytes>)
    requires TypedValue(lt, v)
    ensures r.Some? ==> |r.value| > 0
    decreases lt, 0
  {
    if lt.LSubmessage? then
      match EncodeFields(lt.fields, v.slots)
      case None => None
      case Some(b) => Some(Delimited(b))
    else EncodeScalar(lt, v)
  }

  /** The values one after the other, as a packed array holds them. */
  function EncodePacked(lt: LType, vs: seq<Value>): Option<Bytes>
    requires !lt.LSubmessage? && forall i :: 0 <= i < |vs| ==> TypedValue(lt, vs[i])
  {
    if vs == [] then Some([])
    else
      assert TypedValue(lt, vs[0]);
      Then(EncodeScalar(lt, vs[0]), EncodePacked(lt, vs[1..]))
  }

  /** Each value under a tag of its own. */
  function EncodeEach(f: Field, vs: seq<Value>): Option<Bytes>
    requires forall i :: 0 <= i < |vs| ==> TypedValue(f.ltype, vs[i])
    decreases f, 0, |vs|
  {
    if vs == [] then Some([])
    else Then(Then(Some(TagBytes(f.tag, WireType(f.ltype))), EncodeValue(f.ltype, vs[0])), EncodeEach(f, vs[1..]))
  }

  function EncodeField(f: Field, slot: Slot): Option<Bytes>
    requires TypedSlot(f, slot)
    decreases f, 1
  {
    match f.htype
    case Required => Then(Some(TagBytes(f.tag, WireType(f.ltype))), EncodeValue(f.ltype, slot.v))
    case Optional =>
      if slot.has then Then(Some(TagBytes(f.tag, WireType(f.ltype))), EncodeValue(f.ltype, slot.v)) else Some([])
    case Repeated(arraySize) =>
      if slot.vs == [] then Some([])
      else if |slot.vs| > arraySize then None
      else if Packable(f.ltype) then
        match EncodePacked(f.ltype, slot.vs)
        case None => None
        case Some(b) => Some(TagBytes(f.tag, WT_STRING) + Delimited(b))
      else EncodeEach(f, slot.vs)
  }

  /** pb_encode */
  function EncodeFields(fields: seq<Field>, slots: seq<Slot>): Option<Bytes>
    requires Typed(fields, slots)
    decreases fields, 2
  {
    if fields == [] then Some([])
    else Then(EncodeField(fields[0], slots[0]), EncodeFields(fields[1..], slots[1..]))
  }

  // ---- decoding ----

  /** pb_decode_tag: zero ends the message early. */
  datatype TagRead = BadTag | EndTag | Tag(tag: nat, wireType: nat, used: nat)

  function DecodeTag(s: Bytes): (r: TagRead)
    ensures r.Tag? ==> 0 < r.used <= |s|
  {
    match Varint32(s)
    case None => BadTag
    case Some(p) => if p.value == 0 then EndTag else Tag(p.value / 8, p.value % 8, p.used)
  }

  /** pb_skip_varint */
  function SkipVarint(s: Bytes): (r: Option<nat>)
    ensures r.Some? ==> 0 < r.value <= |s|
  {
    if s == [] then None
    else if s[0] < 128 then Some(1)
    else
      match SkipVarint(s[1..])
      case None => None
      case Some(k) => Some(k + 1)
  }

  /** pb_skip_field */
  function Skip(wireType: nat, s: Bytes): (r: Option<nat>)
    ensures r.Some? ==> r.value <= |s|
  {
    if wireType == WT_VARINT then SkipVarint(s)
    else if wireType == WT_64BIT then (if |s| >= 8 then Some(8) else None)
    else if wireType == WT_32BIT then (if |s| >= 4 then Some(4) else None)
    else if wireType == WT_STRING then
      match Varint32(s)
      case None => None
      case Some(p) => if |s| - p.used >= p.value then Some(p.used + p.value) else None
    else None
  }

  /** The place of the field with this tag. */
  function Find(fields: seq<Field>, tag: nat): (r: Option<nat>)
    ensures match r
            case Some(i) => i < |fields| && fields[i].tag == tag
            case None => forall i :: 0 <= i < |fields| ==> fields[i].tag != tag
  {
    if fields == [] then None
    else if fields[0].tag == tag then Some(0)
    else
      match Find(fields[1..], tag)
      case None => None
      case Some(i) => Some(i + 1)
  }

  /** PB_MAX_REQUIRED_FIELDS */
  const MAX_REQUIRED: nat := 64

  /** How many of the first n fields are required. */
  function RequiredBefore(fields: seq<Field>, n: nat): (k: nat)
    requires n <= |fields|
    ensures k <= n
  {
    if n == 0 then 0 else RequiredBefore(fields, n - 1) + (if fields[n - 1].htype.Required? then 1 else 0)
  }

  /** The first 64 required fields have all been seen; later ones are not looked at. */
  predicate RequiredSeen(fields: seq<Field>, seen: set<nat>) {
    forall i :: 0 <= i < |fields| && fields[i].htype.Required? && RequiredBefore(fields, i) < MAX_REQUIRED ==> i in seen
  }

  datatype Taken = Taken(slot: Slot, used: nat)

  function DecodeValue(lt: LType, current: Value, s: Bytes): (r: Option<Got>)
    requires TypedValue(lt, current) && (lt.LSubmessage? ==> GoodFields(lt.fields))
    ensures r.Some? ==> 0 < r.value.used <= |s| && TypedValue(lt, r.value.v)
    decreases |s|, 1, 0
  {
    if !lt.LSubmessage? then DecodeScalar(lt, s)
    else
      match Varint32(s)
      case None => None
      case Some(p) =>
        if |s| - p.used < p.value then None
        else
          match DecodeFields(lt.fields, current.slots, {}, s[p.used..p.used + p.value])
          case None => None
          case Some(slots) => Some(Got(Msg(slots), p.used + p.value))
  }

  /** A packed array: values until the bytes or the places run out, and then no bytes may
      be left. */
  function DecodePacked(lt: LType, arraySize: nat, vs: seq<Value>, s: Bytes): (r: Option<seq<Value>>)
    requires !lt.LSubmessage? && forall i :: 0 <= i < |vs| ==> TypedValue(lt, vs[i])
    ensures r.Some? ==> forall i :: 0 <= i < |r.value| ==> TypedValue(lt, r.value[i])
    decreases |s|, 1, 0
  {
    if s == [] then Some(vs)
    else if |vs| >= arraySize then None
    else
      match DecodeScalar(lt, s)
      case None => None
      case Some(got) => DecodePacked(lt, arraySize, vs + [got.v], s[got.used..])
  }

  /** decode_static_field.  A new array entry starts from defaults, any other submessage
      from what is there. */
  function DecodeField(f: Field, slot: Slot, wireType: nat, s: Bytes): (r: Option<Taken>)
    requires GoodField(f) && TypedSlot(f, slot)
    ensures r.Some? ==> r.value.used <= |s| && TypedSlot(f, r.value.slot)
    decreases |s|, 2, 0
  {
    match f.htype
    case Required =>
      (match DecodeValue(f.ltype, slot.v, s)
       case None => None
       case Some(got) => Some(Taken(One(got.v), got.used)))
    case Optional =>
      (match DecodeValue(f.ltype, slot.v, s)
       case None => None
       case Some(got) => Some(Taken(Maybe(true, got.v), got.used)))
    case Repeated(arraySize) =>
      if wireType == WT_STRING && Packable(f.ltype) then
        match Varint32(s)
        case None => None
        case Some(p) =>
          if |s| - p.used < p.value then None
          else
            match DecodePacked(f.ltype, arraySize, slot.vs, s[p.used..p.used + p.value])
            case None => None
            case Some(vs) => Some(Taken(Many(vs), p.used + p.value))
      else if |slot.vs| >= arraySize then None
      else
        DefaultTyped(f);
        match DecodeValue(f.ltype, DefaultValue(f.ltype, f.default), s)
        case None => None
        case Some(got) => Some(Taken(Many(slot.vs + [got.v]), got.used))
  }

  /** pb_decode_noinit: field by field, in whatever order they come. */
  function DecodeFields(fields: seq<Field>, slots: seq<Slot>, seen: set<nat>, s: Bytes): (r: Option<seq<Slot>>)
    requires GoodFields(fields) && Typed(fields, slots)
    ensures r.Some? ==> Typed(fields, r.value)
    decreases |s|, 0, 0
  {
    if s == [] then (if RequiredSeen(fields, seen) then Some(slots) else None)
    else
      match DecodeTag(s)
      case BadTag => None
      case EndTag => if RequiredSeen(fields, seen) then Some(slots) else None
      case Tag(tag, wireType, used) =>
        match Find(fields, tag)
        case None =>
          (match Skip(wireType, s[used..])
           case None => None
           case Some(k) => DecodeFields(fields, slots, seen, s[used..][k..]))
        case Some(i) =>
          match DecodeField(fields[i], slots[i], wireType, s[used..])
          case None => None
          case Some(t) =>
            DecodeFields(fields, slots[i := t.slot], if fields[i].htype.Required? then seen + {i} else seen,
                         s[used..][t.used..])
  }

  /** pb_decode */
  function Decode(fields: seq<Field>, s: Bytes): Option<seq<Slot>>
    requires GoodFields(fields)
  {
    DefaultsTyped(fields);
    DecodeFields(fields, Defaults(fields), {}, s)
  }
}
