/** nanopb's two directions together. */
module PbCodec {
  import opened Comparator
  import opened Options
  import opened PbDecode
  import opened PbEncode
  import opened PbLimits
  import opened PbMessages
  import opened PbRoundTrip
  import opened PbWire

  /** pb_encode into a buffer and pb_decode from it: a message comes back exactly when it is
      within its fields' bounds, the buffer has room and its inner lengths fit in 32 bits. */
  method EncodeThenDecode(fields: seq<Field>, m: seq<Slot>, bufferSize: nat) returns (r: Option<seq<Slot>>)
    requires GoodFields(fields) && Typed(fields, m) && bufferSize < MAX63
    ensures EncodeFields(fields, m).Some? <==> InBounds(fields, m)
    ensures r.Some? <==> InBounds(fields, m) && |EncodeFields(fields, m).value| <= bufferSize && LengthsFit(fields, m)
    ensures r.Some? ==> r.value == Tidy(fields, m)
  {
    hide EncodeFields, Decode, InBounds, Typed, GoodFields, Tidy, LengthsFit;
    Encodes(fields, m);
    var stream := new OStream(true, bufferSize, []);
    var ok := Encode(stream, fields, m);
    if !ok {
      return None;
    }
    RoundTripIff(fields, m);
    assert [] + EncodeFields(fields, m).value == EncodeFields(fields, m).value;
    var written := new IStream(stream.data, 0, |stream.data|);
    assert written.Left() == stream.data;
    r := DecodeMessage(written, fields);
  }
}
