/** The bytes of a table file (table/format.cc, db/dbformat.cc): internal keys, handles of
    blocks, blocks with their trailers, and the footer.
 */
module TableFormats {
  import opened Blocks
  import opened Coding
  import opened Comparator
  import opened Dbformat
  import opened Options
  import BI = BlockIters
  import LF = LogFormat

  // ---- internal keys as bytes ----

  /** AppendInternalKey */
  function EncodeKey(k: InternalKey): (s: Bytes)
    ensures |s| == |k.user| + 8
  {
    k.user + Fixed(Tag(k), 8)
  }

  function UserPart(s: Bytes): Bytes
    requires |s| >= 8
  {
    s[..|s| - 8]
  }

  function TagPart(s: Bytes): nat
    requires |s| >= 8
  {
    Unfixed(s[|s| - 8..])
  }

  /** InternalKeyComparator::Compare on bytes.  The source asserts that keys have at least 8. */
  function InternalCompare(a: Bytes, b: Bytes): int {
    if a == b then 0
    else if |a| < 8 || |b| < 8 then
      if |a| >= 8 then 1 else if |b| >= 8 then -1 else if Less(a, b) then -1 else 1
    else if Less(UserPart(a), UserPart(b)) then -1
    else if Less(UserPart(b), UserPart(a)) then 1
    else if TagPart(a) > TagPart(b) then -1 else 1
  }

  lemma {:induction false} UnfixedInjective(a: Bytes, b: Bytes)
    requires |a| == |b| && Unfixed(a) == Unfixed(b)
    ensures a == b
  {
    if a != [] {
      assert a[0] == b[0];
      UnfixedInjective(a[1..], b[1..]);
      assert a == [a[0]] + a[1..] && b == [b[0]] + b[1..];
    }
  }

  lemma SameParts(a: Bytes, b: Bytes)
    requires |a| >= 8 && |b| >= 8 && UserPart(a) == UserPart(b) && TagPart(a) == TagPart(b)
    ensures a == b
  {
    UnfixedInjective(a[|a| - 8..], b[|b| - 8..]);
    assert a == UserPart(a) + a[|a| - 8..] && b == UserPart(b) + b[|b| - 8..];
  }

  lemma CompareTwo(a: Bytes, b: Bytes)
    ensures InternalCompare(a, b) == 0 <==> a == b
    ensures InternalCompare(a, b) < 0 <==> InternalCompare(b, a) > 0
  {
    hide TagPart, UserPart, Less;
    var rank, unrank := OrderByRank();
    if a != b && |a| >= 8 && |b| >= 8 {
      assert rank(UserPart(a)) == rank(UserPart(b)) ==> unrank(rank(UserPart(a))) == unrank(rank(UserPart(b)));
      if UserPart(a) == UserPart(b) && TagPart(a) == TagPart(b) {
        SameParts(a, b);
      }
    } else if a != b {
      assert rank(a) == rank(b) ==> unrank(rank(a)) == unrank(rank(b));
    }
  }

  lemma CompareThree(a: Bytes, b: Bytes, c: Bytes)
    requires InternalCompare(a, b) < 0 && InternalCompare(b, c) < 0
    ensures InternalCompare(a, c) < 0
  {
    hide TagPart, UserPart, Less;
    var rank, unrank := OrderByRank();
    CompareTwo(a, c);
    CompareTwo(b, a);
  }

  lemma CompareIsLawful()
    ensures BI.Lawful(InternalCompare)
  {
    hide InternalCompare;
    forall a, b
      ensures (InternalCompare(a, b) == 0 <==> a == b) && (InternalCompare(a, b) < 0 <==> InternalCompare(b, a) > 0)
    {
      CompareTwo(a, b);
    }
    forall a, b, c | InternalCompare(a, b) < 0 && InternalCompare(b, c) < 0
      ensures InternalCompare(a, c) < 0
    {
      CompareThree(a, b, c);
    }
  }

  lemma KeyParts(k: InternalKey)
    ensures UserPart(EncodeKey(k)) == k.user && TagPart(EncodeKey(k)) == Tag(k)
  {
    hide Fixed, Unfixed;
    assert Tag(k) < MAX64;
    Fixed64RoundTrip(Tag(k));
    assert EncodeKey(k)[|k.user|..] == Fixed(Tag(k), 8);
  }

  /** The eight bytes after the user key: 1 for a value or 0 for a deletion, then seven of the
      sequence number. */
  lemma KeyBytes(k: InternalKey)
    ensures EncodeKey(k) == k.user + ([if k.kind == TypeValue then 1 else 0] + Fixed(k.seqno, 7))
  {
    hide Less;
    assert Tag(k) / 256 == k.seqno && Tag(k) % 256 == if k.kind == TypeValue then 1 else 0;
  }

  /** The byte order of encoded keys is the order of internal keys. */
  lemma CompareEncoded(a: InternalKey, b: InternalKey)
    ensures InternalCompare(EncodeKey(a), EncodeKey(b)) < 0 <==> Before(a, b)
    ensures EncodeKey(a) == EncodeKey(b) <==> a == b
  {
    hide EncodeKey, UserPart, TagPart, Less;
    KeyParts(a);
    KeyParts(b);
    LessIsStrict(a.user, b.user);
    InternalOrder(a, b, b);
    KeyLength(a);
    KeyLength(b);
  }

  lemma KeyLength(k: InternalKey)
    ensures |EncodeKey(k)| >= 8
  {
  }

  /** The entries of a block as the block builder gets them. */
  function KVs(es: seq<Entry>): (s: seq<KV>)
    ensures |s| == |es| && forall i :: 0 <= i < |es| ==> s[i] == KV(EncodeKey(es[i].key), es[i].value)
  {
    seq(|es|, i requires 0 <= i < |es| => KV(EncodeKey(es[i].key), es[i].value))
  }

  lemma KVsIncrease(es: seq<Entry>)
    requires Sorted(es)
    ensures BI.Increasing(InternalCompare, KVs(es))
  {
    hide InternalCompare, EncodeKey, Before;
    forall i, j | 0 <= i < j < |es|
      ensures InternalCompare(KVs(es)[i].key, KVs(es)[j].key) < 0
    {
      CompareEncoded(es[i].key, es[j].key);
    }
  }

  // ---- handles ----

  datatype BlockHandle = BlockHandle(offset: nat, size: nat)

  predicate HandleFits(h: BlockHandle) {
    h.offset < MAX64 && h.size < MAX64
  }

  /** BlockHandle::EncodeTo */
  function EncodeHandle(h: BlockHandle): Bytes {
    Varint(h.offset) + Varint(h.size)
  }

  datatype HandleCut = HandleCut(handle: BlockHandle, rest: Bytes)

  /** BlockHandle::DecodeFrom */
  function TakeHandle(s: Bytes): Option<HandleCut> {
    match Unvarint(s, 10)
    case None => None
    case Some(a) =>
      match Unvarint(s[a.used..], 10)
      case None => None
      case Some(b) => Some(HandleCut(BlockHandle(a.value % MAX64, b.value % MAX64), s[a.used..][b.used..]))
  }

  lemma HandleRoundTrip(h: BlockHandle, rest: Bytes)
    requires HandleFits(h)
    ensures TakeHandle(EncodeHandle(h) + rest) == Some(HandleCut(h, rest))
    ensures |EncodeHandle(h)| <= 20
  {
    hide Varint, Unvarint;
    Varint64Length(h.offset);
    Varint64Length(h.size);
    var a, b := Varint(h.offset), Varint(h.size);
    assert EncodeHandle(h) + rest == a + (b + rest);
    VarintRoundTrip(h.offset, 10, b + rest);
    VarintRoundTrip(h.size, 10, rest);
    assert (a + (b + rest))[|a|..] == b + rest;
    assert (b + rest)[|b|..] == rest;
  }

  // ---- blocks in the file ----

  /** kBlockTrailerSize */
  const TRAILER: nat := 5

  const NO_COMPRESSION: Byte := 0
  const SNAPPY: Byte := 1

  /** What the blocks of a file depend on: the checksum function and Snappy, which may not be
      there. */
  datatype Codec = Codec(extend: LF.Checksum, compress: Bytes -> Option<Bytes>, uncompress: Bytes -> Option<Bytes>)

  ghost predicate GoodCodec(c: Codec) {
    && LF.Lawful(c.extend)
    && forall s :: c.compress(s).Some? ==> c.uncompress(c.compress(s).value) == Some(s)
  }

  datatype Stored = Stored(data: Bytes, kind: Byte)

  /** TableBuilder::WriteBlock: compressed if that saves more than an eighth. */
  function Store(c: Codec, raw: Bytes): Stored {
    var r := c.compress(raw);
    if r.Some? && |r.value| < |raw| - |raw| / 8 then Stored(r.value, SNAPPY) else Stored(raw, NO_COMPRESSION)
  }

  /** The contents a stored block stands for. */
  function Unstore(c: Codec, s: Stored): Option<Bytes> {
    if s.kind == NO_COMPRESSION then Some(s.data) else if s.kind == SNAPPY then c.uncompress(s.data) else None
  }

  lemma StoreRoundTrip(c: Codec, raw: Bytes)
    requires GoodCodec(c)
    ensures Unstore(c, Store(c, raw)) == Some(raw)
  {
  }

  /** A block and its trailer: the type, and a checksum of both. */
  function Framed(c: Codec, s: Stored): (r: Bytes)
    ensures |r| == |s.data| + TRAILER
  {
    s.data + ([s.kind] + Fixed(LF.Mask(c.extend(0, s.data + [s.kind]) % MAX32), 4))
  }

  /** The trailer: 0 for a block as it is, 1 for one that Snappy made at least an eighth smaller, and
      the masked checksum of the block and that byte. */
  lemma TrailerBytes(c: Codec, raw: Bytes)
    requires LF.Lawful(c.extend)
    ensures var small := c.compress(raw);
            var s := if small.Some? && |small.value| < |raw| - |raw| / 8 then small.value + [1] else raw + [0];
            Framed(c, Store(c, raw)) == s + Fixed(LF.Mask(c.extend(0, s)), 4)
  {
    hide LF.Mask, Fixed;
    var st := Store(c, raw);
    assert c.extend(0, st.data + [st.kind]) < MAX32;
    assert st.data + ([st.kind] + Fixed(LF.Mask(c.extend(0, st.data + [st.kind])), 4))
           == st.data + [st.kind] + Fixed(LF.Mask(c.extend(0, st.data + [st.kind])), 4);
  }

  ghost predicate InFile(c: Codec, file: Bytes, h: BlockHandle, raw: Bytes) {
    exists s :: StoredAt(c, file, h, s, raw)
  }

  ghost predicate StoredAt(c: Codec, file: Bytes, h: BlockHandle, s: Stored, raw: Bytes) {
    && h.offset + h.size + TRAILER <= |file| && h.size == |s.data|
    && file[h.offset..h.offset + h.size + TRAILER] == Framed(c, s)
    && Unstore(c, s) == Some(raw)
  }

  /** What is in the file stays there when more is appended. */
  lemma StaysInFile(c: Codec, file: Bytes, file': Bytes, h: BlockHandle, raw: Bytes)
    requires InFile(c, file, h, raw) && file <= file'
    ensures InFile(c, file', h, raw)
  {
    hide Framed, Unstore;
    var s :| StoredAt(c, file, h, s, raw);
    var a, b := h.offset, h.offset + h.size + TRAILER;
    assert file'[a..b] == file[a..b];
    assert StoredAt(c, file', h, s, raw);
  }

  lemma NowInFile(c: Codec, file: Bytes, s: Stored, raw: Bytes)
    requires Unstore(c, s) == Some(raw)
    ensures InFile(c, file + Framed(c, s), BlockHandle(|file|, |s.data|), raw)
  {
    hide Framed, Unstore;
    FramedSize(c, s);
    var all := file + Framed(c, s);
    assert all[|file|..|all|] == Framed(c, s);
    assert StoredAt(c, all, BlockHandle(|file|, |s.data|), s, raw);
  }

  lemma FramedSize(c: Codec, s: Stored)
    ensures |Framed(c, s)| == |s.data| + TRAILER
  {
  }

  /** ReadBlock: a short read, a bad type or bad compressed data are errors, and so is, if it is to be
      verified, a checksum other than the one that goes with the block and its type. */
  method ReadBlock(c: Codec, verify: bool, file: Bytes, h: BlockHandle) returns (r: Option<Bytes>)
    ensures forall raw {:trigger InFile(c, file, h, raw)} ::
              LF.Lawful(c.extend) && InFile(c, file, h, raw) ==> r == Some(raw)
    ensures h.offset + h.size + 5 > |file| ==> r == None
    ensures LF.Lawful(c.extend) && h.offset + h.size + 5 <= |file| ==>
              var n, stored := h.size, file[h.offset..h.offset + h.size + 5];
              r == if verify && stored[n + 1..] != Fixed(LF.Mask(c.extend(0, stored[..n + 1])), 4) then None
                   else if stored[n] == 0 then Some(stored[..n])
                   else if stored[n] == 1 then c.uncompress(stored[..n]) else None
  {
    hide LF.Lawful, LF.Unmask, LF.Mask, Unfixed, Fixed, InFile, Unstore;
    var n := h.size;
    var end := h.offset + n + TRAILER;
    var contents := if h.offset > |file| then [] else if end <= |file| then file[h.offset..end] else file[h.offset..];
    if |contents| != n + TRAILER {
      FileTooShort(c, file, h);
      return None;
    }
    var s := Stored(contents[..n], contents[n]);
    forall raw | LF.Lawful(c.extend) && InFile(c, file, h, raw)
      ensures Unfixed(contents[n + 1..]) < MAX32
              && LF.Unmask(Unfixed(contents[n + 1..])) == c.extend(0, contents[..n + 1])
      ensures Unstore(c, s) == Some(raw)
    {
      TrailerChecks(c, file, h, raw);
    }
    StoredKinds(c, s);
    if verify {
      FourByteBound(contents[n + 1..]);
      SumIsRight(c, contents[..n + 1], contents[n + 1..]);
      var crc := LF.Unmask(Unfixed(contents[n + 1..]));
      if c.extend(0, contents[..n + 1]) != crc {
        return None;
      }
    }
    r := Unstore(c, s);
  }

  lemma StoredKinds(c: Codec, s: Stored)
    ensures Unstore(c, s) == if s.kind == 0 then Some(s.data) else if s.kind == 1 then c.uncompress(s.data) else None
  {
  }

  lemma SumIsRight(c: Codec, s: Bytes, sum: Bytes)
    requires |sum| == 4
    ensures Unfixed(sum) < MAX32
    ensures LF.Lawful(c.extend) ==>
              c.extend(0, s) < MAX32
              && (LF.Unmask(Unfixed(sum)) == c.extend(0, s) <==> sum == Fixed(LF.Mask(c.extend(0, s)), 4))
  {
    hide LF.Mask, LF.Unmask, Unfixed, Fixed;
    FourByteBound(sum);
    if LF.Lawful(c.extend) {
      assert c.extend(0, s) < MAX32;
      LF.SumFits(sum, c.extend(0, s));
    }
  }

  lemma FileTooShort(c: Codec, file: Bytes, h: BlockHandle)
    ensures forall raw {:trigger InFile(c, file, h, raw)} ::
              InFile(c, file, h, raw) ==> h.offset + h.size + TRAILER <= |file|
  {
    hide Framed, Unstore;
  }

  lemma TrailerChecks(c: Codec, file: Bytes, h: BlockHandle, raw: Bytes)
    requires LF.Lawful(c.extend) && InFile(c, file, h, raw)
    ensures h.offset + h.size + TRAILER <= |file|
    ensures var contents, n := file[h.offset..h.offset + h.size + TRAILER], h.size;
            && Unfixed(contents[n + 1..]) < MAX32
            && LF.Unmask(Unfixed(contents[n + 1..])) == c.extend(0, contents[..n + 1])
            && Unstore(c, Stored(contents[..n], contents[n])) == Some(raw)
  {
    hide LF.Mask, LF.Unmask, Unfixed, Fixed, Unstore;
    var s :| StoredAt(c, file, h, s, raw);
    var crc := c.extend(0, s.data + [s.kind]);
    var sum := Fixed(LF.Mask(crc), 4);
    FourBytes(LF.Mask(crc));
    var contents := s.data + ([s.kind] + sum);
    assert c.extend(0, s.data + [s.kind]) < MAX32;
    assert Framed(c, s) == contents;
    assert contents[..|s.data|] == s.data && contents[|s.data|] == s.kind;
    assert contents[..|s.data| + 1] == s.data + [s.kind] && contents[|s.data| + 1..] == sum;
    MaskBound(crc);
    Fixed32RoundTrip(LF.Mask(crc));
    LF.UnmaskMask(crc);
  }

  lemma FourBytes(v: nat)
    ensures |Fixed(v, 4)| == 4
  {
  }

  lemma MaskBound(crc: nat)
    requires crc < MAX32
    ensures LF.Mask(crc) < MAX32
  {
  }

  // ---- the footer ----

  /** kTableMagicNumber and Footer::kEncodedLength */
  const MAGIC: nat := 0xdb4775248b80fb57
  const FOOTER: nat := 48

  datatype Footer = Footer(metaindex: BlockHandle, index: BlockHandle)

  /** Footer::EncodeTo: the handles, padded, then the magic number in two halves. */
  function EncodeFooter(f: Footer): Bytes {
    var handles := EncodeHandle(f.metaindex) + EncodeHandle(f.index);
    var padding := LF.Zeros(if |handles| <= 40 then 40 - |handles| else 0);
    handles + padding + Fixed(MAGIC % MAX32, 4) + Fixed(MAGIC / MAX32, 4)
  }

  /** Footer::DecodeFrom */
  function DecodeFooter(s: Bytes): Option<Footer>
    requires |s| == FOOTER
  {
    if Unfixed(s[44..]) * MAX32 + Unfixed(s[40..44]) != MAGIC then None
    else
      match TakeHandle(s)
      case None => None
      case Some(meta) =>
        match TakeHandle(meta.rest)
        case None => None
        case Some(index) => Some(Footer(meta.handle, index.handle))
  }

  /** All of a footer: four varints, zeros up to the fortieth byte, and the magic number. */
  lemma FooterBytes(f: Footer)
    requires HandleFits(f.metaindex) && HandleFits(f.index)
    ensures var handles := Varint(f.metaindex.offset) + Varint(f.metaindex.size)
                           + (Varint(f.index.offset) + Varint(f.index.size));
            && |handles| <= 40
            && EncodeFooter(f) == handles + seq(40 - |handles|, _ => 0 as Byte)
                                  + [0x57, 0xfb, 0x80, 0x8b, 0x24, 0x75, 0x47, 0xdb]
  {
    hide Varint, Fixed;
    HandleRoundTrip(f.metaindex, []);
    HandleRoundTrip(f.index, []);
    FixedBytes(0x8b80fb57);
    FixedBytes(0xdb477524);
    assert MAGIC % MAX32 == 0x8b80fb57 && MAGIC / MAX32 == 0xdb477524;
    var handles := EncodeHandle(f.metaindex) + EncodeHandle(f.index);
    assert LF.Zeros(40 - |handles|) == seq(40 - |handles|, _ => 0 as Byte);
    assert Fixed(0x8b80fb57, 4) + Fixed(0xdb477524, 4) == [0x57, 0xfb, 0x80, 0x8b, 0x24, 0x75, 0x47, 0xdb];
  }

  /** Any other last eight bytes are refused. */
  lemma FooterMagic(s: Bytes)
    requires |s| == 48
    ensures DecodeFooter(s).Some? ==> s[40..] == [0x57, 0xfb, 0x80, 0x8b, 0x24, 0x75, 0x47, 0xdb]
  {
    hide Fixed, Unfixed, TakeHandle;
    var low, high := s[40..44], s[44..];
    UnfixedFixed(low);
    UnfixedFixed(high);
    FourByteBound(low);
    FourByteBound(high);
    FixedBytes(0x8b80fb57);
    FixedBytes(0xdb477524);
    assert s[40..] == low + high;
  }

  lemma FooterRoundTrip(f: Footer)
    requires HandleFits(f.metaindex) && HandleFits(f.index)
    ensures |EncodeFooter(f)| == FOOTER && DecodeFooter(EncodeFooter(f)) == Some(f)
  {
    hide EncodeHandle, TakeHandle, Fixed, Unfixed;
    HandleRoundTrip(f.metaindex, []);
    HandleRoundTrip(f.index, []);
    var a, b := EncodeHandle(f.metaindex), EncodeHandle(f.index);
    var pad := LF.Zeros(40 - |a| - |b|);
    var lo, hi := Fixed(MAGIC % MAX32, 4), Fixed(MAGIC / MAX32, 4);
    FourBytes(MAGIC % MAX32);
    FourBytes(MAGIC / MAX32);
    Fixed32RoundTrip(MAGIC % MAX32);
    Fixed32RoundTrip(MAGIC / MAX32);
    var s := EncodeFooter(f);
    assert s == a + b + pad + lo + hi;
    assert s[40..44] == lo && s[44..] == hi;
    assert s == a + (b + (pad + lo + hi));
    HandleRoundTrip(f.metaindex, b + (pad + lo + hi));
    HandleRoundTrip(f.index, pad + lo + hi);
  }
}
