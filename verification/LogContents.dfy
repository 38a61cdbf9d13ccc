/** What a log file says (db/log_reader.cc), whatever bytes it holds: the records a reader
    finds and the corruption it reports on the way.
 */
module LogContents {
  import opened Coding
  import opened Comparator
  import opened LogFormat
  import opened Options

  /** kEof and kBadRecord, beyond the record types */
  const EOF: nat := 5
  const BAD_RECORD: nat := 6

  // ---- physical records ----

  /** A type or what it stands for, the payload, where the reader is afterwards, and the
      sizes it has reported as lost. */
  datatype Piece = Piece(kind: nat, payload: Bytes, next: nat, lost: seq<nat>)

  function BlockEnd(p: nat): (e: nat)
    ensures p < e <= p + BLOCK && e - p == BLOCK - InBlock(p)
  {
    p - InBlock(p) + BLOCK
  }

  /** How far the block that p lies in goes in the file. */
  function BufferEnd(file: Bytes, p: nat): (e: nat)
    requires p <= |file|
    ensures p <= e <= |file|
  {
    if BlockEnd(p) <= |file| then BlockEnd(p) else |file|
  }

  /** Where the next header can be: a whole block's last few bytes are skipped. */
  function Start(file: Bytes, p: nat): (q: nat)
    requires p <= |file|
    ensures p <= q <= |file|
  {
    if BlockEnd(p) <= |file| && BlockEnd(p) - p < HEADER_SIZE then BlockEnd(p) else p
  }

  function StoredLength(file: Bytes, q: nat): nat
    requires q + HEADER_SIZE <= |file|
  {
    file[q + 4] as int + 256 * file[q + 5] as int
  }

  function ChecksumFits(extend: Checksum, file: Bytes, q: nat, length: nat): bool
    requires q + HEADER_SIZE + length <= |file|
  {
    StoredBound(file, q);
    extend(0, file[q + 6..q + HEADER_SIZE + length]) == Unmask(Unfixed(file[q..q + 4]))
  }

  /** The header at q, in a buffer that goes on to `end`. */
  function PieceAt(extend: Checksum, checksum: bool, file: Bytes, q: nat, end: nat, eof: bool): (r: Piece)
    requires q + HEADER_SIZE <= end <= |file|
    ensures r.kind != EOF ==> q < r.next
    ensures r.next <= |file|
  {
    var length, t := StoredLength(file, q), file[q + 6];
    if HEADER_SIZE + length > end - q then
      if eof then Piece(EOF, [], |file|, []) else Piece(BAD_RECORD, [], end, [end - q])
    else if t == ZERO_TYPE && length == 0 then Piece(BAD_RECORD, [], end, [])
    else if checksum && !ChecksumFits(extend, file, q, length) then Piece(BAD_RECORD, [], end, [end - q])
    else Piece(t, file[q + HEADER_SIZE..q + HEADER_SIZE + length], q + HEADER_SIZE + length, [])
  }

  /** ReadPhysicalRecord, standing at p. */
  function NextPiece(extend: Checksum, checksum: bool, file: Bytes, p: nat): (r: Piece)
    requires p <= |file|
    ensures r.kind != EOF ==> p < r.next
    ensures r.next <= |file|
  {
    var q := Start(file, p);
    var end := BufferEnd(file, q);
    if end - q < HEADER_SIZE then Piece(EOF, [], |file|, [])
    else PieceAt(extend, checksum, file, q, end, BlockEnd(q) > |file|)
  }

  lemma StoredBound(file: Bytes, q: nat)
    requires q + 4 <= |file|
    ensures Unfixed(file[q..q + 4]) < MAX32
  {
    hide Unfixed;
    FourByteBound(file[q..q + 4]);
  }

  // ---- records ----

  datatype Reading = Reading(record: Option<Bytes>, next: nat, lost: seq<nat>)

  function Also(lost: seq<nat>, r: Reading): (a: Reading)
    ensures lost == [] ==> a == r
  {
    r.(lost := lost + r.lost)
  }

  /** The size of what has been gathered of a fragmented record. */
  function Gathered(scratch: Option<Bytes>): nat {
    if scratch.Some? then |scratch.value| else 0
  }

  /** The record this piece completes. */
  function Completed(piece: Piece, scratch: Option<Bytes>): Option<Bytes> {
    if piece.kind == FULL_TYPE then Some(piece.payload)
    else if piece.kind == LAST_TYPE && scratch.Some? then Some(scratch.value + piece.payload)
    else None
  }

  /** What is gathered of a record after this piece, if it completes none. */
  function Gather(piece: Piece, scratch: Option<Bytes>): Option<Bytes> {
    if piece.kind == FIRST_TYPE then Some(piece.payload)
    else if piece.kind == MIDDLE_TYPE && scratch.Some? then Some(scratch.value + piece.payload)
    else None
  }

  /** What is reported: fragments without a start, and records given up half-way.  A record
      given up for a new one is not worth a report when nothing of it was gathered. */
  function Reported(piece: Piece, scratch: Option<Bytes>): seq<nat> {
    if piece.kind == EOF then []
    else if piece.kind == FULL_TYPE || piece.kind == FIRST_TYPE then
      if Gathered(scratch) > 0 then [Gathered(scratch)] else []
    else if piece.kind == MIDDLE_TYPE || piece.kind == LAST_TYPE then
      if scratch.Some? then [] else [|piece.payload|]
    else if piece.kind == BAD_RECORD then
      if scratch.Some? then [Gathered(scratch)] else []
    else [|piece.payload| + Gathered(scratch)]
  }

  /** ReadRecord, in the middle of its loop. */
  function ReadOn(extend: Checksum, checksum: bool, file: Bytes, p: nat, scratch: Option<Bytes>): (r: Reading)
    requires p <= |file|
    ensures r.record.Some? ==> p < r.next
    ensures r.next <= |file|
    decreases |file| - p
  {
    var piece := NextPiece(extend, checksum, file, p);
    var lost := piece.lost + Reported(piece, scratch);
    if piece.kind == EOF || Completed(piece, scratch).Some? then Reading(Completed(piece, scratch), piece.next, lost)
    else Also(lost, ReadOn(extend, checksum, file, piece.next, Gather(piece, scratch)))
  }

  function ReadOne(extend: Checksum, checksum: bool, file: Bytes, p: nat): (r: Reading)
    requires p <= |file|
    ensures r.record.Some? ==> p < r.next
    ensures r.next <= |file|
  {
    ReadOn(extend, checksum, file, p, None)
  }

  datatype Replay = Replay(records: seq<Bytes>, lost: seq<nat>)

  /** The loop of recovery: every record up to the first that cannot be read. */
  function ReplayFrom(extend: Checksum, checksum: bool, file: Bytes, p: nat): Replay
    requires p <= |file|
    decreases |file| - p
  {
    var r := ReadOne(extend, checksum, file, p);
    if r.record.None? then Replay([], r.lost)
    else
      var more := ReplayFrom(extend, checksum, file, r.next);
      Replay([r.record.value] + more.records, r.lost + more.lost)
  }

  function ReplayOf(extend: Checksum, checksum: bool, file: Bytes): Replay {
    ReplayFrom(extend, checksum, file, 0)
  }

  // ---- files that are as they were written ----

  /** From p on the file agrees with s, as far as both go. */
  ghost predicate Upcoming(file: Bytes, p: nat, s: Bytes) {
    forall i {:trigger s[i]} :: 0 <= i < |s| && p + i < |file| ==> file[p + i] == s[i]
  }

  lemma UpcomingParts(file: Bytes, p: nat, a: Bytes, b: Bytes)
    requires Upcoming(file, p, a + b)
    ensures Upcoming(file, p, a) && Upcoming(file, p + |a|, b)
  {
    forall i | 0 <= i < |a| && p + i < |file|
      ensures file[p + i] == a[i]
    {
      assert (a + b)[i] == a[i];
    }
    forall i | 0 <= i < |b| && p + |a| + i < |file|
      ensures file[p + |a| + i] == b[i]
    {
      assert (a + b)[|a| + i] == b[i];
    }
  }

  lemma Layout(sum: Bytes, a: Byte, b: Byte, t: Byte, payload: Bytes)
    requires |sum| == 4
    ensures var s := sum + [a, b, t] + payload;
            && |s| == HEADER_SIZE + |payload| && s[..4] == sum && s[4] == a && s[5] == b && s[6] == t
            && s[6..] == [t] + payload && s[HEADER_SIZE..] == payload
  {
  }

  /** Where two strings agree, so do their slices. */
  lemma SameSlice(buffer: Bytes, s: Bytes, i: nat, j: nat)
    requires Upcoming(buffer, 0, s) && i <= j <= |s| && j <= |buffer|
    ensures buffer[i..j] == s[i..j]
  {
    forall k | i <= k < j
      ensures buffer[k] == s[k]
    {
      assert buffer[0 + k] == s[k];
    }
  }

  /** The header fields, read from a buffer that starts with a physical record. */
  lemma HeaderFields(extend: Checksum, t: Byte, payload: Bytes, buffer: Bytes)
    requires Lawful(extend) && |payload| < 0x1_0000 && |buffer| >= HEADER_SIZE
    requires Upcoming(buffer, 0, Physical(extend, t, payload))
    ensures buffer[4] as int + 256 * buffer[5] as int == |payload| && buffer[6] == t
    ensures Unfixed(buffer[..4]) < MAX32 && Unmask(Unfixed(buffer[..4])) == extend(0, [t] + payload)
    ensures |buffer| >= HEADER_SIZE + |payload| ==>
              buffer[6..HEADER_SIZE + |payload|] == [t] + payload
              && buffer[HEADER_SIZE..HEADER_SIZE + |payload|] == payload
  {
    hide Fixed, Mask, Unmask, Unfixed, Physical, Upcoming;
    PhysicalIs(extend, t, payload);
    var crc := extend(extend(0, [t]), payload);
    FixedLength(Mask(crc));
    var s := Physical(extend, t, payload);
    Layout(Fixed(Mask(crc), 4), |payload| % 256, |payload| / 256, t, payload);
    SameSlice(buffer, s, 0, 4);
    SameSlice(buffer, s, 4, HEADER_SIZE);
    assert buffer[4..HEADER_SIZE][0] == s[4..HEADER_SIZE][0];
    assert buffer[4..HEADER_SIZE][1] == s[4..HEADER_SIZE][1];
    assert buffer[4..HEADER_SIZE][2] == s[4..HEADER_SIZE][2];
    if |buffer| >= HEADER_SIZE + |payload| {
      SameSlice(buffer, s, 6, |s|);
      SameSlice(buffer, s, HEADER_SIZE, |s|);
    }
    MaskBound(crc);
    Fixed32RoundTrip(Mask(crc));
    UnmaskMask(crc);
    assert extend(extend(0, [t]), payload) == extend(0, [t] + payload);
  }

  lemma FixedLength(v: nat)
    ensures |Fixed(v, 4)| == 4
  {
  }

  lemma MaskBound(crc: nat)
    requires crc < MAX32
    ensures Mask(crc) < MAX32
  {
  }

  /** What stands at p: padding up to the next header, then one fragment. */
  lemma NextFragment(extend: Checksum, file: Bytes, p: nat, left: Bytes, begin: bool)
    requires Upcoming(file, p, Emit(extend, InBlock(p), left, begin))
    ensures var off, k := InBlock(p), FragmentLength(InBlock(p), |left|);
            && Upcoming(file, p + Pad(off), Physical(extend, TypeOf(begin, k == |left|), left[..k]))
            && InBlock(p + Pad(off)) == Base(off)
            && InBlock(p + Pad(off) + HEADER_SIZE + k) == InBlock(Base(off) + HEADER_SIZE + k)
            && (k < |left| ==>
                Upcoming(file, p + Pad(off) + HEADER_SIZE + k,
                         Emit(extend, Base(off) + HEADER_SIZE + k, left[k..], false)))
  {
    hide Physical, Upcoming;
    var off, k := InBlock(p), FragmentLength(InBlock(p), |left|);
    var fragment := Fragment(extend, off, left, begin);
    var rest := if k == |left| then [] else Emit(extend, Base(off) + HEADER_SIZE + k, left[k..], false);
    UpcomingParts(file, p, fragment, rest);
    UpcomingParts(file, p, Zeros(Pad(off)), Physical(extend, TypeOf(begin, k == |left|), left[..k]));
  }

  /** The header and payload that the writer put at q. */
  lemma PhysicalThere(extend: Checksum, checksum: bool, file: Bytes, q: nat, t: Byte, payload: Bytes)
    requires Lawful(extend) && q <= |file| && InBlock(q) + HEADER_SIZE + |payload| <= BLOCK
    requires FULL_TYPE <= t <= LAST_TYPE && Upcoming(file, q, Physical(extend, t, payload))
    ensures var end := q + HEADER_SIZE + |payload|;
            NextPiece(extend, checksum, file, q) == if end <= |file| then Piece(t, payload, end, [])
            else Piece(EOF, [], |file|, [])
  {
    hide Physical, Upcoming, Unfixed, Unmask;
    if q + HEADER_SIZE <= |file| {
      Dropped(file, q, Physical(extend, t, payload));
      HeaderFields(extend, t, payload, file[q..]);
      assert file[q..][..4] == file[q..q + 4];
      if q + HEADER_SIZE + |payload| <= |file| {
        assert file[q..][6..HEADER_SIZE + |payload|] == file[q + 6..q + HEADER_SIZE + |payload|];
        assert file[q..][HEADER_SIZE..HEADER_SIZE + |payload|] == file[q + HEADER_SIZE..q + HEADER_SIZE + |payload|];
      }
    }
  }

  lemma Dropped(file: Bytes, q: nat, s: Bytes)
    requires q <= |file| && Upcoming(file, q, s)
    ensures Upcoming(file[q..], 0, s)
  {
  }

  /** A block's last few bytes are skipped, or are all there is. */
  lemma PadSkipped(extend: Checksum, checksum: bool, file: Bytes, p: nat)
    requires p <= |file|
    ensures var q := p + Pad(InBlock(p));
            NextPiece(extend, checksum, file, p)
            == if q <= |file| then NextPiece(extend, checksum, file, q) else Piece(EOF, [], |file|, [])
  {
    hide PieceAt;
    var q := p + Pad(InBlock(p));
    if q > p {
      assert InBlock(q) == 0;
    }
  }

  /** The next fragment of a record, if all of it is there. */
  lemma FragmentThere(extend: Checksum, checksum: bool, file: Bytes, p: nat, left: Bytes, begin: bool)
    requires Lawful(extend) && p <= |file| && Upcoming(file, p, Emit(extend, InBlock(p), left, begin))
    ensures var off, k := InBlock(p), FragmentLength(InBlock(p), |left|);
            var end := p + Pad(off) + HEADER_SIZE + k;
            NextPiece(extend, checksum, file, p)
            == if end <= |file| then Piece(TypeOf(begin, k == |left|), left[..k], end, [])
            else Piece(EOF, [], |file|, [])
  {
    hide Physical, Upcoming, NextPiece, Emit, Pad, InBlock;
    NextFragment(extend, file, p, left, begin);
    PadSkipped(extend, checksum, file, p);
    var off, k := InBlock(p), FragmentLength(InBlock(p), |left|);
    if p + Pad(off) <= |file| {
      PhysicalThere(extend, checksum, file, p + Pad(off), TypeOf(begin, k == |left|), left[..k]);
    }
  }

  /** What is left once the fragment at p is read. */
  lemma AfterFragment(extend: Checksum, file: Bytes, p: nat, left: Bytes, begin: bool)
    requires Upcoming(file, p, Emit(extend, InBlock(p), left, begin))
    ensures var off, k := InBlock(p), FragmentLength(InBlock(p), |left|);
            var p' := p + Pad(off) + HEADER_SIZE + k;
            && k <= |left| && left == left[..k] + left[k..]
            && p' <= p + |Emit(extend, off, left, begin)|
            && (k == |left| ==> p' == p + |Emit(extend, off, left, begin)|)
            && (k < |left| ==>
                  && Upcoming(file, p', Emit(extend, InBlock(p'), left[k..], false))
                  && p' + |Emit(extend, InBlock(p'), left[k..], false)| == p + |Emit(extend, off, left, begin)|)
  {
    hide Upcoming, Pad, Physical;
    var off, k := InBlock(p), FragmentLength(InBlock(p), |left|);
    NextFragment(extend, file, p, left, begin);
    if k < |left| && Base(off) + HEADER_SIZE + k == BLOCK {
      EmitWraps(extend, left[k..], false);
    }
  }

  /** The record the writer put at p, if all of it is there; some of it may be gathered. */
  lemma {:induction false} RestThere(extend: Checksum, checksum: bool, file: Bytes, p: nat, left: Bytes,
                                     scratch: Option<Bytes>)
    requires Lawful(extend) && p <= |file|
    requires Upcoming(file, p, Emit(extend, InBlock(p), left, scratch == None))
    ensures var end := p + |Emit(extend, InBlock(p), left, scratch == None)|;
            ReadOn(extend, checksum, file, p, scratch)
            == if end <= |file| then Reading(Some(if scratch.Some? then scratch.value + left else left), end, [])
               else Reading(None, |file|, [])
    decreases |file| - p
  {
    hide Upcoming, NextPiece, Emit, Pad, InBlock;
    FragmentThere(extend, checksum, file, p, left, scratch == None);
    AfterFragment(extend, file, p, left, scratch == None);
    var off, k := InBlock(p), FragmentLength(InBlock(p), |left|);
    var p' := p + Pad(off) + HEADER_SIZE + k;
    if p' <= |file| && k < |left| {
      var more := if scratch.Some? then scratch.value + left[..k] else left[..k];
      RestThere(extend, checksum, file, p', left[k..], Some(more));
      assert scratch.Some? ==> more + left[k..] == scratch.value + left;
    } else {
      assert k == |left| ==> left[..k] == left;
    }
  }

  lemma NoRecords(extend: Checksum, rs: seq<Bytes>)
    ensures FileOf(extend, rs[..0]) == []
  {
  }

  /** Record i comes next in the file, as far as the file goes; after the last record the
      file ends. */
  lemma RecordAhead(extend: Checksum, file: Bytes, rs: seq<Bytes>, i: nat, whole: Bytes)
    requires i <= |rs| && (i < |rs| ==> whole == rs[i])
    requires |file| <= |FileOf(extend, rs)| && file == FileOf(extend, rs)[..|file|]
             && |FileOf(extend, rs[..i])| <= |file|
    ensures var p := |FileOf(extend, rs[..i])|;
            && Upcoming(file, p, Emit(extend, InBlock(p), whole, true)) && |Emit(extend, InBlock(p), whole, true)| > 0
            && (i < |rs| ==> |FileOf(extend, rs[..i + 1])| == p + |Emit(extend, InBlock(p), whole, true)|)
            && (i == |rs| ==> p == |file|)
  {
    var p := |FileOf(extend, rs[..i])|;
    EmitNotEmpty(extend, InBlock(p), whole, true);
    if i < |rs| {
      assert rs[..i + 1] == rs[..i] + [rs[i]];
      OneMore(extend, rs[..i], rs[i]);
      PrefixOfFile(extend, rs, i + 1);
      Ahead(file, FileOf(extend, rs), FileOf(extend, rs[..i]), Emit(extend, InBlock(p), whole, true));
    } else {
      assert rs[..i] == rs;
    }
  }

  lemma EmitNotEmpty(extend: Checksum, off: nat, data: Bytes, begin: bool)
    requires off <= BLOCK
    ensures |Emit(extend, off, data, begin)| > 0
  {
  }

  lemma Ahead(file: Bytes, whole: Bytes, a: Bytes, b: Bytes)
    requires |file| <= |whole| && file == whole[..|file|] && a + b <= whole
    ensures Upcoming(file, |a|, b)
  {
    forall i | 0 <= i < |b| && |a| + i < |file|
      ensures file[|a| + i] == b[i]
    {
      assert (a + b)[|a| + i] == whole[|a| + i];
    }
  }

  lemma {:induction false} PrefixOfFile(extend: Checksum, rs: seq<Bytes>, i: nat)
    requires i <= |rs|
    ensures FileOf(extend, rs[..i]) <= FileOf(extend, rs)
  {
    hide Emit;
    if i < |rs| {
      var m := |rs| - 1;
      PrefixOfFile(extend, rs[..m], i);
      assert rs[..m][..i] == rs[..i];
    } else {
      assert rs[..i] == rs;
    }
  }

  /** The file is some first bytes of what writing these records gives. */
  ghost predicate CutShort(extend: Checksum, file: Bytes, rs: seq<Bytes>) {
    |file| <= |FileOf(extend, rs)| && file == FileOf(extend, rs)[..|file|]
  }

  /** The first n records lie wholly in the file, the next does not. */
  ghost predicate Whole(extend: Checksum, file: Bytes, rs: seq<Bytes>, n: nat) {
    && n <= |rs| && |FileOf(extend, rs[..n])| <= |file|
    && (n < |rs| ==> |FileOf(extend, rs[..n + 1])| > |file|)
  }

  lemma {:induction false} PrefixFrom(extend: Checksum, checksum: bool, file: Bytes, rs: seq<Bytes>, i: nat, p: nat)
    returns (n: nat)
    requires Lawful(extend) && CutShort(extend, file, rs)
    requires i <= |rs| && p == |FileOf(extend, rs[..i])| <= |file|
    ensures Whole(extend, file, rs, n) && i <= n
    ensures ReplayFrom(extend, checksum, file, p) == Replay(rs[i..n], [])
    decreases |rs| - i
  {
    hide Emit, Upcoming, FileOf, ReadOn;
    var whole := if i < |rs| then rs[i] else [];
    RecordAhead(extend, file, rs, i, whole);
    RestThere(extend, checksum, file, p, whole, None);
    if p + |Emit(extend, InBlock(p), whole, true)| <= |file| {
      n := PrefixFrom(extend, checksum, file, rs, i + 1, p + |Emit(extend, InBlock(p), whole, true)|);
      assert [rs[i]] + rs[i + 1..n] == rs[i..n];
    } else {
      n := i;
    }
  }

  /** Any byte prefix of what a writer wrote: exactly the records that lie wholly inside it
      come back, in order, and nothing is reported as corrupted. */
  lemma ReplayOfPrefix(extend: Checksum, checksum: bool, file: Bytes, rs: seq<Bytes>) returns (n: nat)
    requires Lawful(extend) && CutShort(extend, file, rs)
    ensures Whole(extend, file, rs, n) && ReplayOf(extend, checksum, file) == Replay(rs[..n], [])
  {
    hide FileOf, ReplayFrom;
    NoRecords(extend, rs);
    n := PrefixFrom(extend, checksum, file, rs, 0, 0);
    assert rs[0..n] == rs[..n];
  }

  // ---- what comes later does not take away ----

  /** More bytes leave a piece as it is, unless the end of the file was part of it. */
  lemma PieceStays(extend: Checksum, checksum: bool, file: Bytes, file': Bytes, p: nat)
    requires file <= file' && p <= |file|
    ensures var r := NextPiece(extend, checksum, file, p);
            r.kind == EOF || (r.kind == BAD_RECORD && r.next == |file|) || NextPiece(extend, checksum, file', p) == r
  {
    hide Unfixed, Unmask, InBlock;
    var q := Start(file, p);
    var end := BufferEnd(file, q);
    if end - q >= HEADER_SIZE {
      assert Start(file', p) == q;
      var length := StoredLength(file, q);
      assert StoredLength(file', q) == length;
      if HEADER_SIZE + length <= end - q {
        assert file'[q + 6..q + HEADER_SIZE + length] == file[q + 6..q + HEADER_SIZE + length];
        assert file'[q..q + 4] == file[q..q + 4];
        assert file'[q + HEADER_SIZE..q + HEADER_SIZE + length] == file[q + HEADER_SIZE..q + HEADER_SIZE + length];
      }
    }
  }

  /** At the end of the file there is nothing more. */
  lemma AtTheEnd(extend: Checksum, checksum: bool, file: Bytes, scratch: Option<Bytes>)
    ensures ReadOn(extend, checksum, file, |file|, scratch) == Reading(None, |file|, [])
  {
  }

  lemma {:induction false} RecordStays(extend: Checksum, checksum: bool, file: Bytes, file': Bytes, p: nat,
                                       scratch: Option<Bytes>)
    requires file <= file' && p <= |file| && ReadOn(extend, checksum, file, p, scratch).record.Some?
    ensures ReadOn(extend, checksum, file', p, scratch) == ReadOn(extend, checksum, file, p, scratch)
    decreases |file| - p
  {
    hide NextPiece;
    PieceStays(extend, checksum, file, file', p);
    AtTheEnd(extend, checksum, file, None);
    var piece := NextPiece(extend, checksum, file, p);
    if Completed(piece, scratch) == None {
      RecordStays(extend, checksum, file, file', piece.next, Gather(piece, scratch));
    }
  }

  /** Whatever is appended to a file, what could be read from it still can. */
  lemma {:induction false} ReplayGrows(extend: Checksum, checksum: bool, file: Bytes, file': Bytes, p: nat)
    requires file <= file' && p <= |file|
    ensures ReplayFrom(extend, checksum, file, p).records <= ReplayFrom(extend, checksum, file', p).records
    decreases |file| - p
  {
    hide ReadOn;
    var r := ReadOne(extend, checksum, file, p);
    if r.record.Some? {
      RecordStays(extend, checksum, file, file', p, None);
      ReplayGrows(extend, checksum, file, file', r.next);
    }
  }

  /** What was written without a failure is read back, whatever stands after it. */
  lemma WrittenIsRead(extend: Checksum, checksum: bool, file: Bytes, rs: seq<Bytes>)
    requires Lawful(extend) && FileOf(extend, rs) <= file
    ensures rs <= ReplayOf(extend, checksum, file).records
  {
    hide FileOf, ReplayFrom;
    var whole := FileOf(extend, rs);
    var n := ReplayOfPrefix(extend, checksum, whole, rs);
    if n < |rs| {
      PrefixOfFile(extend, rs, n + 1);
    }
    assert rs[..n] == rs;
    ReplayGrows(extend, checksum, whole, file, 0);
  }
}
