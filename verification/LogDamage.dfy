/** What a failed append does to a log (db/log_writer.cc, util/env_posix.cc, db/log_reader.cc).
    The writer counts bytes that did not get through, so from then on its blocks are not the
    reader's.  A record is sure to be read back exactly if no append before it failed.
 */
module LogDamage {
  import opened Comparator
  import opened LogContents
  import opened LogFormat
  import opened Options

  const NEW_LOG := LogState([], 0)

  /** The log after these appends, whatever became of each. */
  function Run(extend: Checksum, appends: seq<Attempt>): (st: LogState)
    ensures st.off <= BLOCK
  {
    if appends == [] then NEW_LOG
    else After(extend, Run(extend, appends[..|appends| - 1]), appends[|appends| - 1])
  }

  /** What AddRecord returned for each. */
  function Statuses(extend: Checksum, appends: seq<Attempt>): (oks: seq<bool>)
    ensures |oks| == |appends|
  {
    if appends == [] then []
    else
      var before := appends[..|appends| - 1];
      Statuses(extend, before) + [Succeeds(extend, Run(extend, before), appends[|appends| - 1])]
  }

  function Slices(appends: seq<Attempt>): (rs: seq<Bytes>)
    ensures |rs| == |appends| && forall i :: 0 <= i < |rs| ==> rs[i] == appends[i].slice
  {
    if appends == [] then [] else Slices(appends[..|appends| - 1]) + [appends[|appends| - 1].slice]
  }

  predicate AllOk(oks: seq<bool>) {
    forall i :: 0 <= i < |oks| ==> oks[i]
  }

  // ---- without a failure ----

  lemma {:induction false} CleanRun(extend: Checksum, appends: seq<Attempt>)
    requires AllOk(Statuses(extend, appends))
    ensures Holds(extend, Run(extend, appends), Slices(appends))
  {
    hide Succeeds, After, Holds, FileOf;
    if appends == [] {
      NothingHeld(extend);
    } else {
      var before, last := appends[..|appends| - 1], appends[|appends| - 1];
      var oks := Statuses(extend, before);
      assert oks == Statuses(extend, appends)[..|before|] && Statuses(extend, appends)[|before|];
      CleanRun(extend, before);
      HoldsGrows(extend, Run(extend, before), last, Slices(before));
    }
  }

  lemma NothingHeld(extend: Checksum)
    ensures Holds(extend, NEW_LOG, [])
  {
  }

  lemma {:induction false} StatusesOfPrefix(extend: Checksum, appends: seq<Attempt>, k: nat)
    requires k <= |appends|
    ensures Statuses(extend, appends[..k]) == Statuses(extend, appends)[..k]
    ensures Run(extend, appends[..k]).file <= Run(extend, appends).file
  {
    hide Succeeds;
    if k < |appends| {
      var before := appends[..|appends| - 1];
      StatusesOfPrefix(extend, before, k);
      assert before[..k] == appends[..k];
      FilesGrow(extend, Run(extend, before), appends[|appends| - 1]);
    } else {
      assert appends[..k] == appends;
    }
  }

  lemma FilesGrow(extend: Checksum, st: LogState, a: Attempt)
    requires st.off <= BLOCK
    ensures st.file <= After(extend, st, a).file
  {
  }

  /** The records before the first failure are read back at every later moment: whatever is
      appended after them, and however much of that survives a crash. */
  lemma KeptBeforeFailure(extend: Checksum, checksum: bool, appends: seq<Attempt>, k: nat, file: Bytes)
    requires Lawful(extend) && k <= |appends| && AllOk(Statuses(extend, appends)[..k])
    requires Run(extend, appends[..k]).file <= file <= Run(extend, appends).file
    ensures Slices(appends[..k]) <= ReplayOf(extend, checksum, file).records
  {
    hide ReplayOf, FileOf, Run, Statuses, Slices;
    StatusesOfPrefix(extend, appends, k);
    CleanRun(extend, appends[..k]);
    WrittenIsRead(extend, checksum, file, Slices(appends[..k]));
  }

  // ---- how far the writer is ahead of the file ----

  function Drift(st: LogState): (d: nat)
    ensures d < BLOCK
  {
    (st.off - |st.file|) % BLOCK
  }

  /** Far enough for a reader's header to fall inside a payload. */
  predicate Astray(d: nat) {
    3 <= d && d + HEADER_SIZE <= BLOCK
  }

  lemma DriftBy(st: LogState, st': LogState, m: nat, loss: nat)
    requires loss <= m && |st'.file| == |st.file| + (m - loss) && InBlock(st'.off) == InBlock(st.off + m)
    ensures Drift(st') == (Drift(st) + loss) % BLOCK
  {
    var x, y := st.off + m - |st'.file|, st'.off - |st'.file|;
    assert (st.off + m - st'.off) % BLOCK == 0;
    assert x == st.off - |st.file| + loss;
  }

  lemma OkKeepsDrift(extend: Checksum, st: LogState, a: Attempt)
    requires st.off <= BLOCK && Succeeds(extend, st, a)
    ensures Drift(After(extend, st, a)) == Drift(st)
  {
    hide InBlock, Drift, Emit, BlockOffset;
    var e := Emit(extend, st.off, a.slice, true);
    OffsetFollows(extend, st.off, a.slice, true, a.room);
    DriftBy(st, After(extend, st, a), |e|, 0);
    assert Drift(st) % BLOCK == Drift(st);
  }

  /** Started here, a record of this length ends with a fragment of at least 12 bytes. */
  predicate EndsLong(off: nat, size: nat)
    requires off <= BLOCK
  {
    var k := FragmentLength(off, size);
    if k == size then size >= 5 else 5 <= size - k <= BLOCK - HEADER_SIZE
  }

  /** An append that fails with the last `loss` bytes missing. */
  function Failing(extend: Checksum, off: nat, slice: Bytes, loss: nat): (a: Attempt)
    requires off <= BLOCK
  {
    var e := Emit(extend, off, slice, true);
    Attempt(slice, if |e| >= loss then |e| - loss else 0)
  }

  lemma LongEnd(extend: Checksum, off: nat, slice: Bytes, loss: nat)
    requires off <= BLOCK && EndsLong(off, |slice|) && 0 < loss <= 12
    ensures var e := Emit(extend, off, slice, true);
            |e| >= 12 && InBlock(BlockOffset(off, |slice|, |e| - loss)) == InBlock(off + |e|)
  {
    hide Fragment, InBlock;
    var k := FragmentLength(off, |slice|);
    FragmentSize(extend, off, slice, true);
    SameEnd(off, k);
    if k < |slice| {
      var rest := slice[k..];
      FragmentSize(extend, BLOCK, rest, false);
      assert |Emit(extend, BLOCK, rest, false)| == HEADER_SIZE + |rest|;
      SameEnd(BLOCK, |rest|);
      SameShift(BLOCK, off + (Pad(off) + HEADER_SIZE + k), HEADER_SIZE + |rest|);
    }
  }

  lemma FailureShifts(extend: Checksum, st: LogState, slice: Bytes, loss: nat)
    requires st.off <= BLOCK && EndsLong(st.off, |slice|) && 0 < loss <= 12
    ensures !Succeeds(extend, st, Failing(extend, st.off, slice, loss))
    ensures Drift(After(extend, st, Failing(extend, st.off, slice, loss))) == (Drift(st) + loss) % BLOCK
  {
    hide InBlock, Drift, Emit, BlockOffset, EndsLong;
    LongEnd(extend, st.off, slice, loss);
    var e := Emit(extend, st.off, slice, true);
    DriftBy(st, After(extend, st, Failing(extend, st.off, slice, loss)), |e|, loss);
  }

  /** Losing the last few bytes of a record brings any writer astray. */
  lemma FailureLeadsAstray(extend: Checksum, st: LogState, slice: Bytes) returns (a: Attempt)
    requires st.off <= BLOCK && EndsLong(st.off, |slice|)
    ensures a.slice == slice && !Succeeds(extend, st, a) && Astray(Drift(After(extend, st, a)))
  {
    hide Succeeds, After;
    var d := Drift(st);
    var loss := if d + 9 < BLOCK then 3 else 12;
    a := Failing(extend, st.off, slice, loss);
    FailureShifts(extend, st, slice, loss);
  }

  // ---- what a writer astray loses ----

  /** All that does not fit in one block is zero. */
  predicate MostlyZero(data: Bytes) {
    forall i :: BLOCK - HEADER_SIZE <= i < |data| ==> data[i] == 0
  }

  /** Past the blocks it starts in, such a record has zeros everywhere but in the headers at
      the starts of the writer's blocks. */
  lemma {:induction false} ZerosEmitted(extend: Checksum, off: nat, data: Bytes, begin: bool, c: nat, q: nat)
    requires off <= BLOCK && c <= BLOCK - HEADER_SIZE && (forall i :: c <= i < |data| ==> data[i] == 0)
    requires (if c > 0 then 2 * BLOCK else BLOCK) - off <= q < |Emit(extend, off, data, begin)|
    requires InBlock(off + q) >= HEADER_SIZE
    ensures Emit(extend, off, data, begin)[q] == 0
    decreases |data|, BLOCK - off
  {
    hide Physical, Fragment, Emit;
    EmitParts(extend, off, data, begin, 0);
    var k := FragmentLength(off, |data|);
    var f := Fragment(extend, off, data, begin);
    FragmentSize(extend, off, data, begin);
    if q < |f| {
      PayloadAt(extend, off, data, begin, q);
    } else {
      assert InBlock(BLOCK + (q - |f|)) == InBlock(off + q);
      ZerosEmitted(extend, BLOCK, data[k..], false, if c > k then c - k else 0, q - |f|);
    }
  }

  lemma FragmentSize(extend: Checksum, off: nat, data: Bytes, begin: bool)
    requires off <= BLOCK
    ensures |Fragment(extend, off, data, begin)| == Pad(off) + HEADER_SIZE + FragmentLength(off, |data|)
  {
  }

  lemma PayloadAt(extend: Checksum, off: nat, data: Bytes, begin: bool, q: nat)
    requires off <= BLOCK && BLOCK - off <= q < |Fragment(extend, off, data, begin)| && InBlock(off + q) >= HEADER_SIZE
    ensures Pad(off) + HEADER_SIZE <= q
    ensures Fragment(extend, off, data, begin)[q] == data[q - Pad(off) - HEADER_SIZE]
  {
    hide Mask;
    assert q - Pad(off) >= HEADER_SIZE;
  }

  /** A file to which a writer astray has appended a record of mostly zeros. */
  ghost predicate ZerosAfter(extend: Checksum, st: LogState, data: Bytes, file: Bytes) {
    && st.off <= BLOCK && Astray(Drift(st)) && MostlyZero(data)
    && file == st.file + Emit(extend, st.off, data, true)
  }

  /** The reader's next block start that lies past the writer's first two. */
  function Bound(st: LogState): (b: nat)
    requires st.off <= BLOCK
    ensures |st.file| + (2 * BLOCK - st.off) < b <= |st.file| + 3 * BLOCK
  {
    BlockEnd(|st.file| + (2 * BLOCK - st.off))
  }

  /** There the reader finds no header but zeros. */
  lemma NoHeader(extend: Checksum, st: LogState, data: Bytes, file: Bytes, p: nat, i: nat)
    requires ZerosAfter(extend, st, data, file) && InBlock(p) == 0 && Bound(st) <= p
    requires 4 <= i < HEADER_SIZE && p + i < |file|
    ensures file[p + i] == 0
  {
    hide Emit;
    var q := p + i - |st.file|;
    Aligned(st, p, i);
    ZerosEmitted(extend, st.off, data, true, BLOCK - HEADER_SIZE, q);
  }

  lemma Aligned(st: LogState, p: nat, i: nat)
    requires InBlock(p) == 0 && p >= |st.file| && Drift(st) + i < BLOCK
    ensures InBlock(st.off + (p + i - |st.file|)) == Drift(st) + i
  {
    var d := Drift(st);
    assert (st.off - |st.file| - d) % BLOCK == 0;
    assert (st.off + (p + i - |st.file|) - (d + i)) % BLOCK == 0;
  }

  lemma {:induction false} NothingBeyond(extend: Checksum, checksum: bool, st: LogState, data: Bytes, file: Bytes,
                                         p: nat,
                                         scratch: Option<Bytes>)
    requires ZerosAfter(extend, st, data, file) && InBlock(p) == 0 && Bound(st) <= p <= |file|
    ensures ReadOn(extend, checksum, file, p, scratch).record == None
    decreases |file| - p
  {
    hide ZerosAfter, Bound, ChecksumFits;
    if p + HEADER_SIZE <= |file| {
      NoHeader(extend, st, data, file, p, 4);
      NoHeader(extend, st, data, file, p, 5);
      NoHeader(extend, st, data, file, p, 6);
      var next := NextPiece(extend, checksum, file, p).next;
      if next < |file| {
        NothingBeyond(extend, checksum, st, data, file, next, None);
      } else {
        AtTheEnd(extend, checksum, file, None);
      }
    }
  }

  /** Up to a block start the reader stays before it, or stands right at it. */
  lemma StaysBefore(extend: Checksum, checksum: bool, file: Bytes, p: nat, bound: nat)
    requires p < bound <= |file| && InBlock(bound) == 0
    ensures var r := NextPiece(extend, checksum, file, p);
            || r == NextPiece(extend, checksum, file, bound)
            || r.kind == EOF
            || (r.next <= bound && p + |r.payload| <= r.next)
  {
    hide InBlock, BlockEnd, PieceAt;
    NextStart(p, bound);
    NextStart(bound, bound);
    var q := Start(file, p);
    if q < bound {
      NextStart(q, bound);
      InsideBlock(extend, checksum, file, q, BufferEnd(file, q), BlockEnd(q) > |file|);
    }
  }

  lemma NextStart(p: nat, bound: nat)
    requires InBlock(bound) == 0
    ensures p < bound ==> p < BlockEnd(p) <= bound
    ensures p == bound ==> BlockEnd(p) == p + BLOCK
  {
  }

  lemma InsideBlock(extend: Checksum, checksum: bool, file: Bytes, q: nat, end: nat, eof: bool)
    requires q <= end <= |file|
    ensures end - q >= HEADER_SIZE ==>
              var r := PieceAt(extend, checksum, file, q, end, eof);
              r.kind == EOF || (r.next <= end && q + |r.payload| <= r.next)
  {
    hide ChecksumFits;
  }

  lemma {:induction false} RecordsBefore(extend: Checksum, checksum: bool, file: Bytes, p: nat,
                                         scratch: Option<Bytes>, bound: nat)
    requires p <= bound <= |file| && InBlock(bound) == 0 && Gathered(scratch) <= p
    requires forall s :: ReadOn(extend, checksum, file, bound, s).record == None
    ensures var r := ReadOn(extend, checksum, file, p, scratch);
            r.record.Some? ==> |r.record.value| <= r.next <= bound
    decreases bound - p
  {
    hide NextPiece, InBlock;
    if p < bound {
      StaysBefore(extend, checksum, file, p, bound);
      var piece := NextPiece(extend, checksum, file, p);
      if piece == NextPiece(extend, checksum, file, bound) {
        SamePiece(extend, checksum, file, p, bound, scratch);
      } else if piece.kind != EOF && Completed(piece, scratch) == None {
        RecordsBefore(extend, checksum, file, piece.next, Gather(piece, scratch), bound);
      }
    }
  }

  lemma SamePiece(extend: Checksum, checksum: bool, file: Bytes, p: nat, q: nat, scratch: Option<Bytes>)
    requires p <= |file| && q <= |file| && NextPiece(extend, checksum, file, p) == NextPiece(extend, checksum, file, q)
    ensures ReadOn(extend, checksum, file, p, scratch) == ReadOn(extend, checksum, file, q, scratch)
  {
    hide NextPiece;
  }

  lemma {:induction false} AllBefore(extend: Checksum, checksum: bool, file: Bytes, p: nat, bound: nat, r: Bytes)
    requires p <= bound <= |file| && InBlock(bound) == 0
    requires forall s :: ReadOn(extend, checksum, file, bound, s).record == None
    requires r in ReplayFrom(extend, checksum, file, p).records
    ensures |r| <= bound
    decreases |file| - p
  {
    hide ReadOn, InBlock;
    RecordsBefore(extend, checksum, file, p, None, bound);
    var one := ReadOne(extend, checksum, file, p);
    if one.record.Some? && r != one.record.value {
      AllBefore(extend, checksum, file, one.next, bound, r);
    }
  }

  /** A record that was written whole, with success, and that no reader finds. */
  lemma AstrayLoses(extend: Checksum, checksum: bool, st: LogState, a: Attempt)
    requires st.off <= BLOCK && Astray(Drift(st)) && Succeeds(extend, st, a)
    requires MostlyZero(a.slice) && |a.slice| > |st.file| + 3 * BLOCK
    ensures a.slice !in ReplayOf(extend, checksum, After(extend, st, a).file).records
  {
    hide ReadOn, Emit, BlockOffset, ReplayFrom, InBlock, Astray, Drift, MostlyZero;
    var file := After(extend, st, a).file;
    EmitLonger(extend, st.off, a.slice, true);
    var bound := Bound(st);
    BlockStart(|st.file| + (2 * BLOCK - st.off));
    forall s
      ensures ReadOn(extend, checksum, file, bound, s).record == None
    {
      NothingBeyond(extend, checksum, st, a.slice, file, bound, s);
    }
    if a.slice in ReplayOf(extend, checksum, file).records {
      AllBefore(extend, checksum, file, 0, bound, a.slice);
    }
  }

  lemma BlockStart(p: nat)
    ensures InBlock(BlockEnd(p)) == 0
  {
  }

  lemma {:induction false} EmitLonger(extend: Checksum, off: nat, data: Bytes, begin: bool)
    requires off <= BLOCK
    ensures |Emit(extend, off, data, begin)| >= |data|
    decreases |data|, BLOCK - off
  {
    hide Fragment;
    FragmentSize(extend, off, data, begin);
    var k := FragmentLength(off, |data|);
    if k < |data| {
      EmitLonger(extend, Base(off) + HEADER_SIZE + k, data[k..], false);
    }
  }

  // ---- what becomes of the last record ----

  lemma OneAttempt(extend: Checksum, before: seq<Attempt>, a: Attempt)
    ensures Run(extend, before + [a]) == After(extend, Run(extend, before), a)
    ensures Statuses(extend, before + [a]) == Statuses(extend, before) + [Succeeds(extend, Run(extend, before), a)]
  {
    assert (before + [a])[..|before|] == before;
  }

  /** An append of this record that succeeds. */
  function Success(extend: Checksum, st: LogState, slice: Bytes): Attempt
    requires st.off <= BLOCK
  {
    Attempt(slice, |Emit(extend, st.off, slice, true)|)
  }

  /** The last record of these appends is read back. */
  predicate LastIsRead(extend: Checksum, checksum: bool, appends: seq<Attempt>)
    requires appends != []
  {
    appends[|appends| - 1].slice in ReplayOf(extend, checksum, Run(extend, appends).file).records
  }

  lemma LastIsKept(extend: Checksum, checksum: bool, appends: seq<Attempt>)
    requires Lawful(extend) && appends != [] && AllOk(Statuses(extend, appends))
    ensures LastIsRead(extend, checksum, appends)
  {
    hide Run, Statuses, ReplayOf;
    var n := |appends|;
    assert appends[..n] == appends && Statuses(extend, appends)[..n] == Statuses(extend, appends);
    KeptBeforeFailure(extend, checksum, appends, n, Run(extend, appends).file);
    assert Slices(appends)[n - 1] in Slices(appends);
  }

  /** After appends that left the writer astray one more succeeds and is lost. */
  lemma LostAfter(extend: Checksum, checksum: bool, before: seq<Attempt>, slice: Bytes) returns (a: Attempt)
    requires Astray(Drift(Run(extend, before))) && MostlyZero(slice) && |slice| > |Run(extend, before).file| + 3 * BLOCK
    ensures a.slice == slice
    ensures Statuses(extend, before + [a]) == Statuses(extend, before) + [true]
    ensures !LastIsRead(extend, checksum, before + [a])
  {
    hide Run, Statuses, ReplayOf, After, Emit, Astray, Drift, MostlyZero;
    var st := Run(extend, before);
    a := Success(extend, st, slice);
    OneAttempt(extend, before, a);
    AstrayLoses(extend, checksum, st, a);
  }

  /** The disk is full for one small record and has room again for the next: it is lost. */
  lemma DiskFullLoses(extend: Checksum, checksum: bool)
    ensures var first, second := Attempt([1], 0), Success(extend, LogState([], 8), Zeros(3 * BLOCK + 1));
            && Statuses(extend, [first, second]) == [false, true]
            && !LastIsRead(extend, checksum, [first, second])
  {
    var first, st := Attempt([1], 0), LogState([], 8);
    assert Run(extend, [first]) == st && Statuses(extend, [first]) == [false] by {
      OneAttempt(extend, [], first);
      assert [] + [first] == [first];
      assert FragmentLength(0, 1) == 1;
      hide Run, Statuses;
      NothingRun(extend);
    }
    hide Run, Statuses, ReplayOf, After, Emit, Success;
    assert Drift(st) == 8;
    SuccessIs(extend, st, Zeros(3 * BLOCK + 1));
    var second := Success(extend, st, Zeros(3 * BLOCK + 1));
    OneAttempt(extend, [first], second);
    assert [first] + [second] == [first, second];
    AstrayLoses(extend, checksum, st, second);
  }

  lemma SuccessIs(extend: Checksum, st: LogState, slice: Bytes)
    requires st.off <= BLOCK
    ensures Success(extend, st, slice).slice == slice && Succeeds(extend, st, Success(extend, st, slice))
  {
  }

  lemma NothingRun(extend: Checksum)
    ensures Run(extend, []) == NEW_LOG && Statuses(extend, []) == []
  {
  }
}
