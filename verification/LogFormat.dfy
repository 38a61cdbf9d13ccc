/** The log format (db/log_format.h) and its writer (db/log_writer.cc): records cut into
    fragments that never cross a 32 KB block, each under a checksummed header.
 */
module LogFormat {
  import opened Coding
  import opened Comparator
  import opened Options

  /** kBlockSize and kHeaderSize */
  const BLOCK: nat := 32768
  const HEADER_SIZE: nat := 7

  const ZERO_TYPE: nat := 0
  const FULL_TYPE: nat := 1
  const FIRST_TYPE: nat := 2
  const MIDDLE_TYPE: nat := 3
  const LAST_TYPE: nat := 4

  /** How far into its block a place in the file is. */
  function InBlock(p: int): (off: nat)
    requires p >= 0
    ensures off < BLOCK
  {
    p % BLOCK
  }

  // ---- checksums (util/crc32c.h) ----

  /** Extend: the checksum of what had the checksum given, with more bytes after it. */
  type Checksum = (nat, Bytes) -> nat

  ghost predicate Lawful(extend: Checksum) {
    && (forall c, s {:trigger extend(c, s)} :: extend(c, s) < MAX32)
    && forall a, b {:trigger extend(extend(0, a), b)} :: extend(extend(0, a), b) == extend(0, a + b)
  }

  const MASK_DELTA: nat := 0xa282ead8

  /** Rotate right by 15 bits and add a constant, in 32 bits. */
  function Mask(crc: nat): (m: nat)
    requires crc < MAX32
    ensures m < MAX32
  {
    (crc / 0x8000 + crc % 0x8000 * 0x2_0000 + MASK_DELTA) % MAX32
  }

  function Unmask(masked: nat): (c: nat)
    requires masked < MAX32
    ensures c < MAX32
  {
    var rot := (masked + MAX32 - MASK_DELTA) % MAX32;
    rot / 0x2_0000 + rot % 0x2_0000 * 0x8000
  }

  lemma UnmaskMask(crc: nat)
    requires crc < MAX32
    ensures Unmask(Mask(crc)) == crc
  {
    var rot := crc / 0x8000 + crc % 0x8000 * 0x2_0000;
    assert rot < MAX32;
    assert (Mask(crc) + MAX32 - MASK_DELTA) % MAX32 == rot;
    assert rot / 0x2_0000 == crc % 0x8000 && rot % 0x2_0000 == crc / 0x8000;
  }

  lemma MaskUnmask(masked: nat)
    requires masked < MAX32
    ensures Mask(Unmask(masked)) == masked
  {
    var rot := (masked + MAX32 - MASK_DELTA) % MAX32;
    var c := Unmask(masked);
    assert c / 0x8000 == rot % 0x2_0000 && c % 0x8000 == rot / 0x2_0000;
    assert c / 0x8000 + c % 0x8000 * 0x2_0000 == rot;
  }

  /** Four bytes stand for a checksum exactly if they are what is written for it. */
  lemma SumFits(sum: Bytes, crc: nat)
    requires |sum| == 4 && crc < MAX32
    ensures Unfixed(sum) < MAX32
    ensures Unmask(Unfixed(sum)) == crc <==> sum == Fixed(Mask(crc), 4)
  {
    hide Mask, Unmask, Unfixed, Fixed;
    FourByteBound(sum);
    UnmaskMask(crc);
    MaskUnmask(Unfixed(sum));
    Fixed32RoundTrip(Mask(crc));
    UnfixedFixed(sum);
  }

  // ---- what the writer writes ----

  /** A header and its payload. */
  function Physical(extend: Checksum, t: Byte, payload: Bytes): (s: Bytes)
    requires |payload| < 0x1_0000
    ensures |s| == HEADER_SIZE + |payload|
  {
    Fixed(Mask(extend(0, [t] + payload) % MAX32), 4) + [|payload| % 256, |payload| / 256, t] + payload
  }

  /** The bytes left of a block too short for a header, when standing at `off` in it. */
  function Pad(off: nat): nat
    requires off <= BLOCK
  {
    if BLOCK - off < HEADER_SIZE then BLOCK - off else 0
  }

  /** Where in its block the next header goes. */
  function Base(off: nat): (b: nat)
    requires off <= BLOCK
    ensures b + HEADER_SIZE <= BLOCK
  {
    if BLOCK - off < HEADER_SIZE then 0 else off
  }

  function FragmentLength(off: nat, left: nat): (k: nat)
    requires off <= BLOCK
    ensures k <= left && Base(off) + HEADER_SIZE + k <= BLOCK
  {
    var avail := BLOCK - Base(off) - HEADER_SIZE;
    if left < avail then left else avail
  }

  function TypeOf(begin: bool, end: bool): Byte {
    if begin && end then FULL_TYPE else if begin then FIRST_TYPE else if end then LAST_TYPE else MIDDLE_TYPE
  }

  function Zeros(n: nat): (s: Bytes)
    ensures |s| == n
  {
    seq(n, _ => 0)
  }

  /** The next fragment of what is left of a record. */
  function Fragment(extend: Checksum, off: nat, data: Bytes, begin: bool): (s: Bytes)
    requires off <= BLOCK
    ensures |s| == Pad(off) + HEADER_SIZE + FragmentLength(off, |data|)
  {
    var k := FragmentLength(off, |data|);
    Zeros(Pad(off)) + Physical(extend, TypeOf(begin, k == |data|), data[..k])
  }

  /** Everything written for what is left of a record. */
  function Emit(extend: Checksum, off: nat, data: Bytes, begin: bool): Bytes
    requires off <= BLOCK
    decreases |data|, BLOCK - off
  {
    var k := FragmentLength(off, |data|);
    Fragment(extend, off, data, begin) +
    if k == |data| then [] else Emit(extend, Base(off) + HEADER_SIZE + k, data[k..], false)
  }

  /** At the very end of a block is as good as at the start of the next. */
  lemma EmitWraps(extend: Checksum, data: Bytes, begin: bool)
    ensures Emit(extend, BLOCK, data, begin) == Emit(extend, 0, data, begin)
  {
    assert Zeros(0) == [];
  }

  /** Every byte of a fragment's header: the masked checksum, the length, and the type. */
  lemma HeaderBytes(extend: Checksum, t: Byte, payload: Bytes)
    requires Lawful(extend) && |payload| < 0x1_0000
    ensures var crc := extend(0, [t] + payload);
            var m := (crc / 32768 + crc % 32768 * 131072 + 0xa282ead8) % 0x1_0000_0000;
            Physical(extend, t, payload)
            == [m % 256, m / 0x100 % 256, m / 0x1_0000 % 256, m / 0x100_0000]
               + [|payload| % 256, |payload| / 256, t] + payload
  {
    hide Fixed, Mask;
    var crc := extend(0, [t] + payload);
    MaskIs(crc);
    SmallRemainder(crc);
    FixedBytes(Mask(crc));
  }

  /** The masked checksum: turned right by 15 bits, and a constant added. */
  lemma MaskIs(crc: nat)
    requires crc < MAX32
    ensures Mask(crc) == (crc / 32768 + crc % 32768 * 131072 + 0xa282ead8) % 0x1_0000_0000
  {
  }

  lemma SmallRemainder(crc: nat)
    requires crc < MAX32
    ensures crc % MAX32 == crc
  {
  }

  /** What is written from `off` in a block: zeros where a header does not fit; then the rest of
      the record as FULL or LAST when it fits in the block; else as much of it as does, as FIRST or
      MIDDLE. */
  lemma EmitCases(extend: Checksum, off: nat, data: Bytes, begin: bool)
    requires off <= 32768
    ensures off > 32761 ==>
              Emit(extend, off, data, begin) == seq(32768 - off, _ => 0 as Byte) + Emit(extend, 0, data, begin)
    ensures off + 7 + |data| <= 32768 ==>
              Emit(extend, off, data, begin) == Physical(extend, if begin then 1 else 4, data)
    ensures off <= 32761 < off + |data| ==>
              Emit(extend, off, data, begin)
              == Physical(extend, if begin then 2 else 3, data[..32761 - off])
                 + Emit(extend, 32768, data[32761 - off..], false)
  {
    hide Emit, Physical;
    if off > 32761 {
      PadCase(extend, off, data, begin);
    } else if off + 7 + |data| <= 32768 {
      EndCase(extend, off, data, begin);
    } else {
      FillCase(extend, off, data, begin);
    }
  }

  /** One fragment, and what comes after it. */
  lemma EmitUnfolds(extend: Checksum, off: nat, data: Bytes, begin: bool)
    requires off <= 32768
    ensures var k := FragmentLength(off, |data|);
            Emit(extend, off, data, begin)
            == Zeros(Pad(off)) + Physical(extend, TypeOf(begin, k == |data|), data[..k])
               + if k == |data| then [] else Emit(extend, Base(off) + 7 + k, data[k..], false)
  {
    hide Physical, Zeros, TypeOf, FragmentLength, Base, Pad;
  }

  lemma PadCase(extend: Checksum, off: nat, data: Bytes, begin: bool)
    requires 32761 < off <= 32768
    ensures Emit(extend, off, data, begin) == seq(32768 - off, _ => 0 as Byte) + Emit(extend, 0, data, begin)
  {
    hide Physical, Emit, TypeOf;
    EmitUnfolds(extend, off, data, begin);
    EmitUnfolds(extend, 0, data, begin);
    var k := FragmentLength(off, |data|);
    assert FragmentLength(0, |data|) == k && Base(0) == Base(off) && Zeros(0) == [];
    assert Zeros(32768 - off) == seq(32768 - off, _ => 0 as Byte);
    var f := Physical(extend, TypeOf(begin, k == |data|), data[..k]);
    var rest := if k == |data| then [] else Emit(extend, Base(off) + 7 + k, data[k..], false);
    Grouped(Zeros(32768 - off), f, rest);
    assert [] + f + rest == f + rest;
  }

  lemma EndCase(extend: Checksum, off: nat, data: Bytes, begin: bool)
    requires off + 7 + |data| <= 32768
    ensures Emit(extend, off, data, begin) == Physical(extend, if begin then 1 else 4, data)
  {
    hide Physical, Emit;
    EmitUnfolds(extend, off, data, begin);
    assert data[..|data|] == data && Zeros(0) == [];
    assert [] + Physical(extend, TypeOf(begin, true), data) + [] == Physical(extend, TypeOf(begin, true), data);
  }

  lemma FillCase(extend: Checksum, off: nat, data: Bytes, begin: bool)
    requires off <= 32761 < off + |data|
    ensures Emit(extend, off, data, begin)
            == Physical(extend, if begin then 2 else 3, data[..32761 - off])
               + Emit(extend, 32768, data[32761 - off..], false)
  {
    hide Physical, Emit;
    EmitUnfolds(extend, off, data, begin);
    assert Zeros(0) == [] && FragmentLength(off, |data|) == 32761 - off && Base(off) == off;
    var f := Physical(extend, TypeOf(begin, false), data[..32761 - off]);
    assert [] + f == f;
  }

  /** The file after these records. */
  function FileOf(extend: Checksum, rs: seq<Bytes>): Bytes {
    if rs == [] then []
    else
      var before := FileOf(extend, rs[..|rs| - 1]);
      before + Emit(extend, InBlock(|before|), rs[|rs| - 1], true)
  }

  // ---- appends, and what a failed one leaves ----

  /** A log file and where the writer believes it stands in its block. */
  datatype LogState = LogState(file: Bytes, off: nat)

  /** One call of AddRecord.  `room` is how many bytes the file takes during the call before a
      write to it fails. */
  datatype Attempt = Attempt(slice: Bytes, room: nat)

  /** The bytes of s that get through. */
  function Through(s: Bytes, room: nat): Bytes {
    if |s| <= room then s else s[..room]
  }

  /** block_offset_ afterwards: it counts the fragment that failed, too. */
  function BlockOffset(off: nat, left: nat, room: nat): (r: nat)
    requires off <= BLOCK
    ensures r <= BLOCK
    decreases left, BLOCK - off
  {
    var k := FragmentLength(off, left);
    var end, size := Base(off) + HEADER_SIZE + k, Pad(off) + HEADER_SIZE + k;
    if k == left || room < size then end else BlockOffset(end, left - k, room - size)
  }

  predicate Succeeds(extend: Checksum, st: LogState, a: Attempt)
    requires st.off <= BLOCK
  {
    |Emit(extend, st.off, a.slice, true)| <= a.room
  }

  function After(extend: Checksum, st: LogState, a: Attempt): (st': LogState)
    requires st.off <= BLOCK
    ensures st'.off <= BLOCK && st.file <= st'.file
  {
    LogState(st.file + Through(Emit(extend, st.off, a.slice, true), a.room), BlockOffset(st.off, |a.slice|, a.room))
  }

  /** The file is what writing these records without a failure makes it. */
  ghost predicate Holds(extend: Checksum, st: LogState, rs: seq<Bytes>) {
    && st.off <= BLOCK && InBlock(st.off) == InBlock(|st.file|)
    && st.file == FileOf(extend, rs)
  }

  /** Without a failure the writer stands where the file ends. */
  lemma {:induction false} OffsetFollows(extend: Checksum, off: nat, data: Bytes, begin: bool, room: nat)
    requires off <= BLOCK && |Emit(extend, off, data, begin)| <= room
    ensures InBlock(BlockOffset(off, |data|, room)) == InBlock(off + |Emit(extend, off, data, begin)|)
    decreases |data|, BLOCK - off
  {
    hide InBlock, Fragment;
    var k := FragmentLength(off, |data|);
    var end, size := Base(off) + HEADER_SIZE + k, Pad(off) + HEADER_SIZE + k;
    assert |Fragment(extend, off, data, begin)| == size;
    SameEnd(off, k);
    if k < |data| {
      OffsetFollows(extend, end, data[k..], false, room - size);
      SameShift(end, off + size, |Emit(extend, end, data[k..], false)|);
    }
  }

  /** Padding takes the writer to the start of the next block. */
  lemma SameEnd(off: nat, k: nat)
    requires off <= BLOCK
    ensures InBlock(Base(off) + HEADER_SIZE + k) == InBlock(off + (Pad(off) + HEADER_SIZE + k))
  {
  }

  lemma HoldsGrows(extend: Checksum, st: LogState, a: Attempt, rs: seq<Bytes>)
    requires Holds(extend, st, rs) && Succeeds(extend, st, a)
    ensures Holds(extend, After(extend, st, a), rs + [a.slice])
  {
    hide InBlock, Emit, FileOf;
    StartsAnywhere(extend, st.off, st.file, a.slice);
    OneMore(extend, rs, a.slice);
    OffsetFollows(extend, st.off, a.slice, true, a.room);
    SameShift(st.off, |st.file|, |Emit(extend, st.off, a.slice, true)|);
  }

  /** kWritableFileBufferSize */
  const FILE_BUFFER: nat := 65536

  class Writer {
    const extend: Checksum
    var dest: Bytes      // the file
    var pending: Bytes   // what the file object still has in its buffer
    var blockOffset: nat

    ghost predicate Valid()
      reads this
    {
      Lawful(extend) && blockOffset <= BLOCK && pending == []
    }

    ghost function State(): LogState
      reads this
    {
      LogState(dest, blockOffset)
    }

    /** On a new file, or one of this length that is appended to. */
    constructor (extend: Checksum, dest: Bytes)
      requires Lawful(extend)
      ensures Valid() && this.extend == extend && State() == LogState(dest, InBlock(|dest|))
      ensures forall rs :: dest == FileOf(extend, rs) ==> Holds(extend, State(), rs)
    {
      hide FileOf;
      InBlockTwice(|dest|);
      this.extend := extend;
      this.dest, pending := dest, [];
      blockOffset := InBlock(|dest|);
    }

    /** The loop ends with the first fragment that fails.  What gets through to the file is a
        front part of the record's bytes; block_offset_ moves on all the same. */
    method AddRecord(slice: Bytes, room: nat) returns (ok: bool)
      requires Valid()
      modifies this
      ensures Valid() && State() == After(extend, old(State()), Attempt(slice, room))
      ensures ok <==> Succeeds(extend, old(State()), Attempt(slice, room))
      ensures forall rs :: ok && Holds(extend, old(State()), rs) ==> Holds(extend, State(), rs + [slice])
    {
      hide Emit, FileOf, Fragment, Physical, InBlock, BlockOffset, Through, Holds, Remains, Succeeds, After;
      var ptr, left: nat := slice, room;
      var begin := true;
      ghost var start := State();
      ok := true;
      var more := true;
      NothingDone(extend, start, Attempt(slice, room));
      while ok && more
        invariant Valid()
        invariant Remains(extend, start, Attempt(slice, room), State(), ptr, begin, left, ok, more)
        modifies this`dest, this`pending, this`blockOffset
        decreases ok && more, |ptr|, BLOCK - blockOffset
      {
        ghost var was := State();
        var size := |dest|;
        var leftover := BLOCK - blockOffset;
        if leftover < HEADER_SIZE {
          if leftover > 0 {
            Append(Zeros(leftover));
          }
          blockOffset := 0;
        }
        FragmentIs(extend, was.off, ptr, begin, pending);
        var avail := BLOCK - blockOffset - HEADER_SIZE;
        var fragmentLength := if |ptr| < avail then |ptr| else avail;
        var end := |ptr| == fragmentLength;
        ok := EmitPhysicalRecord(TypeOf(begin, end), ptr[..fragmentLength], left);
        RemainsStep(extend, start, Attempt(slice, room), was, ptr, begin, left);
        left := if ok then left - (|dest| - size) else 0;
        ptr := ptr[fragmentLength..];
        begin := false;
        more := |ptr| > 0;
      }
      AllDone(extend, start, Attempt(slice, room), State(), ptr, begin, left, ok, more);
      forall rs | ok && Holds(extend, start, rs)
        ensures Holds(extend, State(), rs + [slice])
      {
        HoldsGrows(extend, start, Attempt(slice, room), rs);
      }
    }

    /** Header, payload and flush.  What was pending goes first. */
    method EmitPhysicalRecord(t: Byte, payload: Bytes, room: nat) returns (ok: bool)
      requires Lawful(extend) && blockOffset + HEADER_SIZE + |payload| <= BLOCK && |pending| < HEADER_SIZE
      modifies this`dest, this`pending, this`blockOffset
      ensures pending == [] && dest == old(dest) + Through(old(pending) + Physical(extend, t, payload), room)
      ensures ok <==> |old(pending)| + HEADER_SIZE + |payload| <= room
      ensures blockOffset == old(blockOffset) + HEADER_SIZE + |payload|
    {
      hide Physical, Mask, Fixed, Through;
      var crc := extend(extend(0, [t]), payload);
      PhysicalIs(extend, t, payload);
      var masked := Mask(crc);
      var header := Fixed(masked, 4) + [|payload| % 256, |payload| / 256, t];
      Grouped(pending, header, payload);
      Append(header);
      Append(payload);
      ok := Flush(room);
      blockOffset := blockOffset + HEADER_SIZE + |payload|;
    }

    /** PosixWritableFile::Append: all that comes between two flushes fits in the buffer. */
    method Append(data: Bytes)
      requires |pending| + |data| <= FILE_BUFFER
      modifies this`pending
      ensures pending == old(pending) + data
    {
      pending := pending + data;
    }

    /** PosixWritableFile::FlushBuffer: after an error the rest of the buffer is forgotten. */
    method Flush(room: nat) returns (ok: bool)
      modifies this`dest, this`pending
      ensures ok <==> |old(pending)| <= room
      ensures pending == [] && dest == old(dest) + Through(old(pending), room)
    {
      ok := |pending| <= room;
      dest := dest + Through(pending, room);
      pending := [];
    }
  }

  /** What the loop of AddRecord has left to do for its promise. */
  ghost predicate Remains(extend: Checksum, start: LogState, a: Attempt, now: LogState, ptr: Bytes, begin: bool,
                          left: nat, ok: bool, more: bool)
    requires start.off <= BLOCK && now.off <= BLOCK
  {
    var promised := After(extend, start, a);
    if ok && more then
      var rest := Emit(extend, now.off, ptr, begin);
      && now.file + Through(rest, left) == promised.file && BlockOffset(now.off, |ptr|, left) == promised.off
      && (|rest| <= left <==> Succeeds(extend, start, a))
    else
      now == promised && (ok <==> Succeeds(extend, start, a))
  }

  lemma NothingDone(extend: Checksum, start: LogState, a: Attempt)
    requires start.off <= BLOCK
    ensures Remains(extend, start, a, start, a.slice, true, a.room, true, true)
  {
  }

  lemma AllDone(extend: Checksum, start: LogState, a: Attempt, now: LogState, ptr: Bytes, begin: bool,
                left: nat, ok: bool, more: bool)
    requires start.off <= BLOCK && now.off <= BLOCK && Remains(extend, start, a, now, ptr, begin, left, ok, more)
    requires !(ok && more)
    ensures now == After(extend, start, a) && (ok <==> Succeeds(extend, start, a))
  {
  }

  /** One fragment written, as far as there is room. */
  lemma RemainsStep(extend: Checksum, start: LogState, a: Attempt, was: LogState, ptr: Bytes, begin: bool, left: nat)
    requires start.off <= BLOCK && was.off <= BLOCK && Remains(extend, start, a, was, ptr, begin, left, true, true)
    ensures var k := FragmentLength(was.off, |ptr|);
            var f, end := Fragment(extend, was.off, ptr, begin), Base(was.off) + HEADER_SIZE + k;
            var now := LogState(was.file + Through(f, left), end);
            if left < |f| then Remains(extend, start, a, now, ptr[k..], false, 0, false, k < |ptr|)
            else Remains(extend, start, a, now, ptr[k..], false, left - |f|, true, k < |ptr|)
    ensures var f := Fragment(extend, was.off, ptr, begin); |Through(f, left)| == if |f| <= left then |f| else left
  {
    hide Remains, Fragment, Through;
    var k := FragmentLength(was.off, |ptr|);
    var f := Fragment(extend, was.off, ptr, begin);
    if left < |f| || k == |ptr| {
      LastFragment(extend, start, a, was, ptr, begin, left, f);
    } else {
      OneFragment(extend, start, a, was, ptr, begin, left, f);
    }
  }

  lemma LastFragment(extend: Checksum, start: LogState, a: Attempt, was: LogState, ptr: Bytes, begin: bool, left: nat,
                     f: Bytes)
    requires start.off <= BLOCK && was.off <= BLOCK && Remains(extend, start, a, was, ptr, begin, left, true, true)
    requires f == Fragment(extend, was.off, ptr, begin) && (left < |f| || FragmentLength(was.off, |ptr|) == |ptr|)
    ensures var k := FragmentLength(was.off, |ptr|);
            LogState(was.file + Through(f, left), Base(was.off) + HEADER_SIZE + k) == After(extend, start, a)
    ensures |f| <= left <==> Succeeds(extend, start, a)
    ensures |Through(f, left)| == if |f| <= left then |f| else left
    ensures forall now, p, b, l, ok, m :: now == After(extend, start, a) && !(ok && m) && (ok <==> |f| <= left) ==>
              Remains(extend, start, a, now, p, b, l, ok, m)
  {
    hide Fragment, After, Succeeds, Through, Emit, BlockOffset, FragmentLength;
    EmitParts(extend, was.off, ptr, begin, left);
    var k := FragmentLength(was.off, |ptr|);
    LastPart(f, if k == |ptr| then [] else Emit(extend, Base(was.off) + HEADER_SIZE + k, ptr[k..], false), left);
  }

  lemma OneFragment(extend: Checksum, start: LogState, a: Attempt, was: LogState, ptr: Bytes, begin: bool, left: nat,
                    f: Bytes)
    requires start.off <= BLOCK && was.off <= BLOCK && Remains(extend, start, a, was, ptr, begin, left, true, true)
    requires f == Fragment(extend, was.off, ptr, begin) && |f| <= left && FragmentLength(was.off, |ptr|) < |ptr|
    ensures var k := FragmentLength(was.off, |ptr|);
            var now := LogState(was.file + Through(f, left), Base(was.off) + HEADER_SIZE + k);
            Remains(extend, start, a, now, ptr[k..], false, left - |f|, true, true)
    ensures |Through(f, left)| == |f|
  {
    hide Fragment, After, Succeeds, Through, Emit, BlockOffset, FragmentLength;
    EmitParts(extend, was.off, ptr, begin, left);
    var k := FragmentLength(was.off, |ptr|);
    ThroughParts(was.file, f, Emit(extend, Base(was.off) + HEADER_SIZE + k, ptr[k..], false), left);
  }

  lemma LastPart(f: Bytes, rest: Bytes, room: nat)
    requires room < |f| || rest == []
    ensures Through(f + rest, room) == Through(f, room) && (|f + rest| <= room <==> |f| <= room)
    ensures |Through(f, room)| == if |f| <= room then |f| else room
  {
    if rest == [] {
      assert f + rest == f;
    }
  }

  lemma ThroughParts(file: Bytes, f: Bytes, rest: Bytes, room: nat)
    requires |f| <= room
    ensures file + Through(f + rest, room) == file + Through(f, room) + Through(rest, room - |f|)
    ensures |f + rest| <= room <==> |rest| <= room - |f|
    ensures |Through(f, room)| == |f|
  {
  }

  lemma EmitParts(extend: Checksum, off: nat, data: Bytes, begin: bool, room: nat)
    requires off <= BLOCK
    ensures var k := FragmentLength(off, |data|);
            var f, end := Fragment(extend, off, data, begin), Base(off) + HEADER_SIZE + k;
            && k <= |data| && end <= BLOCK
            && Emit(extend, off, data, begin) == f + (if k == |data| then [] else Emit(extend, end, data[k..], false))
            && BlockOffset(off, |data|, room)
               == if k == |data| || room < |f| then end else BlockOffset(end, |data| - k, room - |f|)
  {
    hide Fragment;
    assert |Fragment(extend, off, data, begin)| == Pad(off) + HEADER_SIZE + FragmentLength(off, |data|);
  }

  /** The fragment is what is pending and the physical record. */
  lemma FragmentIs(extend: Checksum, off: nat, data: Bytes, begin: bool, pending: Bytes)
    requires off <= BLOCK && pending == if Pad(off) > 0 then [] + Zeros(Pad(off)) else []
    ensures var k := FragmentLength(off, |data|);
            Fragment(extend, off, data, begin) == pending + Physical(extend, TypeOf(begin, k == |data|), data[..k])
    ensures |pending| == Pad(off) < HEADER_SIZE
  {
    hide Physical;
  }

  lemma InBlockTwice(p: nat)
    ensures InBlock(InBlock(p)) == InBlock(p) < BLOCK
  {
  }

  lemma SameShift(a: nat, b: nat, n: nat)
    requires InBlock(a) == InBlock(b)
    ensures InBlock(a + n) == InBlock(b + n)
  {
  }

  /** The checksum covers the type and the payload. */
  lemma PhysicalIs(extend: Checksum, t: Byte, payload: Bytes)
    requires Lawful(extend) && |payload| < 0x1_0000
    ensures var crc := extend(extend(0, [t]), payload);
            && crc < MAX32
            && Physical(extend, t, payload) == Fixed(Mask(crc), 4) + [|payload| % 256, |payload| / 256, t] + payload
    ensures |Physical(extend, t, payload)| == HEADER_SIZE + |payload|
  {
    hide Mask, Fixed;
    assert extend(extend(0, [t]), payload) == extend(0, [t] + payload);
  }

  lemma Grouped(a: Bytes, b: Bytes, c: Bytes)
    ensures a + b + c == a + (b + c)
  {
  }

  lemma StartsAnywhere(extend: Checksum, off: nat, dest: Bytes, slice: Bytes)
    requires off <= BLOCK && InBlock(off) == InBlock(|dest|)
    ensures Emit(extend, off, slice, true) == Emit(extend, InBlock(|dest|), slice, true)
  {
    hide Emit;
    assert off < BLOCK ==> InBlock(off) == off;
    if off == BLOCK {
      EmitWraps(extend, slice, true);
    }
  }

  lemma OneMore(extend: Checksum, rs: seq<Bytes>, slice: Bytes)
    ensures FileOf(extend, rs + [slice])
            == FileOf(extend, rs) + Emit(extend, InBlock(|FileOf(extend, rs)|), slice, true)
  {
    assert (rs + [slice])[..|rs|] == rs;
  }
}
