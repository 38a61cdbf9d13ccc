/** What the log reader makes of any file, damaged or not (db/log_reader.cc), told over the
    physical records it meets one after the other: which of them a record is put together from,
    and what is reported of the others.
 */
module LogRuns {
  import opened Coding
  import opened Comparator
  import opened LogContents
  import opened LogFormat
  import opened Options

  // ---- one physical record ----

  /** The stored checksum fits exactly if it is the masked checksum of type and payload. */
  lemma FitsIff(extend: Checksum, file: Bytes, q: nat, length: nat)
    requires Lawful(extend) && q + HEADER_SIZE + length <= |file|
    ensures ChecksumFits(extend, file, q, length)
            <==> file[q..q + 4] == Fixed(Mask(extend(0, file[q + 6..q + 7 + length])), 4)
  {
    hide Mask, Unmask, Unfixed, Fixed;
    StoredBound(file, q);
    SumFits(file[q..q + 4], extend(0, file[q + 6..q + 7 + length]));
  }

  lemma Places(file: Bytes, p: nat, q: nat, end: nat)
    requires p <= |file|
    requires q == if p % 32768 > 32761 && p - p % 32768 + 32768 <= |file| then p - p % 32768 + 32768 else p
    requires end == if q - q % 32768 + 32768 <= |file| then q - q % 32768 + 32768 else |file|
    ensures Start(file, p) == q && BufferEnd(file, q) == end && BlockEnd(q) == q - q % 32768 + 32768
  {
  }

  /** What is made of the bytes at p: q is where the next header would be, the block's last few
      bytes skipped, and `end` where its block or the file ends.  The header must be there and the
      payload must end in the block; a checksum that does not fit costs the rest of the block. */
  lemma PieceCases(extend: Checksum, checksum: bool, file: Bytes, p: nat, q: nat, end: nat)
    requires Lawful(extend) && p <= |file|
    requires q == if p % 32768 > 32761 && p - p % 32768 + 32768 <= |file| then p - p % 32768 + 32768 else p
    requires end == if q - q % 32768 + 32768 <= |file| then q - q % 32768 + 32768 else |file|
    ensures var r := NextPiece(extend, checksum, file, p);
            if end - q < 7 then r == Piece(5, [], |file|, [])
            else
              var length := file[q + 4] as int + 256 * file[q + 5] as int;
              if q + 7 + length > end then
                r == if q - q % 32768 + 32768 <= |file| then Piece(6, [], end, [end - q]) else Piece(5, [], |file|, [])
              else if file[q + 6] == 0 && length == 0 then r == Piece(6, [], end, [])
              else if checksum && file[q..q + 4] != Fixed(Mask(extend(0, file[q + 6..q + 7 + length])), 4) then
                r == Piece(6, [], end, [end - q])
              else r == Piece(file[q + 6], file[q + 7..q + 7 + length], q + 7 + length, [])
  {
    hide Mask, Unmask, Unfixed, Fixed, ChecksumFits, Start, BufferEnd, BlockEnd;
    Places(file, p, q, end);
    if end - q >= 7 && q + 7 + StoredLength(file, q) <= end {
      FitsIff(extend, file, q, StoredLength(file, q));
    }
  }

  // ---- records ----

  /** The physical records met from p on, one after the other, up to the end of the file at most. */
  ghost predicate Walk(extend: Checksum, checksum: bool, file: Bytes, p: nat, ps: seq<Piece>) {
    && (forall k :: 0 <= k < |ps| ==> Follows(extend, checksum, file, p, ps, k))
    && forall k :: 0 <= k < |ps| - 1 ==> ps[k].kind != 5
  }

  /** Each is read where the one before it ends. */
  ghost predicate Follows(extend: Checksum, checksum: bool, file: Bytes, p: nat, ps: seq<Piece>, k: nat)
    requires k < |ps|
  {
    var q := if k == 0 then p else ps[k - 1].next;
    q <= |file| && ps[k] == NextPiece(extend, checksum, file, q)
  }

  /** Just before record k a record is going that began at a: a FIRST, then only MIDDLEs. */
  ghost predicate Going(ps: seq<Piece>, a: nat, k: nat) {
    a < k <= |ps| && ps[a].kind == 2 && forall i :: a < i < k ==> ps[i].kind == 3
  }

  /** A record from a to k: one FULL, or a FIRST, any number of MIDDLEs and a LAST. */
  ghost predicate IsRecord(ps: seq<Piece>, a: nat, k: nat) {
    k < |ps| && ((a == k && ps[k].kind == 1) || (Going(ps, a, k) && ps[k].kind == 4))
  }

  /** The payloads one after the other. */
  ghost function Payload(ps: seq<Piece>): Bytes {
    if ps == [] then [] else Payload(ps[..|ps| - 1]) + ps[|ps| - 1].payload
  }

  ghost function Joined(lost: seq<seq<nat>>): seq<nat> {
    if lost == [] then [] else Joined(lost[..|lost| - 1]) + lost[|lost| - 1]
  }

  /** What is reported at physical record x when `gone` bytes are gathered of a record.  One that
      x does not carry on is reported whole; given up for a new one, only if it is not empty. */
  ghost predicate GivenUp(x: Piece, gone: nat, lost: seq<nat>) {
    lost == x.lost + if x.kind == 1 || x.kind == 2 then if gone > 0 then [gone] else []
                     else if x.kind == 3 || x.kind == 4 || x.kind == 5 then []
                     else if x.kind == 6 then [gone] else [|x.payload| + gone]
  }

  /** ... and when no record is going: a MIDDLE or LAST, or an unknown type, is lost. */
  ghost predicate Stray(x: Piece, lost: seq<nat>) {
    lost == x.lost + if x.kind == 1 || x.kind == 2 || x.kind == 5 || x.kind == 6 then [] else [|x.payload|]
  }

  ghost predicate ReportsAt(ps: seq<Piece>, k: nat, lost: seq<nat>)
    requires k < |ps|
  {
    && (forall a: nat :: Going(ps, a, k) ==> GivenUp(ps[k], |Payload(ps[a..k])|, lost))
    && ((forall a: nat :: !Going(ps, a, k)) ==> Stray(ps[k], lost))
  }

  ghost predicate Reports(ps: seq<Piece>, lost: seq<seq<nat>>) {
    |lost| == |ps| && forall k :: 0 <= k < |ps| ==> ReportsAt(ps, k, lost[k])
  }

  /** What has been gathered by the end of ps is the record going there, begun at a. */
  ghost predicate Holds(ps: seq<Piece>, scratch: Option<Bytes>, a: nat) {
    match scratch
    case None => forall i: nat :: !Going(ps, i, |ps|)
    case Some(s) => Going(ps, a, |ps|) && s == Payload(ps[a..])
  }

  lemma GoingBefore(ps: seq<Piece>, x: Piece, a: nat, k: nat)
    requires k <= |ps|
    ensures Going(ps + [x], a, k) <==> Going(ps, a, k)
  {
    if a < k {
      assert forall i :: a <= i < k ==> (ps + [x])[i] == ps[i];
      if Going(ps + [x], a, k) {
        forall i | a < i < k
          ensures ps[i].kind == 3
        {
          assert (ps + [x])[i].kind == 3;
        }
      }
    }
  }

  lemma GoingOn(ps: seq<Piece>, x: Piece, a: nat)
    ensures Going(ps + [x], a, |ps| + 1) <==> (x.kind == 2 && a == |ps|) || (x.kind == 3 && Going(ps, a, |ps|))
  {
    var more := ps + [x];
    assert more[|ps|] == x;
    if a < |ps| {
      assert more[a] == ps[a];
      if Going(more, a, |ps| + 1) {
        assert more[|ps|].kind == 3;
        assert Going(more, a, |ps|);
      }
      GoingBefore(ps, x, a, |ps|);
    }
  }

  /** Only one record is going at a time. */
  lemma OneGoing(ps: seq<Piece>, a: nat, b: nat, k: nat)
    requires Going(ps, a, k) && Going(ps, b, k)
    ensures a == b
  {
  }

  lemma SliceBefore(ps: seq<Piece>, x: Piece, a: nat, k: nat)
    requires a <= k <= |ps|
    ensures (ps + [x])[a..k] == ps[a..k]
  {
  }

  lemma PayloadMore(ps: seq<Piece>, x: Piece)
    ensures Payload(ps + [x]) == Payload(ps) + x.payload
  {
    assert (ps + [x])[..|ps|] == ps;
  }

  lemma JoinedMore(lost: seq<seq<nat>>, x: seq<nat>)
    ensures Joined(lost + [x]) == Joined(lost) + x
  {
    assert (lost + [x])[..|lost|] == lost;
  }

  /** One more physical record, and what is gathered then. */
  lemma GatherMore(ps: seq<Piece>, x: Piece, scratch: Option<Bytes>, a: nat) returns (a': nat)
    requires Holds(ps, scratch, a)
    ensures Holds(ps + [x], Gather(x, scratch), a')
  {
    hide Going, Payload;
    var more := ps + [x];
    forall i: nat
      ensures Going(more, i, |more|) <==> (x.kind == 2 && i == |ps|) || (x.kind == 3 && Going(ps, i, |ps|))
    {
      GoingOn(ps, x, i);
    }
    a' := if x.kind == 2 then |ps| else a;
    if x.kind == 2 {
      Alone(ps, x);
      assert Going(more, a', |more|);
    } else if x.kind == 3 && scratch.Some? {
      GoingEnds(ps, a, |ps|);
      Carried(ps, x, a);
      assert Going(more, a', |more|);
    } else {
      assert Gather(x, scratch) == None;
      assert forall i: nat :: !Going(more, i, |more|);
    }
  }

  lemma Alone(ps: seq<Piece>, x: Piece)
    ensures Payload((ps + [x])[|ps|..]) == x.payload
  {
    assert (ps + [x])[|ps|..] == [] + [x];
    PayloadMore([], x);
    assert Payload([]) == [];
  }

  lemma Carried(ps: seq<Piece>, x: Piece, a: nat)
    requires a <= |ps|
    ensures Payload((ps + [x])[a..]) == Payload(ps[a..]) + x.payload
  {
    assert (ps + [x])[a..] == ps[a..] + [x];
    PayloadMore(ps[a..], x);
  }

  lemma GoingEnds(ps: seq<Piece>, a: nat, k: nat)
    requires Going(ps, a, k)
    ensures a < k <= |ps|
  {
  }

  lemma ReportMore(ps: seq<Piece>, x: Piece, scratch: Option<Bytes>, a: nat)
    requires Holds(ps, scratch, a)
    ensures ReportsAt(ps + [x], |ps|, x.lost + Reported(x, scratch))
  {
    hide Going, Payload;
    var more := ps + [x];
    assert more[|ps|] == x;
    forall i: nat
      ensures Going(more, i, |ps|) <==> Going(ps, i, |ps|)
    {
      GoingBefore(ps, x, i, |ps|);
    }
    if scratch.Some? {
      GoingEnds(ps, a, |ps|);
      forall i: nat | Going(more, i, |ps|)
        ensures i == a && more[i..|ps|] == ps[a..]
      {
        OneGoing(ps, i, a, |ps|);
        SliceBefore(ps, x, a, |ps|);
      }
      assert Going(more, a, |ps|);
    }
  }

  lemma ReportsBefore(ps: seq<Piece>, x: Piece, k: nat, lost: seq<nat>)
    requires k < |ps| && ReportsAt(ps, k, lost)
    ensures ReportsAt(ps + [x], k, lost)
  {
    hide Going;
    var more := ps + [x];
    assert more[k] == ps[k];
    forall i: nat
      ensures Going(more, i, k) <==> Going(ps, i, k)
      ensures Going(more, i, k) ==> i <= k && more[i..k] == ps[i..k]
    {
      GoingBefore(ps, x, i, k);
      if Going(more, i, k) {
        GoingEnds(ps, i, k);
        SliceBefore(ps, x, i, k);
      }
    }
  }

  lemma ReportsMore(ps: seq<Piece>, lost: seq<seq<nat>>, x: Piece, scratch: Option<Bytes>, a: nat)
    requires Reports(ps, lost) && Holds(ps, scratch, a)
    ensures Reports(ps + [x], lost + [x.lost + Reported(x, scratch)])
  {
    hide ReportsAt, Reported, Holds;
    var more, all := ps + [x], lost + [x.lost + Reported(x, scratch)];
    forall k | 0 <= k < |more|
      ensures ReportsAt(more, k, all[k])
    {
      if k < |ps| {
        assert all[k] == lost[k];
        ReportsBefore(ps, x, k, lost[k]);
      } else {
        ReportMore(ps, x, scratch, a);
      }
    }
  }

  ghost function Standing(p: nat, ps: seq<Piece>): nat {
    if ps == [] then p else ps[|ps| - 1].next
  }

  lemma WalkMore(extend: Checksum, checksum: bool, file: Bytes, p: nat, ps: seq<Piece>)
    requires p <= |file| && Walk(extend, checksum, file, p, ps) && (ps != [] ==> ps[|ps| - 1].kind != 5)
    requires Standing(p, ps) <= |file|
    ensures Walk(extend, checksum, file, p, ps + [NextPiece(extend, checksum, file, Standing(p, ps))])
  {
    hide NextPiece;
    var x := NextPiece(extend, checksum, file, Standing(p, ps));
    var more := ps + [x];
    forall k | 0 <= k < |more|
      ensures Follows(extend, checksum, file, p, more, k)
      ensures k < |more| - 1 ==> more[k].kind != 5
    {
      if k < |ps| {
        assert Follows(extend, checksum, file, p, ps, k);
        assert more[k] == ps[k] && (k > 0 ==> more[k - 1] == ps[k - 1]);
      }
    }
  }

  /** No record ends among these physical records. */
  ghost predicate NoneYet(ps: seq<Piece>) {
    forall a: nat, k: nat {:trigger IsRecord(ps, a, k)} :: !IsRecord(ps, a, k)
  }

  lemma RecordMore(ps: seq<Piece>, x: Piece, scratch: Option<Bytes>, a: nat)
    requires NoneYet(ps) && Holds(ps, scratch, a)
    ensures forall i: nat, k: nat {:trigger IsRecord(ps + [x], i, k)} :: IsRecord(ps + [x], i, k) ==> k == |ps|
    ensures Completed(x, scratch).None? ==> NoneYet(ps + [x])
    ensures Completed(x, scratch).Some? ==>
              var i := if x.kind == 1 then |ps| else a;
              IsRecord(ps + [x], i, |ps|) && Completed(x, scratch).value == Payload((ps + [x])[i..])
  {
    hide Going;
    var more := ps + [x];
    assert more[|ps|] == x;
    forall i: nat, k: nat
      ensures IsRecord(more, i, k) ==> k == |ps| && (x.kind == 1 || (x.kind == 4 && Going(ps, i, |ps|)))
    {
      if k < |ps| {
        assert more[k] == ps[k];
        GoingBefore(ps, x, i, k);
        assert !IsRecord(ps, i, k);
      } else if k == |ps| {
        GoingBefore(ps, x, i, k);
      }
    }
    if x.kind == 1 {
      Alone(ps, x);
    } else if x.kind == 4 && scratch.Some? {
      GoingBefore(ps, x, a, |ps|);
      GoingEnds(ps, a, |ps|);
      Carried(ps, x, a);
    }
  }

  lemma {:induction false} ReadFrom(extend: Checksum, checksum: bool, file: Bytes, p: nat, done: seq<Piece>,
                                    lostThen: seq<seq<nat>>, scratch: Option<Bytes>, a: nat)
    returns (ps: seq<Piece>, lost: seq<seq<nat>>, b: nat)
    requires p <= |file| && Walk(extend, checksum, file, p, done) && (done != [] ==> done[|done| - 1].kind != 5)
    requires NoneYet(done) && Holds(done, scratch, a) && Reports(done, lostThen) && Standing(p, done) <= |file|
    ensures Walk(extend, checksum, file, p, ps) && ps != [] && Reports(ps, lost)
    ensures forall i: nat, k: nat {:trigger IsRecord(ps, i, k)} :: IsRecord(ps, i, k) ==> k == |ps| - 1
    ensures var r, last := ReadOn(extend, checksum, file, Standing(p, done), scratch), |ps| - 1;
            && r.next == ps[last].next && Joined(lostThen) + r.lost == Joined(lost)
            && (r.record.Some? ==> IsRecord(ps, b, last) && r.record.value == Payload(ps[b..]))
            && (r.record.None? ==> ps[last].kind == 5 && NoneYet(ps))
    decreases |file| - Standing(p, done)
  {
    hide NextPiece, Walk, Holds, Reported, Gather, Completed, IsRecord, NoneYet, ReportsAt, Reports;
    var x := NextPiece(extend, checksum, file, Standing(p, done));
    WalkMore(extend, checksum, file, p, done);
    RecordMore(done, x, scratch, a);
    ReportsMore(done, lostThen, x, scratch, a);
    ps, lost := done + [x], lostThen + [x.lost + Reported(x, scratch)];
    JoinedMore(lostThen, x.lost + Reported(x, scratch));
    var rest := ReadOn(extend, checksum, file, Standing(p, done), scratch);
    if x.kind == 5 || Completed(x, scratch).Some? {
      b := if x.kind == 1 then |done| else a;
      CompletedKinds(x, scratch);
    } else {
      var a' := GatherMore(done, x, scratch, a);
      var lostSoFar := lost;
      ps, lost, b := ReadFrom(extend, checksum, file, p, ps, lost, Gather(x, scratch), a');
    }
  }

  lemma CompletedKinds(x: Piece, scratch: Option<Bytes>)
    ensures Completed(x, scratch).Some? ==> x.kind == 1 || x.kind == 4
  {
  }

  lemma WalkStarts(extend: Checksum, checksum: bool, file: Bytes, p: nat)
    ensures Walk(extend, checksum, file, p, [])
  {
  }

  /** ReadRecord, from wherever it stands, on any file: it goes on to the first physical record
      that ends a record and returns exactly the payloads of that record's fragments, which stand
      one after the other with nothing between them; or to the end of the file, when none does.
      What is reported is what is reported of each physical record on the way. */
  lemma RecordIsRun(extend: Checksum, checksum: bool, file: Bytes, p: nat)
    returns (ps: seq<Piece>, lost: seq<seq<nat>>, a: nat)
    requires p <= |file|
    ensures Walk(extend, checksum, file, p, ps) && ps != []
    ensures forall i: nat, k: nat {:trigger IsRecord(ps, i, k)} :: IsRecord(ps, i, k) ==> k == |ps| - 1
    ensures var r, last := ReadOne(extend, checksum, file, p), |ps| - 1;
            && r.next == ps[last].next
            && (r.record.Some? ==> IsRecord(ps, a, last) && r.record.value == Payload(ps[a..]))
            && (r.record.None? ==> ps[last].kind == 5 && forall i: nat :: !IsRecord(ps, i, last))
            && Reports(ps, lost) && r.lost == Joined(lost)
  {
    hide ReadOn, Walk, Payload;
    WalkStarts(extend, checksum, file, p);
    ps, lost, a := ReadFrom(extend, checksum, file, p, [], [], None, 0);
    assert Joined([]) == [];
  }

  /** Each reading starts where the one before it stopped. */
  ghost predicate ReadsOn(extend: Checksum, checksum: bool, file: Bytes, p: nat, rs: seq<Reading>, k: nat)
    requires k < |rs|
  {
    var q := if k == 0 then p else rs[k - 1].next;
    q <= |file| && rs[k] == ReadOne(extend, checksum, file, q)
  }

  ghost function Losses(rs: seq<Reading>): seq<nat> {
    if rs == [] then [] else rs[0].lost + Losses(rs[1..])
  }

  /** The loop of recovery: readings one after the other, the first that finds no record being the
      last; the records come out in order and everything reported on the way is. */
  lemma {:induction false} ReplayIsReadings(extend: Checksum, checksum: bool, file: Bytes, p: nat)
    returns (rs: seq<Reading>)
    requires p <= |file|
    ensures rs != [] && forall k :: 0 <= k < |rs| ==> ReadsOn(extend, checksum, file, p, rs, k)
    ensures forall k :: 0 <= k < |rs| ==> (rs[k].record.Some? <==> k < |rs| - 1)
    ensures var r := ReplayFrom(extend, checksum, file, p);
            && |r.records| == |rs| - 1 && r.lost == Losses(rs)
            && forall k :: 0 <= k < |rs| - 1 ==> rs[k].record == Some(r.records[k])
    decreases |file| - p
  {
    hide ReadOne;
    var r := ReadOne(extend, checksum, file, p);
    rs := [r];
    if r.record.Some? {
      var more := ReplayIsReadings(extend, checksum, file, r.next);
      rs := [r] + more;
      assert rs[1..] == more;
      forall k | 0 <= k < |rs|
        ensures ReadsOn(extend, checksum, file, p, rs, k)
      {
        if k > 0 {
          assert ReadsOn(extend, checksum, file, r.next, more, k - 1);
          assert k > 1 ==> rs[k - 1] == more[k - 2];
        }
      }
    }
  }
}
