/** From the turns of Write to the bytes of a log and, after a crash, to a memtable: what was
    acknowledged comes back, as long as no append to the log failed before it
    (db/db_impl.cc, db/log_writer.cc, db/log_reader.cc).
 */
module Recovery {
  import opened Coding
  import opened Comparator
  import opened Dbformat
  import opened LogContents
  import opened LogDamage
  import opened LogFormat
  import opened Options
  import opened WriteBatches
  import Q = WriterQueues

  /** The appends to the log are those of the turns that wrote, with what came of them. */
  ghost predicate Logs(extend: Checksum, ts: seq<Q.Turn>, appends: seq<Attempt>) {
    if ts == [] then appends == []
    else
      var m := |ts| - 1;
      if ts[m].wrote then
        && appends != []
        && appends[|appends| - 1].slice == Rep(ts[m].first, ts[m].ops)
        && Statuses(extend, appends)[|appends| - 1] == ts[m].logged
        && Logs(extend, ts[..m], appends[..|appends| - 1])
      else Logs(extend, ts[..m], appends)
  }

  /** Every turn that wrote was logged and inserted, and the others left nothing. */
  ghost predicate NoneFailed(ts: seq<Q.Turn>) {
    && (forall i :: 0 <= i < |ts| ==> AllFit(ts[i].ops) && ts[i].first + |ts[i].ops| <= MAX_SEQUENCE + 1)
    && (forall i :: 0 <= i < |ts| ==> (ts[i].wrote ==> ts[i].logged && ts[i].outcome == Q.Done))
    && (forall i :: 0 <= i < |ts| ==> (!ts[i].wrote ==> !ts[i].logged && ts[i].ops == []))
  }

  lemma {:induction false} LogsClean(extend: Checksum, ts: seq<Q.Turn>, appends: seq<Attempt>)
    requires Logs(extend, ts, appends) && NoneFailed(ts)
    ensures AllOk(Statuses(extend, appends)) && Slices(appends) == Q.LogOf(ts)
  {
    hide Run, Succeeds, AllFit, Rep;
    if ts != [] {
      var m := |ts| - 1;
      if ts[m].wrote {
        LogsClean(extend, ts[..m], appends[..|appends| - 1]);
      } else {
        LogsClean(extend, ts[..m], appends);
        assert Q.LogOf(ts[..m]) + [] == Q.LogOf(ts[..m]);
      }
    }
  }

  lemma {:induction false} RecoveredGrows(log: seq<Bytes>, more: seq<Bytes>)
    requires log <= more
    ensures Q.Recovered(log) <= Q.Recovered(more)
    decreases |more|
  {
    hide Numbered, ReadOps, Sequence;
    if |log| < |more| {
      RecoveredGrows(log, more[..|more| - 1]);
    } else {
      assert log == more;
    }
  }

  /** The memtable of turns without a failure is recovered from the log's bytes, and is all
      of what is recovered if the log ends there.  It is still recovered, as the first part,
      whatever else has come to stand in the file: later records, torn ones, or neither. */
  lemma RecoveryAgrees(extend: Checksum, checksum: bool, ts: seq<Q.Turn>, appends: seq<Attempt>, file: Bytes)
    requires Lawful(extend) && NoneFailed(ts) && Logs(extend, ts, appends)
    requires Run(extend, appends).file <= file
    ensures Q.MemOf(ts) <= Q.Recovered(ReplayOf(extend, checksum, file).records)
    ensures file == Run(extend, appends).file ==> Q.MemOf(ts) == Q.Recovered(ReplayOf(extend, checksum, file).records)
  {
    hide Run, Statuses, Slices, Logs, ReplayOf, FileOf, Q.Recovered, Q.MemOf, Q.LogOf;
    LogsClean(extend, ts, appends);
    CleanRun(extend, appends);
    Q.RecordsGiveMem(ts);
    var rs := Slices(appends);
    WrittenIsRead(extend, checksum, file, rs);
    RecoveredGrows(rs, ReplayOf(extend, checksum, file).records);
    if file == FileOf(extend, rs) {
      var n := ReplayOfPrefix(extend, checksum, file, rs);
      WholeIsAll(extend, file, rs, n);
    }
  }

  lemma WholeIsAll(extend: Checksum, file: Bytes, rs: seq<Bytes>, n: nat)
    requires file == FileOf(extend, rs) && Whole(extend, file, rs, n)
    ensures rs[..n] == rs
  {
    hide FileOf;
    if n < |rs| {
      PrefixOfFile(extend, rs, n + 1);
    }
  }

  // ---- batches that make the difference ----

  /** A batch with one Put of the empty key and a value of zeros. */
  function ZeroPut(size: nat): seq<Op> {
    [PutOp([], LogFormat.Zeros(size))]
  }

  lemma ZeroPutBytes(first: nat, size: nat)
    ensures var s := Rep(first, ZeroPut(size));
            && MostlyZero(s) && HEADER + 3 + size <= |s| <= HEADER + 7 + size
            && (size < 128 ==> |s| == HEADER + 3 + size)
  {
    hide Varint, Fixed, Body, Rep, Low32;
    LengthBytes(size);
    var front := Fixed(first, 8) + Fixed(1, 4) + ([1] + Varint(Low32(0)) + Varint(Low32(size)));
    RepIs(first, size);
    FixedSizes(first);
    assert Rep(first, ZeroPut(size)) == front + LogFormat.Zeros(size);
  }

  lemma RepIs(first: nat, size: nat)
    ensures Rep(first, ZeroPut(size))
            == Fixed(first, 8) + Fixed(1, 4) + ([1] + Varint(Low32(0)) + Varint(Low32(size))) + LogFormat.Zeros(size)
  {
    hide Varint, Fixed, Low32;
    var ops, op := ZeroPut(size), [1] + Varint(Low32(0)) + Varint(Low32(size));
    assert ops[1..] == [];
    assert Body(ops) == Coded(ops[0]) + [];
    assert Coded(ops[0]) == op + LogFormat.Zeros(size);
    Assoc(Fixed(first, 8) + Fixed(1, 4), op, LogFormat.Zeros(size));
  }

  lemma FixedSizes(first: nat)
    ensures |Fixed(first, 8)| == 8 && |Fixed(1, 4)| == 4
  {
  }

  lemma LengthBytes(size: nat)
    ensures 1 <= |Varint(Low32(size))| <= 5 && (size < 128 ==> |Varint(Low32(size))| == 1)
    ensures |Varint(Low32(0))| == 1
  {
    Varint32Length(Low32(size));
  }

  /** The size of value with which the batch ends in a long fragment. */
  function ZeroSize(off: nat): nat
    requires off <= BLOCK
  {
    if FragmentLength(off, HEADER + 3) == HEADER + 3 then 0 else 5
  }

  lemma ZeroPutEndsLong(off: nat, first: nat)
    requires off <= BLOCK
    ensures EndsLong(off, |Rep(first, ZeroPut(ZeroSize(off)))|)
  {
    hide Rep;
    ZeroPutBytes(first, ZeroSize(off));
  }

  /** A turn of one writer with this batch. */
  function OneTurn(i: nat, first: nat, ops: seq<Op>, ok: bool): Q.Turn {
    Q.Turn(i, i + 1, i + 1, first, ops, true, ok, if ok then Q.Done else Q.Failed)
  }

  /** Turns that follow each other, the appends they made and what these returned. */
  ghost predicate History(extend: Checksum, base: nat, ts: seq<Q.Turn>, appends: seq<Attempt>, oks: seq<bool>) {
    Q.Chain(ts, base) && Logs(extend, ts, appends) && Statuses(extend, appends) == oks
  }

  lemma OneTurnMore(extend: Checksum, base: nat, ts: seq<Q.Turn>, appends: seq<Attempt>, oks: seq<bool>, ops: seq<Op>,
                    a: Attempt)
    requires History(extend, base, ts, appends, oks)
    requires a.slice == Rep(NextFirst(ts, base), ops)
    ensures var ok := Succeeds(extend, Run(extend, appends), a);
            History(extend, base, ts + [OneTurn(NextStart(ts), NextFirst(ts, base), ops, ok)], appends + [a],
                    oks + [ok])
  {
    hide Run, Statuses, Succeeds, Rep;
    var ok := Succeeds(extend, Run(extend, appends), a);
    var ts', appends' := ts + [OneTurn(NextStart(ts), NextFirst(ts, base), ops, ok)], appends + [a];
    OneAttempt(extend, appends, a);
    assert ts'[..|ts|] == ts && appends'[..|appends|] == appends;
    forall i | 0 <= i < |ts'|
      ensures Q.Joins(ts', base, i)
    {
      if i < |ts| {
        assert Q.Joins(ts, base, i);
      }
    }
  }

  function NextStart(ts: seq<Q.Turn>): nat {
    if ts == [] then 0 else ts[|ts| - 1].end
  }

  function NextFirst(ts: seq<Q.Turn>, base: nat): nat {
    if ts == [] then base + 1 else ts[|ts| - 1].first + |ts[|ts| - 1].ops|
  }

  /** Any statuses can come about, and one failure among them suffices to be astray. */
  lemma {:induction false} AnyStatuses(extend: Checksum, base: nat, oks: seq<bool>)
    returns (ts: seq<Q.Turn>, appends: seq<Attempt>)
    ensures History(extend, base, ts, appends, oks)
    ensures NextFirst(ts, base) == base + 1 + |oks|
    ensures !AllOk(oks) ==> Astray(Drift(Run(extend, appends)))
  {
    hide Run, Statuses, After, Drift, Astray, Succeeds, Rep, History;
    if oks == [] {
      ts, appends := [], [];
      NoHistory(extend, base);
    } else {
      var n := |oks| - 1;
      ts, appends := AnyStatuses(extend, base, oks[..n]);
      var st, first := Run(extend, appends), NextFirst(ts, base);
      var ops := ZeroPut(ZeroSize(st.off));
      var slice := Rep(first, ops);
      var a := Success(extend, st, slice);
      if oks[n] {
        SuccessIs(extend, st, slice);
        OkKeepsDrift(extend, st, a);
      } else {
        ZeroPutEndsLong(st.off, first);
        a := FailureLeadsAstray(extend, st, slice);
      }
      OneTurnMore(extend, base, ts, appends, oks[..n], ops, a);
      OneAttempt(extend, appends, a);
      ts, appends := ts + [OneTurn(NextStart(ts), first, ops, oks[n])], appends + [a];
      assert oks == oks[..n] + [oks[n]];
    }
  }

  lemma NoHistory(extend: Checksum, base: nat)
    ensures History(extend, base, [], [], [])
  {
    NothingRun(extend);
  }

  /** Of the turns on a log a writer knows no more than what AddRecord returned for each.  A
      batch that was acknowledged is sure to be read back exactly if no append before it
      failed. */
  lemma ReadBackIff(extend: Checksum, checksum: bool, base: nat, oks: seq<bool>)
    requires Lawful(extend) && oks != [] && oks[|oks| - 1]
    ensures (forall ts, appends :: History(extend, base, ts, appends, oks) ==> LastIsRead(extend, checksum, appends))
            <==> AllOk(oks[..|oks| - 1])
  {
    hide Run, Statuses, LastIsRead, Logs, Rep, ZeroPut;
    var n := |oks| - 1;
    if AllOk(oks[..n]) {
      forall ts, appends | History(extend, base, ts, appends, oks)
        ensures LastIsRead(extend, checksum, appends)
      {
        LastIsKept(extend, checksum, appends);
      }
    } else {
      var ts, before := AnyStatuses(extend, base, oks[..n]);
      var size := |Run(extend, before).file| + 3 * BLOCK;
      ZeroPutBytes(NextFirst(ts, base), size);
      var a := LostAfter(extend, checksum, before, Rep(NextFirst(ts, base), ZeroPut(size)));
      OneAttempt(extend, before, a);
      OneTurnMore(extend, base, ts, before, oks[..n], ZeroPut(size), a);
      assert oks == oks[..n] + [true];
    }
  }
}
