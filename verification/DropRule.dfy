/** The work of a compaction (DBImpl::DoCompactionWork in db/db_impl.cc, IsBaseLevelForKey
    and ShouldStopBefore in db/version_set.cc): merged entries go in, hidden entries and
    obsolete deletion markers are dropped, the rest comes out cut into files.
 */
module DropRule {
  import opened Comparator
  import opened Dbformat
  import opened Options
  import opened Versions
  import opened Overlapping
  import opened Compactions
  import opened OutputCuts

  /** No file two or more levels below `level` has the user key in its range. */
  ghost predicate BaseLevel(v: Version, level: nat, user: Bytes) {
    forall l, f :: level + 2 <= l < |v.levels| && f in v.levels[l] ==> !InRange(user, f)
  }

  /** Entry i is hidden from every live snapshot by the next newer entry for its user key. */
  predicate Hidden(m: seq<Entry>, snapshot: SequenceNumber, i: nat)
    requires i < |m|
  {
    i > 0 && m[i - 1].key.user == m[i].key.user && m[i - 1].key.seqno <= snapshot
  }

  /** Entry i is a deletion marker every live snapshot sees, with nothing deeper to delete. */
  ghost predicate Obsolete(v: Version, level: nat, m: seq<Entry>, snapshot: SequenceNumber, i: nat)
    requires i < |m|
  {
    m[i].key.kind == TypeDeletion && m[i].key.seqno <= snapshot && BaseLevel(v, level, m[i].key.user)
  }

  ghost predicate Dropped(v: Version, level: nat, m: seq<Entry>, snapshot: SequenceNumber, i: nat)
    requires i < |m|
  {
    Hidden(m, snapshot, i) || Obsolete(v, level, m, snapshot, i)
  }

  lemma BaseLevelIs(v: Version, level: nat, user: Bytes)
    ensures BaseLevel(v, level, user) <==>
            forall l, f :: level + 2 <= l < |v.levels| && f in v.levels[l] ==>
              Less(user, f.smallest.user) || Less(f.largest.user, user)
  {
    hide Less;
    if forall l, f :: level + 2 <= l < |v.levels| && f in v.levels[l] ==>
         Less(user, f.smallest.user) || Less(f.largest.user, user)
    {
      forall l, f | level + 2 <= l < |v.levels| && f in v.levels[l]
        ensures !InRange(user, f)
      {
        assert Less(user, f.smallest.user) || Less(f.largest.user, user);
      }
    }
    if BaseLevel(v, level, user) {
      forall l, f | level + 2 <= l < |v.levels| && f in v.levels[l]
        ensures Less(user, f.smallest.user) || Less(f.largest.user, user)
      {
        assert !InRange(user, f);
      }
    }
  }

  /** What is dropped, told without its neighbours: an entry that some newer one for its user key, old
      enough for the snapshot, hides; and a deletion marker that is old enough itself, with no file
      two or more levels deeper whose range has its user key. */
  lemma DropsExactly(v: Version, level: nat, m: seq<Entry>, snapshot: SequenceNumber, i: nat)
    requires Sorted(m) && i < |m|
    ensures Dropped(v, level, m, snapshot, i) <==>
            || (exists j :: 0 <= j < i && m[j].key.user == m[i].key.user && m[j].key.seqno <= snapshot)
            || (m[i].key.kind == TypeDeletion && m[i].key.seqno <= snapshot
                && forall l, f :: level + 2 <= l < |v.levels| && f in v.levels[l] ==>
                     Less(m[i].key.user, f.smallest.user) || Less(f.largest.user, m[i].key.user))
  {
    hide Less, Before;
    forall j | 0 <= j < i && m[j].key.user == m[i].key.user && m[j].key.seqno <= snapshot
      ensures Hidden(m, snapshot, i)
    {
      NeighbourHides(m, j, i);
    }
    if Hidden(m, snapshot, i) {
      assert m[i - 1].key.user == m[i].key.user && m[i - 1].key.seqno <= snapshot;
    }
    BaseLevelIs(v, level, m[i].key.user);
  }

  /** Between two entries for one user key there are only others for it, and they are no newer than
      the first. */
  lemma NeighbourHides(m: seq<Entry>, j: nat, i: nat)
    requires Sorted(m) && j < i < |m| && m[j].key.user == m[i].key.user
    ensures m[i - 1].key.user == m[i].key.user && m[i - 1].key.seqno <= m[j].key.seqno
  {
    hide Less;
    SortedUsers(m, j, i - 1);
    SortedUsers(m, i - 1, i);
    LessTransitive(m[j].key.user, m[i - 1].key.user, m[i].key.user);
  }

  /** What the first n merged entries leave. */
  ghost function Kept(v: Version, level: nat, m: seq<Entry>, snapshot: SequenceNumber, n: nat): (k: seq<Entry>)
    requires n <= |m|
  {
    if n == 0 then []
    else Kept(v, level, m, snapshot, n - 1) + (if Dropped(v, level, m, snapshot, n - 1) then [] else [m[n - 1]])
  }

  lemma {:induction false} KeptEntries(v: Version, level: nat, m: seq<Entry>, snapshot: SequenceNumber, n: nat,
                                       e: Entry)
    requires n <= |m|
    ensures e in Kept(v, level, m, snapshot, n) <==>
              exists i :: 0 <= i < n && m[i] == e && !Dropped(v, level, m, snapshot, i)
  {
    hide BaseLevel, Hidden, Obsolete;
    if n > 0 {
      KeptEntries(v, level, m, snapshot, n - 1, e);
      if exists i :: 0 <= i < n && m[i] == e && !Dropped(v, level, m, snapshot, i) {
        var i :| 0 <= i < n && m[i] == e && !Dropped(v, level, m, snapshot, i);
      }
    }
  }

  lemma {:induction false} KeptSorted(v: Version, level: nat, m: seq<Entry>, snapshot: SequenceNumber, n: nat)
    requires n <= |m| && Sorted(m)
    ensures Sorted(Kept(v, level, m, snapshot, n))
    ensures forall e :: e in Kept(v, level, m, snapshot, n) ==> exists i :: 0 <= i < n && m[i] == e
  {
    hide Dropped, Before;
    if n > 0 {
      KeptSorted(v, level, m, snapshot, n - 1);
      var k := Kept(v, level, m, snapshot, n - 1);
      forall a | 0 <= a < |k|
        ensures Before(k[a].key, m[n - 1].key)
      {
        assert k[a] in k;
      }
    }
  }

  ghost function Flatten(outputs: seq<File>): seq<Entry> {
    if outputs == [] then [] else Flatten(outputs[..|outputs| - 1]) + outputs[|outputs| - 1].entries
  }

  class Merge {
    const version: Version
    const c: Compaction
    const maxFileSize: nat
    var levelPtrs: seq<nat>
    var grandparentIndex: nat
    var seenKey: bool
    var overlappedBytes: nat

    constructor (version: Version, c: Compaction, maxFileSize: nat)
      requires GoodVersion(version) && c.level + 1 < NUM_LEVELS
      ensures this.version == version && this.c == c && this.maxFileSize == maxFileSize
      ensures Valid([]) && AtBeginning()
    {
      this.version, this.c, this.maxFileSize := version, c, maxFileSize;
      levelPtrs := seq(NUM_LEVELS, _ => 0);
      grandparentIndex, seenKey, overlappedBytes := 0, false, 0;
    }

    /** ShouldStopBefore has not been asked yet. */
    ghost predicate AtBeginning()
      reads this
    {
      grandparentIndex == 0 && !seenKey && overlappedBytes == 0
    }

    /** The cursors only passed files that end before `user`. */
    ghost predicate Valid(user: Bytes)
      reads this
    {
      && GoodVersion(version) && c.level + 1 < NUM_LEVELS
      && |levelPtrs| == NUM_LEVELS
      && grandparentIndex <= |c.grandparents|
      && forall l :: c.level + 2 <= l < NUM_LEVELS ==>
           levelPtrs[l] <= |version.levels[l]| && PassedBelow(version.levels[l], levelPtrs[l], user)
    }

    static ghost predicate PassedBelow(files: seq<File>, n: nat, user: Bytes)
      requires n <= |files|
    {
      forall j :: 0 <= j < n ==> Less(files[j].largest.user, user)
    }

    lemma ValidLater(user: Bytes, later: Bytes)
      requires Valid(user) && LessEq(user, later)
      ensures Valid(later)
    {
      forall l, j | c.level + 2 <= l < NUM_LEVELS && 0 <= j < levelPtrs[l]
        ensures Less(version.levels[l][j].largest.user, later)
      {
        LessTransitive(version.levels[l][j].largest.user, user, later);
      }
    }

    /** The file the cursor stopped at decides for its whole level. */
    static lemma CursorDecides(files: seq<File>, p: nat, user: Bytes)
      requires GoodFiles(files) && Disjoint(files) && p <= |files|
      requires PassedBelow(files, p, user)
      requires p < |files| ==> LessEq(user, files[p].largest.user)
      ensures (exists f :: f in files && InRange(user, f)) <==> p < |files| && InRange(user, files[p])
    {
      hide Disjoint;
      forall j | 0 <= j < |files| && InRange(user, files[j])
        ensures p < |files| && InRange(user, files[p])
      {
        if j > p {
          LargestIncrease(files, p, j);
          FileBounds(files[p], 0);
          SpansBetween(files[p], files[j], user);
        }
      }
    }

    static lemma SpansBetween(f: File, g: File, user: Bytes)
      requires Before(f.largest, g.smallest) && LessEq(f.smallest.user, f.largest.user)
      requires LessEq(user, f.largest.user) && InRange(user, g)
      ensures InRange(user, f)
    {
      var rank, unrank := OrderByRank();
    }

    /** IsBaseLevelForKey: with user keys asked in nondecreasing order, the moving cursors
        answer exactly whether no deeper file's range has the key. */
    method IsBaseLevelForKey(user: Bytes) returns (r: bool)
      requires Valid(user)
      modifies this`levelPtrs
      ensures Valid(user)
      ensures r <==> BaseLevel(version, c.level, user)
    {
      hide Less, GoodFile, Disjoint, Above, NumbersTellAge, DistinctNumbers;
      for lvl := c.level + 2 to NUM_LEVELS
        invariant Valid(user)
        invariant forall l, f :: c.level + 2 <= l < lvl && f in version.levels[l] ==> !InRange(user, f)
      {
        var files := version.levels[lvl];
        while levelPtrs[lvl] < |files| && Less(files[levelPtrs[lvl]].largest.user, user)
          invariant Valid(user)
          decreases |files| - levelPtrs[lvl]
        {
          levelPtrs := levelPtrs[lvl := levelPtrs[lvl] + 1];
        }
        CursorDecides(files, levelPtrs[lvl], user);
        if levelPtrs[lvl] < |files| && !Less(user, files[levelPtrs[lvl]].smallest.user) {
          return false;
        }
      }
      return true;
    }

    /** ShouldStopBefore: the current output would overlap too much of level + 2. */
    method ShouldStopBefore(key: InternalKey) returns (stop: bool)
      requires grandparentIndex <= |c.grandparents|
      modifies this`grandparentIndex, this`seenKey, this`overlappedBytes
      ensures old(grandparentIndex) <= grandparentIndex <= |c.grandparents|
      ensures forall j :: old(grandparentIndex) <= j < grandparentIndex ==> Before(c.grandparents[j].largest, key)
      ensures grandparentIndex < |c.grandparents| ==> !Before(c.grandparents[grandparentIndex].largest, key)
      ensures seenKey
      ensures var passed := if old(seenKey) then SizeBetween(c.grandparents, old(grandparentIndex), grandparentIndex)
              else 0;
              && stop == (old(overlappedBytes) + passed > 10 * maxFileSize)
              && overlappedBytes == if stop then 0 else old(overlappedBytes) + passed
    {
      while grandparentIndex < |c.grandparents| && Before(c.grandparents[grandparentIndex].largest, key)
        invariant old(grandparentIndex) <= grandparentIndex <= |c.grandparents|
        invariant seenKey == old(seenKey)
        invariant forall j :: old(grandparentIndex) <= j < grandparentIndex ==> Before(c.grandparents[j].largest, key)
        invariant overlappedBytes == old(overlappedBytes)
                  + if old(seenKey) then SizeBetween(c.grandparents, old(grandparentIndex), grandparentIndex) else 0
      {
        if seenKey {
          overlappedBytes := overlappedBytes + c.grandparents[grandparentIndex].size;
        }
        grandparentIndex := grandparentIndex + 1;
      }
      seenKey := true;
      if overlappedBytes > 10 * maxFileSize {
        overlappedBytes := 0;
        stop := true;
      } else {
        stop := false;
      }
    }

    /** FinishCompactionOutputFile: the table built so far becomes an output file. */
    static function Finished(outputs: seq<File>, built: seq<Entry>, nextNumber: nat,
                             sizeOf: seq<Entry> -> nat): seq<File>
      requires built != []
    {
      outputs + [File(nextNumber + |outputs|, sizeOf(built), built[0].key, built[|built| - 1].key, built)]
    }

    /** Closing an output file loses nothing. */
    static lemma FinishedGood(outputs: seq<File>, built: seq<Entry>, nextNumber: nat, sizeOf: seq<Entry> -> nat)
      requires GoodOutputs(outputs, nextNumber) && built != [] && Sorted(Flatten(outputs) + built)
      ensures GoodOutputs(Finished(outputs, built, nextNumber, sizeOf), nextNumber)
      ensures Flatten(Finished(outputs, built, nextNumber, sizeOf)) == Flatten(outputs) + built
    {
      hide Before;
      var fs := Finished(outputs, built, nextNumber, sizeOf);
      assert fs[..|fs| - 1] == outputs;
      assert Sorted(built) by {
        var all := Flatten(outputs) + built;
        forall i, j | 0 <= i < j < |built|
          ensures Before(built[i].key, built[j].key)
        {
          assert all[|Flatten(outputs)| + i] == built[i] && all[|Flatten(outputs)| + j] == built[j];
        }
      }
    }

    static ghost predicate GoodOutputs(outputs: seq<File>, nextNumber: nat) {
      && GoodFiles(outputs)
      && forall i :: 0 <= i < |outputs| ==> outputs[i].number == nextNumber + i
    }

    static function UserBefore(m: seq<Entry>, i: nat): Bytes
      requires i <= |m|
    {
      if i == 0 then [] else m[i - 1].key.user
    }

    /** The loop variables describe the entry before i. */
    static predicate Tracks(m: seq<Entry>, i: nat, currentUserKey: Bytes, hasCurrentUserKey: bool, last: SequenceNumber)
      requires i <= |m|
    {
      if i == 0 then !hasCurrentUserKey
      else hasCurrentUserKey && currentUserKey == m[i - 1].key.user && last == m[i - 1].key.seqno
    }

    /** The decision of DoCompactionWork about entry i. */
    method Classify(m: seq<Entry>, i: nat, snapshot: SequenceNumber,
                    currentUserKey0: Bytes, hasCurrentUserKey0: bool, last0: SequenceNumber)
      returns (drop: bool, currentUserKey: Bytes, hasCurrentUserKey: bool, last: SequenceNumber)
      requires Sorted(m) && i < |m| && snapshot < MAX_SEQUENCE
      requires Valid(UserBefore(m, i))
      requires Tracks(m, i, currentUserKey0, hasCurrentUserKey0, last0)
      modifies this`levelPtrs
      ensures Valid(UserBefore(m, i + 1))
      ensures Tracks(m, i + 1, currentUserKey, hasCurrentUserKey, last)
      ensures drop <==> Dropped(version, c.level, m, snapshot, i)
    {
      hide Less, GoodVersion, BaseLevel, Sorted, PassedBelow;
      var ikey := m[i].key;
      NextUser(m, i);
      ValidLater(UserBefore(m, i), ikey.user);
      currentUserKey, hasCurrentUserKey, last := currentUserKey0, hasCurrentUserKey0, last0;
      drop := false;
      if !hasCurrentUserKey || ikey.user != currentUserKey {
        currentUserKey := ikey.user;
        hasCurrentUserKey := true;
        last := MAX_SEQUENCE;
      }
      if last <= snapshot {
        drop := true;
      } else if ikey.kind == TypeDeletion && ikey.seqno <= snapshot {
        drop := IsBaseLevelForKey(ikey.user);
      }
      last := ikey.seqno;
    }

    /** The outputs finished so far and the one being built hold what is kept of the first i
        entries, and each was cut where it should be. */
    ghost predicate Progress(m: seq<Entry>, i: nat, snapshot: SequenceNumber, outputs: seq<File>, built: seq<Entry>,
                             nextNumber: nat, sizeOf: seq<Entry> -> nat)
      requires i <= |m|
    {
      && Flatten(outputs) + built == Kept(version, c.level, m, snapshot, i)
      && GoodOutputs(outputs, nextNumber)
      && forall o :: o in outputs ==> WellCut(c.grandparents, sizeOf, maxFileSize, o.entries)
    }

    lemma NoProgress(m: seq<Entry>, snapshot: SequenceNumber, nextNumber: nat, sizeOf: seq<Entry> -> nat)
      ensures Progress(m, 0, snapshot, [], [], nextNumber, sizeOf) && Tracks(m, 0, [], false, MAX_SEQUENCE)
    {
    }

    lemma OutputClosed(m: seq<Entry>, i: nat, snapshot: SequenceNumber, outputs: seq<File>, built: seq<Entry>,
                       nextNumber: nat, sizeOf: seq<Entry> -> nat)
      requires Sorted(m) && i <= |m| && Progress(m, i, snapshot, outputs, built, nextNumber, sizeOf)
      requires built != [] && WellCut(c.grandparents, sizeOf, maxFileSize, built)
      ensures Progress(m, i, snapshot, Finished(outputs, built, nextNumber, sizeOf), [], nextNumber, sizeOf)
    {
      hide Kept, Flatten, GoodOutputs, Before, WellCut;
      KeptSorted(version, c.level, m, snapshot, i);
      FinishedGood(outputs, built, nextNumber, sizeOf);
    }

    lemma EntryDone(m: seq<Entry>, i: nat, snapshot: SequenceNumber, outputs: seq<File>, built: seq<Entry>,
                    nextNumber: nat, sizeOf: seq<Entry> -> nat)
      requires i < |m| && Progress(m, i, snapshot, outputs, built, nextNumber, sizeOf)
      ensures if Dropped(version, c.level, m, snapshot, i) then
                Progress(m, i + 1, snapshot, outputs, built, nextNumber, sizeOf)
              else Progress(m, i + 1, snapshot, outputs, built + [m[i]], nextNumber, sizeOf)
    {
      hide Dropped, Flatten, GoodOutputs, WellCut;
      assert Flatten(outputs) + (built + [m[i]]) == (Flatten(outputs) + built) + [m[i]];
      assert Kept(version, c.level, m, snapshot, i) + [] == Kept(version, c.level, m, snapshot, i);
    }

    /** DoCompactionWork: the merged entries m go out as files with fresh numbers.  `sizeOf`
        stands for the size the table builder reports for what it has been given. */
    method DoCompactionWork(m: seq<Entry>, snapshot: SequenceNumber, nextNumber: nat, sizeOf: seq<Entry> -> nat)
      returns (outputs: seq<File>)
      requires Valid([]) && AtBeginning() && Sorted(m)
      requires snapshot < MAX_SEQUENCE
      modifies this
      ensures Flatten(outputs) == Kept(version, c.level, m, snapshot, |m|)
      ensures GoodOutputs(outputs, nextNumber)
      ensures forall o :: o in outputs ==> WellCut(c.grandparents, sizeOf, maxFileSize, o.entries)
      ensures FewUndersized(c.grandparents, sizeOf, maxFileSize, outputs)
    {
      hide Paid, FewUndersized;
      hide Less, GoodVersion, Kept, Dropped, Sorted, Before, Flatten, GoodOutputs, PassedBelow, WellCut, Open,
        FileIndex, Tracks,
        SizeBetween, Progress, Finished;
      outputs := [];
      var built: seq<Entry> := [];
      var currentUserKey: Bytes := [];
      var hasCurrentUserKey := false;
      var lastSequenceForKey: SequenceNumber := MAX_SEQUENCE;
      var i := 0;
      NoProgress(m, snapshot, nextNumber, sizeOf);
      NothingOpen(c.grandparents, sizeOf, maxFileSize, 0, 0);
      NothingPaid(c.grandparents, sizeOf, maxFileSize);
      while i < |m|
        invariant 0 <= i <= |m|
        invariant Valid(UserBefore(m, i))
        invariant Tracks(m, i, currentUserKey, hasCurrentUserKey, lastSequenceForKey)
        invariant Progress(m, i, snapshot, outputs, built, nextNumber, sizeOf)
        invariant overlappedBytes <= 10 * maxFileSize
                  && Open(c.grandparents, sizeOf, maxFileSize, built, grandparentIndex, overlappedBytes)
        invariant Paid(c.grandparents, sizeOf, maxFileSize, outputs, grandparentIndex, overlappedBytes)
        invariant if i == 0 then grandparentIndex == 0 && built == []
                  else seenKey && grandparentIndex == FileIndex(c.grandparents, m[i - 1].key)
      {
        var ikey := m[i].key;
        ghost var gi, overlapped, seen := grandparentIndex, overlappedBytes, seenKey;
        var stop := ShouldStopBefore(ikey);
        CursorAt(m, i, gi);
        PaidMoves(c.grandparents, sizeOf, maxFileSize, outputs, gi, overlapped, grandparentIndex,
                  if seen then SizeBetween(c.grandparents, gi, grandparentIndex) else 0);
        StaysOpen(c.grandparents, sizeOf, maxFileSize, built, gi, overlapped, grandparentIndex);
        OpenIsCut(sizeOf, built, gi, overlapped);
        NothingOpen(c.grandparents, sizeOf, maxFileSize, grandparentIndex, overlappedBytes);
        if stop && built != [] {
          OutputClosed(m, i, snapshot, outputs, built, nextNumber, sizeOf);
          var o := FinishedIs(outputs, built, nextNumber, sizeOf);
          PaysForOne(c.grandparents, sizeOf, maxFileSize, outputs, grandparentIndex,
                     overlapped + if seen then SizeBetween(c.grandparents, gi, grandparentIndex) else 0, o);
          outputs, built := Finished(outputs, built, nextNumber, sizeOf), [];
        }
        var drop;
        drop, currentUserKey, hasCurrentUserKey, lastSequenceForKey :=
          Classify(m, i, snapshot, currentUserKey, hasCurrentUserKey, lastSequenceForKey);
        EntryDone(m, i, snapshot, outputs, built, nextNumber, sizeOf);
        if !drop {
          Extends(c.grandparents, sizeOf, maxFileSize, built, grandparentIndex, overlappedBytes, m[i]);
          built := built + [m[i]];
          if sizeOf(built) >= maxFileSize {
            OutputClosed(m, i + 1, snapshot, outputs, built, nextNumber, sizeOf);
            var o := FinishedIs(outputs, built, nextNumber, sizeOf);
            LargePaysItself(c.grandparents, sizeOf, maxFileSize, outputs, grandparentIndex, overlappedBytes, o);
            outputs, built := Finished(outputs, built, nextNumber, sizeOf), [];
          }
        }
        i := i + 1;
      }
      AllDone(m, snapshot, outputs, built, nextNumber, sizeOf);
      if built != [] {
        outputs := Finished(outputs, built, nextNumber, sizeOf);
      }
    }

    /** What is still being built becomes the last output. */
    lemma AllDone(m: seq<Entry>, snapshot: SequenceNumber, outputs: seq<File>, built: seq<Entry>, nextNumber: nat,
                  sizeOf: seq<Entry> -> nat)
      requires Sorted(m) && Progress(m, |m|, snapshot, outputs, built, nextNumber, sizeOf)
      requires Paid(c.grandparents, sizeOf, maxFileSize, outputs, grandparentIndex, overlappedBytes)
      requires Open(c.grandparents, sizeOf, maxFileSize, built, grandparentIndex, overlappedBytes)
      ensures var all := if built == [] then outputs else Finished(outputs, built, nextNumber, sizeOf);
              && Flatten(all) == Kept(version, c.level, m, snapshot, |m|) && GoodOutputs(all, nextNumber)
              && (forall o :: o in all ==> WellCut(c.grandparents, sizeOf, maxFileSize, o.entries))
              && FewUndersized(c.grandparents, sizeOf, maxFileSize, all)
    {
      hide Progress, Paid, Open, Finished, Flatten, Kept, GoodOutputs, WellCut, FewUndersized, Sorted;
      PaidInAll(c.grandparents, sizeOf, maxFileSize, outputs, grandparentIndex, overlappedBytes);
      if built == [] {
        AllOut(m, snapshot, outputs, nextNumber, sizeOf);
      } else {
        var _ := FinishedIs(outputs, built, nextNumber, sizeOf);
        OpenIsCut(sizeOf, built, grandparentIndex, overlappedBytes);
        OutputClosed(m, |m|, snapshot, outputs, built, nextNumber, sizeOf);
        AllOut(m, snapshot, Finished(outputs, built, nextNumber, sizeOf), nextNumber, sizeOf);
      }
    }

    static lemma FinishedIs(outputs: seq<File>, built: seq<Entry>, nextNumber: nat, sizeOf: seq<Entry> -> nat)
      returns (o: File)
      requires built != []
      ensures Finished(outputs, built, nextNumber, sizeOf) == outputs + [o] && o.entries == built
    {
      o := File(nextNumber + |outputs|, sizeOf(built), built[0].key, built[|built| - 1].key, built);
    }

    lemma AllOut(m: seq<Entry>, snapshot: SequenceNumber, outputs: seq<File>, nextNumber: nat,
                 sizeOf: seq<Entry> -> nat)
      requires Progress(m, |m|, snapshot, outputs, [], nextNumber, sizeOf)
      ensures Flatten(outputs) == Kept(version, c.level, m, snapshot, |m|) && GoodOutputs(outputs, nextNumber)
      ensures forall o :: o in outputs ==> WellCut(c.grandparents, sizeOf, maxFileSize, o.entries)
    {
      assert Flatten(outputs) + [] == Flatten(outputs);
    }

    lemma CursorAt(m: seq<Entry>, i: nat, gi: nat)
      requires Sorted(m) && i < |m| && gi <= grandparentIndex <= |c.grandparents|
      requires if i == 0 then gi == 0 else gi == FileIndex(c.grandparents, m[i - 1].key)
      requires forall j :: gi <= j < grandparentIndex ==> Before(c.grandparents[j].largest, m[i].key)
      requires grandparentIndex < |c.grandparents| ==> !Before(c.grandparents[grandparentIndex].largest, m[i].key)
      ensures grandparentIndex == FileIndex(c.grandparents, m[i].key)
    {
      hide Before, FileIndex;
      CursorIs(c.grandparents, gi, if i == 0 then m[i].key else m[i - 1].key, grandparentIndex, m[i].key);
    }

    lemma OpenIsCut(sizeOf: seq<Entry> -> nat, built: seq<Entry>, gi: nat, overlapped: nat)
      requires Open(c.grandparents, sizeOf, maxFileSize, built, gi, overlapped)
      ensures built != [] ==> WellCut(c.grandparents, sizeOf, maxFileSize, built)
    {
    }

    static lemma NextUser(m: seq<Entry>, i: nat)
      requires Sorted(m) && i < |m|
      ensures LessEq(UserBefore(m, i), m[i].key.user)
    {
      if i > 0 {
        SortedUsers(m, i - 1, i);
      } else {
        assert forall j :: 0 <= j <= |m[i].key.user| ==> !LessAt(m[i].key.user, [], j);
      }
    }
  }
}
