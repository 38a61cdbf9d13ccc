/** Whole runs of a database: writes, memtables written out, compactions and moves in any
    order.  Every version on the way is good, and a snapshot reads the same all its life.
 */
module DatabaseRuns {
  import opened Comparator
  import opened Dbformat
  import opened Options
  import opened Versions
  import opened Overlapping
  import opened Boundary
  import opened Compactions
  import opened DropRule
  import opened Visibility
  import opened VersionBuilder
  import opened Install
  import opened LiveSnapshots
  import opened VersionRuns

  /** The memtables' entries, the current version and the next file number. */
  datatype Db = Db(mem: set<Entry>, v: Version, next: nat)

  datatype Event =
    | Write(e: Entry)
    | Flush(f: File, level: nat)
    | Merge(c: Compaction, m: seq<Entry>, snapshot: SequenceNumber, outputs: seq<File>)
    | MoveDown(c: Compaction)

  /** A file number is in one level only. */
  ghost predicate NumbersOnce(v: Version) {
    forall l, k, f, g ::
      && 0 <= l < |v.levels| && 0 <= k < |v.levels|
      && f in v.levels[l] && g in v.levels[k] && f.number == g.number
      ==> l == k
  }

  ghost predicate Good(db: Db) {
    && GoodVersion(db.v)
    && FreeFrom(db.v, db.next)
    && NumbersOnce(db.v)
    && Above(db.mem, AllContents(db.v))
    && UniqueKeys(db.mem)
  }

  ghost predicate Step(db: Db, ev: Event, db': Db) {
    |db.v.levels| == NUM_LEVELS &&
    match ev
    case Write(e) =>
      && db' == db.(mem := db.mem + {e})
      && forall x :: x in db.mem + AllContents(db.v) && x.key.user == e.key.user ==> Newer(e, x)
    case Flush(f, level) =>
      && GoodFile(f) && f.number == db.next && level < NUM_LEVELS
      && Contents([f]) <= db.mem && Above(db.mem - Contents([f]), Contents([f]))
      && (level > 0 ==> forall l :: 0 <= l <= level ==> NoOverlap(db.v.levels[l], f))
      && db'.mem == db.mem - Contents([f]) && db'.next == db.next + 1
      && Added(db.v, level, f, db'.v)
    case Merge(c, m, snapshot, outputs) =>
      && WellChosen(db.v, c) && MergedInputs(c, m)
      && OutputsOf(db.v, c, m, snapshot, outputs)
      && (forall f :: f in outputs ==> db.next <= f.number < db'.next) && db.next <= db'.next
      && db'.mem == db.mem
      && Installed(db.v, c, outputs, db'.v)
    case MoveDown(c) =>
      && WellChosen(db.v, c) && |c.inputs0| == 1 && c.inputs1 == []
      && db'.mem == db.mem && db'.next == db.next
      && Installed(db.v, c, c.inputs0, db'.v)
  }

  /** The event does not take from a reader at s: what is written is newer than s, and a
      compaction counts s as live and is not the noticeable kind. */
  ghost predicate Respects(db: Db, ev: Event, s: SequenceNumber)
    requires Good(db)
  {
    match ev
    case Write(e) => e.key.seqno > s
    case Flush(_, _) => true
    case Merge(c, m, snapshot, _) => snapshot <= s
      && (c.level + 1 < NUM_LEVELS ==> !Noticeable(db.mem, db.v, c, m, snapshot))
    case MoveDown(_) => true
  }

  lemma WriteStep(db: Db, e: Entry, db': Db)
    requires Good(db) && Step(db, Write(e), db')
    ensures Good(db')
    ensures forall user, s: SequenceNumber :: e.key.seqno > s ==>
              Reads(db'.mem, db'.v, user, s) == Reads(db.mem, db.v, user, s)
  {
    hide GoodVersion, AllContents, Sees;
    forall x, y | x in db'.mem && y in db'.mem && x.key == y.key
      ensures x == y
    {
      assert !Newer(x, y) && !Newer(y, x);
    }
    forall user, s: SequenceNumber | e.key.seqno > s
      ensures Reads(db'.mem, db'.v, user, s) == Reads(db.mem, db.v, user, s)
    {
      LaterUnseen(db.mem + AllContents(db.v), db'.mem + AllContents(db.v), e, user, s);
    }
  }

  /** An entry written after a snapshot does not change what it reads. */
  lemma LaterUnseen(es: set<Entry>, es': set<Entry>, e: Entry, user: Bytes, s: SequenceNumber)
    requires es' == es + {e} && e.key.seqno > s
    ensures Sees(es', user, s) == Sees(es, user, s)
  {
    forall x
      ensures Newest(es', user, s, x) <==> Newest(es, user, s, x)
    {
    }
    SeesByNewest(es, es', user, s);
  }

  lemma SeesByNewest(es: set<Entry>, es': set<Entry>, user: Bytes, s: SequenceNumber)
    requires forall x :: Newest(es', user, s, x) <==> Newest(es, user, s, x)
    ensures Sees(es', user, s) == Sees(es, user, s)
  {
    if x :| Newest(es, user, s, x) {
      SeesNewest(es, user, s, x);
      SeesNewest(es', user, s, x);
    }
  }

  lemma FlushStep(db: Db, f: File, level: nat, db': Db)
    requires Good(db) && Step(db, Flush(f, level), db')
    ensures Good(db')
    ensures db'.mem + AllContents(db'.v) == db.mem + AllContents(db.v)
  {
    hide Contents, AllContents, Sorted, Disjoint, NumbersTellAge, DistinctNumbers, NoOverlap, InOrder;
    AddedGood(db.v, level, f, db'.v);
    AddedNumbers(db.v, level, f, db'.v, db.next);
  }

  lemma AddedNumbers(v: Version, level: nat, f: File, v': Version, next: nat)
    requires |v.levels| == NUM_LEVELS && level < NUM_LEVELS && Added(v, level, f, v')
    requires NumbersOnce(v) && FreeFrom(v, next) && f.number == next
    ensures NumbersOnce(v') && FreeFrom(v', next + 1)
  {
    hide InOrder;
    forall l: nat, g | l < NUM_LEVELS && g in v'.levels[l]
      ensures (l == level && g == f) || (g in v.levels[l] && g.number < next)
    {
    }
  }

  lemma MergeStep(db: Db, c: Compaction, m: seq<Entry>, snapshot: SequenceNumber, outputs: seq<File>, db': Db)
    requires Good(db) && Step(db, Merge(c, m, snapshot, outputs), db')
    ensures Good(db')
    ensures c.level + 1 < NUM_LEVELS
    ensures Indistinguishable(db.mem, db.v, db'.v, snapshot) <==> !Noticeable(db.mem, db.v, c, m, snapshot)
  {
    hide Contents, AllContents, Sorted, Disjoint, NumbersTellAge, DistinctNumbers, InOrder, Kept, Flatten, Unsplit,
      Selected, LargestKey,
      SmallestKey, Indistinguishable, Noticeable, GoodFile, Sees, AfterDrop;
    OutputsArePartition(db.v, c, m, snapshot, outputs);
    InstalledGood(db.v, c, m, outputs, db'.v);
    CompactionInvisibleIff(db.mem, db.v, c, m, snapshot, outputs, db'.v);
    ContentsAfter(db.v, c, m, snapshot, outputs, db'.v);
    AfterDropShrinks(AllContents(db.v), db.v, c.level, m, snapshot);
    NumbersStayOnce(db.v, c, outputs, db'.v, db.next, db'.next);
  }

  lemma NumbersStayOnce(v: Version, c: Compaction, outputs: seq<File>, v': Version, next: nat, next': nat)
    requires |v.levels| == NUM_LEVELS && c.level + 1 < NUM_LEVELS && Installed(v, c, outputs, v')
    requires NumbersOnce(v) && FreeFrom(v, next) && next <= next'
    requires forall f :: f in outputs ==> next <= f.number < next'
    ensures NumbersOnce(v') && FreeFrom(v', next')
  {
    hide InOrder;
    forall l, f | 0 <= l < NUM_LEVELS && f in v'.levels[l]
      ensures f in v.levels[l] || (l == c.level + 1 && f in outputs)
    {
    }
  }

  /** A trivial move: the one input file is its own output. */
  lemma MoveStep(db: Db, c: Compaction, db': Db)
    requires Good(db) && Step(db, MoveDown(c), db')
    ensures Good(db')
    ensures AllContents(db'.v) == AllContents(db.v)
  {
    hide Contents, AllContents, Sorted, Disjoint, NumbersTellAge, DistinctNumbers, InOrder, Selected, LargestKey,
      SmallestKey, GoodFile, Flatten;
    var f := c.inputs0[0];
    assert c.inputs0 == [f];
    ChosenAreInputs(db.v, c);
    OneFileInputs(c, f);
    OneFilePartition(db.v, c, f);
    InstalledGood(db.v, c, f.entries, c.inputs0, db'.v);
    MovedContents(db.v, c, f, db'.v);
    MovedNumbers(db.v, c, f, db'.v, db.next);
  }

  lemma OneFileInputs(c: Compaction, f: File)
    requires c.inputs0 == [f] && c.inputs1 == [] && GoodFile(f)
    ensures MergedInputs(c, f.entries)
  {
    ContentsOne(f);
  }

  lemma OneFilePartition(v: Version, c: Compaction, f: File)
    requires c.inputs0 == [f] && GoodFile(f) && NumbersOnce(v)
    requires |v.levels| == NUM_LEVELS && c.level + 1 < NUM_LEVELS && f in v.levels[c.level]
    ensures PartitionOf(v, c, f.entries, [f])
  {
    assert [f][..0] == [];
    assert Flatten([f]) == Flatten([]) + f.entries == f.entries;
  }

  lemma MovedFiles(v: Version, c: Compaction, f: File, v': Version, l: nat, g: File)
    requires |v.levels| == NUM_LEVELS && c.level + 1 < NUM_LEVELS && l < NUM_LEVELS
    requires c.inputs0 == [f] && c.inputs1 == [] && Installed(v, c, [f], v')
    ensures g in v'.levels[l] <==>
            if l == c.level then g in v.levels[l] && g != f
            else g in v.levels[l] || (l == c.level + 1 && g == f)
  {
    hide InOrder;
    assert g in [f] <==> g == f;
    assert g !in c.inputs1;
  }

  lemma MovedContents(v: Version, c: Compaction, f: File, v': Version)
    requires |v.levels| == NUM_LEVELS && c.level + 1 < NUM_LEVELS && f in v.levels[c.level]
    requires c.inputs0 == [f] && c.inputs1 == [] && Installed(v, c, [f], v')
    ensures AllContents(v') == AllContents(v)
  {
    assert |v'.levels| == NUM_LEVELS;
    hide Contents, AllContents, Installed;
    forall x
      ensures x in AllContents(v') <==> x in AllContents(v)
    {
      if x in AllContents(v') {
        var l, g := Holder(v', x);
        MovedFiles(v, c, f, v', l, g);
        Held(v, if g in v.levels[l] then l else c.level, g, x);
      }
      if x in AllContents(v) {
        var l, g := Holder(v, x);
        var l' := if l == c.level && g == f then l + 1 else l;
        MovedFiles(v, c, f, v', l', g);
        Held(v', l', g, x);
      }
    }
  }

  lemma MovedNumbers(v: Version, c: Compaction, f: File, v': Version, next: nat)
    requires |v.levels| == NUM_LEVELS && c.level + 1 < NUM_LEVELS && f in v.levels[c.level]
    requires c.inputs0 == [f] && c.inputs1 == [] && Installed(v, c, [f], v')
    requires DistinctNumbers(v.levels[c.level]) && NumbersOnce(v) && FreeFrom(v, next)
    ensures NumbersOnce(v') && FreeFrom(v', next)
  {
    assert |v'.levels| == NUM_LEVELS;
    hide Installed;
    forall l: nat, g | l < NUM_LEVELS && g in v'.levels[l]
      ensures (l == c.level + 1 && g == f) || (g in v.levels[l] && (g.number == f.number ==> l == c.level + 1))
      ensures g.number < next
    {
      MovedFiles(v, c, f, v', l, g);
    }
  }

  /** One event keeps the database good and changes nothing for a snapshot it respects. */
  lemma StepKeeps(db: Db, ev: Event, db': Db, user: Bytes, s: SequenceNumber)
    requires Good(db) && Step(db, ev, db')
    ensures Good(db')
    ensures Respects(db, ev, s) ==> Reads(db'.mem, db'.v, user, s) == Reads(db.mem, db.v, user, s)
  {
    hide GoodVersion, AllContents, Sees, Noticeable;
    match ev
    case Write(e) => WriteStep(db, e, db');
    case Flush(f, level) => FlushStep(db, f, level, db');
    case Merge(c, m, snapshot, outputs) => MergeStep(db, c, m, snapshot, outputs, db');
    case MoveDown(c) => MoveStep(db, c, db');
  }

  ghost predicate Run(dbs: seq<Db>, evs: seq<Event>) {
    && |dbs| == |evs| + 1
    && forall i :: 0 <= i < |evs| ==> Step(dbs[i], evs[i], dbs[i + 1])
  }

  const EMPTY := Version([[], [], [], [], [], [], []])

  lemma EmptyIsGood(next: nat)
    ensures Good(Db({}, EMPTY, next))
  {
    hide Above, GoodFiles, Disjoint, DistinctNumbers, NumbersTellAge, Contents;
    EmptyLevel();
    assert forall l :: 0 <= l < NUM_LEVELS ==> EMPTY.levels[l] == [];
    assert AllContents(EMPTY) == {};
  }

  lemma EmptyLevel()
    ensures GoodFiles([]) && Disjoint([]) && DistinctNumbers([]) && NumbersTellAge([])
    ensures Contents([]) == {} && Above({}, {})
  {
  }

  /** Every state of a run that starts good is good: levels below 0 are sorted and disjoint
      and newer entries are above older ones, which is what Get needs. */
  lemma {:induction false} RunIsGood(dbs: seq<Db>, evs: seq<Event>, i: nat)
    requires Run(dbs, evs) && Good(dbs[0]) && i < |dbs|
    ensures Good(dbs[i])
    decreases i
  {
    hide Good, Step;
    if i > 0 {
      RunIsGood(dbs, evs, i - 1);
      StepKeeps(dbs[i - 1], evs[i - 1], dbs[i], [], 0);
    }
  }

  /** From the empty database on, whatever is written, flushed, compacted and moved. */
  lemma ReachableIsGood(dbs: seq<Db>, evs: seq<Event>, next: nat, i: nat)
    requires Run(dbs, evs) && dbs[0] == Db({}, EMPTY, next) && i < |dbs|
    ensures Good(dbs[i])
  {
    hide Good, Step;
    EmptyIsGood(next);
    RunIsGood(dbs, evs, i);
  }

  /** A snapshot reads the same at the end of a run that respects it as at its start. */
  lemma {:induction false} SnapshotIsStable(dbs: seq<Db>, evs: seq<Event>, user: Bytes, s: SequenceNumber)
    requires Run(dbs, evs) && Good(dbs[0])
    requires forall i :: 0 <= i < |evs| ==> Good(dbs[i]) ==> Respects(dbs[i], evs[i], s)
    ensures var last := dbs[|evs|]; Reads(last.mem, last.v, user, s) == Reads(dbs[0].mem, dbs[0].v, user, s)
    decreases |evs|
  {
    hide Good, Step, Reads, Respects;
    if evs != [] {
      var n := |evs| - 1;
      assert Run(dbs[..n + 1], evs[..n]);
      SnapshotIsStable(dbs[..n + 1], evs[..n], user, s);
      RunIsGood(dbs, evs, n);
      StepKeeps(dbs[n], evs[n], dbs[n + 1], user, s);
    }
  }
}
