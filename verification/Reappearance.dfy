/** A run of the database, from empty, in which a deleted value comes back: the noticeable
    compactions are not only possible, they are reached.
 */
module Reappearance {
  import opened Comparator
  import opened Dbformat
  import opened Options
  import opened Versions
  import opened Overlapping
  import opened Boundary
  import opened Compactions
  import opened DropRule
  import opened Visibility
  import opened VersionBuilder
  import opened Install
  import opened LiveSnapshots
  import opened VersionRuns
  import opened DatabaseRuns

  const B5 := Key([98], 5, TypeValue)
  const A10 := Key([97], 10, TypeValue)
  const B20 := Key([98], 20, TypeDeletion)
  const A30 := Key([97], 30, TypeValue)

  /** The first value of "b" in a table of its own; "a" and the marker that deletes "b" in
      the next; and what the last compaction writes. */
  const FIRST := Table(0, [B5])
  const SECOND := Table(1, [A10, B20])
  const LAST := Table(5, [A30])

  /** A database with nothing but these tables on levels 1 and 2. */
  function On(mem: set<Entry>, one: seq<File>, two: seq<File>, next: nat): Db {
    Db(mem, Version([[], one, two, [], [], [], []]), next)
  }

  const STATES := [
    On({}, [], [], 0),
    On({B5}, [], [], 0),
    On({}, [], [FIRST], 1),
    On({A10}, [], [FIRST], 1),
    On({A10, B20}, [], [FIRST], 1),
    On({}, [SECOND], [FIRST], 2),
    On({}, [], [EXAMPLE_UPPER, EXAMPLE_LEFT], 4),
    On({A30}, [], [EXAMPLE_UPPER, EXAMPLE_LEFT], 4),
    On({}, [EXAMPLE_LOWER], [EXAMPLE_UPPER, EXAMPLE_LEFT], 5),
    On({}, [], [LAST, EXAMPLE_LEFT], 6)
  ]

  /** "b" is put and flushed, then deleted.  The first compaction runs while a snapshot at 15
      still needs the value, so it keeps value and marker, and its output is cut between
      them.  Then the snapshot is released, "a" is put again and compacted. */
  const EVENTS := [
    Write(B5),
    Flush(FIRST, 2),
    Write(A10),
    Write(B20),
    Flush(SECOND, 1),
    Merge(Compaction(1, [SECOND], [FIRST], []), [A10, B20, B5], 15, [EXAMPLE_UPPER, EXAMPLE_LEFT]),
    Write(A30),
    Flush(EXAMPLE_LOWER, 1),
    Merge(EXAMPLE_COMPACTION, EXAMPLE_MERGED, 30, [LAST])
  ]

  lemma OnContents(one: seq<File>, two: seq<File>)
    ensures AllContents(On({}, one, two, 0).v) == Contents(one) + Contents(two)
    ensures Contents([]) == {}
  {
    var v := On({}, one, two, 0).v;
    forall x
      ensures x in AllContents(v) <==> x in Contents(one) || x in Contents(two)
    {
      assert v.levels[1] == one && v.levels[2] == two;
      assert forall l :: 0 <= l < 7 && l != 1 && l != 2 ==> v.levels[l] == [];
    }
  }

  lemma TableContents()
    ensures Contents([FIRST]) == {B5} && Contents([SECOND]) == {A10, B20}
    ensures Contents([LAST]) == {A30} && Contents([LAST, EXAMPLE_LEFT]) == {A30, B5}
  {
    ContentsOne(FIRST);
    ContentsOne(SECOND);
    ContentsOne(LAST);
    forall x
      ensures x in Contents([LAST, EXAMPLE_LEFT]) <==> x in LAST.entries || x in EXAMPLE_LEFT.entries
    {
      ContentsIn([LAST, EXAMPLE_LEFT], x);
    }
  }

  lemma Writes()
    ensures Step(STATES[0], EVENTS[0], STATES[1])
    ensures Step(STATES[2], EVENTS[2], STATES[3])
    ensures Step(STATES[3], EVENTS[3], STATES[4])
    ensures Step(STATES[6], EVENTS[6], STATES[7])
  {
    hide Contents, AllContents, Less;
    TableContents();
    ExampleContents();
    OnContents([], []);
    OnContents([], [FIRST]);
    OnContents([], [EXAMPLE_UPPER, EXAMPLE_LEFT]);
  }

  lemma Flushes()
    ensures Step(STATES[1], EVENTS[1], STATES[2])
    ensures Step(STATES[4], EVENTS[4], STATES[5])
    ensures Step(STATES[7], EVENTS[7], STATES[8])
  {
    hide Contents, Less;
    ExampleOrder();
    TableContents();
    ExampleContents();
    FlushInto(STATES[1], FIRST, 2, STATES[2]);
    FlushInto(STATES[4], SECOND, 1, STATES[5]);
    FlushInto(STATES[7], EXAMPLE_LOWER, 1, STATES[8]);
  }

  /** All of the memtable goes to an empty level. */
  lemma FlushInto(db: Db, f: File, level: nat, db': Db)
    requires |db.v.levels| == NUM_LEVELS && 0 < level < NUM_LEVELS && db.v.levels[level] == []
    requires GoodFile(f) && f.number == db.next && Contents([f]) == db.mem
    requires forall l :: 0 <= l < level ==> db.v.levels[l] == []
    requires db' == Db({}, Version(db.v.levels[level := [f]]), db.next + 1)
    ensures Step(db, Flush(f, level), db')
  {
    hide Contents, Less, GoodFile;
  }

  lemma OneMeets(f: File, r: Range)
    ensures Selected([f], r) == if Meets(f, r) then [f] else []
  {
    assert [f][..0] == [];
    assert Selected([f][..0], r) == [];
  }

  lemma FlattenTwo(f: File, g: File)
    ensures Flatten([f]) == f.entries && Flatten([f, g]) == f.entries + g.entries
  {
    assert [f][..0] == [] && [f, g][..1] == [f];
    assert Flatten([f]) == Flatten([]) + f.entries;
    assert Flatten([f, g]) == Flatten([f]) + g.entries;
  }

  ghost function IfKept(v: Version, level: nat, m: seq<Entry>, s: SequenceNumber, i: nat): seq<Entry>
    requires i < |m|
  {
    if Dropped(v, level, m, s, i) then [] else [m[i]]
  }

  lemma KeptThree(v: Version, level: nat, m: seq<Entry>, s: SequenceNumber)
    requires |m| == 3
    ensures Kept(v, level, m, s, 3) == IfKept(v, level, m, s, 0) + IfKept(v, level, m, s, 1) + IfKept(v, level, m, s, 2)
  {
    hide Dropped;
    assert Kept(v, level, m, s, 1) == Kept(v, level, m, s, 0) + IfKept(v, level, m, s, 0);
    assert Kept(v, level, m, s, 2) == Kept(v, level, m, s, 1) + IfKept(v, level, m, s, 1);
  }

  lemma FirstMerge()
    ensures Step(STATES[5], EVENTS[5], STATES[6])
  {
    var v, c, m, outputs := STATES[5].v, EVENTS[5].c, EVENTS[5].m, EVENTS[5].outputs;
    FirstChosen();
    FirstKept();
    FirstInstalled();
    assert MergedInputs(c, m) by {
      hide Less, Contents;
      ExampleOrder();
      TableContents();
    }
    hide WellChosen, OutputsOf, MergedInputs, Installed;
  }

  lemma FirstChosen()
    ensures WellChosen(STATES[5].v, EVENTS[5].c)
  {
    hide Less;
    ExampleOrder();
    assert IsRun([SECOND], [SECOND], 0, 1) && RunEnd([SECOND], 1) == 1;
    OneMeets(FIRST, RangeOf([SECOND]));
  }

  lemma FirstKept()
    ensures OutputsOf(STATES[5].v, EVENTS[5].c, EVENTS[5].m, 15, EVENTS[5].outputs)
  {
    hide Less, BaseLevel, Kept, Flatten;
    ExampleOrder();
    KeptThree(STATES[5].v, 1, EVENTS[5].m, 15);
    FlattenTwo(EXAMPLE_UPPER, EXAMPLE_LEFT);
  }

  lemma FirstInstalled()
    ensures Installed(STATES[5].v, EVENTS[5].c, EVENTS[5].outputs, STATES[6].v)
  {
    hide Less;
    ExampleOrder();
  }

  lemma LastMerge()
    ensures Step(STATES[8], EVENTS[8], STATES[9])
  {
    ExampleChosen();
    LastKept();
    LastInstalled();
    var v, c, m, s := NoticeableExample();
    hide WellChosen, OutputsOf, MergedInputs, Installed;
  }

  lemma LastKept()
    ensures OutputsOf(EXAMPLE_VERSION, EXAMPLE_COMPACTION, EXAMPLE_MERGED, 30, [LAST])
  {
    hide Less, Kept, Flatten;
    ExampleOrder();
    KeptThree(EXAMPLE_VERSION, 1, EXAMPLE_MERGED, 30);
    FlattenTwo(LAST, LAST);
  }

  lemma LastInstalled()
    ensures Installed(EXAMPLE_VERSION, EXAMPLE_COMPACTION, [LAST], STATES[9].v)
  {
    hide Less;
    ExampleOrder();
  }

  lemma ReadBefore()
    ensures Reads(STATES[8].mem, STATES[8].v, [98], 30) == None
  {
    hide Contents, AllContents, Sees;
    ExampleContents();
    var es := {} + AllContents(EXAMPLE_VERSION);
    assert Newest(es, [98], 30, B20);
    SeesNewest(es, [98], 30, B20);
  }

  lemma ReadAfter()
    ensures Reads(STATES[9].mem, STATES[9].v, [98], 30) == Some(B5.value)
  {
    hide Contents, AllContents, Sees;
    TableContents();
    OnContents([], [LAST, EXAMPLE_LEFT]);
    var es := {} + AllContents(STATES[9].v);
    assert Newest(es, [98], 30, B5);
    SeesNewest(es, [98], 30, B5);
  }

  /** A reader of "b" finds it deleted before the last compaction and its old value after. */
  lemma DeletedValueReturns()
    ensures Run(STATES, EVENTS) && STATES[0] == Db({}, EMPTY, 0)
    ensures Good(STATES[8]) && Noticeable(STATES[8].mem, STATES[8].v, EXAMPLE_COMPACTION, EXAMPLE_MERGED, 30)
    ensures Reads(STATES[8].mem, STATES[8].v, [98], 30) == None
    ensures Reads(STATES[9].mem, STATES[9].v, [98], 30) == Some(B5.value)
  {
    hide Step, Reads;
    Writes();
    Flushes();
    FirstMerge();
    LastMerge();
    assert forall i :: 0 <= i < 9 ==> Step(STATES[i], EVENTS[i], STATES[i + 1]);
    ReachableIsGood(STATES, EVENTS, 0, 8);
    var v, c, m, s := NoticeableExample();
    ReadBefore();
    ReadAfter();
  }
}
