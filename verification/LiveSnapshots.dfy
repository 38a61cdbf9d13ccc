/** Whether readers can tell that a compaction happened: with the contents of the memtables
    added, the new version shows every live snapshot what the old one did, except in one
    case, which is pinned down exactly.
 */
module LiveSnapshots {
  import opened Comparator
  import opened Dbformat
  import opened Options
  import opened Versions
  import opened Overlapping
  import opened Boundary
  import opened Compactions
  import opened DropRule
  import opened Visibility
  import opened VersionBuilder
  import opened Install

  /** No internal key is in two tables, nor twice in one. */
  lemma OneHolder(v: Version, l: nat, g: File, k: nat, f: File, x: Entry, y: Entry)
    requires GoodVersion(v) && l < NUM_LEVELS && k < NUM_LEVELS
    requires g in v.levels[l] && f in v.levels[k]
    requires x in g.entries && y in f.entries && x.key == y.key
    ensures l == k && f == g && x == y
  {
    hide Less, Disjoint, Contents;
    ContentsIn(v.levels[l], x);
    ContentsIn(v.levels[k], y);
    assert !Newer(x, y) && !Newer(y, x);
    assert l == k;
    var i, j := PlaceOf(g.entries, x), PlaceOf(f.entries, y);
    InternalOrder(x.key, x.key, x.key);
    if l == 0 {
      ContentsOne(f);
      ContentsOne(g);
      assert !Above(Contents([f]), Contents([g])) && !Above(Contents([g]), Contents([f]));
    } else if f != g {
      var a, b := PlaceOf(v.levels[l], g), PlaceOf(v.levels[l], f);
      if a < b {
        EarlierFilesNewer(v.levels[l], a, i, b, j);
      } else {
        EarlierFilesNewer(v.levels[l], b, j, a, i);
      }
    }
    SortedOnce(g.entries, i, if f == g then j else i);
  }

  lemma SortedOnce(es: seq<Entry>, i: nat, j: nat)
    requires Sorted(es) && i < |es| && j < |es|
    ensures es[i].key == es[j].key ==> i == j
  {
    if i < j {
      SortedUsers(es, i, j);
    } else if j < i {
      SortedUsers(es, j, i);
    }
  }

  /** The tables where an entry of the inputs sits. */
  lemma InputHolder(v: Version, c: Compaction, m: seq<Entry>, x: Entry) returns (l: nat, f: File)
    requires GoodVersion(v) && WellChosen(v, c) && MergedInputs(c, m) && x in m
    ensures l < NUM_LEVELS && f in v.levels[l] && x in f.entries
    ensures IsInput(c, l, f)
  {
    hide Contents, Before, Disjoint, Above, DistinctNumbers, NumbersTellAge, Selected, GoodFile, Sorted, LargestKey,
      SmallestKey;
    ChosenAreInputs(v, c);
    assert x in EntrySet(m);
    ContentsIn(c.inputs0, x);
    ContentsIn(c.inputs1, x);
    if x in Contents(c.inputs0) {
      l := c.level;
      f :| f in c.inputs0 && x in f.entries;
    } else {
      l := c.level + 1;
      f :| f in c.inputs1 && x in f.entries;
    }
  }

  ghost predicate IsInput(c: Compaction, l: nat, f: File) {
    (l == c.level && f in c.inputs0) || (l == c.level + 1 && f in c.inputs1)
  }

  /** An entry is among the merged inputs exactly when its table is an input. */
  lemma InputEntries(v: Version, c: Compaction, m: seq<Entry>, l: nat, g: File, x: Entry)
    requires GoodVersion(v) && WellChosen(v, c) && MergedInputs(c, m)
    requires l < NUM_LEVELS && g in v.levels[l] && x in g.entries
    ensures x in m <==> IsInput(c, l, g)
  {
    hide Contents, Before, Disjoint, Above, DistinctNumbers, NumbersTellAge, Selected, GoodFile, Sorted, Unsplit,
      LargestKey, SmallestKey;
    if x in m {
      var k, f := InputHolder(v, c, m, x);
      OneHolder(v, l, g, k, f, x, x);
    }
    if IsInput(c, l, g) {
      ContentsIn(c.inputs0, x);
      ContentsIn(c.inputs1, x);
      assert x in EntrySet(m);
    }
  }

  lemma Holder(v: Version, x: Entry) returns (l: nat, g: File)
    requires x in AllContents(v)
    ensures l < |v.levels| && g in v.levels[l] && x in g.entries
  {
    hide Contents;
    l :| l < |v.levels| && x in Contents(v.levels[l]);
    ContentsIn(v.levels[l], x);
    g :| g in v.levels[l] && x in g.entries;
  }

  lemma Held(v: Version, l: nat, g: File, x: Entry)
    requires l < |v.levels| && g in v.levels[l] && x in g.entries
    ensures x in AllContents(v) && x in Contents(v.levels[l])
  {
    hide Contents;
    ContentsIn(v.levels[l], x);
  }

  lemma GoodUnique(v: Version)
    requires GoodVersion(v)
    ensures UniqueKeys(AllContents(v))
  {
    hide Contents, Before, Disjoint, GoodVersion, Tag;
    forall x, y | x in AllContents(v) && y in AllContents(v) && x.key == y.key
      ensures x == y
    {
      var l, g := Holder(v, x);
      var k, f := Holder(v, y);
      assert |v.levels| == NUM_LEVELS by { LevelCount(v); }
      OneHolder(v, l, g, k, f, x, y);
    }
  }

  lemma LevelCount(v: Version)
    requires GoodVersion(v)
    ensures |v.levels| == NUM_LEVELS
  {
  }

  /** The new version holds what the old one held, less what the drop rule dropped. */
  lemma ContentsAfter(v: Version, c: Compaction, m: seq<Entry>, snapshot: SequenceNumber, outputs: seq<File>,
                      v': Version)
    requires GoodVersion(v) && WellChosen(v, c) && MergedInputs(c, m)
    requires OutputsOf(v, c, m, snapshot, outputs) && Installed(v, c, outputs, v')
    ensures EntrySet(m) <= AllContents(v)
    ensures AllContents(v') == AfterDrop(AllContents(v), v, c.level, m, snapshot)
  {
    hide Contents, Before, Disjoint, Above, DistinctNumbers, NumbersTellAge, Selected, GoodFile, Sorted, Unsplit,
      LargestKey, SmallestKey,
      Kept, Flatten, InOrder, AllContents;
    forall x
      ensures x in AllContents(v') <==> x in AfterDrop(AllContents(v), v, c.level, m, snapshot)
      ensures x in m ==> x in AllContents(v)
    {
      OutputsFromInputs(v, c, m, snapshot, outputs, x);
      if x in m {
        var k, f := InputHolder(v, c, m, x);
        Held(v, k, f, x);
      }
      if x in AllContents(v') {
        var l, g := Holder(v', x);
        if l == c.level + 1 && g in outputs {
          ContentsIn(outputs, x);
        } else {
          InputEntries(v, c, m, l, g, x);
          Held(v, l, g, x);
        }
      }
      if x in Kept(v, c.level, m, snapshot, |m|) {
        ContentsIn(outputs, x);
        var g :| g in outputs && x in g.entries;
        Held(v', c.level + 1, g, x);
      } else if x in AllContents(v) && x !in m {
        var l, g := Holder(v, x);
        InputEntries(v, c, m, l, g, x);
        Held(v', l, g, x);
      }
    }
  }

  /** The upper inputs are a run of their level; `hi` is where it ends. */
  ghost predicate UpperRun(v: Version, c: Compaction, lo: nat, hi: nat)
    requires |v.levels| == NUM_LEVELS && c.level + 1 < NUM_LEVELS
  {
    var files := v.levels[c.level + 1];
    lo <= hi <= |files| && c.inputs1 == files[lo..hi] && (lo == hi ==> lo == 0)
  }

  lemma UpperIsRun(v: Version, c: Compaction) returns (lo: nat, hi: nat)
    requires GoodVersion(v) && WellChosen(v, c)
    ensures UpperRun(v, c, lo, hi)
  {
    hide Disjoint, GoodFile, Above, NumbersTellAge, DistinctNumbers, Unsplit, Selected, Meets;
    var files := v.levels[c.level + 1];
    lo, hi := SelectedRun(files, RangeOf(c.inputs0), |files|);
    assert files[..|files|] == files;
  }

  /** Below a deletion marker among the inputs with nothing deeper, an older entry for its
      user key that is not an input can only be in the upper level, and so is the marker. */
  lemma OlderIsInUpper(mem: set<Entry>, v: Version, c: Compaction, m: seq<Entry>, t: Entry, y: Entry)
    returns (tf: File, g: File)
    requires GoodVersion(v) && WellChosen(v, c) && MergedInputs(c, m)
    requires Above(mem, AllContents(v))
    requires t in m && BaseLevel(v, c.level, t.key.user)
    requires y in mem + AllContents(v) && y !in m && y.key.user == t.key.user && Newer(t, y)
    ensures g in v.levels[c.level + 1] && g !in c.inputs1 && y in g.entries
    ensures tf in c.inputs1 && t in tf.entries
  {
    hide Contents, Before, Less, Disjoint, DistinctNumbers, NumbersTellAge, Selected, GoodFile, Sorted, Unsplit,
      LargestKey, SmallestKey,
      AllContents, MergedInputs, RunEnd;
    var tl;
    tl, tf := InputHolder(v, c, m, t);
    Held(v, tl, tf, t);
    var l;
    l, g := Holder(v, y);
    Held(v, l, g, y);
    InputEntries(v, c, m, l, g, y);
    EntryInRange(g, y);
    assert l == c.level + 1 by {
      assert l >= c.level;
      if l == c.level && tl == c.level {
        ContentsIn(c.inputs0, t);
        NoOlderLeft(v, c, t, g, y);
      }
    }
    if tl == c.level {
      LeftOutIsOutside(v, c, g, tf, t);
    }
  }

  /** ... and there it comes after the upper inputs. */
  lemma OlderIsPastRun(mem: set<Entry>, v: Version, c: Compaction, m: seq<Entry>, t: Entry, y: Entry, lo: nat, hi: nat)
    returns (j: nat, k: nat)
    requires GoodVersion(v) && WellChosen(v, c) && MergedInputs(c, m)
    requires Above(mem, AllContents(v)) && UpperRun(v, c, lo, hi)
    requires t in m && BaseLevel(v, c.level, t.key.user)
    requires y in mem + AllContents(v) && y !in m && y.key.user == t.key.user && Newer(t, y)
    ensures lo <= j < hi && t in v.levels[c.level + 1][j].entries
    ensures hi <= k < |v.levels[c.level + 1]| && y in v.levels[c.level + 1][k].entries
  {
    hide Contents, Before, Less, Disjoint, DistinctNumbers, NumbersTellAge, Above, Selected, GoodFile, Sorted,
      Unsplit, LargestKey,
      SmallestKey, AllContents, MergedInputs, BaseLevel;
    var tf, g := OlderIsInUpper(mem, v, c, m, t, y);
    var files := v.levels[c.level + 1];
    k := PlaceOf(files, g);
    j := lo + PlaceOf(files[lo..hi], tf);
    InSlice(files, lo, hi, k);
    if k < lo {
      EarlierFilesNewer(files, k, PlaceOf(g.entries, y), j, PlaceOf(tf.entries, t));
    }
  }

  lemma EntryInRange(f: File, x: Entry)
    requires GoodFile(f) && x in f.entries
    ensures InRange(x.key.user, f)
  {
    FileBounds(f, PlaceOf(f.entries, x));
  }

  /** The one case a reader can notice.  A boundary file was left out of the upper inputs:
      it starts with an older version, a value, of the user key the inputs end with; the
      newest entry for that key at the oldest live snapshot is a deletion marker among the
      inputs; and no file further down has the key in its range. */
  ghost predicate BoundaryValueUncovered(mem: set<Entry>, v: Version, c: Compaction, m: seq<Entry>,
                                         snapshot: SequenceNumber,
                                         lo: nat, hi: nat)
    requires GoodVersion(v) && c.level + 1 < NUM_LEVELS
  {
    var files := v.levels[c.level + 1];
    && UpperRun(v, c, lo, hi) && lo < hi < |files|
    && GoodFile(files[hi]) && files[hi].smallest.user == files[hi - 1].largest.user
    && files[hi].entries[0].key.kind == TypeValue
    && BaseLevel(v, c.level, files[hi].smallest.user)
    && exists t ::
         && t in m && t.key.kind == TypeDeletion
         && Newest(mem + AllContents(v), files[hi].smallest.user, snapshot, t)
  }

  ghost predicate Noticeable(mem: set<Entry>, v: Version, c: Compaction, m: seq<Entry>, snapshot: SequenceNumber)
    requires GoodVersion(v) && c.level + 1 < NUM_LEVELS
  {
    exists lo: nat, hi: nat :: BoundaryValueUncovered(mem, v, c, m, snapshot, lo, hi)
  }

  /** A file past the run that still has the run's user key makes the next file a boundary. */
  lemma SpanMakesBoundary(files: seq<File>, j: nat, hi: nat, k: nat, t: Entry, y: Entry)
    requires GoodFiles(files) && Disjoint(files) && j < hi <= k < |files|
    requires t in files[j].entries && y in files[k].entries && t.key.user == y.key.user
    ensures files[hi].smallest.user == files[hi - 1].largest.user == t.key.user
    ensures files[hi].entries != [] && (y == files[hi].entries[0] || Newer(files[hi].entries[0], y))
  {
    hide Disjoint, Less, PlaceOf;
    var a, b := PlaceOf(files[j].entries, t), PlaceOf(files[k].entries, y);
    LessTransitive(t.key.user, files[j].largest.user, files[hi - 1].largest.user);
    FileBounds(files[j], a);
    FileBounds(files[k], b);
    LargestIncrease(files, j, hi - 1);
    LargestIncrease(files, hi - 1, hi);
    FileBounds(files[hi], 0);
    if hi < k {
      EarlierFilesNewer(files, hi, 0, k, b);
    } else {
      SortedUsers(files[hi].entries, 0, b);
    }
    BetweenEqual(t.key.user, files[hi - 1].largest, files[hi].smallest, files[k].entries[b].key);
  }

  lemma BetweenEqual(user: Bytes, a: InternalKey, b: InternalKey, y: InternalKey)
    requires LessEq(user, a.user) && Before(a, b) && (b == y || Before(b, y)) && y.user == user
    ensures a.user == b.user == user
  {
    var rank, unrank := OrderByRank();
    assert unrank(rank(a.user)) == a.user && unrank(rank(b.user)) == b.user && unrank(rank(user)) == user;
  }

  lemma UncoversOnlyAtBoundary(mem: set<Entry>, v: Version, c: Compaction, m: seq<Entry>, snapshot: SequenceNumber,
                               lo: nat, hi: nat, t: Entry, x: Entry)
    requires GoodVersion(v) && WellChosen(v, c) && MergedInputs(c, m)
    requires Above(mem, AllContents(v)) && UpperRun(v, c, lo, hi)
    requires Uncovers(mem + AllContents(v), v, c.level, m, snapshot, t, x)
    ensures BoundaryValueUncovered(mem, v, c, m, snapshot, lo, hi)
  {
    hide Contents, Before, Less, Disjoint, DistinctNumbers, NumbersTellAge, Above, Selected, Sorted, Unsplit,
      LargestKey, SmallestKey,
      AllContents, BaseLevel;
    var files := v.levels[c.level + 1];
    var j, k := OlderIsPastRun(mem, v, c, m, t, x, lo, hi);
    SpanMakesBoundary(files, j, hi, k, t, x);
    var first := files[hi].entries[0];
    assert GoodFile(files[hi]) by { assert files[hi] in files; }
    FirstOfBoundary(v, c, m, lo, hi);
    Held(v, c.level + 1, files[hi], first);
    OlderThanRun(files, j, hi, t);
    assert first == x;
  }

  /** The boundary file's first entry is not an input. */
  lemma FirstOfBoundary(v: Version, c: Compaction, m: seq<Entry>, lo: nat, hi: nat)
    requires GoodVersion(v) && WellChosen(v, c) && MergedInputs(c, m) && UpperRun(v, c, lo, hi)
    requires hi < |v.levels[c.level + 1]|
    ensures v.levels[c.level + 1][hi].entries != [] && v.levels[c.level + 1][hi].entries[0] !in m
  {
    hide Contents, Before, Less, DistinctNumbers, NumbersTellAge, Above, Selected, Sorted, Unsplit, LargestKey,
      SmallestKey;
    var files := v.levels[c.level + 1];
    assert GoodFile(files[hi]) by { assert files[hi] in files; }
    NotInSlice(files, lo, hi);
    InputEntries(v, c, m, c.level + 1, files[hi], files[hi].entries[0]);
  }

  lemma NotInSlice(files: seq<File>, lo: nat, hi: nat)
    requires GoodFiles(files) && Disjoint(files) && lo <= hi < |files|
    ensures files[hi] !in files[lo..hi]
  {
    hide Disjoint;
    forall i | lo <= i < hi
      ensures files[i] != files[hi]
    {
      LargestIncrease(files, i, hi);
      FirstBeforeLast(files[hi]);
    }
  }

  lemma OlderThanRun(files: seq<File>, j: nat, hi: nat, t: Entry)
    requires GoodFiles(files) && Disjoint(files) && j < hi < |files| && t in files[j].entries
    ensures files[hi].entries != [] && (files[hi].entries[0].key.user == t.key.user ==> Newer(t, files[hi].entries[0]))
  {
    hide Disjoint, Before;
    assert GoodFile(files[hi]) by { assert files[hi] in files; }
    EarlierFilesNewer(files, j, PlaceOf(files[j].entries, t), hi, 0);
  }

  lemma BoundaryUncovers(mem: set<Entry>, v: Version, c: Compaction, m: seq<Entry>, snapshot: SequenceNumber, lo: nat,
                         hi: nat)
    returns (t: Entry, x: Entry)
    requires GoodVersion(v) && WellChosen(v, c) && MergedInputs(c, m)
    requires Above(mem, AllContents(v)) && UpperRun(v, c, lo, hi)
    requires BoundaryValueUncovered(mem, v, c, m, snapshot, lo, hi)
    ensures Uncovers(mem + AllContents(v), v, c.level, m, snapshot, t, x)
  {
    hide Contents, Before, Less, Disjoint, DistinctNumbers, NumbersTellAge, Selected, Sorted, Unsplit, LargestKey,
      SmallestKey,
      AllContents, BaseLevel;
    var files := v.levels[c.level + 1];
    x := files[hi].entries[0];
    t :| t in m && t.key.kind == TypeDeletion && Newest(mem + AllContents(v), x.key.user, snapshot, t);
    FirstOfBoundary(v, c, m, lo, hi);
    Held(v, c.level + 1, files[hi], x);
    MarkerIsNewer(v, c, m, lo, hi, t);
    forall y | y in mem + AllContents(v) && y !in m && y.key.user == t.key.user && Newer(t, y)
      ensures y == x || Newer(x, y)
    {
      var j, k := OlderIsPastRun(mem, v, c, m, t, y, lo, hi);
      SpanMakesBoundary(files, j, hi, k, t, y);
    }
  }

  /** Inputs are newer than the boundary file left behind. */
  lemma MarkerIsNewer(v: Version, c: Compaction, m: seq<Entry>, lo: nat, hi: nat, t: Entry)
    requires GoodVersion(v) && WellChosen(v, c) && MergedInputs(c, m) && UpperRun(v, c, lo, hi)
    requires hi < |v.levels[c.level + 1]| && t in m
    requires v.levels[c.level + 1][hi].entries != [] && v.levels[c.level + 1][hi].entries[0].key.user == t.key.user
    ensures Newer(t, v.levels[c.level + 1][hi].entries[0])
  {
    hide Contents, Before, Less, Disjoint, DistinctNumbers, NumbersTellAge, Selected, Sorted, Unsplit, LargestKey,
      SmallestKey,
      AllContents;
    var files := v.levels[c.level + 1];
    var tl, tf := InputHolder(v, c, m, t);
    Held(v, tl, tf, t);
    Held(v, c.level + 1, files[hi], files[hi].entries[0]);
    if tl == c.level + 1 {
      var j := PlaceOf(files[lo..hi], tf);
      OlderThanRun(files, lo + j, hi, t);
    }
  }

  /** What a reader of `user` at s gets from the memtables and the tables together. */
  ghost function Reads(mem: set<Entry>, v: Version, user: Bytes, s: SequenceNumber): Option<Bytes> {
    Sees(mem + AllContents(v), user, s)
  }

  /** No reader at the oldest live snapshot or later can tell the versions apart. */
  ghost predicate Indistinguishable(mem: set<Entry>, v: Version, v': Version, snapshot: SequenceNumber) {
    forall user, s: SequenceNumber :: snapshot <= s ==> Reads(mem, v', user, s) == Reads(mem, v, user, s)
  }

  /** A compaction is invisible to every live snapshot exactly when it does not uncover the
      value at the start of a boundary file left out of the upper inputs. */
  lemma CompactionInvisibleIff(mem: set<Entry>, v: Version, c: Compaction, m: seq<Entry>, snapshot: SequenceNumber,
                               outputs: seq<File>, v': Version)
    requires GoodVersion(v) && WellChosen(v, c) && MergedInputs(c, m)
    requires OutputsOf(v, c, m, snapshot, outputs) && Installed(v, c, outputs, v')
    requires Above(mem, AllContents(v)) && UniqueKeys(mem)
    ensures Indistinguishable(mem, v, v', snapshot) <==>
            !Noticeable(mem, v, c, m, snapshot)
  {
    hide Sees, AfterDrop, Uncovers, BoundaryValueUncovered, GoodVersion, WellChosen, MergedInputs, OutputsOf,
      Installed, AllContents;
    var es := mem + AllContents(v);
    ContentsAfter(v, c, m, snapshot, outputs, v');
    WithMemtables(mem, v, c, m, snapshot, v');
    UniqueTogether(mem, v);
    assert Sorted(m) by { MergedIsSorted(c, m); }
    InvisibleIffNothingUncovered(es, v, c.level, m, snapshot);
    if Indistinguishable(mem, v, v', snapshot) {
      forall user, s: SequenceNumber | snapshot <= s
        ensures Sees(AfterDrop(es, v, c.level, m, snapshot), user, s) == Sees(es, user, s)
      {
        assert Reads(mem, v', user, s) == Reads(mem, v, user, s);
      }
    }
    assert c.level + 1 < NUM_LEVELS by { ChosenLevel(v, c); }
    var lo, hi := UpperIsRun(v, c);
    if t, x :| Uncovers(es, v, c.level, m, snapshot, t, x) {
      UncoversOnlyAtBoundary(mem, v, c, m, snapshot, lo, hi, t, x);
    }
    if lo': nat, hi': nat :| BoundaryValueUncovered(mem, v, c, m, snapshot, lo', hi') {
      BoundaryRun(mem, v, c, m, snapshot, lo', hi');
      var t, x := BoundaryUncovers(mem, v, c, m, snapshot, lo', hi');
    }
  }

  lemma MergedIsSorted(c: Compaction, m: seq<Entry>)
    requires MergedInputs(c, m)
    ensures Sorted(m)
  {
  }

  lemma ChosenLevel(v: Version, c: Compaction)
    requires WellChosen(v, c)
    ensures c.level + 1 < NUM_LEVELS
  {
  }

  lemma BoundaryRun(mem: set<Entry>, v: Version, c: Compaction, m: seq<Entry>, snapshot: SequenceNumber, lo: nat,
                    hi: nat)
    requires GoodVersion(v) && c.level + 1 < NUM_LEVELS
    requires BoundaryValueUncovered(mem, v, c, m, snapshot, lo, hi)
    ensures UpperRun(v, c, lo, hi)
  {
  }

  lemma UniqueTogether(mem: set<Entry>, v: Version)
    requires GoodVersion(v) && Above(mem, AllContents(v)) && UniqueKeys(mem)
    ensures UniqueKeys(mem + AllContents(v))
  {
    hide AllContents, GoodVersion;
    GoodUnique(v);
  }

  lemma WithMemtables(mem: set<Entry>, v: Version, c: Compaction, m: seq<Entry>, snapshot: SequenceNumber, v': Version)
    requires Above(mem, AllContents(v)) && EntrySet(m) <= AllContents(v)
    requires AllContents(v') == AfterDrop(AllContents(v), v, c.level, m, snapshot)
    ensures mem + AllContents(v') == AfterDrop(mem + AllContents(v), v, c.level, m, snapshot)
    ensures EntrySet(m) <= mem + AllContents(v)
  {
    hide AllContents, Kept;
    forall x | x in mem
      ensures x !in EntrySet(m)
    {
      assert !Newer(x, x);
    }
  }

  /** Had AddBoundaryInputs been applied to the upper inputs as well, with nothing to add,
      no compaction could be noticed. */
  lemma UnsplitUpperIsInvisible(mem: set<Entry>, v: Version, c: Compaction, m: seq<Entry>, snapshot: SequenceNumber,
                                outputs: seq<File>, v': Version)
    requires GoodVersion(v) && WellChosen(v, c) && MergedInputs(c, m)
    requires OutputsOf(v, c, m, snapshot, outputs) && Installed(v, c, outputs, v')
    requires Above(mem, AllContents(v)) && UniqueKeys(mem)
    requires c.inputs1 == [] || Chain(v.levels[c.level + 1], LargestKey(c.inputs1)) == []
    ensures Indistinguishable(mem, v, v', snapshot)
  {
    hide *;
    CompactionInvisibleIff(mem, v, c, m, snapshot, outputs, v');
    NoneLeftOut(mem, v, c, m, snapshot);
  }

  lemma NoneLeftOut(mem: set<Entry>, v: Version, c: Compaction, m: seq<Entry>, snapshot: SequenceNumber)
    requires GoodVersion(v) && WellChosen(v, c)
    requires c.inputs1 == [] || Chain(v.levels[c.level + 1], LargestKey(c.inputs1)) == []
    ensures !Noticeable(mem, v, c, m, snapshot)
  {
    hide Sees, AfterDrop, AllContents, Chain, LargestKey, RunEnd, Unsplit, Selected, Less, Before;
    if lo: nat, hi: nat :| BoundaryValueUncovered(mem, v, c, m, snapshot, lo, hi) {
      var files := v.levels[c.level + 1];
      RunRange(files, lo, hi);
      ChainIsRun(files, hi);
      BoundaryExtends(files, hi);
    }
  }

  lemma BoundaryExtends(files: seq<File>, hi: nat)
    requires 0 < hi < |files| && files[hi].smallest.user == files[hi - 1].largest.user
    ensures hi < RunEnd(files, hi)
  {
  }

  function Key(user: Bytes, seqno: SequenceNumber, kind: ValueType): Entry {
    Entry(InternalKey(user, seqno, kind), [7])
  }

  function Table(number: nat, entries: seq<Entry>): File
    requires entries != []
  {
    File(number, 1, entries[0].key, entries[|entries| - 1].key, entries)
  }

  /** Level 1 has one table, with "a".  Level 2 has a table with "a" and the marker that
      deletes "b", and after it a table with the older value of "b". */
  const EXAMPLE_LOWER := Table(4, [Key([97], 30, TypeValue)])
  const EXAMPLE_UPPER := Table(2, [Key([97], 10, TypeValue), Key([98], 20, TypeDeletion)])
  const EXAMPLE_LEFT := Table(3, [Key([98], 5, TypeValue)])
  const EXAMPLE_VERSION := Version([[], [EXAMPLE_LOWER], [EXAMPLE_UPPER, EXAMPLE_LEFT], [], [], [], []])
  const EXAMPLE_COMPACTION := Compaction(1, [EXAMPLE_LOWER], [EXAMPLE_UPPER], [])
  const EXAMPLE_MERGED := [Key([97], 30, TypeValue), Key([97], 10, TypeValue), Key([98], 20, TypeDeletion)]

  lemma ExampleOrder()
    ensures Less([97], [98]) && !Less([98], [97]) && !Less([97], [97]) && !Less([98], [98])
  {
    assert LessAt([97], [98], 0);
    LessIsStrict([97], [98]);
    LessIsStrict([97], [97]);
    LessIsStrict([98], [98]);
  }

  lemma ExampleContents()
    ensures AllContents(EXAMPLE_VERSION)
            == {Key([97], 30, TypeValue), Key([97], 10, TypeValue), Key([98], 20, TypeDeletion),
                Key([98], 5, TypeValue)}
    ensures Contents([EXAMPLE_LOWER]) == {Key([97], 30, TypeValue)}
    ensures Contents([EXAMPLE_UPPER]) == {Key([97], 10, TypeValue), Key([98], 20, TypeDeletion)}
    ensures Contents([EXAMPLE_UPPER, EXAMPLE_LEFT])
            == {Key([97], 10, TypeValue), Key([98], 20, TypeDeletion), Key([98], 5, TypeValue)}
    ensures Contents([]) == {}
  {
    var v := EXAMPLE_VERSION;
    ContentsOne(EXAMPLE_LOWER);
    ContentsOne(EXAMPLE_UPPER);
    forall x
      ensures x in Contents([EXAMPLE_UPPER, EXAMPLE_LEFT]) <==> x in EXAMPLE_UPPER.entries || x in EXAMPLE_LEFT.entries
    {
      ContentsIn([EXAMPLE_UPPER, EXAMPLE_LEFT], x);
    }
    forall x
      ensures x in AllContents(v) <==> x in Contents(v.levels[1]) || x in Contents(v.levels[2])
    {
    }
  }

  lemma ExampleGood()
    ensures GoodVersion(EXAMPLE_VERSION)
  {
    hide Less, AllContents;
    ExampleOrder();
    ExampleContents();
    hide Contents;
    assert GoodFiles([EXAMPLE_LOWER]) && GoodFiles([EXAMPLE_UPPER, EXAMPLE_LEFT]);
    assert DistinctNumbers([EXAMPLE_UPPER, EXAMPLE_LEFT]);
    assert Disjoint([EXAMPLE_UPPER, EXAMPLE_LEFT]);
    assert Above(Contents([EXAMPLE_LOWER]), Contents([EXAMPLE_UPPER, EXAMPLE_LEFT]));
  }

  lemma ExampleChosen()
    ensures WellChosen(EXAMPLE_VERSION, EXAMPLE_COMPACTION)
  {
    hide Less;
    ExampleOrder();
    var lower, upper := [EXAMPLE_LOWER], [EXAMPLE_UPPER, EXAMPLE_LEFT];
    assert IsRun(lower, lower, 0, 1) && RunEnd(lower, 1) == 1;
    var r := RangeOf(lower);
    assert Meets(EXAMPLE_UPPER, r) && !Meets(EXAMPLE_LEFT, r);
    assert upper[..1] == [EXAMPLE_UPPER];
    assert Selected(upper[..1], r) == Selected([], r) + [EXAMPLE_UPPER];
  }

  /** A compaction of a good version, with the inputs that the code chooses, that a reader
      does notice: the marker is dropped and the older value of "b" comes back. */
  lemma NoticeableExample() returns (v: Version, c: Compaction, m: seq<Entry>, snapshot: SequenceNumber)
    ensures v == EXAMPLE_VERSION && c == EXAMPLE_COMPACTION && m == EXAMPLE_MERGED && snapshot == 30
    ensures GoodVersion(v) && WellChosen(v, c) && MergedInputs(c, m)
    ensures Noticeable({}, v, c, m, snapshot)
  {
    hide Less, Contents, AllContents, Unsplit, Selected;
    v, c := EXAMPLE_VERSION, EXAMPLE_COMPACTION;
    m := EXAMPLE_MERGED;
    snapshot := 30;
    ExampleOrder();
    ExampleContents();
    ExampleGood();
    ExampleChosen();
    assert UpperRun(v, c, 0, 1) by { assert v.levels[2][0..1] == [EXAMPLE_UPPER]; }
    assert Newest({} + AllContents(v), [98], snapshot, m[2]);
    assert BoundaryValueUncovered({}, v, c, m, snapshot, 0, 1);
  }
}
