/** Installing the results of a compaction (InstallCompactionResults in db/db_impl.cc,
    LogAndApply in db/version_set.cc) and what readers of the new version see.
 */
module Install {
  import opened Comparator
  import opened Dbformat
  import opened Options
  import opened Versions
  import opened Overlapping
  import opened Boundary
  import opened Compactions
  import opened DropRule
  import opened Visibility
  import opened VersionBuilder

  /** The merged inputs of a compaction, as its iterator yields them. */
  ghost predicate MergedInputs(c: Compaction, m: seq<Entry>) {
    Sorted(m) && EntrySet(m) == Contents(c.inputs0) + Contents(c.inputs1)
  }

  /** The output files hold exactly what the drop rule keeps, under numbers not in use. */
  ghost predicate OutputsOf(v: Version, c: Compaction, m: seq<Entry>, snapshot: SequenceNumber, outputs: seq<File>)
  {
    && GoodFiles(outputs) && DistinctAdds(outputs)
    && Flatten(outputs) == Kept(v, c.level, m, snapshot, |m|)
    && (c.level + 1 < |v.levels| ==> Numbers(outputs) !! Numbers(v.levels[c.level + 1]))
  }

  /** The output files partition some of the merged inputs, in order, under free numbers. */
  ghost predicate PartitionOf(v: Version, c: Compaction, m: seq<Entry>, outputs: seq<File>) {
    && GoodFiles(outputs) && DistinctAdds(outputs)
    && Sorted(Flatten(outputs)) && (forall x :: x in Flatten(outputs) ==> x in m)
    && (c.level + 1 < |v.levels| ==> Numbers(outputs) !! Numbers(v.levels[c.level + 1]))
  }

  lemma OutputsArePartition(v: Version, c: Compaction, m: seq<Entry>, snapshot: SequenceNumber, outputs: seq<File>)
    requires Sorted(m) && OutputsOf(v, c, m, snapshot, outputs)
    ensures PartitionOf(v, c, m, outputs)
  {
    KeptSorted(v, c.level, m, snapshot, |m|);
  }

  /** v' is v with the inputs taken out of their levels and the outputs put into level + 1. */
  ghost predicate Installed(v: Version, c: Compaction, outputs: seq<File>, v': Version)
    requires |v.levels| == NUM_LEVELS && c.level + 1 < NUM_LEVELS
  {
    && |v'.levels| == NUM_LEVELS
    && (forall l :: 0 <= l < NUM_LEVELS && l != c.level && l != c.level + 1 ==> v'.levels[l] == v.levels[l])
    && (forall f :: f in v'.levels[c.level] <==> f in v.levels[c.level] && f !in c.inputs0)
    && (forall f :: f in v'.levels[c.level + 1] <==> (f in v.levels[c.level + 1] && f !in c.inputs1) || f in outputs)
    && (c.level > 0 ==> InOrder(v'.levels[c.level]))
    && InOrder(v'.levels[c.level + 1])
  }

  /** One level of a version after one edit. */
  lemma InstalledMembers(files: seq<File>, dels: set<nat>, adds: seq<File>, f: File)
    requires DistinctAdds(adds) && Numbers(files) !! Numbers(adds)
    ensures f in Save(files, ApplyEdit(LevelState({}, []), LevelEdit(dels, adds))) <==>
            (f in files && f.number !in dels) || f in adds
  {
    InsertAllKeeps([], adds);
    SaveMembers(files, ApplyEdit(LevelState({}, []), LevelEdit(dels, adds)), f);
    assert f in files ==> f.number in Numbers(files);
  }

  lemma InstalledInOrder(files: seq<File>, dels: set<nat>, adds: seq<File>)
    requires GoodFiles(files) && Disjoint(files)
    requires DistinctAdds(adds) && Numbers(files) !! Numbers(adds)
    ensures InOrder(Save(files, ApplyEdit(LevelState({}, []), LevelEdit(dels, adds))))
  {
    hide BySmallest, Save;
    DisjointInOrder(files);
    InsertAllKeeps([], adds);
    forall f, g | f in files && g in adds
      ensures f.number != g.number
    {
      assert f.number in Numbers(files) && g.number in Numbers(adds);
    }
    SaveInOrder(files, ApplyEdit(LevelState({}, []), LevelEdit(dels, adds)));
  }

  lemma DisjointInOrder(files: seq<File>)
    requires GoodFiles(files) && Disjoint(files)
    ensures InOrder(files)
  {
    hide Before;
    forall i, j | 0 <= i < j < |files|
      ensures BySmallest(files[i], files[j])
    {
      FileBounds(files[i], 0);
      InternalOrder(files[i].smallest, files[i].largest, files[j].smallest);
    }
  }

  lemma Untouched(files: seq<File>)
    ensures Save(files, ApplyEdit(LevelState({}, []), LevelEdit({}, []))) == files
  {
    SurvivingAll(files);
    assert ApplyEdit(LevelState({}, []), LevelEdit({}, [])).deleted == {};
  }

  predicate Apart(f: File, g: File) {
    Before(f.largest, g.smallest) || Before(g.largest, f.smallest)
  }

  lemma OrderedApartIsDisjoint(files: seq<File>)
    requires GoodFiles(files) && InOrder(files)
    requires forall f, g :: f in files && g in files && f != g ==> Apart(f, g)
    ensures Disjoint(files)
  {
    hide Before, GoodFile;
    forall i, j | 0 <= i < j < |files|
      ensures Before(files[i].largest, files[j].smallest)
    {
      var f, g := files[i], files[j];
      BySmallestOrder(f, g, f);
      InternalOrder(g.smallest, g.largest, f.smallest);
      InternalOrder(f.smallest, g.smallest, f.smallest);
      assert f in files && g in files && BySmallest(f, g);
      FirstBeforeLast(g);
    }
  }

  lemma FirstBeforeLast(f: File)
    requires GoodFile(f)
    ensures NotAfter(f.smallest, f.largest)
  {
    FileBounds(f, 0);
  }

  lemma {:induction false} FlattenContents(outputs: seq<File>, x: Entry)
    ensures x in Flatten(outputs) <==> x in Contents(outputs)
  {
    hide Contents;
    ContentsIn(outputs, x);
    if outputs != [] {
      var n := |outputs| - 1;
      FlattenContents(outputs[..n], x);
      ContentsIn(outputs[..n], x);
      assert outputs == outputs[..n] + [outputs[n]];
    }
  }

  lemma {:induction false} FlattenApart(outputs: seq<File>)
    requires GoodFiles(outputs) && Sorted(Flatten(outputs))
    ensures Disjoint(outputs)
  {
    hide Before;
    if outputs != [] {
      var n := |outputs| - 1;
      var all, head, last := Flatten(outputs), Flatten(outputs[..n]), outputs[n];
      assert forall i :: 0 <= i < |head| ==> all[i] == head[i];
      assert GoodFile(last);
      FlattenApart(outputs[..n]);
      forall i | 0 <= i < n
        ensures Before(outputs[i].largest, last.smallest)
      {
        assert outputs[i] in outputs;
        var e := outputs[i].entries[|outputs[i].entries| - 1];
        assert e in outputs[i].entries;
        assert outputs[..n][i] == outputs[i];
        ContentsIn(outputs[..n], e);
        FlattenContents(outputs[..n], e);
        var a :| 0 <= a < |head| && head[a] == e;
        assert all[a] == e && all[|head|] == last.entries[0];
      }
      forall i, j | 0 <= i < j < |outputs|
        ensures Before(outputs[i].largest, outputs[j].smallest)
      {
        if j < n {
          assert outputs[..n][i] == outputs[i] && outputs[..n][j] == outputs[j];
        }
      }
    }
  }

  lemma ChosenAreInputs(v: Version, c: Compaction)
    requires WellChosen(v, c)
    ensures forall f :: f in c.inputs0 ==> f in v.levels[c.level]
    ensures forall f :: f in c.inputs1 ==> f in v.levels[c.level + 1]
  {
    UnsplitIn(v.levels[c.level], c.level, c.inputs0);
  }

  /** Entries of two level-0 files of which only one is in a closed set have different
      user keys. */
  lemma ClosedApart(files: seq<File>, chosen: seq<File>, r: Range, f: File, x: Entry, g: File, y: Entry)
    requires GoodFiles(files) && IsClosed(files, chosen, r)
    requires f in chosen && g in files && g !in chosen
    requires x in f.entries && y in g.entries
    ensures x.key.user != y.key.user
  {
    var i :| 0 <= i < |f.entries| && f.entries[i] == x;
    var j :| 0 <= j < |g.entries| && g.entries[j] == y;
    FileBounds(f, i);
    FileBounds(g, j);
    assert Within(f, r) && !Meets(g, r);
    var rank, unrank := OrderByRank();
  }

  /** What stays in the lower level is newer than what is taken out of it. */
  lemma NoOlderLeft(v: Version, c: Compaction, x: Entry, g: File, y: Entry)
    requires GoodVersion(v) && WellChosen(v, c)
    requires x in Contents(c.inputs0)
    requires g in v.levels[c.level] && g !in c.inputs0 && y in g.entries
    requires x.key.user == y.key.user
    ensures Newer(y, x)
  {
    hide Less, Before, GoodFile, Disjoint, Above, NumbersTellAge, DistinctNumbers, Selected, Contents, RunEnd;
    var files := v.levels[c.level];
    ContentsIn(c.inputs0, x);
    var f :| f in c.inputs0 && x in f.entries;
    if c.level == 0 {
      var r :| IsClosed(files, c.inputs0, r);
      ClosedApart(files, c.inputs0, r, f, x, g, y);
    } else {
      var lo: nat, hi: nat :| IsRun(files, c.inputs0, lo, hi) && RunEnd(files, hi) == hi;
      NoOlderLeftOfRun(files, lo, hi, f, x, g, y);
    }
  }

  lemma NoOlderLeftOfRun(files: seq<File>, lo: nat, hi: nat, f: File, x: Entry, g: File, y: Entry)
    requires GoodFiles(files) && Disjoint(files)
    requires lo < hi <= |files| && RunEnd(files, hi) == hi
    requires f in files[lo..hi] && x in f.entries
    requires g in files && g !in files[lo..hi] && y in g.entries
    requires x.key.user == y.key.user
    ensures Newer(y, x)
  {
    hide Less, Before, GoodFiles, Disjoint, PlaceOf, RunEnd;
    var k, a := PlaceOf(files[lo..hi], f), PlaceOf(f.entries, x);
    var m, b := PlaceOf(files, g), PlaceOf(g.entries, y);
    InSlice(files, lo, hi, m);
    NoOlderOutsideRun(files, lo, hi, lo + k, a, m, b);
  }

  function PlaceOf<T(==)>(xs: seq<T>, x: T): (i: nat)
    requires x in xs
    ensures i < |xs| && xs[i] == x
  {
    if xs[0] == x then 0 else 1 + PlaceOf(xs[1..], x)
  }

  lemma InSlice<T>(xs: seq<T>, lo: nat, hi: nat, k: nat)
    requires lo <= hi <= |xs|
    ensures lo <= k < hi ==> xs[k] in xs[lo..hi]
  {
    if lo <= k < hi {
      assert xs[lo..hi][k - lo] == xs[k];
    }
  }

  /** The user keys of the lower inputs lie in their range. */
  lemma InputInRange(inputs: seq<File>, f: File, x: Entry)
    requires f in inputs && GoodFile(f) && x in f.entries
    ensures LessEq(RangeOf(inputs).lo.value, x.key.user) && LessEq(x.key.user, RangeOf(inputs).hi.value)
  {
    hide Before, LargestKey, SmallestKey;
    var k :| 0 <= k < |inputs| && inputs[k] == f;
    var i :| 0 <= i < |f.entries| && f.entries[i] == x;
    KeyRange(inputs, k);
    FileBounds(f, i);
    BeforeUsers(f.largest, LargestKey(inputs));
    BeforeUsers(SmallestKey(inputs), f.smallest);
    LessTransitive(SmallestKey(inputs).user, f.smallest.user, x.key.user);
    LessTransitive(x.key.user, f.largest.user, LargestKey(inputs).user);
  }

  /** A file of the upper level that is not an input meets no input's user key: the lower
      inputs' user keys are all on one side of it. */
  lemma LeftOutIsOutside(v: Version, c: Compaction, g: File, f: File, x: Entry)
    requires GoodVersion(v) && WellChosen(v, c)
    requires g in v.levels[c.level + 1] && g !in c.inputs1
    requires f in c.inputs0 && x in f.entries
    ensures if AfterFile(RangeOf(c.inputs0).lo, g) then Less(g.largest.user, x.key.user)
            else Less(x.key.user, g.smallest.user)
    ensures !InRange(x.key.user, g)
  {
    hide Before, LargestKey, SmallestKey, Disjoint, Above, NumbersTellAge, DistinctNumbers;
    ChosenAreInputs(v, c);
    InputInRange(c.inputs0, f, x);
    assert !Meets(g, RangeOf(c.inputs0));
    FirstBeforeLast(g);
    var rank, unrank := OrderByRank();
  }

  ghost predicate FileBefore(g: File, es: set<Entry>) {
    forall x :: x in es ==> Before(g.largest, x.key)
  }

  ghost predicate FileAfter(g: File, es: set<Entry>) {
    forall x :: x in es ==> Before(x.key, g.smallest)
  }

  lemma DisjointApart(files: seq<File>, g: File, h: File)
    requires Disjoint(files) && g in files && h in files && g != h
    ensures Apart(g, h)
  {
  }

  /** A left-out file of the upper level is on the same side of the upper inputs as of the
      range they meet. */
  lemma SideOfUpperInput(g: File, h: File, r: Range)
    requires GoodFile(g) && GoodFile(h) && Apart(g, h)
    requires Meets(h, r) && !Meets(g, r)
    ensures if AfterFile(r.lo, g) then Before(g.largest, h.smallest) else Before(h.largest, g.smallest)
  {
    FirstBeforeLast(g);
    FirstBeforeLast(h);
    var rank, unrank := OrderByRank();
  }

  /** The merged inputs lie wholly on one side of every file left in the upper level. */
  lemma OneSided(v: Version, c: Compaction, g: File)
    requires GoodVersion(v) && WellChosen(v, c)
    requires g in v.levels[c.level + 1] && g !in c.inputs1
    ensures var es := Contents(c.inputs0) + Contents(c.inputs1); FileBefore(g, es) || FileAfter(g, es)
  {
    hide Less, Before, Disjoint, Above, NumbersTellAge, DistinctNumbers, Contents, LargestKey, SmallestKey, Unsplit,
      Apart;
    var r := RangeOf(c.inputs0);
    var below := AfterFile(r.lo, g);
    ChosenAreInputs(v, c);
    forall x | x in Contents(c.inputs0) + Contents(c.inputs1)
      ensures if below then Before(g.largest, x.key) else Before(x.key, g.smallest)
    {
      ContentsIn(c.inputs0, x);
      ContentsIn(c.inputs1, x);
      if f :| f in c.inputs0 && x in f.entries {
        LeftOutIsOutside(v, c, g, f, x);
        UserDecides(g, x, below);
      } else {
        var h :| h in c.inputs1 && x in h.entries;
        DisjointApart(v.levels[c.level + 1], g, h);
        SideOfUpperInput(g, h, r);
        var i := PlaceOf(h.entries, x);
        FileBounds(h, i);
        InternalOrder(g.largest, h.smallest, x.key);
        InternalOrder(x.key, h.largest, g.smallest);
      }
    }
  }

  lemma UserDecides(g: File, x: Entry, below: bool)
    requires if below then Less(g.largest.user, x.key.user) else Less(x.key.user, g.smallest.user)
    ensures if below then Before(g.largest, x.key) else Before(x.key, g.smallest)
  {
  }

  /** Every output lies inside the span of the merged inputs, so it is apart from every
      file left in the upper level. */
  lemma OutputApart(v: Version, c: Compaction, m: seq<Entry>, g: File, o: File)
    requires GoodVersion(v) && WellChosen(v, c) && MergedInputs(c, m)
    requires g in v.levels[c.level + 1] && g !in c.inputs1
    requires GoodFile(o) && forall x :: x in o.entries ==> x in m
    ensures Apart(g, o)
  {
    hide Before, GoodVersion, WellChosen, Sorted;
    OneSided(v, c, g);
    assert o.entries[0] in o.entries && o.entries[|o.entries| - 1] in o.entries;
    assert o.entries[0] in EntrySet(m) && o.entries[|o.entries| - 1] in EntrySet(m);
  }

  /** Outputs only hold input entries. */
  lemma OutputsFromInputs(v: Version, c: Compaction, m: seq<Entry>, snapshot: SequenceNumber, outputs: seq<File>,
                          x: Entry)
    requires OutputsOf(v, c, m, snapshot, outputs)
    ensures x in Contents(outputs) <==> x in Kept(v, c.level, m, snapshot, |m|)
    ensures x in Contents(outputs) ==> x in m
  {
    FlattenContents(outputs, x);
    KeptEntries(v, c.level, m, snapshot, |m|, x);
  }

  /** After the installation the levels are still ordered and free of overlap. */
  lemma InstalledDisjoint(v: Version, c: Compaction, m: seq<Entry>, outputs: seq<File>, v': Version)
    requires GoodVersion(v) && WellChosen(v, c) && MergedInputs(c, m)
    requires PartitionOf(v, c, m, outputs) && Installed(v, c, outputs, v')
    ensures GoodFiles(v'.levels[c.level]) && GoodFiles(v'.levels[c.level + 1])
    ensures c.level > 0 ==> Disjoint(v'.levels[c.level])
    ensures Disjoint(v'.levels[c.level + 1])
  {
    hide Before, GoodFile, Disjoint, Above, NumbersTellAge, DistinctNumbers, Apart, Unsplit, Selected, Kept, Flatten,
      Sorted, Contents, InOrder, LargestKey, SmallestKey;
    var files, files' := v.levels[c.level + 1], v'.levels[c.level + 1];
    FlattenApart(outputs);
    forall f, g | f in files' && g in files' && f != g
      ensures Apart(f, g)
    {
      if f in outputs && g in outputs {
        DisjointApart(outputs, f, g);
      } else if f in outputs {
        OutputEntries(v, c, m, outputs, f);
        OutputApart(v, c, m, g, f);
        ApartSymmetric(f, g);
      } else if g in outputs {
        OutputEntries(v, c, m, outputs, g);
        OutputApart(v, c, m, f, g);
      } else {
        DisjointApart(files, f, g);
      }
    }
    OrderedApartIsDisjoint(files');
    if c.level > 0 {
      forall f, g | f in v'.levels[c.level] && g in v'.levels[c.level] && f != g
        ensures Apart(f, g)
      {
        DisjointApart(v.levels[c.level], f, g);
      }
      OrderedApartIsDisjoint(v'.levels[c.level]);
    }
  }

  lemma ApartSymmetric(f: File, g: File)
    ensures Apart(f, g) <==> Apart(g, f)
  {
  }

  lemma OutputEntries(v: Version, c: Compaction, m: seq<Entry>, outputs: seq<File>, o: File)
    requires PartitionOf(v, c, m, outputs) && o in outputs
    ensures GoodFile(o) && forall x :: x in o.entries ==> x in m
  {
    forall x | x in o.entries
      ensures x in m
    {
      ContentsIn(outputs, x);
      FlattenContents(outputs, x);
    }
  }

  lemma SomeFilesContents(some: seq<File>, files: seq<File>)
    requires forall f :: f in some ==> f in files
    ensures Contents(some) <= Contents(files)
  {
    hide Contents;
    forall x | x in Contents(some)
      ensures x in Contents(files)
    {
      ContentsIn(some, x);
      ContentsIn(files, x);
    }
  }

  /** Where an entry of the new version was in the old one. */
  lemma InstalledOrigin(v: Version, c: Compaction, m: seq<Entry>, outputs: seq<File>, v': Version,
                        l: nat, x: Entry)
    requires GoodVersion(v) && WellChosen(v, c) && MergedInputs(c, m)
    requires PartitionOf(v, c, m, outputs) && Installed(v, c, outputs, v')
    requires l < NUM_LEVELS && x in Contents(v'.levels[l])
    ensures l == c.level ==> exists g :: g in v.levels[l] && g !in c.inputs0 && x in g.entries
    ensures l != c.level + 1 ==> x in Contents(v.levels[l])
    ensures l == c.level + 1 ==> x in Contents(v.levels[l]) || x in Contents(c.inputs0)
  {
    hide Before, GoodFile, Disjoint, Above, NumbersTellAge, DistinctNumbers, Unsplit, Selected, Kept, Flatten, Sorted,
      Contents,
      InOrder, LargestKey, SmallestKey;
    ContentsIn(v'.levels[l], x);
    var g :| g in v'.levels[l] && x in g.entries;
    ContentsIn(v.levels[l], x);
    ChosenAreInputs(v, c);
    SomeFilesContents(c.inputs1, v.levels[c.level + 1]);
    if l == c.level + 1 && g in outputs {
      OutputEntries(v, c, m, outputs, g);
      assert x in EntrySet(m);
    }
  }

  /** Age order survives: every entry for a user key that is higher up is newer. */
  lemma InstalledAbove(v: Version, c: Compaction, m: seq<Entry>, outputs: seq<File>, v': Version,
                       l: nat, k: nat)
    requires GoodVersion(v) && WellChosen(v, c) && MergedInputs(c, m)
    requires PartitionOf(v, c, m, outputs) && Installed(v, c, outputs, v')
    requires l < k < NUM_LEVELS
    ensures Above(Contents(v'.levels[l]), Contents(v'.levels[k]))
  {
    hide Before, GoodFile, Disjoint, NumbersTellAge, DistinctNumbers, WellChosen, MergedInputs, PartitionOf,
      Installed, Contents;
    assert |v'.levels| == NUM_LEVELS && c.level + 1 < NUM_LEVELS
      && Contents(c.inputs0) <= Contents(v.levels[c.level]) by {
      InstalledShape(v, c, outputs, v');
    }
    forall x, y | x in Contents(v'.levels[l]) && y in Contents(v'.levels[k]) && x.key.user == y.key.user
      ensures Newer(x, y)
    {
      InstalledOrigin(v, c, m, outputs, v', l, x);
      InstalledOrigin(v, c, m, outputs, v', k, y);
      if l == c.level && k == c.level + 1 && y in Contents(c.inputs0) {
        var g :| g in v.levels[l] && g !in c.inputs0 && x in g.entries;
        NoOlderLeft(v, c, y, g, x);
      }
    }
  }

  lemma InstalledShape(v: Version, c: Compaction, outputs: seq<File>, v': Version)
    requires GoodVersion(v) && WellChosen(v, c) && Installed(v, c, outputs, v')
    ensures |v'.levels| == NUM_LEVELS && c.level + 1 < NUM_LEVELS
    ensures Contents(c.inputs0) <= Contents(v.levels[c.level])
    ensures Contents(c.inputs1) <= Contents(v.levels[c.level + 1])
  {
    hide Contents;
    ChosenAreInputs(v, c);
    SomeFilesContents(c.inputs0, v.levels[c.level]);
    SomeFilesContents(c.inputs1, v.levels[c.level + 1]);
  }

  /** A compaction turns a good version into a good version. */
  lemma InstalledGood(v: Version, c: Compaction, m: seq<Entry>, outputs: seq<File>, v': Version)
    requires GoodVersion(v) && WellChosen(v, c) && MergedInputs(c, m)
    requires PartitionOf(v, c, m, outputs) && Installed(v, c, outputs, v')
    ensures GoodVersion(v')
  {
    hide Before, Disjoint, Above, Unsplit, Selected, Kept, Flatten, Sorted, Contents, InOrder, LargestKey, SmallestKey;
    InstalledDisjoint(v, c, m, outputs, v');
    forall l | 0 <= l < NUM_LEVELS
      ensures GoodFiles(v'.levels[l]) && DistinctNumbers(v'.levels[l]) && (l > 0 ==> Disjoint(v'.levels[l]))
    {
      if l == c.level + 1 {
        InstalledNumbers(v.levels[l], c.inputs1, outputs, v'.levels[l]);
      }
    }
    forall l, k | 0 <= l < k < NUM_LEVELS
      ensures Above(Contents(v'.levels[l]), Contents(v'.levels[k]))
    {
      InstalledAbove(v, c, m, outputs, v', l, k);
    }
  }

  lemma InstalledNumbers(files: seq<File>, gone: seq<File>, outputs: seq<File>, files': seq<File>)
    requires DistinctNumbers(files) && DistinctAdds(outputs) && Numbers(outputs) !! Numbers(files)
    requires forall f :: f in files' <==> (f in files && f !in gone) || f in outputs
    ensures DistinctNumbers(files')
  {
    forall f, g | f in files' && g in files' && f.number == g.number
      ensures f == g
    {
      if f in outputs && g in outputs {
        var i, j := PlaceOf(outputs, f), PlaceOf(outputs, g);
      } else {
        assert f in files ==> f.number in Numbers(files);
        assert g in files ==> g.number in Numbers(files);
        assert f in outputs ==> f.number in Numbers(outputs);
        assert g in outputs ==> g.number in Numbers(outputs);
      }
    }
  }
}
