/** The life of a database's versions (db/db_impl.cc): memtables are written out as tables,
    compactions merge tables or move them, and every version in between answers lookups.
 */
module VersionRuns {
  import opened Comparator
  import opened Dbformat
  import opened Options
  import opened Versions
  import opened Overlapping
  import opened Boundary
  import opened Compactions
  import opened DropRule
  import opened Visibility
  import opened VersionBuilder
  import opened Install
  import opened LiveSnapshots

  /** AddInputDeletions */
  function InputDeletions(c: Compaction): set<(nat, nat)> {
    (set f | f in c.inputs0 :: (c.level, f.number)) + (set f | f in c.inputs1 :: (c.level + 1, f.number))
  }

  lemma DeletionsByLevel(c: Compaction, l: nat)
    ensures DelsOn(InputDeletions(c), l)
            == if l == c.level then Numbers(c.inputs0) else if l == c.level + 1 then Numbers(c.inputs1) else {}
  {
    var dels := InputDeletions(c);
    forall n
      ensures n in DelsOn(dels, l) <==> (l, n) in dels
    {
      if (l, n) in dels {
        assert (l, n).1 == n;
      }
    }
    forall f | f in c.inputs0
      ensures (c.level, f.number) in dels
    {
    }
    forall f | f in c.inputs1
      ensures (c.level + 1, f.number) in dels
    {
    }
  }

  function At(level: nat, outputs: seq<File>): seq<(nat, File)> {
    seq(|outputs|, i requires 0 <= i < |outputs| => (level, outputs[i]))
  }

  lemma {:induction false} AddsByLevel(level: nat, outputs: seq<File>, l: nat)
    ensures AddsOn(At(level, outputs), l) == if l == level then outputs else []
  {
    if outputs != [] {
      var n := |outputs| - 1;
      AddsByLevel(level, outputs[..n], l);
      assert At(level, outputs)[..n] == At(level, outputs[..n]);
      assert outputs == outputs[..n] + [outputs[n]];
    } else {
      assert At(level, outputs) == [];
    }
  }

  /** A file is deleted from its level exactly when its number is. */
  lemma NumberMeansFile(files: seq<File>, gone: seq<File>, f: File)
    requires DistinctNumbers(files) && f in files && forall g :: g in gone ==> g in files
    ensures f.number in Numbers(gone) <==> f in gone
  {
  }

  /** LogAndApply with the edit of a compaction: the inputs leave, the outputs come. */
  method InstallCompactionResults(v: Version, c: Compaction, outputs: seq<File>) returns (v': Version)
    requires GoodVersion(v) && WellChosen(v, c)
    requires DistinctAdds(outputs) && Numbers(outputs) !! Numbers(v.levels[c.level + 1])
    ensures Installed(v, c, outputs, v')
  {
    hide Before, Less, GoodFile, Disjoint, Above, NumbersTellAge, DistinctNumbers, Unsplit, Selected, InOrder, AddsOn,
      DelsOn, Save,
      ApplyEdit, At, LargestKey, SmallestKey;
    var edit := VersionEdit(InputDeletions(c), At(c.level + 1, outputs));
    var builder := new Builder(v);
    EditLevels(c, outputs);
    builder.Apply(edit);
    v' := builder.SaveTo();
    ChosenAreInputs(v, c);
    forall l | 0 <= l < NUM_LEVELS
      ensures v'.levels[l] == Save(v.levels[l], ApplyEdit(LevelState({}, []), LevelEdit(
        if l == c.level then Numbers(c.inputs0) else if l == c.level + 1 then Numbers(c.inputs1) else {},
        if l == c.level + 1 then outputs else [])))
    {
      DeletionsByLevel(c, l);
      AddsByLevel(c.level + 1, outputs, l);
    }
    InstalledLevels(v, c, outputs, v');
  }

  lemma EditLevels(c: Compaction, outputs: seq<File>)
    requires c.level + 1 < NUM_LEVELS
    ensures forall p :: p in InputDeletions(c) ==> p.0 < NUM_LEVELS
    ensures forall p :: p in At(c.level + 1, outputs) ==> p.0 < NUM_LEVELS
  {
  }

  lemma InstalledLevels(v: Version, c: Compaction, outputs: seq<File>, v': Version)
    requires GoodVersion(v) && WellChosen(v, c)
    requires DistinctAdds(outputs) && Numbers(outputs) !! Numbers(v.levels[c.level + 1])
    requires |v'.levels| == NUM_LEVELS
    requires forall l :: 0 <= l < NUM_LEVELS ==>
      v'.levels[l] == Save(v.levels[l], ApplyEdit(LevelState({}, []), LevelEdit(
        if l == c.level then Numbers(c.inputs0) else if l == c.level + 1 then Numbers(c.inputs1) else {},
        if l == c.level + 1 then outputs else [])))
    ensures Installed(v, c, outputs, v')
  {
    hide Before, Less, GoodFile, Above, NumbersTellAge, Unsplit, Selected, InOrder, Save, ApplyEdit, LargestKey,
      SmallestKey,
      DistinctNumbers, Disjoint, Numbers;
    ChosenAreInputs(v, c);
    NoNumbers();
    forall l | 0 <= l < NUM_LEVELS && l != c.level && l != c.level + 1
      ensures v'.levels[l] == v.levels[l]
    {
      Untouched(v.levels[l]);
    }
    forall f
      ensures f in v'.levels[c.level] <==> f in v.levels[c.level] && f !in c.inputs0
    {
      InstalledMembers(v.levels[c.level], Numbers(c.inputs0), [], f);
      if f in v.levels[c.level] {
        NumberMeansFile(v.levels[c.level], c.inputs0, f);
      }
    }
    forall f
      ensures f in v'.levels[c.level + 1] <==> (f in v.levels[c.level + 1] && f !in c.inputs1) || f in outputs
    {
      InstalledMembers(v.levels[c.level + 1], Numbers(c.inputs1), outputs, f);
      if f in v.levels[c.level + 1] {
        NumberMeansFile(v.levels[c.level + 1], c.inputs1, f);
      }
    }
    if c.level > 0 {
      InstalledInOrder(v.levels[c.level], Numbers(c.inputs0), []);
    }
    InstalledInOrder(v.levels[c.level + 1], Numbers(c.inputs1), outputs);
  }

  lemma NoNumbers()
    ensures Numbers([]) == {}
  {
  }

  /** Numbers from `next` on are not in use. */
  ghost predicate FreeFrom(v: Version, next: nat) {
    forall l, f :: 0 <= l < |v.levels| && f in v.levels[l] ==> f.number < next
  }

  /** BackgroundCompaction on inputs that do not just move: merge, drop, install. */
  method Compact(v: Version, c: Compaction, m: seq<Entry>, snapshot: SequenceNumber, next: nat, maxFileSize: nat,
                 sizeOf: seq<Entry> -> nat)
    returns (outputs: seq<File>, v': Version)
    requires GoodVersion(v) && WellChosen(v, c) && MergedInputs(c, m)
    requires snapshot < MAX_SEQUENCE && FreeFrom(v, next)
    ensures GoodVersion(v') && FreeFrom(v', next + |outputs|)
    ensures Installed(v, c, outputs, v') && OutputsOf(v, c, m, snapshot, outputs)
    ensures forall mem :: Above(mem, AllContents(v)) && UniqueKeys(mem) ==>
              (Indistinguishable(mem, v, v', snapshot) <==> !Noticeable(mem, v, c, m, snapshot))
  {
    hide Before, Less, GoodVersion, WellChosen, MergedInputs, Kept, Flatten, Installed, AllContents,
      Indistinguishable, Noticeable,
      Merge.Valid, Merge.GoodOutputs;
    assert c.level + 1 < NUM_LEVELS by { ChosenLevel(v, c); }
    assert Sorted(m) by { MergedIsSorted(c, m); }
    assert |v.levels| == NUM_LEVELS by { LevelCount(v); }
    var merge := new Merge(v, c, maxFileSize);
    outputs := merge.DoCompactionWork(m, snapshot, next, sizeOf);
    FreshOutputs(v, c, outputs, next);
    v' := InstallCompactionResults(v, c, outputs);
    OutputsArePartition(v, c, m, snapshot, outputs);
    InstalledGood(v, c, m, outputs, v');
    FreeAfter(v, c, outputs, v', next);
    forall mem | Above(mem, AllContents(v)) && UniqueKeys(mem)
      ensures Indistinguishable(mem, v, v', snapshot) <==> !Noticeable(mem, v, c, m, snapshot)
    {
      CompactionInvisibleIff(mem, v, c, m, snapshot, outputs, v');
    }
  }

  lemma FreshOutputs(v: Version, c: Compaction, outputs: seq<File>, next: nat)
    requires |v.levels| == NUM_LEVELS && c.level + 1 < NUM_LEVELS && FreeFrom(v, next)
    requires Merge.GoodOutputs(outputs, next)
    ensures GoodFiles(outputs) && DistinctAdds(outputs) && Numbers(outputs) !! Numbers(v.levels[c.level + 1])
  {
    hide GoodFile;
    forall f | f in outputs
      ensures f.number >= next
    {
      var i := PlaceOf(outputs, f);
    }
  }

  lemma FreeAfter(v: Version, c: Compaction, outputs: seq<File>, v': Version, next: nat)
    requires |v.levels| == NUM_LEVELS && c.level + 1 < NUM_LEVELS && FreeFrom(v, next)
    requires Merge.GoodOutputs(outputs, next) && Installed(v, c, outputs, v')
    ensures FreeFrom(v', next + |outputs|)
  {
    hide GoodFile, InOrder;
    forall l, f | 0 <= l < |v'.levels| && f in v'.levels[l]
      ensures f.number < next + |outputs|
    {
      if l == c.level + 1 && f in outputs {
        var i := PlaceOf(outputs, f);
      } else {
        assert f in v.levels[l];
      }
    }
  }

  ghost predicate NoOverlap(files: seq<File>, f: File) {
    forall g :: g in files ==> !Meets(g, Range(Some(f.smallest.user), Some(f.largest.user)))
  }

  /** A table may be pushed down to `level`: it overlaps nothing there and not too much of
      the level after. */
  ghost predicate MayPushTo(v: Version, level: nat, f: File, maxFileSize: nat)
    requires |v.levels| == NUM_LEVELS && level + 1 < NUM_LEVELS
  {
    && NoOverlap(v.levels[level], f)
    && TotalFileSize(Selected(v.levels[level + 1], Range(Some(f.smallest.user), Some(f.largest.user))))
       <= 10 * maxFileSize
  }

  /** PickLevelForMemTableOutput: pushed down as long as that may be, to level 2 at most. */
  method PickLevelForMemTableOutput(v: Version, f: File, maxFileSize: nat) returns (level: nat)
    requires GoodVersion(v)
    ensures level <= 2
    ensures level > 0 ==> forall l :: 0 <= l <= level ==> NoOverlap(v.levels[l], f)
    ensures forall l: nat :: 1 <= l <= level ==> MayPushTo(v, l, f, maxFileSize)
    ensures (level == 0 && NoOverlap(v.levels[0], f)) || level == 1 ==> !MayPushTo(v, level + 1, f, maxFileSize)
  {
    hide Less, Before, GoodFile, Disjoint, Above, NumbersTellAge, DistinctNumbers, Selected, Meets, TotalFileSize;
    level := 0;
    var lo, hi := Some(f.smallest.user), Some(f.largest.user);
    var overlap := SomeFileOverlapsRange(false, v.levels[0], lo, hi);
    OverlapsMeet(v.levels[0], f);
    if !overlap {
      while level < 2
        invariant level <= 2
        invariant forall l :: 0 <= l <= level ==> NoOverlap(v.levels[l], f)
        invariant forall l: nat :: 1 <= l <= level ==> MayPushTo(v, l, f, maxFileSize)
      {
        overlap := SomeFileOverlapsRange(true, v.levels[level + 1], lo, hi);
        OverlapsMeet(v.levels[level + 1], f);
        if overlap {
          break;
        }
        if level + 2 < NUM_LEVELS {
          var start, limit := LookupKey(f.smallest.user, MAX_SEQUENCE), InternalKey(f.largest.user, 0, TypeDeletion);
          var overlaps, r := GetOverlappingInputs(level + 2, v.levels[level + 2], Some(start), Some(limit));
          if TotalFileSize(overlaps) > 10 * maxFileSize {
            break;
          }
        }
        level := level + 1;
      }
    }
  }

  lemma OverlapsMeet(files: seq<File>, f: File)
    ensures (exists g :: g in files && Overlaps(g, Some(f.smallest.user), Some(f.largest.user))) <==>
              !NoOverlap(files, f)
  {
  }

  /** v' is v with one more table, in `level`. */
  ghost predicate Added(v: Version, level: nat, f: File, v': Version)
    requires |v.levels| == NUM_LEVELS && level < NUM_LEVELS
  {
    && |v'.levels| == NUM_LEVELS
    && (forall l :: 0 <= l < NUM_LEVELS && l != level ==> v'.levels[l] == v.levels[l])
    && (forall g :: g in v'.levels[level] <==> g in v.levels[level] || g == f)
    && (level > 0 ==> InOrder(v'.levels[level]))
  }

  /** Tables that do not overlap share no user key. */
  lemma NoSharedUsers(f: File, g: File, x: Entry, y: Entry)
    requires GoodFile(f) && GoodFile(g) && !Meets(g, Range(Some(f.smallest.user), Some(f.largest.user)))
    requires x in f.entries && y in g.entries
    ensures x.key.user != y.key.user
    ensures Apart(f, g)
  {
    EntryInRange(f, x);
    EntryInRange(g, y);
    FirstBeforeLast(f);
    FirstBeforeLast(g);
    var rank, unrank := OrderByRank();
  }

  /** Writing a memtable out keeps the version good, and adds its entries to the contents. */
  lemma AddedGood(v: Version, level: nat, f: File, v': Version)
    requires GoodVersion(v) && GoodFile(f) && level < NUM_LEVELS
    requires Above(Contents([f]), AllContents(v))
    requires forall l, g :: 0 <= l < NUM_LEVELS && g in v.levels[l] ==> g.number < f.number
    requires level > 0 ==> forall l :: 0 <= l <= level ==> NoOverlap(v.levels[l], f)
    requires Added(v, level, f, v')
    ensures GoodVersion(v')
    ensures AllContents(v') == AllContents(v) + Contents([f])
  {
    hide Less, Before, Sorted, Disjoint, Contents, NoOverlap, InOrder, AllContents, Apart, Meets;
    AddedContents(v, level, f, v');
    forall l | 0 <= l < NUM_LEVELS
      ensures GoodFiles(v'.levels[l]) && DistinctNumbers(v'.levels[l])
    {
    }
    if level > 0 {
      AddedDisjoint(v.levels[level], f, v'.levels[level]);
    } else {
      forall g | g in v.levels[0]
        ensures Above(Contents([f]), Contents([g]))
      {
        AboveOne(v, 0, f, g);
      }
    }
    forall l, k | 0 <= l < k < NUM_LEVELS
      ensures Above(Contents(v'.levels[l]), Contents(v'.levels[k]))
    {
      forall x, y | x in Contents(v'.levels[l]) && y in Contents(v'.levels[k]) && x.key.user == y.key.user
        ensures Newer(x, y)
      {
        if k == level && y in Contents([f]) {
          NotOverlapping(v, l, f, x, y);
        } else if l == level && x in Contents([f]) {
          ContentsOf(v, k, y);
        }
      }
    }
  }

  lemma ContentsOf(v: Version, l: nat, x: Entry)
    requires l < |v.levels| && x in Contents(v.levels[l])
    ensures x in AllContents(v)
  {
  }

  lemma AboveOne(v: Version, l: nat, f: File, g: File)
    requires l < |v.levels| && g in v.levels[l] && Above(Contents([f]), AllContents(v))
    ensures Above(Contents([f]), Contents([g]))
  {
    hide Contents, AllContents;
    ContentsOne(g);
    forall y | y in Contents([g])
      ensures y in AllContents(v)
    {
      Held(v, l, g, y);
    }
  }

  lemma NotOverlapping(v: Version, l: nat, f: File, x: Entry, y: Entry)
    requires l < |v.levels| && GoodFiles(v.levels[l]) && NoOverlap(v.levels[l], f) && GoodFile(f)
    requires x in Contents(v.levels[l]) && y in Contents([f])
    ensures x.key.user != y.key.user
  {
    hide Contents, GoodFile, Meets;
    ContentsIn(v.levels[l], x);
    ContentsOne(f);
    var g :| g in v.levels[l] && x in g.entries;
    NoSharedUsers(f, g, y, x);
  }

  lemma AddedDisjoint(files: seq<File>, f: File, files': seq<File>)
    requires GoodFiles(files) && Disjoint(files) && GoodFile(f) && NoOverlap(files, f)
    requires InOrder(files') && forall g :: g in files' <==> g in files || g == f
    ensures Disjoint(files')
  {
    hide Before, InOrder, Disjoint, Meets, Apart;
    forall g, h | g in files' && h in files' && g != h
      ensures Apart(g, h)
    {
      if g in files && h in files {
        DisjointApart(files, g, h);
      } else if g == f {
        NoSharedUsers(f, h, f.entries[0], h.entries[0]);
      } else {
        NoSharedUsers(f, g, f.entries[0], g.entries[0]);
        ApartSymmetric(f, g);
      }
    }
    OrderedApartIsDisjoint(files');
  }

  lemma AddedContents(v: Version, level: nat, f: File, v': Version)
    requires |v.levels| == NUM_LEVELS && level < NUM_LEVELS && Added(v, level, f, v')
    ensures forall l :: 0 <= l < NUM_LEVELS ==>
              Contents(v'.levels[l]) == if l == level then Contents(v.levels[l]) + Contents([f])
              else Contents(v.levels[l])
    ensures AllContents(v') == AllContents(v) + Contents([f])
  {
    hide Contents, InOrder;
    ContentsOne(f);
    forall x
      ensures x in Contents(v'.levels[level]) <==> x in Contents(v.levels[level]) || x in Contents([f])
    {
      ContentsIn(v'.levels[level], x);
      ContentsIn(v.levels[level], x);
    }
  }

  /** CompactMemTable: the table of a memtable joins the version. */
  method CompactMemTable(v: Version, f: File, maxFileSize: nat) returns (v': Version)
    requires GoodVersion(v) && GoodFile(f)
    requires Above(Contents([f]), AllContents(v)) && FreeFrom(v, f.number)
    ensures GoodVersion(v') && FreeFrom(v', f.number + 1)
    ensures AllContents(v') == AllContents(v) + Contents([f])
  {
    hide Less, Before, GoodFile, Disjoint, Above, NumbersTellAge, DistinctNumbers, Contents, AllContents, Save,
      ApplyEdit, NoOverlap, InOrder;
    var level := PickLevelForMemTableOutput(v, f, maxFileSize);
    var builder := new Builder(v);
    builder.Apply(VersionEdit({}, [(level, f)]));
    v' := builder.SaveTo();
    forall l | 0 <= l < NUM_LEVELS
      ensures EditOn(VersionEdit({}, [(level, f)]), l) == LevelEdit({}, if l == level then [f] else [])
    {
      OneAdd(level, f, l);
    }
    SavedIsAdded(v, level, f, v');
    AddedGood(v, level, f, v');
  }

  lemma OneAdd(level: nat, f: File, l: nat)
    ensures EditOn(VersionEdit({}, [(level, f)]), l) == LevelEdit({}, if l == level then [f] else [])
  {
    var adds := [(level, f)];
    assert adds[..0] == [];
    assert AddsOn(adds, l) == AddsOn([], l) + (if level == l then [f] else []);
  }

  lemma SavedIsAdded(v: Version, level: nat, f: File, v': Version)
    requires GoodVersion(v) && level < NUM_LEVELS && FreeFrom(v, f.number)
    requires |v'.levels| == NUM_LEVELS
    requires forall l :: 0 <= l < NUM_LEVELS ==>
      v'.levels[l] == Save(v.levels[l], ApplyEdit(LevelState({}, []), LevelEdit({}, if l == level then [f] else [])))
    ensures Added(v, level, f, v')
    ensures FreeFrom(v', f.number + 1)
  {
    hide Less, Before, GoodFile, Disjoint, Above, NumbersTellAge, DistinctNumbers, Save, ApplyEdit, InOrder;
    forall l | 0 <= l < NUM_LEVELS && l != level
      ensures v'.levels[l] == v.levels[l]
    {
      Untouched(v.levels[l]);
    }
    forall g
      ensures g in v'.levels[level] <==> g in v.levels[level] || g == f
    {
      InstalledMembers(v.levels[level], {}, [f], g);
    }
    if level > 0 {
      InstalledInOrder(v.levels[level], {}, [f]);
    }
  }
}
