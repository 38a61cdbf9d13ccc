/** VersionSet::Builder (db/version_set.cc): a whole list of edits is applied to a base
    version without building the versions in between.
 */
module VersionBuilder {
  import opened Comparator
  import opened Dbformat
  import opened Versions

  /** BySmallestKey */
  predicate BySmallest(f: File, g: File) {
    Before(f.smallest, g.smallest) || (f.smallest == g.smallest && f.number < g.number)
  }

  ghost predicate InOrder(files: seq<File>) {
    forall i, j :: 0 <= i < j < |files| ==> BySmallest(files[i], files[j])
  }

  lemma BySmallestOrder(f: File, g: File, h: File)
    ensures f.number != g.number ==> BySmallest(f, g) || BySmallest(g, f)
    ensures !(BySmallest(f, g) && BySmallest(g, f))
    ensures BySmallest(f, g) && BySmallest(g, h) ==> BySmallest(f, h)
  {
    InternalOrder(f.smallest, g.smallest, h.smallest);
    InternalOrder(f.smallest, g.smallest, f.smallest);
  }

  /** What an edit says about one level: the numbers it deletes, then the files it adds. */
  datatype LevelEdit = LevelEdit(dels: set<nat>, adds: seq<File>)

  /** LevelState of the Builder; `added` is the std::set, in its order. */
  datatype LevelState = LevelState(deleted: set<nat>, added: seq<File>)

  function Numbers(files: seq<File>): set<nat> {
    set f | f in files :: f.number
  }

  /** std::set::insert: an element that is already there stays as it is. */
  function Insert(files: seq<File>, f: File): (r: seq<File>)
  {
    if files == [] || BySmallest(f, files[0]) then [f] + files
    else if BySmallest(files[0], f) then [files[0]] + Insert(files[1..], f)
    else files
  }

  lemma {:induction false} InsertKeeps(files: seq<File>, f: File)
    requires InOrder(files)
    requires f.number !in Numbers(files)
    ensures InOrder(Insert(files, f))
    ensures forall g :: g in Insert(files, f) <==> g in files || g == f
  {
    hide Before;
    if files != [] {
      assert files == [files[0]] + files[1..];
      assert files[0] in files;
      BySmallestOrder(f, files[0], files[0]);
      if BySmallest(f, files[0]) {
        forall i | 0 < i < |files|
          ensures BySmallest(f, files[i])
        {
          BySmallestOrder(f, files[0], files[i]);
        }
      } else {
        InsertKeeps(files[1..], f);
        var t := Insert(files[1..], f);
        assert forall i :: 0 <= i < |t| ==> t[i] in t;
      }
    }
  }

  function InsertAll(files: seq<File>, adds: seq<File>): seq<File> {
    if adds == [] then files else Insert(InsertAll(files, adds[..|adds| - 1]), adds[|adds| - 1])
  }

  /** Builder::Apply on one level. */
  function ApplyEdit(st: LevelState, e: LevelEdit): LevelState {
    LevelState(st.deleted + e.dels - Numbers(e.adds), InsertAll(st.added, e.adds))
  }

  function ApplyAll(edits: seq<LevelEdit>): LevelState {
    if edits == [] then LevelState({}, []) else ApplyEdit(ApplyAll(edits[..|edits| - 1]), edits[|edits| - 1])
  }

  /** MaybeAddFile over some base files. */
  function Surviving(files: seq<File>, deleted: set<nat>): seq<File> {
    if files == [] then []
    else Surviving(files[..|files| - 1], deleted)
         + (if files[|files| - 1].number in deleted then [] else [files[|files| - 1]])
  }

  /** std::upper_bound: the first base file after f. */
  function UpperBound(base: seq<File>, f: File): (k: nat)
    ensures k <= |base|
    ensures forall i :: 0 <= i < k ==> !BySmallest(f, base[i])
    ensures k < |base| ==> BySmallest(f, base[k])
  {
    if base == [] || BySmallest(f, base[0]) then 0 else 1 + UpperBound(base[1..], f)
  }

  /** SaveTo on one level: the base files and the added ones merged, without the deleted. */
  function Save(base: seq<File>, st: LevelState): seq<File>
    decreases |st.added|
  {
    if st.added == [] then Surviving(base, st.deleted)
    else
      var f := st.added[0];
      var k := UpperBound(base, f);
      Surviving(base[..k], st.deleted) + Surviving([f], st.deleted) + Save(base[k..], st.(added := st.added[1..]))
  }

  lemma {:induction false} SurvivingMembers(files: seq<File>, deleted: set<nat>, f: File)
    ensures f in Surviving(files, deleted) <==> f in files && f.number !in deleted
  {
    if files != [] {
      SurvivingMembers(files[..|files| - 1], deleted, f);
      assert files == files[..|files| - 1] + [files[|files| - 1]];
    }
  }

  lemma InSplit<T>(xs: seq<T>, k: nat, x: T)
    requires k <= |xs|
    ensures x in xs <==> x in xs[..k] || x in xs[k..]
  {
    assert xs == xs[..k] + xs[k..];
  }

  lemma InThree<T>(xs: seq<T>, ys: seq<T>, zs: seq<T>, x: T)
    ensures x in xs + ys + zs <==> x in xs || x in ys || x in zs
  {
  }

  lemma {:induction false} SaveMembers(base: seq<File>, st: LevelState, f: File)
    ensures f in Save(base, st) <==> (f in base || f in st.added) && f.number !in st.deleted
    decreases |st.added|
  {
    hide BySmallest, Surviving;
    SurvivingMembers(base, st.deleted, f);
    if st.added != [] {
      var k := UpperBound(base, st.added[0]);
      SurvivingMembers(base[..k], st.deleted, f);
      SurvivingMembers([st.added[0]], st.deleted, f);
      SaveMembers(base[k..], st.(added := st.added[1..]), f);
      InSplit(base, k, f);
      InSplit(st.added, 1, f);
      InThree(Surviving(base[..k], st.deleted), Surviving([st.added[0]], st.deleted),
              Save(base[k..], st.(added := st.added[1..])), f);
    }
  }

  ghost predicate AllBefore(xs: seq<File>, ys: seq<File>) {
    forall f, g :: f in xs && g in ys ==> BySmallest(f, g)
  }

  lemma {:induction false} SurvivingInOrder(files: seq<File>, deleted: set<nat>)
    requires InOrder(files)
    ensures InOrder(Surviving(files, deleted))
  {
    hide BySmallest;
    if files != [] {
      var n := |files| - 1;
      SurvivingInOrder(files[..n], deleted);
      forall f | f in Surviving(files[..n], deleted)
        ensures BySmallest(f, files[n])
      {
        SurvivingMembers(files[..n], deleted, f);
      }
      InOrderConcat(Surviving(files[..n], deleted), if files[n].number in deleted then [] else [files[n]]);
    }
  }

  lemma InOrderConcat(xs: seq<File>, ys: seq<File>)
    requires InOrder(xs) && InOrder(ys) && AllBefore(xs, ys)
    ensures InOrder(xs + ys)
  {
    hide BySmallest;
    var t := xs + ys;
    forall i, j | 0 <= i < j < |t|
      ensures BySmallest(t[i], t[j])
    {
      if i < |xs| <= j {
        assert t[i] in xs && t[j] in ys;
      }
    }
  }

  ghost predicate NoTies(base: seq<File>, added: seq<File>) {
    forall f, g :: f in base && g in added ==> f.number != g.number
  }

  /** The merge of two ordered lists without ties is in order. */
  lemma {:induction false} SaveInOrder(base: seq<File>, st: LevelState)
    requires InOrder(base) && InOrder(st.added) && NoTies(base, st.added)
    ensures InOrder(Save(base, st))
    decreases |st.added|
  {
    hide BySmallest;
    SurvivingInOrder(base, st.deleted);
    if st.added != [] {
      var f, rest := st.added[0], st.(added := st.added[1..]);
      var k := UpperBound(base, f);
      SurvivingInOrder(base[..k], st.deleted);
      SurvivingInOrder([f], st.deleted);
      SaveInOrder(base[k..], rest);
      SplitAtBound(base, st.added, k);
      KeptBefore(base[..k], [f], base[k..], rest, st.deleted);
    }
  }

  lemma SplitAtBound(base: seq<File>, added: seq<File>, k: nat)
    requires InOrder(base) && InOrder(added) && NoTies(base, added) && added != []
    requires k == UpperBound(base, added[0])
    ensures AllBefore(base[..k], [added[0]]) && AllBefore([added[0]], base[k..]) && AllBefore([added[0]], added[1..])
    ensures AllBefore(base[..k], base[k..]) && AllBefore(base[..k], added[1..])
  {
    hide Before;
    forall f | f in base[..k]
      ensures BySmallest(f, added[0])
    {
      var i :| 0 <= i < k && base[i] == f;
      assert f in base && added[0] in added;
      BySmallestOrder(f, added[0], f);
    }
    forall f | f in base[k..]
      ensures BySmallest(added[0], f)
    {
      var i :| k <= i < |base| && base[i] == f;
      BySmallestOrder(added[0], base[k], f);
    }
    forall f, g | f in base[..k] && g in added[1..]
      ensures BySmallest(f, g)
    {
      BySmallestOrder(f, added[0], g);
    }
  }

  lemma KeptBefore(a: seq<File>, b: seq<File>, c: seq<File>, st: LevelState, deleted: set<nat>)
    requires AllBefore(a, b) && AllBefore(a, c) && AllBefore(a, st.added) && AllBefore(b, c) && AllBefore(b, st.added)
    requires InOrder(Surviving(a, deleted)) && InOrder(Surviving(b, deleted)) && InOrder(Save(c, st))
    ensures InOrder(Surviving(a, deleted) + Surviving(b, deleted) + Save(c, st))
  {
    hide BySmallest, Surviving, Save;
    forall f
      ensures f in Surviving(a, deleted) ==> f in a
      ensures f in Surviving(b, deleted) ==> f in b
      ensures f in Save(c, st) ==> f in c || f in st.added
    {
      SurvivingMembers(a, deleted, f);
      SurvivingMembers(b, deleted, f);
      SaveMembers(c, st, f);
    }
    InOrderConcat(Surviving(a, deleted), Surviving(b, deleted));
    InOrderConcat(Surviving(a, deleted) + Surviving(b, deleted), Save(c, st));
  }

  lemma HasMember(files: seq<File>)
    ensures files == [] || exists f :: f in files
  {
    if files != [] {
      assert files[0] in files;
    }
  }

  /** An ordered list is determined by its members. */
  lemma {:induction false} OrderedOnce(xs: seq<File>, ys: seq<File>)
    requires InOrder(xs) && InOrder(ys) && forall f :: f in xs <==> f in ys
    ensures xs == ys
  {
    hide Before;
    if xs == [] {
      HasMember(ys);
    } else {
      assert xs[0] in ys && ys != [] && ys[0] in xs;
      BySmallestOrder(xs[0], ys[0], xs[0]);
      assert xs[0] == ys[0];
      assert xs == [xs[0]] + xs[1..] && ys == [ys[0]] + ys[1..];
      forall f
        ensures f in xs[1..] <==> f in ys[1..]
      {
        BySmallestOrder(xs[0], xs[0], xs[0]);
        assert f in xs[1..] ==> f in xs && BySmallest(xs[0], f);
        assert f in ys[1..] ==> f in ys && BySmallest(ys[0], f);
      }
      OrderedOnce(xs[1..], ys[1..]);
    }
  }

  ghost function AllAdded(edits: seq<LevelEdit>): set<nat> {
    if edits == [] then {} else AllAdded(edits[..|edits| - 1]) + Numbers(edits[|edits| - 1].adds)
  }

  ghost predicate DistinctAdds(adds: seq<File>) {
    forall i, j :: 0 <= i < j < |adds| ==> adds[i].number != adds[j].number
  }

  /** Every file number comes to the level at most once: in the base or in one edit. */
  ghost predicate AddedOnce(base: seq<File>, edits: seq<LevelEdit>) {
    edits != [] ==>
      var before, e := edits[..|edits| - 1], edits[|edits| - 1];
      && AddedOnce(base, before)
      && DistinctAdds(e.adds)
      && Numbers(e.adds) !! Numbers(base) + AllAdded(before)
  }

  /** One version after every edit. */
  ghost function Stepwise(base: seq<File>, edits: seq<LevelEdit>): seq<File> {
    if edits == [] then base
    else Save(Stepwise(base, edits[..|edits| - 1]), ApplyEdit(LevelState({}, []), edits[|edits| - 1]))
  }

  lemma {:induction false} InsertAllKeeps(files: seq<File>, adds: seq<File>)
    requires InOrder(files) && DistinctAdds(adds) && Numbers(files) !! Numbers(adds)
    ensures InOrder(InsertAll(files, adds))
    ensures forall g :: g in InsertAll(files, adds) <==> g in files || g in adds
  {
    hide BySmallest;
    if adds != [] {
      var n := |adds| - 1;
      assert adds == adds[..n] + [adds[n]];
      InsertAllKeeps(files, adds[..n]);
      var t := InsertAll(files, adds[..n]);
      forall g | g in t
        ensures g.number != adds[n].number
      {
        if g in files {
          assert g.number in Numbers(files) && adds[n].number in Numbers(adds);
        }
      }
      InsertKeeps(t, adds[n]);
    }
  }

  lemma {:induction false} ApplyAllAdded(base: seq<File>, edits: seq<LevelEdit>)
    requires AddedOnce(base, edits)
    ensures InOrder(ApplyAll(edits).added)
    ensures forall f :: f in ApplyAll(edits).added ==> f.number in AllAdded(edits)
    ensures edits != [] ==> forall f :: f in ApplyAll(edits).added <==>
              f in ApplyAll(edits[..|edits| - 1]).added || f in edits[|edits| - 1].adds
  {
    hide BySmallest;
    if edits != [] {
      var before, e := edits[..|edits| - 1], edits[|edits| - 1];
      ApplyAllAdded(base, before);
      InsertAllKeeps(ApplyAll(before).added, e.adds);
    }
  }

  lemma {:induction false} SurvivingAll(files: seq<File>)
    ensures Surviving(files, {}) == files
  {
    if files != [] {
      SurvivingAll(files[..|files| - 1]);
      assert files == files[..|files| - 1] + [files[|files| - 1]];
    }
  }

  /** Applying all edits and saving once gives the same ordered list of files as saving a
      version after every edit. */
  lemma {:induction false} BatchIsStepwise(base: seq<File>, edits: seq<LevelEdit>)
    requires InOrder(base) && AddedOnce(base, edits)
    ensures Save(base, ApplyAll(edits)) == Stepwise(base, edits)
    ensures InOrder(Stepwise(base, edits))
    ensures forall f :: f in Stepwise(base, edits) ==> f.number in Numbers(base) + AllAdded(edits)
  {
    hide BySmallest, Save, Insert;
    if edits == [] {
      SaveNothing(base);
      SurvivingAll(base);
    } else {
      var before, e := edits[..|edits| - 1], edits[|edits| - 1];
      var st0, st, one := ApplyAll(before), ApplyAll(edits), ApplyEdit(LevelState({}, []), e);
      var prev := Stepwise(base, before);
      BatchIsStepwise(base, before);
      ApplyAllAdded(base, before);
      ApplyAllAdded(base, edits);
      InsertAllKeeps([], e.adds);
      forall f
        ensures f in Save(base, st) <==> f in Save(prev, one)
        ensures f in Save(prev, one) ==> f.number in Numbers(base) + AllAdded(edits)
      {
        SaveMembers(base, st, f);
        SaveMembers(prev, one, f);
        SaveMembers(base, st0, f);
      }
      forall f, g | g in e.adds && (f in base || f in prev)
        ensures f.number != g.number
      {
        assert g.number in Numbers(e.adds);
      }
      forall f, g | f in base && g in st.added
        ensures f.number != g.number
      {
        NeverInBase(base, edits, f.number);
      }
      SaveInOrder(base, st);
      SaveInOrder(prev, one);
      OrderedOnce(Save(base, st), Save(prev, one));
    }
  }

  lemma {:induction false} NeverInBase(base: seq<File>, edits: seq<LevelEdit>, n: nat)
    requires AddedOnce(base, edits) && n in Numbers(base)
    ensures n !in AllAdded(edits)
  {
    if edits != [] {
      NeverInBase(base, edits[..|edits| - 1], n);
    }
  }

  lemma SaveNothing(base: seq<File>)
    ensures Save(base, ApplyAll([])) == Surviving(base, {})
  {
  }

  /** VersionEdit: files to delete and to add, each with its level. */
  datatype VersionEdit = VersionEdit(deletedFiles: set<(nat, nat)>, newFiles: seq<(nat, File)>)

  function AddsOn(newFiles: seq<(nat, File)>, level: nat): seq<File> {
    if newFiles == [] then []
    else
      var last := newFiles[|newFiles| - 1];
      AddsOn(newFiles[..|newFiles| - 1], level) + (if last.0 == level then [last.1] else [])
  }

  ghost function DelsOn(deletedFiles: set<(nat, nat)>, level: nat): set<nat> {
    set p | p in deletedFiles && p.0 == level :: p.1
  }

  ghost function EditOn(e: VersionEdit, level: nat): LevelEdit {
    LevelEdit(DelsOn(e.deletedFiles, level), AddsOn(e.newFiles, level))
  }

  class Builder {
    const base: Version
    var deleted: seq<set<nat>>
    var added: seq<seq<File>>

    constructor (base: Version)
      requires |base.levels| == NUM_LEVELS
      ensures this.base == base && Valid()
      ensures forall l :: 0 <= l < NUM_LEVELS ==> State(l) == LevelState({}, [])
    {
      this.base := base;
      deleted := seq(NUM_LEVELS, _ => {});
      added := seq(NUM_LEVELS, _ => []);
    }

    ghost predicate Valid()
      reads this
    {
      |base.levels| == |deleted| == |added| == NUM_LEVELS
    }

    function State(level: nat): LevelState
      requires Valid() && level < NUM_LEVELS
      reads this
    {
      LevelState(deleted[level], added[level])
    }

    /** Apply */
    method Apply(e: VersionEdit)
      requires Valid()
      requires forall p :: p in e.deletedFiles ==> p.0 < NUM_LEVELS
      requires forall p :: p in e.newFiles ==> p.0 < NUM_LEVELS
      modifies this
      ensures Valid()
      ensures forall l :: 0 <= l < NUM_LEVELS ==> State(l) == ApplyEdit(old(State(l)), EditOn(e, l))
    {
      hide Insert;
      var rest := e.deletedFiles;
      while rest != {}
        invariant Valid() && rest <= e.deletedFiles && added == old(added)
        invariant forall l :: 0 <= l < NUM_LEVELS ==> deleted[l] == old(deleted[l]) + DelsOn(e.deletedFiles - rest, l)
        decreases rest
      {
        var p :| p in rest;
        forall l | 0 <= l < NUM_LEVELS
          ensures DelsOn(e.deletedFiles - (rest - {p}), l)
                  == DelsOn(e.deletedFiles - rest, l) + (if p.0 == l then {p.1} else {})
        {
          assert e.deletedFiles - (rest - {p}) == (e.deletedFiles - rest) + {p};
        }
        deleted := deleted[p.0 := deleted[p.0] + {p.1}];
        rest := rest - {p};
      }
      assert e.deletedFiles - {} == e.deletedFiles;
      for i := 0 to |e.newFiles|
        invariant Valid()
        invariant forall l :: 0 <= l < NUM_LEVELS ==>
          && deleted[l] == old(deleted[l]) + DelsOn(e.deletedFiles, l) - Numbers(AddsOn(e.newFiles[..i], l))
          && added[l] == InsertAll(old(added[l]), AddsOn(e.newFiles[..i], l))
      {
        var level, f := e.newFiles[i].0, e.newFiles[i].1;
        assert e.newFiles[i] in e.newFiles;
        forall l | 0 <= l < NUM_LEVELS
          ensures var a, b := AddsOn(e.newFiles[..i], l), AddsOn(e.newFiles[..i + 1], l);
                  if l == level then
                    Numbers(b) == Numbers(a) + {f.number}
                    && InsertAll(old(added[l]), b) == Insert(InsertAll(old(added[l]), a), f)
                  else b == a
        {
          AddsStep(e.newFiles, i, l, old(added[l]));
        }
        deleted := deleted[level := deleted[level] - {f.number}];
        added := added[level := Insert(added[level], f)];
      }
      assert e.newFiles[..|e.newFiles|] == e.newFiles;
    }

    static lemma AddsStep(newFiles: seq<(nat, File)>, i: nat, l: nat, start: seq<File>)
      requires i < |newFiles|
      ensures var a, b, f := AddsOn(newFiles[..i], l), AddsOn(newFiles[..i + 1], l), newFiles[i].1;
              if newFiles[i].0 == l then
                b == a + [f] && Numbers(b) == Numbers(a) + {f.number}
                && InsertAll(start, b) == Insert(InsertAll(start, a), f)
              else b == a
    {
      assert newFiles[..i + 1][..i] == newFiles[..i];
      var a, f := AddsOn(newFiles[..i], l), newFiles[i].1;
      assert (a + [f])[..|a|] == a;
      assert forall g :: g in a + [f] <==> g in a || g == f;
    }

    /** SaveTo */
    method SaveTo() returns (v: Version)
      requires Valid()
      ensures |v.levels| == NUM_LEVELS
      ensures forall l :: 0 <= l < NUM_LEVELS ==> v.levels[l] == Save(base.levels[l], State(l))
    {
      hide BySmallest, Surviving, Save;
      var levels: seq<seq<File>> := [];
      for level := 0 to NUM_LEVELS
        invariant |levels| == level
        invariant forall l :: 0 <= l < level ==> levels[l] == Save(base.levels[l], State(l))
      {
        var files := SaveLevel(base.levels[level], deleted[level], added[level]);
        levels := levels + [files];
      }
      v := Version(levels);
    }

    /** The loop of SaveTo over the added files of one level. */
    static method SaveLevel(baseFiles: seq<File>, deleted: set<nat>, added: seq<File>) returns (files: seq<File>)
      ensures files == Save(baseFiles, LevelState(deleted, added))
    {
      hide BySmallest, Surviving;
      files := [];
      var baseIter := 0;
      for i := 0 to |added|
        invariant 0 <= baseIter <= |baseFiles|
        invariant files + Save(baseFiles[baseIter..], LevelState(deleted, added[i..]))
                  == Save(baseFiles, LevelState(deleted, added))
      {
        var k := UpperBound(baseFiles[baseIter..], added[i]);
        assert added[i..][1..] == added[i + 1..];
        assert baseFiles[baseIter..][k..] == baseFiles[baseIter + k..];
        var smaller := MaybeAddFiles(baseFiles[baseIter..][..k], deleted);
        var one := MaybeAddFiles([added[i]], deleted);
        var tail := Save(baseFiles[baseIter + k..], LevelState(deleted, added[i + 1..]));
        assert files + (smaller + one + tail) == (files + smaller + one) + tail;
        files := files + smaller + one;
        baseIter := baseIter + k;
      }
      assert added[|added|..] == [];
      var remaining := MaybeAddFiles(baseFiles[baseIter..], deleted);
      files := files + remaining;
    }

    /** MaybeAddFile, for one file after the other. */
    static method MaybeAddFiles(files: seq<File>, deleted: set<nat>) returns (r: seq<File>)
      ensures r == Surviving(files, deleted)
    {
      r := [];
      for i := 0 to |files|
        invariant r == Surviving(files[..i], deleted)
      {
        assert files[..i + 1][..i] == files[..i];
        if files[i].number !in deleted {
          r := r + [files[i]];
        }
      }
      assert files[..|files|] == files;
    }
  }
}
