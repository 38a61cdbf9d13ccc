/** Choosing the inputs of a compaction (PickCompaction, CompactRange and
    SetupOtherInputs in db/version_set.cc).
 */
module Compactions {
  import opened Comparator
  import opened Dbformat
  import opened Options
  import opened Versions
  import opened Overlapping
  import opened Boundary

  datatype Compaction = Compaction(level: nat, inputs0: seq<File>, inputs1: seq<File>, grandparents: seq<File>)

  function RangeOf(files: seq<File>): Range
    requires files != []
  {
    Range(Some(SmallestKey(files).user), Some(LargestKey(files).user))
  }

  ghost predicate IsRun(files: seq<File>, run: seq<File>, lo: nat, hi: nat) {
    lo < hi <= |files| && run == files[lo..hi]
  }

  ghost predicate IsClosed(files: seq<File>, chosen: seq<File>, r: Range) {
    chosen != [] && Closed(files, r) && chosen == Selected(files, r)
  }

  /** What SetupOtherInputs is given: a run of an ordered level, or a set of level-0 files
      closed under overlap. */
  ghost predicate Startable(files: seq<File>, level: nat, inputs: seq<File>) {
    if level == 0 then exists r :: IsClosed(files, inputs, r)
    else exists lo: nat, hi: nat :: IsRun(files, inputs, lo, hi)
  }

  /** What it makes of the lower level: no user key is split between inputs and the rest. */
  ghost predicate Unsplit(files: seq<File>, level: nat, inputs: seq<File>) {
    if level == 0 then exists r :: IsClosed(files, inputs, r)
    else exists lo: nat, hi: nat :: IsRun(files, inputs, lo, hi) && RunEnd(files, hi) == hi
  }

  ghost predicate WellChosen(v: Version, c: Compaction) {
    && |v.levels| == NUM_LEVELS && c.level + 1 < NUM_LEVELS
    && c.inputs0 != []
    && Unsplit(v.levels[c.level], c.level, c.inputs0)
    && c.inputs1 == Selected(v.levels[c.level + 1], RangeOf(c.inputs0))
  }

  /** A closed set of level-0 files has no boundary file left. */
  lemma ClosedHasNoBoundary(files: seq<File>, chosen: seq<File>, r: Range)
    requires GoodFiles(files) && IsClosed(files, chosen, r)
    ensures Chain(files, LargestKey(chosen)) == []
  {
    hide Less, LargestKey, Selected, Chain;
    var key := LargestKey(chosen);
    var i, _ := KeyRangeReached(chosen);
    var g := chosen[i];
    assert g in chosen;
    forall f | f in files
      ensures !IsBoundary(f, key)
    {
      if IsBoundary(f, key) {
        FileBounds(f, 0);
        BoundaryMeets(f, g, r);
        assert f in chosen;
        var j :| 0 <= j < |chosen| && chosen[j] == f;
        KeyRange(chosen, j);
        InternalOrder(key, f.smallest, f.largest);
      }
    }
    ChainEnds(files, key);
  }

  lemma ChainEnds(files: seq<File>, key: InternalKey)
    requires GoodFiles(files) && forall f :: f in files ==> !IsBoundary(f, key)
    ensures Chain(files, key) == []
  {
  }

  lemma BoundaryMeets(f: File, g: File, r: Range)
    requires Meets(g, r) && Within(g, r)
    requires f.smallest.user == g.largest.user && LessEq(f.smallest.user, f.largest.user)
    ensures Meets(f, r)
  {
    if r.lo.Some? {
      LessTransitive(r.lo.value, g.largest.user, f.largest.user);
    }
  }

  /** AddBoundaryInputs leaves the lower level unsplit. */
  lemma BoundaryUnsplits(files: seq<File>, level: nat, chosen: seq<File>)
    requires GoodFiles(files) && (level > 0 ==> Disjoint(files))
    requires Startable(files, level, chosen)
    ensures chosen != [] && Unsplit(files, level, chosen + Chain(files, LargestKey(chosen)))
  {
    hide Less, LargestKey, Selected, Chain, Disjoint, GoodFiles;
    if level == 0 {
      var r :| IsClosed(files, chosen, r);
      ClosedHasNoBoundary(files, chosen, r);
      assert chosen + [] == chosen;
    } else {
      var lo: nat, hi: nat :| IsRun(files, chosen, lo, hi);
      RunRange(files, lo, hi);
      ChainIsRun(files, hi);
      var e := RunEnd(files, hi);
      assert files[lo..hi] + files[hi..e] == files[lo..e];
      assert IsRun(files, chosen + Chain(files, LargestKey(chosen)), lo, e);
      RunEndStable(files, hi);
    }
  }

  lemma {:induction false} RunEndStable(files: seq<File>, hi: nat)
    requires 0 < hi <= |files|
    ensures RunEnd(files, RunEnd(files, hi)) == RunEnd(files, hi)
    decreases |files| - hi
  {
    if hi < |files| && files[hi].smallest.user == files[hi - 1].largest.user {
      RunEndStable(files, hi + 1);
    }
  }

  /** In an ordered level the files that meet a range are a run. */
  lemma SelectedIsRun(files: seq<File>, r: Range)
    requires GoodFiles(files) && Disjoint(files) && Selected(files, r) != []
    ensures Startable(files, 1, Selected(files, r))
  {
    var lo, hi := SelectedRun(files, r, |files|);
    assert files[..|files|] == files;
    assert IsRun(files, Selected(files, r), lo, hi);
  }

  lemma {:induction false} SelectedRun(files: seq<File>, r: Range, n: nat) returns (lo: nat, hi: nat)
    requires GoodFiles(files) && Disjoint(files) && n <= |files|
    ensures lo <= hi <= n && Selected(files[..n], r) == files[lo..hi]
    ensures forall i :: 0 <= i < n ==> (Meets(files[i], r) <==> lo <= i < hi)
    ensures lo == hi ==> lo == 0
  {
    hide Less, Disjoint, GoodFiles, Overlaps, Selected, Meets;
    if n == 0 {
      SelectedNone(r);
      lo, hi := 0, 0;
    } else {
      lo, hi := SelectedRun(files, r, n - 1);
      SelectedStep(files, n - 1, r);
      if Meets(files[n - 1], r) {
        if lo == hi {
          lo, hi := n - 1, n;
        } else {
          if hi < n - 1 {
            MeetsBetween(files, r, hi - 1, hi, n - 1);
          }
          SliceGrows(files, lo, hi);
          hi := n;
        }
      }
    }
  }

  lemma SliceGrows<T>(files: seq<T>, lo: nat, hi: nat)
    requires lo <= hi < |files|
    ensures files[lo..hi] + [files[hi]] == files[lo..hi + 1]
  {
  }

  lemma MeetsBetween(files: seq<File>, r: Range, i: nat, j: nat, k: nat)
    requires GoodFiles(files) && Disjoint(files) && i <= j <= k < |files|
    requires Meets(files[i], r) && Meets(files[k], r)
    ensures Meets(files[j], r)
  {
    LargestIncrease(files, i, j);
    LargestIncrease(files, j, k);
    FileBounds(files[j], 0);
    FileBounds(files[k], 0);
    var rank, unrank := OrderByRank();
  }

  lemma {:induction false} SelectedMonotone(files: seq<File>, inner: Range, outer: Range)
    requires forall f :: f in files && Meets(f, inner) ==> Meets(f, outer)
    ensures |Selected(files, inner)| <= |Selected(files, outer)|
    ensures |Selected(files, inner)| == |Selected(files, outer)| ==> Selected(files, inner) == Selected(files, outer)
  {
    hide Meets;
    if files != [] {
      var n := |files| - 1;
      SelectedMonotone(files[..n], inner, outer);
      assert files[n] in files;
    }
  }

  /** A larger set of inputs spans a larger range. */
  lemma RangeGrows(small: seq<File>, large: seq<File>)
    requires small != [] && large != []
    requires forall f :: f in small ==> f in large
    ensures Covers(RangeOf(large), RangeOf(small))
  {
    hide Less, LargestKey, SmallestKey;
    var i, j := KeyRangeReached(small);
    assert small[i] in large && small[j] in large;
    var a :| 0 <= a < |large| && large[a] == small[i];
    var b :| 0 <= b < |large| && large[b] == small[j];
    KeyRange(large, a);
    KeyRange(large, b);
    LessIsStrict(LargestKey(small).user, LargestKey(large).user);
    LessIsStrict(SmallestKey(large).user, SmallestKey(small).user);
    BeforeUsers(small[i].largest, LargestKey(large));
    BeforeUsers(SmallestKey(large), small[j].smallest);
  }

  lemma BeforeUsers(a: InternalKey, b: InternalKey)
    requires NotAfter(a, b)
    ensures LessEq(a.user, b.user)
  {
  }

  /** The range of a set of files meets each of them. */
  lemma RangeMeetsOwn(files: seq<File>, f: File)
    requires f in files && GoodFile(f)
    ensures Meets(f, RangeOf(files))
  {
    var i :| 0 <= i < |files| && files[i] == f;
    KeyRange(files, i);
    FileBounds(f, 0);
    BeforeUsers(files[i].largest, LargestKey(files));
    BeforeUsers(SmallestKey(files), files[i].smallest);
    LessTransitive(SmallestKey(files).user, f.smallest.user, f.largest.user);
    LessTransitive(f.smallest.user, f.largest.user, LargestKey(files).user);
  }

  lemma UnsplitIn(files: seq<File>, level: nat, chosen: seq<File>)
    requires Unsplit(files, level, chosen)
    ensures chosen != [] && forall f :: f in chosen ==> f in files
  {
    if level == 0 {
      var r :| IsClosed(files, chosen, r);
    }
  }

  /** Growing the lower level never drops a file from it, and if the number of files met in
      the level above stays the same, so do the files. */
  lemma GrowthKeepsUpper(files: seq<File>, upper: seq<File>, level: nat, small: seq<File>, met: seq<File>, r: Range,
                         large: seq<File>)
    requires GoodFiles(files)
    requires Unsplit(files, level, small)
    requires Covers(r, RangeOf(small + met))
    requires large != [] && forall f :: f in Selected(files, r) ==> f in large
    ensures forall f :: f in small ==> f in large
    ensures |Selected(upper, RangeOf(small))| == |Selected(upper, RangeOf(large))| ==>
              Selected(upper, RangeOf(small)) == Selected(upper, RangeOf(large))
  {
    hide Less, LargestKey, SmallestKey, Covers, Unsplit, GoodFile, Meets;
    UnsplitIn(files, level, small);
    forall f | f in small
      ensures f in large
    {
      assert f in files && f in small + met;
      RangeMeetsOwn(small + met, f);
      MeetsCovered(f, RangeOf(small + met), r);
    }
    RangeGrows(small, large);
    forall f | f in upper && Meets(f, RangeOf(small))
      ensures Meets(f, RangeOf(large))
    {
      MeetsCovered(f, RangeOf(small), RangeOf(large));
    }
    SelectedMonotone(upper, RangeOf(small), RangeOf(large));
  }

  function TotalFileSize(files: seq<File>): nat {
    if files == [] then 0 else files[0].size + TotalFileSize(files[1..])
  }

  lemma {:induction false} SizesAdd(a: seq<File>, b: seq<File>)
    ensures TotalFileSize(a + b) == TotalFileSize(a) + TotalFileSize(b)
    ensures forall f :: TotalFileSize([f]) == f.size
  {
    if a == [] {
      assert a + b == b;
    } else {
      SizesAdd(a[1..], b);
      assert (a + b)[1..] == a[1..] + b;
    }
  }

  /** The inputs are set up from these files of the lower level: boundary files, then the files
      met above, then more lower files, from the range r, if that adds some, stays below the
      size limit and meets no more files above. */
  ghost predicate SetUpWith(v: Version, maxFileSize: nat, level: nat, chosen: seq<File>, c: Compaction, r: Range)
    requires GoodVersion(v) && level + 1 < NUM_LEVELS && chosen != []
  {
    var files, above := v.levels[level], v.levels[level + 1];
    var first := chosen + Chain(files, LargestKey(chosen));
    var met, drawn := Selected(above, RangeOf(first)), Selected(files, r);
    && c.level == level && c.inputs1 == met
    && (met == [] ==> c.inputs0 == first)
    && (met != [] ==>
          && drawn != [] && (if level == 0 then Closure(files, RangeOf(first + met), r) else r == RangeOf(first + met))
          && c.inputs0 == Grown(drawn + Chain(files, LargestKey(drawn)), first, met, above, maxFileSize))
  }

  function Grown(grown: seq<File>, first: seq<File>, met: seq<File>, above: seq<File>, maxFileSize: nat): seq<File>
    requires grown != []
  {
    if |grown| > |first| && TotalFileSize(met) + TotalFileSize(grown) < 25 * maxFileSize
       && |Selected(above, RangeOf(grown))| == |met| then grown else first
  }

  ghost predicate SetUpFrom(v: Version, maxFileSize: nat, level: nat, chosen: seq<File>, c: Compaction)
    requires GoodVersion(v) && level + 1 < NUM_LEVELS && chosen != []
  {
    exists r :: SetUpWith(v, maxFileSize, level, chosen, c, r)
  }

  class VersionSet {
    var current: Version
    var compactPointer: seq<Option<InternalKey>>
    const maxFileSize: nat

    constructor (v: Version, maxFileSize: nat)
      requires GoodVersion(v)
      ensures Valid() && current == v && this.maxFileSize == maxFileSize
    {
      current := v;
      compactPointer := seq(NUM_LEVELS, _ => None);
      this.maxFileSize := maxFileSize;
    }

    ghost predicate Valid()
      reads this
    {
      GoodVersion(current) && |compactPointer| == NUM_LEVELS
    }

    /** The files of a level that meet [begin, end], as a run or as a closed set. */
    method Overlapping(level: nat, begin: Option<InternalKey>, end: Option<InternalKey>)
      returns (inputs: seq<File>, r: Range)
      requires Valid() && level < NUM_LEVELS
      ensures inputs == Selected(current.levels[level], r)
      ensures inputs != [] ==> Startable(current.levels[level], level, inputs)
      ensures level > 0 ==> r == UserRange(begin, end)
      ensures level == 0 ==> Closure(current.levels[0], UserRange(begin, end), r)
      ensures Covers(r, UserRange(begin, end))
    {
      hide Less, Disjoint, GoodFiles, Covers, Closed;
      var files := current.levels[level];
      inputs, r := GetOverlappingInputs(level, files, begin, end);
      LeastAtFirst(files, UserRange(begin, end));
      if level == 0 {
        assert inputs != [] ==> IsClosed(files, inputs, r);
      } else if inputs != [] {
        SelectedIsRun(files, r);
      }
    }

    /** The part of SetupOtherInputs that tries to take more lower files without meeting more
        upper ones. */
    method Grow(level: nat, first: seq<File>, met: seq<File>) returns (inputs0: seq<File>, ghost r: Range)
      requires Valid() && level + 1 < NUM_LEVELS && met != []
      requires first != [] && Unsplit(current.levels[level], level, first)
      requires met == Selected(current.levels[level + 1], RangeOf(first))
      ensures inputs0 != [] && Unsplit(current.levels[level], level, inputs0)
      ensures met == Selected(current.levels[level + 1], RangeOf(inputs0))
      ensures forall f :: f in first ==> f in inputs0
      ensures if level == 0 then Closure(current.levels[0], RangeOf(first + met), r) else r == RangeOf(first + met)
      ensures var files, drawn := current.levels[level], Selected(current.levels[level], r);
              && drawn != []
              && inputs0 == Grown(drawn + Chain(files, LargestKey(drawn)), first, met, current.levels[level + 1],
                                  maxFileSize)
    {
      hide Less, LargestKey, SmallestKey, Chain, Covers, Selected, Unsplit, Startable, TotalFileSize, GoodFile, Closure,
        Disjoint, Above, NumbersTellAge, DistinctNumbers;
      var files := current.levels[level];
      var allStart, allLimit := GetRange(first + met);
      var drawn, r0 := Overlapping(level, Some(allStart), Some(allLimit));
      r := r0;
      DrawnHasFirst(files, level, first, first + met, r);
      BoundaryUnsplits(files, level, drawn);
      var grown := AddBoundaryInputs(files, drawn);
      inputs0 := first;
      if |grown| > |first| && TotalFileSize(met) + TotalFileSize(grown) < 25 * maxFileSize {
        var newStart, newLimit := GetRange(grown);
        var again, _ := Overlapping(level + 1, Some(newStart), Some(newLimit));
        assert forall f :: f in drawn ==> f in grown;
        GrowthKeepsUpper(files, current.levels[level + 1], level, first, met, r, grown);
        if |again| == |met| {
          inputs0 := grown;
        }
      }
    }

    static lemma DrawnHasFirst(files: seq<File>, level: nat, first: seq<File>, all: seq<File>, r: Range)
      requires GoodFiles(files) && Unsplit(files, level, first) && (forall f :: f in first ==> f in all)
      requires all != [] && Covers(r, RangeOf(all))
      ensures Selected(files, r) != []
    {
      hide Less, LargestKey, SmallestKey, Covers, Unsplit, GoodFile, Meets;
      UnsplitIn(files, level, first);
      var f := first[0];
      assert f in files && f in all;
      RangeMeetsOwn(all, f);
      MeetsCovered(f, RangeOf(all), r);
    }

    /** SetupOtherInputs; r is the range in which it looks for more lower files. */
    method SetupOtherInputs(level: nat, chosen: seq<File>) returns (c: Compaction, ghost r: Range)
      requires Valid() && level + 1 < NUM_LEVELS
      requires Startable(current.levels[level], level, chosen)
      modifies this`compactPointer
      ensures Valid() && c.level == level
      ensures WellChosen(current, c)
      ensures forall f :: f in chosen ==> f in c.inputs0
      ensures chosen != [] && var first := chosen + Chain(current.levels[level], LargestKey(chosen));
                c.inputs1 == Selected(current.levels[level + 1], RangeOf(first))
      ensures c.grandparents ==
              if level + 2 < NUM_LEVELS then Selected(current.levels[level + 2], RangeOf(c.inputs0 + c.inputs1)) else []
      ensures compactPointer == old(compactPointer)[level := Some(LargestKey(c.inputs0))]
      ensures var files, above := current.levels[level], current.levels[level + 1];
              var first := chosen + Chain(files, LargestKey(chosen));
              var met, drawn := Selected(above, RangeOf(first)), Selected(files, r);
              && (met == [] ==> c.inputs0 == first)
              && (met != [] ==>
                    && drawn != []
                    && (if level == 0 then Closure(files, RangeOf(first + met), r) else r == RangeOf(first + met))
                    && var grown := drawn + Chain(files, LargestKey(drawn));
                       c.inputs0 ==
                       if |grown| > |first| && TotalFileSize(met) + TotalFileSize(grown) < 25 * maxFileSize
                          && |Selected(above, RangeOf(grown))| == |met| then grown else first)
      ensures SetUpFrom(current, maxFileSize, level, chosen, c)
    {
      hide Less, LargestKey, SmallestKey, Chain, Covers, Selected, Unsplit, Startable, TotalFileSize, GoodFile,
        Disjoint, Above, NumbersTellAge, DistinctNumbers, Closure;
      BoundaryUnsplits(current.levels[level], level, chosen);
      var inputs0 := AddBoundaryInputs(current.levels[level], chosen);
      var smallest, largest := GetRange(inputs0);
      var inputs1, _ := Overlapping(level + 1, Some(smallest), Some(largest));
      r := Range(None, None);
      if inputs1 != [] {
        inputs0, r := Grow(level, inputs0, inputs1);
        smallest, largest := GetRange(inputs0);
      }
      var allStart, allLimit := GetRange(inputs0 + inputs1);
      var grandparents: seq<File> := [];
      if level + 2 < NUM_LEVELS {
        var gp, _ := Overlapping(level + 2, Some(allStart), Some(allLimit));
        grandparents := gp;
      }
      compactPointer := compactPointer[level := Some(largest)];
      c := Compaction(level, inputs0, inputs1, grandparents);
      assert SetUpWith(current, maxFileSize, level, chosen, c, r);
    }

    /** PickCompaction.  The level that is too large, or else the file that was sought too
        often, is given.  In the level it starts from the first file past the compaction
        pointer, or from the first of all when there is none. */
    method PickCompaction(sizeLevel: Option<nat>, seek: Option<(nat, File)>) returns (c: Option<Compaction>)
      requires Valid()
      requires sizeLevel.Some? ==> sizeLevel.value + 1 < NUM_LEVELS && current.levels[sizeLevel.value] != []
      requires seek.Some? ==> seek.value.0 + 1 < NUM_LEVELS && seek.value.1 in current.levels[seek.value.0]
      modifies this`compactPointer
      ensures Valid()
      ensures c.None? <==> sizeLevel.None? && seek.None?
      ensures c.Some? ==> WellChosen(current, c.value)
      ensures sizeLevel.Some? ==>
                var files, pointer := current.levels[sizeLevel.value], old(compactPointer)[sizeLevel.value];
                && c.value.level == sizeLevel.value
                && exists i ::
                     && 0 <= i < |files| && StartsFrom(sizeLevel.value, files[i], c.value)
                     && files[i] in c.value.inputs0
                     && (pointer.Some? ==> forall j :: 0 <= j < i ==> !Before(pointer.value, files[j].largest))
                     && (pointer.None? || Before(pointer.value, files[i].largest)
                         || (i == 0 && forall j :: 0 <= j < |files| ==> !Before(pointer.value, files[j].largest)))
                     && (pointer.None? ==> i == 0)
      ensures sizeLevel.None? && seek.Some? ==>
                && c.value.level == seek.value.0 && seek.value.1 in c.value.inputs0
                && StartsFrom(seek.value.0, seek.value.1, c.value)
    {
      hide Less, Before, Selected, Covers, Startable, WellChosen, GoodFile, Disjoint, Above, NumbersTellAge;
      hide DistinctNumbers, LargestKey, SmallestKey, Chain, SetUpFrom, Closure;
      var level, picked;
      if sizeLevel.Some? {
        level := sizeLevel.value;
        picked := NextFile(level);
      } else if seek.Some? {
        level, picked := seek.value.0, seek.value.1;
      } else {
        return None;
      }
      var chosen := [picked];
      if level == 0 {
        var smallest, largest := GetRange(chosen);
        ghost var r;
        chosen, r := Overlapping(0, Some(smallest), Some(largest));
        PickedStays(current, picked, r);
      } else {
        OneIsRun(current.levels[level], level, picked);
      }
      var made, _ := SetupOtherInputs(level, chosen);
      assert StartsFrom(level, picked, made);
      c := Some(made);
    }

    /** The compaction is set up from this file, in level 0 with all that it draws in. */
    ghost predicate StartsFrom(level: nat, f: File, c: Compaction)
      requires Valid() && level + 1 < NUM_LEVELS
      reads this
    {
      if level == 0 then
        exists r :: Closure(current.levels[0], RangeOf([f]), r) && Selected(current.levels[0], r) != []
                    && SetUpFrom(current, maxFileSize, 0, Selected(current.levels[0], r), c)
      else SetUpFrom(current, maxFileSize, level, [f], c)
    }

    /** The loop of PickCompaction over the files of a level. */
    method NextFile(level: nat) returns (f: File)
      requires Valid() && level < NUM_LEVELS && current.levels[level] != []
      ensures var files, pointer := current.levels[level], compactPointer[level];
              exists i :: 0 <= i < |files| && f == files[i]
                && (pointer.Some? ==> forall j :: 0 <= j < i ==> !Before(pointer.value, files[j].largest))
                && (pointer.None? || Before(pointer.value, files[i].largest)
                    || (i == 0 && forall j :: 0 <= j < |files| ==> !Before(pointer.value, files[j].largest)))
                && (pointer.None? ==> i == 0)
    {
      hide Before;
      var files, pointer := current.levels[level], compactPointer[level];
      for i := 0 to |files|
        invariant pointer.None? ==> i == 0
        invariant pointer.Some? ==> forall j :: 0 <= j < i ==> !Before(pointer.value, files[j].largest)
      {
        if pointer.None? || Before(pointer.value, files[i].largest) {
          return files[i];
        }
      }
      f := files[0];
    }

    static lemma OneIsRun(files: seq<File>, level: nat, f: File)
      requires f in files && level > 0
      ensures Startable(files, level, [f])
    {
      var i :| 0 <= i < |files| && files[i] == f;
      assert IsRun(files, [f], i, i + 1);
    }

    static lemma PickedStays(v: Version, f: File, r: Range)
      requires GoodVersion(v) && f in v.levels[0]
      requires Covers(r, RangeOf([f]))
      ensures f in Selected(v.levels[0], r)
    {
      hide Less, Covers, Meets;
      RangeMeetsOwn([f], f);
      MeetsCovered(f, RangeOf([f]), r);
    }

    /** The loop of CompactRange that cuts the inputs where they reach the size limit. */
    method TrimInputs(inputs: seq<File>) returns (n: nat)
      ensures n <= |inputs| && (inputs != [] ==> n > 0)
      ensures n < |inputs| ==> TotalFileSize(inputs[..n]) >= maxFileSize
      ensures forall m :: 0 < m < n ==> TotalFileSize(inputs[..m]) < maxFileSize
    {
      var total: nat, i: nat := 0, 0;
      while i < |inputs|
        invariant i <= |inputs| && total == TotalFileSize(inputs[..i])
        invariant forall m :: 0 < m <= i ==> TotalFileSize(inputs[..m]) < maxFileSize
      {
        SizesAdd(inputs[..i], [inputs[i]]);
        assert inputs[..i] + [inputs[i]] == inputs[..i + 1];
        total := total + inputs[i].size;
        i := i + 1;
        if total >= maxFileSize {
          return i;
        }
      }
      return |inputs|;
    }

    /** CompactRange: of an ordered level the first files in the range, as many as it takes to
        reach the size limit. */
    method CompactRange(level: nat, begin: Option<InternalKey>, end: Option<InternalKey>)
      returns (c: Option<Compaction>)
      requires Valid() && level + 1 < NUM_LEVELS
      modifies this`compactPointer
      ensures Valid()
      ensures c.None? ==> forall f :: f in current.levels[level] ==> !Meets(f, UserRange(begin, end))
      ensures c.Some? ==> c.value.level == level && WellChosen(current, c.value)
      ensures c.Some? && level == 0 ==>
                && (forall f :: f in current.levels[level] && Meets(f, UserRange(begin, end)) ==> f in c.value.inputs0)
                && exists r ::
                     && Closure(current.levels[0], UserRange(begin, end), r) && Selected(current.levels[0], r) != []
                     && SetUpFrom(current, maxFileSize, 0, Selected(current.levels[0], r), c.value)
      ensures c.Some? && level > 0 ==>
                var met := Selected(current.levels[level], UserRange(begin, end));
                exists n :: 0 < n <= |met|
                  && (n < |met| ==> TotalFileSize(met[..n]) >= maxFileSize)
                  && (forall m :: 0 < m < n ==> TotalFileSize(met[..m]) < maxFileSize)
                  && SetUpFrom(current, maxFileSize, level, met[..n], c.value)
    {
      hide Less, Covers, WellChosen, GoodFile, Disjoint, Above, NumbersTellAge, DistinctNumbers, LargestKey,
        SmallestKey, Chain, Meets, TotalFileSize, SetUpFrom, Closure;
      var inputs, r := Overlapping(level, begin, end);
      forall f | f in current.levels[level] && Meets(f, UserRange(begin, end))
        ensures f in inputs
      {
        MeetsCovered(f, UserRange(begin, end), r);
      }
      if inputs == [] {
        return None;
      }
      if level > 0 {
        var n := TrimInputs(inputs);
        TrimIsRun(current.levels[level], level, inputs, n);
        inputs := inputs[..n];
      }
      var made, _ := SetupOtherInputs(level, inputs);
      c := Some(made);
    }

    static lemma TrimIsRun(files: seq<File>, level: nat, inputs: seq<File>, n: nat)
      requires level > 0 && Startable(files, level, inputs) && 0 < n <= |inputs|
      ensures Startable(files, level, inputs[..n])
    {
      var lo: nat, hi: nat :| IsRun(files, inputs, lo, hi);
      assert inputs[..n] == files[lo..lo + n];
      assert IsRun(files, inputs[..n], lo, lo + n);
    }
  }
}
