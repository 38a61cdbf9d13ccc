/** Boundary files (AddBoundaryInputs in db/version_set.cc): when the versions of one user
    key are split over adjacent files of a level, a compaction that takes the newer ones
    must take the older ones too.
 */
module Boundary {
  import opened Comparator
  import opened Dbformat
  import opened Options
  import opened Versions
  import opened Overlapping

  /** The largest key of the files, as FindLargestKey and GetRange fold it. */
  function LargestKey(files: seq<File>): (k: InternalKey)
    requires files != []
  {
    var last := files[|files| - 1].largest;
    if |files| == 1 then last
    else
      var k := LargestKey(files[..|files| - 1]);
      if Before(k, last) then last else k
  }

  function SmallestKey(files: seq<File>): (k: InternalKey)
    requires files != []
  {
    var last := files[|files| - 1].smallest;
    if |files| == 1 then last
    else
      var k := SmallestKey(files[..|files| - 1]);
      if Before(last, k) then last else k
  }

  lemma {:induction false} KeyRange(files: seq<File>, i: nat)
    requires i < |files|
    ensures NotAfter(files[i].largest, LargestKey(files))
    ensures NotAfter(SmallestKey(files), files[i].smallest)
  {
    var n := |files| - 1;
    if n > 0 && i < n {
      KeyRange(files[..n], i);
      InternalOrder(files[i].largest, LargestKey(files[..n]), files[n].largest);
      InternalOrder(files[n].smallest, SmallestKey(files[..n]), files[i].smallest);
      InternalOrder(files[n].largest, files[i].largest, files[n].largest);
      InternalOrder(files[n].smallest, files[i].smallest, files[n].smallest);
    } else {
      InternalOrder(files[n].largest, files[n].largest, files[n].largest);
      InternalOrder(files[n].smallest, files[n].smallest, files[n].smallest);
      if n > 0 {
        InternalOrder(files[n].largest, LargestKey(files[..n]), files[n].largest);
        InternalOrder(files[n].smallest, SmallestKey(files[..n]), files[n].smallest);
      }
    }
  }

  lemma {:induction false} KeyRangeReached(files: seq<File>) returns (i: nat, j: nat)
    requires files != []
    ensures i < |files| && files[i].largest == LargestKey(files)
    ensures j < |files| && files[j].smallest == SmallestKey(files)
  {
    var n := |files| - 1;
    i, j := n, n;
    if n > 0 {
      var i', j' := KeyRangeReached(files[..n]);
      i := if Before(LargestKey(files[..n]), files[n].largest) then n else i';
      j := if Before(files[n].smallest, SmallestKey(files[..n])) then n else j';
    }
  }

  lemma KeyRangeStep(files: seq<File>, i: nat)
    requires 0 < i < |files|
    ensures LargestKey(files[..i + 1]) ==
            if Before(LargestKey(files[..i]), files[i].largest) then files[i].largest else LargestKey(files[..i])
    ensures SmallestKey(files[..i + 1]) ==
            if Before(files[i].smallest, SmallestKey(files[..i])) then files[i].smallest else SmallestKey(files[..i])
  {
    assert files[..i + 1][..i] == files[..i];
  }

  /** FindLargestKey */
  method FindLargestKey(files: seq<File>) returns (r: Option<InternalKey>)
    ensures r == if files == [] then None else Some(LargestKey(files))
  {
    hide Before;
    if |files| == 0 {
      return None;
    }
    var key := files[0].largest;
    assert files[..1] == [files[0]];
    for i := 1 to |files|
      invariant key == LargestKey(files[..i])
    {
      KeyRangeStep(files, i);
      if Before(key, files[i].largest) {
        key := files[i].largest;
      }
    }
    assert files[..|files|] == files;
    r := Some(key);
  }

  /** GetRange */
  method GetRange(files: seq<File>) returns (smallest: InternalKey, largest: InternalKey)
    requires files != []
    ensures smallest == SmallestKey(files) && largest == LargestKey(files)
  {
    hide Before;
    smallest, largest := files[0].smallest, files[0].largest;
    assert files[..1] == [files[0]];
    for i := 1 to |files|
      invariant smallest == SmallestKey(files[..i]) && largest == LargestKey(files[..i])
    {
      KeyRangeStep(files, i);
      if Before(files[i].smallest, smallest) {
        smallest := files[i].smallest;
      }
      if Before(largest, files[i].largest) {
        largest := files[i].largest;
      }
    }
    assert files[..|files|] == files;
  }

  /** The file starts after `key` with an older version of the same user key. */
  predicate IsBoundary(f: File, key: InternalKey) {
    Before(key, f.smallest) && f.smallest.user == key.user
  }

  function SmallestBoundary(files: seq<File>, key: InternalKey): (r: Option<File>)
    ensures r.None? ==> forall f :: f in files ==> !IsBoundary(f, key)
    ensures r.Some? ==> r.value in files && IsBoundary(r.value, key)
    ensures r.Some? ==> forall f :: f in files && IsBoundary(f, key) ==> NotAfter(r.value.smallest, f.smallest)
  {
    if files == [] then None
    else
      var last := files[|files| - 1];
      assert files == files[..|files| - 1] + [last];
      var r := SmallestBoundary(files[..|files| - 1], key);
      OrderLaws();
      if IsBoundary(last, key) && (r.None? || Before(last.smallest, r.value.smallest)) then Some(last) else r
  }

  /** FindSmallestBoundaryFile */
  method FindSmallestBoundaryFile(files: seq<File>, key: InternalKey) returns (r: Option<File>)
    ensures r == SmallestBoundary(files, key)
    ensures r.None? ==> forall f :: f in files && f.smallest.user == key.user ==> !Before(key, f.smallest)
    ensures r.Some? ==>
              && r.value in files && r.value.smallest.user == key.user && Before(key, r.value.smallest)
              && forall f :: f in files && f.smallest.user == key.user && Before(key, f.smallest) ==>
                   NotAfter(r.value.smallest, f.smallest)
  {
    r := None;
    for i := 0 to |files|
      invariant r == SmallestBoundary(files[..i], key)
    {
      var f := files[i];
      assert files[..i + 1][..i] == files[..i];
      if Before(key, f.smallest) && f.smallest.user == key.user {
        if r.None? || Before(f.smallest, r.value.smallest) {
          r := Some(f);
        }
      }
    }
    assert files[..|files|] == files;
  }

  /** How many files start after `key`. */
  function After(files: seq<File>, key: InternalKey): nat {
    if files == [] then 0 else (if Before(key, files[0].smallest) then 1 else 0) + After(files[1..], key)
  }

  lemma {:induction false} AfterDrops(files: seq<File>, key: InternalKey, later: InternalKey, f: File)
    requires Before(key, later)
    ensures After(files, later) <= After(files, key)
    ensures f in files && Before(key, f.smallest) && !Before(later, f.smallest) ==>
              After(files, later) < After(files, key)
  {
    if files != [] {
      AfterDrops(files[1..], key, later, f);
      InternalOrder(key, later, files[0].smallest);
      assert f in files ==> f == files[0] || f in files[1..];
    }
  }

  lemma BoundaryAdvances(files: seq<File>, key: InternalKey, f: File)
    requires GoodFiles(files) && f in files && IsBoundary(f, key)
    ensures After(files, f.largest) < After(files, key)
  {
    FileBounds(f, 0);
    InternalOrder(key, f.smallest, f.largest);
    AfterDrops(files, key, f.largest, f);
  }

  /** The boundary files that follow `key`, each found from the end of the one before. */
  function Chain(files: seq<File>, key: InternalKey): seq<File>
    requires GoodFiles(files)
    decreases After(files, key)
  {
    match SmallestBoundary(files, key)
    case None => []
    case Some(f) =>
      BoundaryAdvances(files, key, f);
      [f] + Chain(files, f.largest)
  }

  /** AddBoundaryInputs */
  method AddBoundaryInputs(files: seq<File>, chosen: seq<File>) returns (r: seq<File>)
    requires GoodFiles(files)
    ensures r == if chosen == [] then [] else chosen + Chain(files, LargestKey(chosen))
  {
    hide LargestKey, After, Before;
    r := chosen;
    var largest := FindLargestKey(chosen);
    if largest.None? {
      return;
    }
    var key := largest.value;
    var searching := true;
    while searching
      invariant searching ==> r + Chain(files, key) == chosen + Chain(files, LargestKey(chosen))
      invariant !searching ==> r == chosen + Chain(files, LargestKey(chosen))
      decreases searching, After(files, key)
    {
      var f := FindSmallestBoundaryFile(files, key);
      if f.Some? {
        BoundaryAdvances(files, key, f.value);
        assert r + ([f.value] + Chain(files, f.value.largest)) == (r + [f.value]) + Chain(files, f.value.largest);
        r := r + [f.value];
        key := f.value.largest;
      } else {
        searching := false;
      }
    }
  }

  /** Where the run that ends before `hi` stops splitting a user key. */
  function RunEnd(files: seq<File>, hi: nat): (e: nat)
    requires 0 < hi <= |files|
    ensures hi <= e <= |files|
    ensures e < |files| ==> files[e].smallest.user != files[e - 1].largest.user
    decreases |files| - hi
  {
    if hi < |files| && files[hi].smallest.user == files[hi - 1].largest.user then RunEnd(files, hi + 1) else hi
  }

  /** Up to there every file goes on with the user key the one before ends with. */
  lemma {:induction false} RunGoesOn(files: seq<File>, hi: nat, k: nat)
    requires 0 < hi <= |files| && hi <= k < RunEnd(files, hi)
    ensures files[k].smallest.user == files[k - 1].largest.user
    decreases |files| - hi
  {
    if hi < k {
      RunGoesOn(files, hi + 1, k);
    }
  }

  /** In an ordered level the boundary file of a run is the file just after it. */
  lemma {:induction false} BoundaryIsNext(files: seq<File>, hi: nat, n: nat)
    requires GoodFiles(files) && Disjoint(files)
    requires 0 < hi <= |files| && n <= |files|
    ensures SmallestBoundary(files[..n], files[hi - 1].largest)
            == if hi < n && files[hi].smallest.user == files[hi - 1].largest.user then Some(files[hi]) else None
    decreases n
  {
    hide Before, GoodFiles, Disjoint;
    if n > 0 {
      assert files[..n][..n - 1] == files[..n - 1];
      BoundaryIsNext(files, hi, n - 1);
      if n - 1 < hi {
        NotBoundary(files, n - 1, hi - 1);
      } else {
        NextStartsAfter(files, hi, n - 1);
      }
    }
  }

  lemma NotBoundary(files: seq<File>, i: nat, j: nat)
    requires GoodFiles(files) && Disjoint(files) && i <= j < |files|
    ensures !Before(files[j].largest, files[i].smallest)
  {
    FileBounds(files[i], 0);
    LargestIncrease(files, i, j);
    InternalOrder(files[i].smallest, files[i].largest, files[j].largest);
    InternalOrder(files[j].largest, files[i].smallest, files[i].largest);
  }

  lemma NextStartsAfter(files: seq<File>, hi: nat, m: nat)
    requires GoodFiles(files) && Disjoint(files) && 0 < hi <= m < |files|
    ensures Before(files[hi - 1].largest, files[m].smallest)
    ensures hi < m ==> Before(files[hi].smallest, files[m].smallest)
    ensures hi < m ==> !Before(files[m].smallest, files[hi].smallest)
    ensures files[m].smallest.user == files[hi - 1].largest.user ==>
              files[hi].smallest.user == files[hi - 1].largest.user
    ensures files[hi].smallest.user != files[hi - 1].largest.user ==>
              Less(files[hi - 1].largest.user, files[m].smallest.user)
  {
    FileBounds(files[hi], 0);
    if hi < m {
      InternalOrder(files[hi].smallest, files[hi].largest, files[m].smallest);
      var rank, unrank := OrderByRank();
      assert Before(files[hi - 1].largest, files[hi].smallest);
      assert unrank(rank(files[hi].smallest.user)) == files[hi].smallest.user;
      assert unrank(rank(files[hi - 1].largest.user)) == files[hi - 1].largest.user;
    }
  }

  /** On a run of an ordered level, AddBoundaryInputs extends the run to where no user key
      is split any more. */
  lemma {:induction false} ChainIsRun(files: seq<File>, hi: nat)
    requires GoodFiles(files) && Disjoint(files) && 0 < hi <= |files|
    ensures Chain(files, files[hi - 1].largest) == files[hi..RunEnd(files, hi)]
    decreases |files| - hi
  {
    hide Before, Disjoint, SmallestBoundary;
    BoundaryIsNext(files, hi, |files|);
    assert files[..|files|] == files;
    if hi < |files| && files[hi].smallest.user == files[hi - 1].largest.user {
      ChainIsRun(files, hi + 1);
    }
  }

  lemma RunRange(files: seq<File>, lo: nat, hi: nat)
    requires GoodFiles(files) && Disjoint(files) && lo < hi <= |files|
    ensures LargestKey(files[lo..hi]) == files[hi - 1].largest
    ensures SmallestKey(files[lo..hi]) == files[lo].smallest
  {
    hide Before, LargestKey, SmallestKey;
    var run := files[lo..hi];
    var i, j := KeyRangeReached(run);
    KeyRange(run, hi - 1 - lo);
    LargestIncrease(files, lo + i, hi - 1);
    InternalOrder(run[i].largest, files[hi - 1].largest, run[i].largest);
    KeyRange(run, 0);
    FileBounds(files[lo], 0);
    InternalOrder(files[lo].smallest, files[lo].largest, run[j].smallest);
    InternalOrder(run[j].smallest, files[lo].smallest, run[j].smallest);
  }

  /** After AddBoundaryInputs no file outside the run holds an older entry of a user key
      that the run holds. */
  lemma NoOlderOutsideRun(files: seq<File>, lo: nat, hi: nat, k: nat, a: nat, m: nat, b: nat)
    requires GoodFiles(files) && Disjoint(files)
    requires lo < hi <= |files| && RunEnd(files, hi) == hi
    requires lo <= k < hi && a < |files[k].entries|
    requires m < |files| && !(lo <= m < hi) && b < |files[m].entries|
    requires files[k].entries[a].key.user == files[m].entries[b].key.user
    ensures Newer(files[m].entries[b], files[k].entries[a])
  {
    hide Before, Disjoint, GoodFiles;
    if m < lo {
      EarlierFilesNewer(files, m, b, k, a);
    } else {
      NextStartsAfter(files, hi, m);
      LargestIncrease(files, k, hi - 1);
      AcrossRunEnd(files, hi, k, a, m, b);
    }
  }

  /** Beyond an unsplit end of a run the user keys are larger. */
  lemma AcrossRunEnd(files: seq<File>, hi: nat, k: nat, a: nat, m: nat, b: nat)
    requires GoodFiles(files) && Disjoint(files)
    requires 0 < hi <= |files| && RunEnd(files, hi) == hi
    requires k < hi <= m < |files| && a < |files[k].entries| && b < |files[m].entries|
    ensures Less(files[k].entries[a].key.user, files[m].entries[b].key.user)
    ensures files[k].entries[a].key.user != files[m].entries[b].key.user
  {
    hide Disjoint;
    FileBounds(files[k], a);
    FileBounds(files[m], b);
    LargestIncrease(files, k, hi - 1);
    NextStartsAfter(files, hi, m);
    var rank, unrank := OrderByRank();
  }
}
