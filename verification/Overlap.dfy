/** Version::GetOverlappingInputs (db/version_set.cc): the files of a level that meet a
    range of user keys.  Level-0 files may overlap each other, so there the range grows
    with every file taken until it is closed.
 */
module Overlapping {
  import opened Comparator
  import opened Dbformat
  import opened Options
  import opened Versions

  /** A range of user keys; an absent end is unbounded. */
  datatype Range = Range(lo: Option<Bytes>, hi: Option<Bytes>)

  predicate Meets(f: File, r: Range) {
    Overlaps(f, r.lo, r.hi)
  }

  predicate Within(f: File, r: Range) {
    && (r.lo.Some? ==> LessEq(r.lo.value, f.smallest.user))
    && (r.hi.Some? ==> LessEq(f.largest.user, r.hi.value))
  }

  predicate Covers(outer: Range, inner: Range) {
    && (outer.lo.Some? ==> inner.lo.Some? && LessEq(outer.lo.value, inner.lo.value))
    && (outer.hi.Some? ==> inner.hi.Some? && LessEq(inner.hi.value, outer.hi.value))
  }

  /** Every file that meets the range lies inside it. */
  predicate Closed(files: seq<File>, r: Range) {
    forall f :: f in files && Meets(f, r) ==> Within(f, r)
  }

  /** The least range that is closed and covers the requested one. */
  ghost predicate Closure(files: seq<File>, requested: Range, r: Range) {
    && Closed(files, r)
    && Covers(r, requested)
    && forall r' :: Closed(files, r') && Covers(r', requested) ==> Covers(r', r)
  }

  /** The files that meet the range, in their order. */
  function Selected(files: seq<File>, r: Range): (s: seq<File>)
    ensures forall f :: f in s <==> f in files && Meets(f, r)
  {
    if files == [] then []
    else
      var last := files[|files| - 1];
      assert files == files[..|files| - 1] + [last];
      Selected(files[..|files| - 1], r) + (if Meets(last, r) then [last] else [])
  }

  function UserRange(begin: Option<InternalKey>, end: Option<InternalKey>): Range {
    Range(if begin.Some? then Some(begin.value.user) else None,
          if end.Some? then Some(end.value.user) else None)
  }

  predicate StartsBefore(f: File, r: Range) {
    r.lo.Some? && Less(f.smallest.user, r.lo.value)
  }

  predicate EndsAfter(f: File, r: Range) {
    r.hi.Some? && Less(r.hi.value, f.largest.user)
  }

  /** How many times a file could still push an end of the range outwards. */
  ghost function Outside(files: seq<File>, r: Range): nat {
    if files == [] then 0
    else
      (if StartsBefore(files[0], r) then 1 else 0) + (if EndsAfter(files[0], r) then 1 else 0) + Outside(files[1..], r)
  }

  lemma {:induction false} OutsideShrinks(files: seq<File>, outer: Range, inner: Range, f: File)
    requires Covers(outer, inner) && (outer.lo.Some? <==> inner.lo.Some?) && (outer.hi.Some? <==> inner.hi.Some?)
    ensures Outside(files, outer) <= Outside(files, inner)
    ensures f in files && (if StartsBefore(f, inner) then !StartsBefore(f, outer)
                           else EndsAfter(f, inner) && !EndsAfter(f, outer)) ==>
              Outside(files, outer) < Outside(files, inner)
  {
    if files != [] {
      OutsideShrinks(files[1..], outer, inner, f);
      var g := files[0];
      if outer.lo.Some? {
        LessTransitive(g.smallest.user, outer.lo.value, inner.lo.value);
      }
      if outer.hi.Some? {
        LessTransitive(inner.hi.value, outer.hi.value, g.largest.user);
      }
      assert f in files ==> f == g || f in files[1..];
    }
  }

  /** A file that meets a range inside a closed one lies in the closed one. */
  lemma MeetsCovered(f: File, inner: Range, outer: Range)
    requires Meets(f, inner) && Covers(outer, inner)
    ensures Meets(f, outer)
  {
    if outer.lo.Some? {
      LessTransitive(outer.lo.value, inner.lo.value, f.largest.user);
    }
    if outer.hi.Some? {
      LessTransitive(f.smallest.user, inner.hi.value, outer.hi.value);
    }
  }

  /** The range covers the request and is inside every closed range that does. */
  ghost predicate Least(files: seq<File>, requested: Range, r: Range) {
    && Covers(r, requested)
    && (r.lo.Some? <==> requested.lo.Some?)
    && (r.hi.Some? <==> requested.hi.Some?)
    && forall r' :: Closed(files, r') && Covers(r', requested) ==> Covers(r', r)
  }

  ghost predicate ClosedUpTo(files: seq<File>, i: nat, r: Range)
    requires i <= |files|
  {
    forall j :: 0 <= j < i && Meets(files[j], r) ==> Within(files[j], r)
  }

  lemma LeastAtFirst(files: seq<File>, requested: Range)
    ensures Least(files, requested, requested)
  {
    if requested.lo.Some? { LessIsStrict(requested.lo.value, requested.lo.value); }
    if requested.hi.Some? { LessIsStrict(requested.hi.value, requested.hi.value); }
  }

  /** Taking a file into the range keeps it inside every closed range around the request. */
  lemma GrowStaysLeast(files: seq<File>, requested: Range, r: Range, f: File, grown: Range)
    requires f in files && Meets(f, r)
    requires if StartsBefore(f, r) then grown == r.(lo := Some(f.smallest.user))
             else EndsAfter(f, r) && grown == r.(hi := Some(f.largest.user))
    requires Least(files, requested, r)
    ensures Least(files, requested, grown)
    ensures Outside(files, grown) < Outside(files, r)
  {
    if r.lo.Some? {
      LessTransitive(grown.lo.value, r.lo.value, requested.lo.value);
      LessIsStrict(grown.lo.value, r.lo.value);
    }
    if r.hi.Some? {
      LessTransitive(requested.hi.value, r.hi.value, grown.hi.value);
      LessIsStrict(r.hi.value, grown.hi.value);
    }
    LessIsStrict(f.smallest.user, f.smallest.user);
    LessIsStrict(f.largest.user, f.largest.user);
    OutsideShrinks(files, grown, r, f);
    forall r' | Closed(files, r') && Covers(r', requested)
      ensures Covers(r', grown)
    {
      MeetsCovered(f, r, r');
      assert Within(f, r');
    }
  }

  lemma LeastAndClosed(files: seq<File>, requested: Range, r: Range)
    requires Least(files, requested, r) && ClosedUpTo(files, |files|, r)
    ensures Closure(files, requested, r)
  {
  }

  lemma SelectedStep(files: seq<File>, i: nat, r: Range)
    requires i < |files|
    ensures Selected(files[..i + 1], r) == Selected(files[..i], r) + (if Meets(files[i], r) then [files[i]] else [])
  {
    assert files[..i + 1][..i] == files[..i];
  }

  lemma SelectedNone(r: Range)
    ensures Selected([], r) == []
  {
  }

  /** GetOverlappingInputs, with the range its search ends with. */
  method GetOverlappingInputs(level: nat, files: seq<File>, begin: Option<InternalKey>, end: Option<InternalKey>)
    returns (inputs: seq<File>, r: Range)
    ensures inputs == Selected(files, r)
    ensures level > 0 ==> r == UserRange(begin, end)
    ensures level == 0 ==> Closure(files, UserRange(begin, end), r)
  {
    hide Less, Outside, Least, Selected, Closure;
    var range := UserRange(begin, end);
    inputs := [];
    var i := 0;
    LeastAtFirst(files, range);
    SelectedNone(range);
    while i < |files|
      invariant 0 <= i <= |files|
      invariant inputs == Selected(files[..i], range)
      invariant level > 0 ==> range == UserRange(begin, end)
      invariant Least(files, UserRange(begin, end), range)
      invariant level == 0 ==> ClosedUpTo(files, i, range)
      decreases Outside(files, range), |files| - i
    {
      var f := files[i];
      SelectedStep(files, i, range);
      i := i + 1;
      if range.lo.Some? && Less(f.largest.user, range.lo.value) {
      } else if range.hi.Some? && Less(range.hi.value, f.smallest.user) {
      } else {
        inputs := inputs + [f];
        if level == 0 {
          if range.lo.Some? && Less(f.smallest.user, range.lo.value) {
            GrowStaysLeast(files, UserRange(begin, end), range, f, range.(lo := Some(f.smallest.user)));
            range := range.(lo := Some(f.smallest.user));
            inputs := [];
            i := 0;
            SelectedNone(range);
          } else if range.hi.Some? && Less(range.hi.value, f.largest.user) {
            GrowStaysLeast(files, UserRange(begin, end), range, f, range.(hi := Some(f.largest.user)));
            range := range.(hi := Some(f.largest.user));
            inputs := [];
            i := 0;
            SelectedNone(range);
          }
        }
      }
    }
    assert files[..|files|] == files;
    r := range;
    if level == 0 {
      LeastAndClosed(files, UserRange(begin, end), r);
    }
  }
}
