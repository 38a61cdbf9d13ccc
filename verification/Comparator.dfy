/** Byte strings in the order of the default comparator (util/comparator.cc).

    `Less` is the order itself, stated without recursion: two strings agree up to a
    position at which the first one ends or has the smaller byte.  Everything else in
    this project that speaks of user keys compares them with `Less`.  Proofs about
    `Less` mostly go through `OrderByRank`, which embeds the strings into the reals so
    that the order laws become linear arithmetic.
 */
module Comparator {

  type Byte = x: int | 0 <= x < 256
  type Bytes = seq<Byte>

  predicate LessAt(a: Bytes, b: Bytes, i: nat) {
    i <= |a| && i < |b| && a[..i] == b[..i] && (i == |a| || a[i] < b[i])
  }

  /** a comes strictly before b */
  predicate Less(a: Bytes, b: Bytes) {
    exists i :: 0 <= i <= |a| && LessAt(a, b, i)
  }

  predicate LessEq(a: Bytes, b: Bytes) {
    !Less(b, a)
  }

  /** The string read as a fraction in base 257, with digit 0 kept for "ended". */
  ghost function Rank(s: Bytes): (r: real)
    ensures 0.0 <= r < 1.0
    ensures s != [] ==> r > 0.0
  {
    if s == [] then 0.0 else ((s[0] as int + 1) as real + Rank(s[1..])) / 257.0
  }

  lemma {:induction false} RankMonotone(a: Bytes, b: Bytes, i: nat)
    requires LessAt(a, b, i)
    ensures Rank(a) < Rank(b)
    decreases i
  {
    if i > 0 {
      assert a[0] == a[..i][0] == b[..i][0] == b[0];
      assert a[1..][..i - 1] == a[..i][1..] == b[..i][1..] == b[1..][..i - 1];
      assert LessAt(a[1..], b[1..], i - 1);
      RankMonotone(a[1..], b[1..], i - 1);
    } else if a != [] {
      assert (a[0] as int + 1) as real + 1.0 <= (b[0] as int + 1) as real;
    }
  }

  /** Distinct strings differ somewhere, so one of them is less than the other. */
  lemma {:induction false} Connected(a: Bytes, b: Bytes)
    requires a != b
    ensures Less(a, b) || Less(b, a)
  {
    var i := 0;
    while i < |a| && i < |b| && a[i] == b[i]
      invariant 0 <= i <= |a| && i <= |b|
      invariant a[..i] == b[..i]
    {
      i := i + 1;
    }
    assert LessAt(a, b, i) || LessAt(b, a, i);
  }

  lemma RankDecides(a: Bytes, b: Bytes)
    ensures Less(a, b) <==> Rank(a) < Rank(b)
    ensures a == b <==> Rank(a) == Rank(b)
  {
    if Less(a, b) {
      var i: nat :| i <= |a| && LessAt(a, b, i);
      RankMonotone(a, b, i);
    }
    if Less(b, a) {
      var i: nat :| i <= |b| && LessAt(b, a, i);
      RankMonotone(b, a, i);
    }
    if a != b {
      Connected(a, b);
    }
  }

  ghost function Unrank(x: real): Bytes {
    if exists k :: Rank(k) == x then
      var k :| Rank(k) == x;
      k
    else
      []
  }

  lemma UnrankRank(a: Bytes)
    ensures Unrank(Rank(a)) == a
  {
    RankDecides(a, Unrank(Rank(a)));
  }

  /** The order is total: it is the order of the reals under some injective ranking. */
  lemma OrderByRank() returns (rank: Bytes -> real, unrank: real -> Bytes)
    ensures forall a, b {:trigger Less(a, b)} :: Less(a, b) <==> rank(a) < rank(b)
    ensures forall a {:trigger rank(a)} :: unrank(rank(a)) == a
  {
    rank := Rank;
    unrank := Unrank;
    forall a, b
      ensures Less(a, b) <==> rank(a) < rank(b)
    {
      RankDecides(a, b);
    }
    forall a
      ensures unrank(rank(a)) == a
    {
      UnrankRank(a);
    }
  }

  lemma LessIsStrict(a: Bytes, b: Bytes)
    ensures !(Less(a, b) && Less(b, a))
    ensures Less(a, b) ==> a != b
    ensures Less(b, a) ==> a != b
  {
    RankDecides(a, b);
    RankDecides(b, a);
  }

  /** Slice::compare: the first differing byte decides, then the lengths. */
  method Compare(a: Bytes, b: Bytes) returns (r: int)
    ensures r < 0 <==> Less(a, b)
    ensures r > 0 <==> Less(b, a)
    ensures r == 0 <==> a == b
  {
    var minLen := if |a| < |b| then |a| else |b|;
    var i := 0;
    while i < minLen && a[i] == b[i]
      invariant 0 <= i <= minLen
      invariant a[..i] == b[..i]
    {
      i := i + 1;
    }
    if i < minLen {
      r := a[i] as int - b[i] as int;
    } else {
      r := |a| - |b|;
    }
    assert r < 0 ==> LessAt(a, b, i);
    assert r > 0 ==> LessAt(b, a, i);
    assert r == 0 ==> a == b;
    LessIsStrict(a, b);
  }

  /** BytewiseComparatorImpl::FindShortestSeparator.  The result is `start` itself, or a
      string no longer than `start` that lies strictly between `start` and `limit`: where the two
      first differ, and by more than one, the byte of `start` plus one ends it. */
  method FindShortestSeparator(start: Bytes, limit: Bytes) returns (s: Bytes)
    ensures s == start || (|s| <= |start| && Less(start, s) && Less(s, limit))
    ensures s == start <==>
            forall d :: 0 <= d < |start| && d < |limit| && start[..d] == limit[..d] ==>
              limit[d] as int <= start[d] as int + 1
    ensures forall d :: 0 <= d < |start| && d < |limit| && start[..d] == limit[..d]
                        && start[d] as int + 1 < limit[d] as int ==>
              s == start[..d] + [start[d] + 1]
  {
    s := start;
    var minLength := if |start| < |limit| then |start| else |limit|;
    var diffIndex := 0;
    while diffIndex < minLength && start[diffIndex] == limit[diffIndex]
      invariant 0 <= diffIndex <= minLength
      invariant start[..diffIndex] == limit[..diffIndex]
    {
      diffIndex := diffIndex + 1;
    }
    assert forall d :: diffIndex < d < |start| && d < |limit| ==> start[..d][diffIndex] != limit[..d][diffIndex];
    assert forall d :: 0 <= d < diffIndex ==> start[..diffIndex][d] == limit[..diffIndex][d];
    if diffIndex < minLength {
      var diffByte := start[diffIndex];
      if diffByte < 0xff && diffByte + 1 < limit[diffIndex] {
        s := start[..diffIndex] + [diffByte + 1];
        assert LessAt(start, s, diffIndex);
        assert LessAt(s, limit, diffIndex);
        var rank, unrank := OrderByRank();
      }
    }
  }

  /** BytewiseComparatorImpl::FindShortSuccessor.  Only a run of 0xff bytes is left alone. */
  method FindShortSuccessor(key: Bytes) returns (s: Bytes)
    ensures s == key || (|s| <= |key| && Less(key, s))
    ensures s == key <==> forall i :: 0 <= i < |key| ==> key[i] == 0xff
    ensures forall i :: 0 <= i < |key| && key[i] != 0xff && (forall j :: 0 <= j < i ==> key[j] == 0xff) ==>
              s == key[..i] + [key[i] + 1]
  {
    s := key;
    for i := 0 to |key|
      invariant s == key
      invariant forall j :: 0 <= j < i ==> key[j] == 0xff
    {
      if key[i] != 0xff {
        s := key[..i] + [key[i] + 1];
        assert LessAt(key, s, i);
        RankDecides(key, s);
        return;
      }
    }
  }
}
