/** The two circular lists of the block cache (util/cache.cc), threaded through the next
    and prev fields of the entries.
 */
module CacheLists {
  /** The numbers of the two dummy heads. */
  const LRU: nat := 0
  const IN_USE: nat := 1

  predicate Distinct(s: seq<nat>) {
    forall i, j :: 0 <= i < j < |s| ==> s[i] != s[j]
  }

  /** Place i of the circle: the head at both ends. */
  function Spot(head: nat, s: seq<nat>, i: int): nat {
    if 0 <= i < |s| then s[i] else head
  }

  /** Starting from head, next visits exactly s and comes back; prev is its inverse. */
  predicate Ring(next: seq<nat>, prev: seq<nat>, head: nat, s: seq<nat>) {
    && |next| == |prev| && head < |next| && head !in s && Distinct(s)
    && (forall i :: 0 <= i < |s| ==> s[i] < |next|)
    && forall i :: -1 <= i < |s| ==> LinkedAt(next, prev, head, s, i)
  }

  predicate LinkedAt(next: seq<nat>, prev: seq<nat>, head: nat, s: seq<nat>, i: int) {
    var a, b := Spot(head, s, i), Spot(head, s, i + 1);
    a < |next| && b < |prev| && next[a] == b && prev[b] == a
  }

  function Without(s: seq<nat>, k: nat): (r: seq<nat>)
    requires k < |s|
    ensures |r| == |s| - 1
    ensures forall i :: 0 <= i < |r| ==> r[i] == if i < k then s[i] else s[i + 1]
  {
    s[..k] + s[k + 1..]
  }

  /** s with the first e taken out. */
  function Drop(s: seq<nat>, e: nat): seq<nat> {
    if s == [] then [] else if s[0] == e then s[1..] else [s[0]] + Drop(s[1..], e)
  }

  lemma {:induction false} DropAt(s: seq<nat>, k: nat)
    requires k < |s| && forall i :: 0 <= i < k ==> s[i] != s[k]
    ensures Drop(s, s[k]) == Without(s, k)
  {
    if k > 0 {
      DropAt(s[1..], k - 1);
      assert s[1..][k - 1] == s[k];
      assert Without(s, k) == [s[0]] + Without(s[1..], k - 1);
    }
  }

  lemma {:induction false} DropAbsent(s: seq<nat>, e: nat)
    requires e !in s
    ensures Drop(s, e) == s
  {
    if s != [] {
      DropAbsent(s[1..], e);
    }
  }

  lemma WithoutMembers(s: seq<nat>, k: nat, h: nat)
    requires k < |s| && Distinct(s)
    ensures h in Without(s, k) <==> h in s && h != s[k]
    ensures Distinct(Without(s, k))
  {
    if h in s && h != s[k] {
      var i :| 0 <= i < |s| && s[i] == h;
      assert Without(s, k)[if i < k then i else i - 1] == h;
    }
  }

  lemma DropMembers(s: seq<nat>, e: nat, h: nat)
    requires Distinct(s)
    ensures h in Drop(s, e) <==> h in s && h != e
    ensures Distinct(Drop(s, e))
  {
    hide Without, Drop;
    if e !in s {
      DropAbsent(s, e);
    } else {
      var k :| 0 <= k < |s| && s[k] == e;
      DropAt(s, k);
      WithoutMembers(s, k, h);
    }
  }

  /** LRU_Remove: the two neighbours are joined. */
  lemma RingDrops(next: seq<nat>, prev: seq<nat>, head: nat, s: seq<nat>, k: nat)
    requires Ring(next, prev, head, s) && k < |s|
    ensures s[k] < |next| && prev[s[k]] < |next| && next[s[k]] < |prev| && prev[s[k]] != s[k]
    ensures Ring(next[prev[s[k]] := next[s[k]]], prev[next[s[k]] := prev[s[k]]], head, Without(s, k))
  {
    var e := s[k];
    assert LinkedAt(next, prev, head, s, k - 1) && LinkedAt(next, prev, head, s, k);
    var next', prev', r := next[prev[e] := next[e]], prev[next[e] := prev[e]], Without(s, k);
    forall i | -1 <= i < |r|
      ensures LinkedAt(next', prev', head, r, i)
    {
      assert LinkedAt(next, prev, head, s, if i < k then i else i + 1);
    }
  }

  /** LRU_Append: e goes in just before the head. */
  lemma RingGrows(next: seq<nat>, prev: seq<nat>, head: nat, s: seq<nat>, e: nat)
    requires Ring(next, prev, head, s) && e < |next| && e != head && e !in s
    ensures prev[head] < |next| && prev[head] != e
    ensures Ring(next[e := head][prev[head] := e], prev[e := prev[head]][head := e], head, s + [e])
  {
    assert LinkedAt(next, prev, head, s, |s| - 1);
    var next', prev', r := next[e := head][prev[head] := e], prev[e := prev[head]][head := e], s + [e];
    forall i | -1 <= i < |r|
      ensures LinkedAt(next', prev', head, r, i)
    {
      if i < |s| - 1 {
        assert LinkedAt(next, prev, head, s, i);
      }
    }
  }

  /** A list is not concerned by stores to entries that are not in it. */
  lemma RingKeeps(next: seq<nat>, prev: seq<nat>, next': seq<nat>, prev': seq<nat>, head: nat, s: seq<nat>)
    requires Ring(next, prev, head, s) && |next'| == |prev'| >= |next|
    requires next'[head] == next[head] && prev'[head] == prev[head]
    requires forall i :: 0 <= i < |s| ==> next'[s[i]] == next[s[i]] && prev'[s[i]] == prev[s[i]]
    ensures Ring(next', prev', head, s)
  {
    forall i | -1 <= i < |s|
      ensures LinkedAt(next', prev', head, s, i)
    {
      assert LinkedAt(next, prev, head, s, i);
    }
  }

  /** The oldest entry is the one after the head, unless the list is empty. */
  lemma RingFront(next: seq<nat>, prev: seq<nat>, head: nat, s: seq<nat>)
    requires Ring(next, prev, head, s)
    ensures head < |next| && next[head] == if s == [] then head else s[0]
    ensures s != [] ==> s[0] != head
  {
    assert LinkedAt(next, prev, head, s, -1);
  }
}
