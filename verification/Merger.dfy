/** MergingIterator (table/merger.cc): a k-way merge of child iterators that moves both
    ways and can turn round in the middle of a scan.
 */
module Mergers {
  import opened Comparator
  import opened Dbformat
  import opened Cursors
  import opened Options

  type Runs = seq<seq<Entry>>

  /** Entry `index` of child `child`. */
  datatype Slot = Slot(child: nat, index: nat)

  predicate Has(runs: Runs, s: Slot) {
    s.child < |runs| && s.index < |runs[s.child]|
  }

  function At(runs: Runs, s: Slot): Entry
    requires Has(runs, s)
  {
    runs[s.child][s.index]
  }

  /** The order in which slots come out: by key, and among equal keys by child. */
  predicate Ahead(runs: Runs, a: Slot, b: Slot)
    requires Has(runs, a) && Has(runs, b)
  {
    Before(At(runs, a).key, At(runs, b).key) || (At(runs, a).key == At(runs, b).key && a.child < b.child)
  }

  ghost predicate AllSorted(runs: Runs) {
    forall c :: 0 <= c < |runs| ==> Sorted(runs[c])
  }

  /** m lists every slot of the children once, in order. */
  ghost predicate IsMerge(runs: Runs, m: seq<Slot>) {
    && (forall q :: 0 <= q < |m| ==> Has(runs, m[q]))
    && (forall s :: Has(runs, s) ==> s in m)
    && (forall p, q :: 0 <= p < q < |m| ==> Ahead(runs, m[p], m[q]))
  }

  /** The children are positioned so that exactly the first n slots lie behind them:
      ends[c] entries of child c. */
  ghost predicate Cut(runs: Runs, m: seq<Slot>, ends: seq<nat>, n: nat) {
    && n <= |m| && |ends| == |runs|
    && (forall c :: 0 <= c < |runs| ==> ends[c] <= |runs[c]|)
    && forall q :: 0 <= q < |m| ==> Has(runs, m[q]) && (q < n <==> m[q].index < ends[m[q].child])
  }

  ghost predicate DistinctKeys(runs: Runs) {
    forall a, b :: Has(runs, a) && Has(runs, b) && a != b ==> At(runs, a).key != At(runs, b).key
  }

  // ---- the merged sequence exists ----

  ghost predicate MergesUpTo(runs: Runs, m: seq<Slot>, child: nat, index: nat) {
    && (forall q :: 0 <= q < |m| ==> Has(runs, m[q]))
    && (forall s :: Has(runs, s) ==> (s in m <==> s.child < child || (s.child == child && s.index < index)))
    && (forall p, q :: 0 <= p < q < |m| ==> Ahead(runs, m[p], m[q]))
  }

  lemma AheadLaws(runs: Runs)
    requires AllSorted(runs)
    ensures forall a, b, c {:trigger Ahead(runs, a, b), Ahead(runs, b, c)} ::
              Has(runs, a) && Has(runs, b) && Has(runs, c) && Ahead(runs, a, b) && Ahead(runs, b, c) ==>
                Ahead(runs, a, c)
    ensures forall a, b {:trigger Ahead(runs, a, b)} :: Has(runs, a) && Has(runs, b) ==>
              !(Ahead(runs, a, b) && Ahead(runs, b, a))
    ensures forall a, b {:trigger Ahead(runs, a, b)} :: Has(runs, a) && Has(runs, b) ==>
              Ahead(runs, a, b) || a == b || Ahead(runs, b, a)
  {
    hide Before;
    OrderLaws();
    forall a, b | Has(runs, a) && Has(runs, b) && a.child == b.child && a.index < b.index
      ensures Before(At(runs, a).key, At(runs, b).key)
    {
      assert Sorted(runs[a.child]);
    }
  }

  /** Where a new slot belongs. */
  ghost function InsertAt(runs: Runs, m: seq<Slot>, s: Slot): (p: nat)
    requires Has(runs, s) && forall q :: 0 <= q < |m| ==> Has(runs, m[q])
    ensures p <= |m|
    ensures forall q :: 0 <= q < p ==> Ahead(runs, m[q], s)
    ensures p < |m| ==> !Ahead(runs, m[p], s)
  {
    if m == [] || !Ahead(runs, m[0], s) then 0 else 1 + InsertAt(runs, m[1..], s)
  }

  lemma InsertKeeps(runs: Runs, m: seq<Slot>, s: Slot) returns (m': seq<Slot>)
    requires AllSorted(runs) && MergesUpTo(runs, m, s.child, s.index) && Has(runs, s)
    ensures MergesUpTo(runs, m', s.child, s.index + 1)
  {
    hide Before, Ahead, AllSorted;
    var p := InsertAt(runs, m, s);
    m' := m[..p] + [s] + m[p..];
    forall q | p <= q < |m|
      ensures Ahead(runs, s, m[q])
    {
      AheadOfRest(runs, m, s, p, q);
    }
    forall x
      ensures x in m' <==> x in m || x == s
    {
      InSplice(m, p, s, x);
    }
    SpliceOrdered(runs, m, s, p, m');
  }

  lemma AheadOfRest(runs: Runs, m: seq<Slot>, s: Slot, p: nat, q: nat)
    requires AllSorted(runs) && MergesUpTo(runs, m, s.child, s.index) && Has(runs, s)
    requires p <= q < |m| && !Ahead(runs, m[p], s)
    ensures Ahead(runs, s, m[q])
  {
    hide Before, Ahead, AllSorted;
    assert m[q] in m && m[p] in m && s !in m;
    AheadOrder(runs, m[p], s, m[q]);
    AheadOrder(runs, s, m[p], m[q]);
  }

  lemma SpliceOrdered(runs: Runs, m: seq<Slot>, s: Slot, p: nat, m': seq<Slot>)
    requires p <= |m| && m' == m[..p] + [s] + m[p..]
    requires Has(runs, s) && forall q :: 0 <= q < |m| ==> Has(runs, m[q])
    requires forall a, b :: 0 <= a < b < |m| ==> Ahead(runs, m[a], m[b])
    requires forall q :: 0 <= q < p ==> Ahead(runs, m[q], s)
    requires forall q :: p <= q < |m| ==> Ahead(runs, s, m[q])
    ensures forall q :: 0 <= q < |m'| ==> Has(runs, m'[q])
    ensures forall a, b :: 0 <= a < b < |m'| ==> Ahead(runs, m'[a], m'[b])
  {
    hide Ahead;
    assert forall q :: 0 <= q < |m'| ==> m'[q] == if q < p then m[q] else if q == p then s else m[q - 1];
  }

  lemma AheadOrder(runs: Runs, a: Slot, b: Slot, c: Slot)
    requires AllSorted(runs) && Has(runs, a) && Has(runs, b) && Has(runs, c)
    ensures Ahead(runs, a, b) && Ahead(runs, b, c) ==> Ahead(runs, a, c)
    ensures Ahead(runs, a, b) || a == b || Ahead(runs, b, a)
  {
    hide Ahead;
    AheadLaws(runs);
    assert Ahead(runs, a, b) || a == b || Ahead(runs, b, a);
  }

  lemma InSplice<T>(m: seq<T>, p: nat, s: T, x: T)
    requires p <= |m|
    ensures x in m[..p] + [s] + m[p..] <==> x in m || x == s
  {
    assert m == m[..p] + m[p..];
  }

  lemma {:induction false} MergeExists(runs: Runs, child: nat, index: nat) returns (m: seq<Slot>)
    requires AllSorted(runs) && child <= |runs|
    requires if child == |runs| then index == 0 else index <= |runs[child]|
    ensures MergesUpTo(runs, m, child, index)
    decreases child, index
  {
    if index > 0 {
      var before := MergeExists(runs, child, index - 1);
      m := InsertKeeps(runs, before, Slot(child, index - 1));
    } else if child > 0 {
      m := MergeExists(runs, child - 1, |runs[child - 1]|);
    } else {
      m := [];
    }
  }

  // ---- what cuts are ----

  /** The first slot of the cut's rest is where its child stands. */
  lemma CutFront(runs: Runs, m: seq<Slot>, ends: seq<nat>, n: nat)
    requires AllSorted(runs) && IsMerge(runs, m) && Cut(runs, m, ends, n) && n < |m|
    ensures m[n].index == ends[m[n].child]
  {
    hide Before, Ahead;
    AheadLaws(runs);
    var s := m[n];
    if s.index > ends[s.child] {
      var t := Slot(s.child, ends[s.child]);
      assert Has(runs, t);
      var q :| 0 <= q < |m| && m[q] == t;
      SameRun(runs, t, s);
    }
  }

  /** The last slot of the cut is the one its child has just passed. */
  lemma CutBack(runs: Runs, m: seq<Slot>, ends: seq<nat>, n: nat)
    requires AllSorted(runs) && IsMerge(runs, m) && Cut(runs, m, ends, n) && n > 0
    ensures m[n - 1].index + 1 == ends[m[n - 1].child]
  {
    hide Before, Ahead;
    AheadLaws(runs);
    var s := m[n - 1];
    if s.index + 1 < ends[s.child] {
      var t := Slot(s.child, ends[s.child] - 1);
      assert Has(runs, t);
      var q :| 0 <= q < |m| && m[q] == t;
      SameRun(runs, s, t);
    }
  }

  lemma SameRun(runs: Runs, a: Slot, b: Slot)
    requires AllSorted(runs) && Has(runs, a) && Has(runs, b) && a.child == b.child && a.index < b.index
    ensures Ahead(runs, a, b)
  {
    assert Sorted(runs[a.child]);
  }

  /** The child to take next going forward: the first with the smallest key. */
  lemma FrontIsSmallest(runs: Runs, m: seq<Slot>, ends: seq<nat>, n: nat, c: nat)
    requires AllSorted(runs) && IsMerge(runs, m) && Cut(runs, m, ends, n)
    requires c < |runs| && ends[c] < |runs[c]|
    requires forall d :: 0 <= d < |runs| && d != c && ends[d] < |runs[d]| ==>
               Ahead(runs, Slot(c, ends[c]), Slot(d, ends[d]))
    ensures n < |m| && m[n] == Slot(c, ends[c])
  {
    hide Before, Ahead;
    AheadLaws(runs);
    var s := Slot(c, ends[c]);
    assert Has(runs, s);
    var q :| 0 <= q < |m| && m[q] == s;
    CutFront(runs, m, ends, n);
  }

  lemma BackIsLargest(runs: Runs, m: seq<Slot>, ends: seq<nat>, n: nat, c: nat)
    requires AllSorted(runs) && IsMerge(runs, m) && Cut(runs, m, ends, n)
    requires c < |runs| && ends[c] > 0
    requires forall d :: 0 <= d < |runs| && d != c && ends[d] > 0 ==>
               Ahead(runs, Slot(d, ends[d] - 1), Slot(c, ends[c] - 1))
    ensures n > 0 && m[n - 1] == Slot(c, ends[c] - 1)
  {
    hide Before, Ahead;
    AheadLaws(runs);
    var s := Slot(c, ends[c] - 1);
    assert Has(runs, s);
    var q :| 0 <= q < |m| && m[q] == s;
    CutBack(runs, m, ends, n);
  }

  lemma NothingAhead(runs: Runs, m: seq<Slot>, ends: seq<nat>, n: nat)
    requires IsMerge(runs, m) && Cut(runs, m, ends, n)
    requires forall d :: 0 <= d < |runs| ==> ends[d] == |runs[d]|
    ensures n == |m|
  {
    assert n < |m| ==> Has(runs, m[n]);
  }

  lemma NothingBehind(runs: Runs, m: seq<Slot>, ends: seq<nat>, n: nat)
    requires IsMerge(runs, m) && Cut(runs, m, ends, n)
    requires forall d :: 0 <= d < |runs| ==> ends[d] == 0
    ensures n == 0
  {
    FirstPassed(runs, m, ends, n);
  }

  lemma FirstPassed(runs: Runs, m: seq<Slot>, ends: seq<nat>, n: nat)
    requires Cut(runs, m, ends, n)
    ensures n > 0 ==> ends[m[0].child] > 0
  {
  }

  /** Among the first i children, cur is the first of those with the smallest next key. */
  ghost predicate Smallest(runs: Runs, ends: seq<nat>, cur: Option<nat>, i: nat)
    requires |ends| == |runs|
  {
    && (cur.Some? ==> cur.value < i <= |runs| && ends[cur.value] < |runs[cur.value]|)
    && forall d :: 0 <= d < i <= |runs| && ends[d] < |runs[d]| ==>
         cur.Some? && (d == cur.value || Ahead(runs, Slot(cur.value, ends[cur.value]), Slot(d, ends[d])))
  }

  /** Among the children from i on, cur is the last of those with the largest last key. */
  ghost predicate Largest(runs: Runs, ends: seq<nat>, cur: Option<nat>, i: nat)
    requires |ends| == |runs| && forall c :: 0 <= c < |runs| ==> ends[c] <= |runs[c]|
  {
    && (cur.Some? ==> i <= cur.value < |runs| && ends[cur.value] > 0)
    && forall d :: i <= d < |runs| && ends[d] > 0 ==>
         cur.Some? && (d == cur.value || Ahead(runs, Slot(d, ends[d] - 1), Slot(cur.value, ends[cur.value] - 1)))
  }

  lemma SmallestStep(runs: Runs, ends: seq<nat>, cur: Option<nat>, i: nat)
    requires AllSorted(runs) && |ends| == |runs| && Smallest(runs, ends, cur, i) && i < |runs| && ends[i] <= |runs[i]|
    ensures ends[i] == |runs[i]| ==> Smallest(runs, ends, cur, i + 1)
    ensures ends[i] < |runs[i]| && cur.None? ==> Smallest(runs, ends, Some(i), i + 1)
    ensures ends[i] < |runs[i]| && cur.Some? ==>
              if Before(runs[i][ends[i]].key, runs[cur.value][ends[cur.value]].key)
              then Smallest(runs, ends, Some(i), i + 1) else Smallest(runs, ends, cur, i + 1)
  {
    hide Before, AllSorted;
    AheadLaws(runs);
    if ends[i] < |runs[i]| && cur.Some? {
      var a, b := Slot(i, ends[i]), Slot(cur.value, ends[cur.value]);
      TieBreak(runs, a, b);
      assert Has(runs, a) && Has(runs, b);
      assert Ahead(runs, a, b) || Ahead(runs, b, a);
    }
  }

  lemma LargestStep(runs: Runs, ends: seq<nat>, cur: Option<nat>, i: nat)
    requires AllSorted(runs) && |ends| == |runs| && forall c :: 0 <= c < |runs| ==> ends[c] <= |runs[c]|
    requires i < |runs| && Largest(runs, ends, cur, i + 1)
    ensures ends[i] == 0 ==> Largest(runs, ends, cur, i)
    ensures ends[i] > 0 && cur.None? ==> Largest(runs, ends, Some(i), i)
    ensures ends[i] > 0 && cur.Some? ==>
              if Before(runs[cur.value][ends[cur.value] - 1].key, runs[i][ends[i] - 1].key)
              then Largest(runs, ends, Some(i), i) else Largest(runs, ends, cur, i)
  {
    hide Before, AllSorted;
    AheadLaws(runs);
    if ends[i] > 0 && cur.Some? {
      var a, b := Slot(i, ends[i] - 1), Slot(cur.value, ends[cur.value] - 1);
      TieBreak(runs, b, a);
      assert Has(runs, a) && Has(runs, b);
      assert Ahead(runs, a, b) || Ahead(runs, b, a);
    }
  }

  lemma TieBreak(runs: Runs, a: Slot, b: Slot)
    requires Has(runs, a) && Has(runs, b) && b.child < a.child
    ensures Ahead(runs, a, b) <==> Before(At(runs, a).key, At(runs, b).key)
    ensures Ahead(runs, b, a) <==> !Before(At(runs, a).key, At(runs, b).key)
  {
    InternalOrder(At(runs, a).key, At(runs, b).key, At(runs, a).key);
  }

  /** Every child moved past the keys before `key`, or up to and past it too. */
  lemma CutByKey(runs: Runs, m: seq<Slot>, ends: seq<nat>, key: InternalKey, past: bool) returns (n: nat)
    requires AllSorted(runs) && IsMerge(runs, m)
    requires |ends| == |runs| && forall c :: 0 <= c < |runs| ==> ends[c] <= |runs[c]|
    requires forall s :: Has(runs, s) ==>
               (s.index < ends[s.child] <==> Before(At(runs, s).key, key) || (past && At(runs, s).key == key))
    ensures Cut(runs, m, ends, n)
    ensures forall q :: 0 <= q < |m| ==>
              (q < n <==> Before(At(runs, m[q]).key, key) || (past && At(runs, m[q]).key == key))
  {
    hide Before;
    OrderLaws();
    n := 0;
    while n < |m| && (Before(At(runs, m[n]).key, key) || (past && At(runs, m[n]).key == key))
      invariant n <= |m|
      invariant forall q :: 0 <= q < n ==> Before(At(runs, m[q]).key, key) || (past && At(runs, m[q]).key == key)
    {
      n := n + 1;
    }
    forall q | n < q < |m|
      ensures !(Before(At(runs, m[q]).key, key) || (past && At(runs, m[q]).key == key))
    {
      assert Ahead(runs, m[n], m[q]);
    }
  }

  lemma CutAdvances(runs: Runs, m: seq<Slot>, ends: seq<nat>, n: nat)
    requires AllSorted(runs) && IsMerge(runs, m) && Cut(runs, m, ends, n) && n < |m|
    ensures Cut(runs, m, ends[m[n].child := ends[m[n].child] + 1], n + 1)
  {
    hide Before, Ahead;
    AheadLaws(runs);
    CutFront(runs, m, ends, n);
  }

  lemma CutRetreats(runs: Runs, m: seq<Slot>, ends: seq<nat>, n: nat)
    requires AllSorted(runs) && IsMerge(runs, m) && Cut(runs, m, ends, n) && n > 0
    ensures ends[m[n - 1].child] > 0
    ensures Cut(runs, m, ends[m[n - 1].child := ends[m[n - 1].child] - 1], n - 1)
  {
    hide Before, Ahead;
    AheadLaws(runs);
    CutBack(runs, m, ends, n);
  }

  /** How many entries of a sorted run come before a key, or before and at it. */
  lemma RunCut(run: seq<Entry>, key: InternalKey)
    requires Sorted(run)
    ensures var p := LowerBound(run, key);
            && (forall i :: 0 <= i < |run| ==> (i < p <==> Before(run[i].key, key)))
            && (forall i :: 0 <= i < |run| ==> (run[i].key == key <==> i == p && run[p].key == key))
  {
    hide Before;
    OrderLaws();
    var p := LowerBound(run, key);
    forall i | p < i < |run|
      ensures Before(key, run[i].key)
    {
      assert Before(run[p].key, run[i].key);
    }
  }

  lemma CutBounds(runs: Runs, m: seq<Slot>, ends: seq<nat>, n: nat)
    requires Cut(runs, m, ends, n)
    ensures n <= |m| && |ends| == |runs| && forall c :: 0 <= c < |runs| ==> ends[c] <= |runs[c]|
  {
  }

  lemma NoneYet(runs: Runs, ends: seq<nat>)
    requires |ends| == |runs| && forall c :: 0 <= c < |runs| ==> ends[c] <= |runs[c]|
    ensures Smallest(runs, ends, None, 0) && Largest(runs, ends, None, |runs|)
  {
  }

  lemma SmallestIsValid(runs: Runs, ends: seq<nat>, cur: Option<nat>, i: nat)
    requires |ends| == |runs| && Smallest(runs, ends, cur, i) && cur.Some?
    ensures cur.value < |runs| && ends[cur.value] < |runs[cur.value]|
  {
  }

  lemma LargestIsValid(runs: Runs, ends: seq<nat>, cur: Option<nat>, i: nat)
    requires |ends| == |runs| && forall c :: 0 <= c < |runs| ==> ends[c] <= |runs[c]|
    requires Largest(runs, ends, cur, i) && cur.Some?
    ensures cur.value < |runs| && ends[cur.value] > 0
  {
  }

  lemma FrontFound(runs: Runs, m: seq<Slot>, ends: seq<nat>, n: nat, cur: Option<nat>)
    requires AllSorted(runs) && IsMerge(runs, m) && Cut(runs, m, ends, n) && Smallest(runs, ends, cur, |runs|)
    ensures n <= |m| && cur == if n < |m| then Some(m[n].child) else None
  {
    hide Ahead, IsMerge, AllSorted;
    if cur.Some? {
      FrontIsSmallest(runs, m, ends, n, cur.value);
    } else {
      NothingAhead(runs, m, ends, n);
    }
  }

  lemma BackFound(runs: Runs, m: seq<Slot>, ends: seq<nat>, n: nat, cur: Option<nat>)
    requires AllSorted(runs) && IsMerge(runs, m) && Cut(runs, m, ends, n) && Largest(runs, ends, cur, 0)
    ensures n <= |m| && cur == if n > 0 then Some(m[n - 1].child) else None
  {
    hide Ahead, IsMerge, AllSorted;
    if cur.Some? {
      BackIsLargest(runs, m, ends, n, cur.value);
    } else {
      NothingBehind(runs, m, ends, n);
    }
  }

  lemma Antisymmetric(a: InternalKey, b: InternalKey)
    ensures Before(b, a) ==> !Before(a, b)
  {
    InternalOrder(a, b, a);
  }

  datatype Direction = Forward | Reverse

  /** The position one step back; stepping back from the front leaves the cursor not valid. */
  function StepBack(n: nat, at: nat): nat {
    if at == 0 then n else at - 1
  }

  class MergingIterator {
    const children: seq<Cursor>
    var current: Option<nat>
    var direction: Direction

    ghost const merged: seq<Slot>
    ghost var at: nat  // the position in the merged sequence; its length when not valid

    ghost function Runs(): Runs {
      seq(|children|, c requires 0 <= c < |children| => children[c].entries)
    }

    /** How many entries of each child lie before the one it stands at, or up to it. */
    ghost function Ends(back: bool): (ends: seq<nat>)
      reads children
      ensures |ends| == |children|
    {
      seq(|children|, c requires 0 <= c < |children| reads children => EndOf(children[c], back))
    }

    static ghost function EndOf(c: Cursor, back: bool): nat
      reads c
    {
      if back then (if c.Valid() then c.pos + 1 else 0) else if c.Valid() then c.pos else |c.entries|
    }

    ghost predicate Shape() {
      && (forall c, d :: 0 <= c < d < |children| ==> children[c] != children[d])
      && AllSorted(Runs()) && IsMerge(Runs(), merged)
    }

    /** The entries of all children in merged order. */
    ghost function All(): (es: seq<Entry>)
      requires Shape()
      ensures |es| == |merged|
    {
      Union(Runs(), merged)
    }

    ghost predicate Inv()
      reads this, children
    {
      && Shape()
      && at <= |merged|
      && current == (if at < |merged| then Some(merged[at].child) else None)
      && (at < |merged| ==> Cut(Runs(), merged, Ends(direction == Reverse), if direction == Forward then at
                                else at + 1))
    }

    constructor (children: seq<Cursor>)
      requires forall c, d :: 0 <= c < d < |children| ==> children[c] != children[d]
      requires forall c :: 0 <= c < |children| ==> Sorted(children[c].entries)
      ensures Inv() && this.children == children && current == None
    {
      this.children := children;
      current := None;
      direction := Forward;
      ghost var runs := seq(|children|, c requires 0 <= c < |children| => children[c].entries);
      ghost var m := MergeExists(runs, |runs|, 0);
      merged := m;
      at := |m|;
      new;
      assert Runs() == runs;
    }

    predicate Valid()
      reads this
    {
      current.Some?
    }

    function Current(): (e: Entry)
      requires Inv() && Valid()
      reads this, children
      ensures e == All()[at]
    {
      CurrentIsHere();
      children[current.value].Current()
    }

    lemma CurrentIsHere()
      requires Inv() && Valid()
      ensures at < |merged| && Has(Runs(), merged[at])
      ensures current.value < |children| && children[current.value].Valid()
      ensures children[current.value].pos == merged[at].index
      ensures children[current.value].Current() == At(Runs(), merged[at])
    {
      hide Before, Sorted, Ahead;
      if direction == Forward {
        CutFront(Runs(), merged, Ends(false), at);
      } else {
        CutBack(Runs(), merged, Ends(true), at + 1);
      }
    }

    method FindSmallest(ghost n: nat)
      requires Shape() && direction == Forward && Cut(Runs(), merged, Ends(false), n)
      modifies this`current, this`at
      ensures Inv() && at == n
    {
      hide Before, Ahead, IsMerge, Cut, AllSorted, Smallest;
      ghost var runs, ends := Runs(), Ends(false);
      CutBounds(runs, merged, ends, n);
      current := None;
      NoneYet(runs, ends);
      for i := 0 to |children|
        invariant Smallest(runs, ends, current, i)
      {
        SmallestStep(runs, ends, current, i);
        var child := children[i];
        if child.Valid() {
          if current.None? {
            current := Some(i);
          } else {
            SmallestIsValid(runs, ends, current, i);
            var r := CompareInternal(child.Current().key, children[current.value].Current().key);
            if r < 0 {
              current := Some(i);
            }
          }
        }
      }
      at := n;
      FrontFound(runs, merged, ends, n, current);
    }

    method FindLargest(ghost n: nat)
      requires Shape() && direction == Reverse && Cut(Runs(), merged, Ends(true), n)
      modifies this`current, this`at
      ensures Inv() && at == StepBack(|merged|, n)
    {
      hide Before, Ahead, IsMerge, Cut, AllSorted, Largest;
      ghost var runs, ends := Runs(), Ends(true);
      CutBounds(runs, merged, ends, n);
      current := None;
      NoneYet(runs, ends);
      for i := |children| downto 0
        invariant Largest(runs, ends, current, i)
      {
        LargestStep(runs, ends, current, i);
        var child := children[i];
        if child.Valid() {
          if current.None? {
            current := Some(i);
          } else {
            LargestIsValid(runs, ends, current, i + 1);
            var r := CompareInternal(child.Current().key, children[current.value].Current().key);
            Antisymmetric(child.Current().key, children[current.value].Current().key);
            if r > 0 {
              current := Some(i);
            }
          }
        }
      }
      at := StepBack(|merged|, n);
      BackFound(runs, merged, ends, n, current);
    }

    method SeekToFirst()
      requires Inv()
      modifies this, children
      ensures Inv() && at == 0 && direction == Forward
    {
      hide Before, Ahead, IsMerge, Sorted;
      for i := 0 to |children|
        invariant forall c :: 0 <= c < i ==> children[c].pos == 0
        modifies children
      {
        children[i].SeekToFirst();
      }
      direction := Forward;
      assert Cut(Runs(), merged, Ends(false), 0) by { CutStart(Runs(), merged, Ends(false)); }
      FindSmallest(0);
    }

    method SeekToLast()
      requires Inv()
      modifies this, children
      ensures Inv() && at == (if merged == [] then 0 else |merged| - 1) && direction == Reverse
    {
      hide Before, Ahead, IsMerge, Sorted;
      for i := 0 to |children|
        invariant forall c :: 0 <= c < i ==>
          children[c].pos == if children[c].entries == [] then 0 else |children[c].entries| - 1
        modifies children
      {
        children[i].SeekToLast();
      }
      direction := Reverse;
      CutWhole(Runs(), merged, Ends(true));
      FindLargest(|merged|);
    }

    method Seek(target: InternalKey)
      requires Inv()
      modifies this, children
      ensures Inv()
      ensures forall q :: 0 <= q < |merged| ==> (q < at <==> Before(At(Runs(), merged[q]).key, target))
    {
      hide Before, Ahead, IsMerge, Sorted, Cut;
      for i := 0 to |children|
        invariant forall c :: 0 <= c < i ==> children[c].pos == LowerBound(children[c].entries, target)
        modifies children
      {
        children[i].Seek(target);
      }
      direction := Forward;
      ghost var runs, ends := Runs(), Ends(false);
      forall s | Has(runs, s)
        ensures s.index < ends[s.child] <==> Before(At(runs, s).key, target)
      {
        RunCut(runs[s.child], target);
      }
      ghost var n := CutByKey(runs, merged, ends, target, false);
      FindSmallest(n);
    }

    /** Turning forward: every other child goes to its first entry past the current key. */
    method PlacePast(cur: nat, key: InternalKey)
      requires Shape() && cur < |children|
      modifies children
      ensures children[cur].pos == old(children[cur].pos)
      ensures forall c :: 0 <= c < |children| && c != cur ==> PastKey(children[c], key)
    {
      hide Before, Ahead, IsMerge, Sorted;
      for i := 0 to |children|
        invariant children[cur].pos == old(children[cur].pos)
        invariant forall c :: 0 <= c < i && c != cur ==> PastKey(children[c], key)
      {
        if i != cur {
          var child := children[i];
          child.Seek(key);
          assert Sorted(Runs()[i]);
          RunCut(child.entries, key);
          if child.Valid() {
            var r := CompareInternal(key, child.Current().key);
            if r == 0 {
              child.Next();
            }
          }
        }
      }
    }

    /** Turning back: every other child goes to its last entry before the current key. */
    method PlaceBefore(cur: nat, key: InternalKey)
      requires Shape() && cur < |children|
      modifies children
      ensures children[cur].pos == old(children[cur].pos)
      ensures forall c :: 0 <= c < |children| && c != cur ==> BeforeKey(children[c], key)
    {
      hide Before, Ahead, IsMerge, Sorted;
      for i := 0 to |children|
        invariant children[cur].pos == old(children[cur].pos)
        invariant forall c :: 0 <= c < i && c != cur ==> BeforeKey(children[c], key)
      {
        if i != cur {
          var child := children[i];
          child.Seek(key);
          assert Sorted(Runs()[i]);
          RunCut(child.entries, key);
          if child.Valid() {
            child.Prev();
          } else {
            child.SeekToLast();
          }
        }
      }
    }

    /** Going on in the same direction is one step; after turning round every entry with
        the current key is left behind at once. */
    method Next()
      requires Inv() && Valid()
      modifies this, children
      ensures Inv() && direction == Forward
      ensures old(direction) == Forward ==> at == old(at) + 1
      ensures old(direction) == Reverse ==> FirstPast(Runs(), merged, old(at), at)
      ensures DistinctKeys(Runs()) ==> at == old(at) + 1
    {
      hide Before, Ahead, IsMerge, Sorted, Cut, FirstPast, DistinctKeys;
      CurrentIsHere();
      ghost var runs, from := Runs(), at;
      var cur := current.value;
      ghost var n;
      if direction != Forward {
        var key := children[cur].Current().key;
        PlacePast(cur, key);
        direction := Forward;
        children[cur].Next();
        PassedOwn(children[cur], key);
        n := AllPast(from);
      } else {
        children[cur].Next();
        assert Ends(false) == old(Ends(false))[cur := old(Ends(false))[cur] + 1];
        CutAdvances(runs, merged, old(Ends(false)), from);
        n := from + 1;
      }
      FindSmallest(n);
    }

    /** c stands after every entry with a key up to `key`. */
    static ghost predicate PastKey(c: Cursor, key: InternalKey)
      reads c
    {
      forall i :: 0 <= i < |c.entries| ==>
        (i < EndOf(c, false) <==> Before(c.entries[i].key, key) || c.entries[i].key == key)
    }

    static ghost predicate BeforeKey(c: Cursor, key: InternalKey)
      reads c
    {
      forall i :: 0 <= i < |c.entries| ==> (i < EndOf(c, true) <==> Before(c.entries[i].key, key))
    }

    static lemma PassedOwn(c: Cursor, key: InternalKey)
      requires Sorted(c.entries) && 0 < c.pos <= |c.entries| && c.entries[c.pos - 1].key == key
      ensures PastKey(c, key)
    {
      RunCut(c.entries, key);
    }

    static lemma LeftOwn(c: Cursor, key: InternalKey, p: nat)
      requires Sorted(c.entries) && p < |c.entries| && c.entries[p].key == key
      requires c.pos == StepBack(|c.entries|, p)
      ensures BeforeKey(c, key)
    {
      RunCut(c.entries, key);
    }

    lemma AllPast(from: nat) returns (n: nat)
      requires Shape() && from < |merged|
      requires forall c :: 0 <= c < |children| ==> PastKey(children[c], At(Runs(), merged[from]).key)
      ensures Cut(Runs(), merged, Ends(false), n) && FirstPast(Runs(), merged, from, n)
      ensures DistinctKeys(Runs()) ==> n == from + 1
    {
      hide Before, Ahead, Sorted, Cut, FirstPast, DistinctKeys;
      var runs := Runs();
      n := CutByKey(runs, merged, Ends(false), At(runs, merged[from]).key, true);
      CutBounds(runs, merged, Ends(false), n);
      LandsPast(runs, merged, from, n);
      if DistinctKeys(runs) {
        DistinctStep(runs, merged, from, n);
      }
    }

    lemma AllBefore(from: nat) returns (n: nat)
      requires Shape() && from < |merged|
      requires forall c :: 0 <= c < |children| ==> BeforeKey(children[c], At(Runs(), merged[from]).key)
      ensures Cut(Runs(), merged, Ends(true), n) && LastShort(Runs(), merged, from, StepBack(|merged|, n))
      ensures DistinctKeys(Runs()) ==> StepBack(|merged|, n) == StepBack(|merged|, from)
    {
      hide Before, Ahead, Sorted, Cut, LastShort, DistinctKeys;
      var runs := Runs();
      n := CutByKey(runs, merged, Ends(true), At(runs, merged[from]).key, false);
      CutBounds(runs, merged, Ends(true), n);
      LandsShort(runs, merged, from, n);
      if DistinctKeys(runs) {
        DistinctStepBack(runs, merged, from, n);
      }
    }

    /** As Next: one step back, or past every entry with the current key after a turn. */
    method Prev()
      requires Inv() && Valid()
      modifies this, children
      ensures Inv() && direction == Reverse
      ensures old(direction) == Reverse ==> at == if old(at) == 0 then |merged| else old(at) - 1
      ensures old(direction) == Forward ==> LastShort(Runs(), merged, old(at), at)
      ensures DistinctKeys(Runs()) ==> at == if old(at) == 0 then |merged| else old(at) - 1
    {
      hide Before, Ahead, IsMerge, Sorted, Cut, LastShort, DistinctKeys;
      CurrentIsHere();
      ghost var runs, from := Runs(), at;
      var cur := current.value;
      ghost var n;
      if direction != Reverse {
        var key := children[cur].Current().key;
        PlaceBefore(cur, key);
        direction := Reverse;
        children[cur].Prev();
        LeftOwn(children[cur], key, old(children[cur].pos));
        n := AllBefore(from);
      } else {
        children[cur].Prev();
        CutRetreats(runs, merged, old(Ends(true)), from + 1);
        assert Ends(true) == old(Ends(true))[cur := old(Ends(true))[cur] - 1];
        n := from;
      }
      FindLargest(n);
    }
  }

  /** q is the first place after p with another key. */
  ghost predicate FirstPast(runs: Runs, m: seq<Slot>, p: nat, q: nat)
    requires forall i :: 0 <= i < |m| ==> Has(runs, m[i])
  {
    && p < q <= |m|
    && (forall i :: p < i < q ==> At(runs, m[i]).key == At(runs, m[p]).key)
    && (q < |m| ==> At(runs, m[q]).key != At(runs, m[p]).key)
  }

  /** q is the last place before p with another key, or the end if there is none. */
  ghost predicate LastShort(runs: Runs, m: seq<Slot>, p: nat, q: nat)
    requires forall i :: 0 <= i < |m| ==> Has(runs, m[i])
  {
    && p < |m|
    && (if q == |m| then forall i :: 0 <= i < p ==> At(runs, m[i]).key == At(runs, m[p]).key
        else
          && q < p && At(runs, m[q]).key != At(runs, m[p]).key
          && forall i :: q < i < p ==> At(runs, m[i]).key == At(runs, m[p]).key)
  }

  lemma LandsPast(runs: Runs, m: seq<Slot>, p: nat, n: nat)
    requires AllSorted(runs) && IsMerge(runs, m) && p < |m| && n <= |m|
    requires forall q :: 0 <= q < |m| ==>
               (q < n <==> Before(At(runs, m[q]).key, At(runs, m[p]).key) || At(runs, m[q]).key == At(runs, m[p]).key)
    ensures FirstPast(runs, m, p, n)
  {
    hide Before;
    OrderLaws();
    assert p < n;
    forall i | p < i < n
      ensures At(runs, m[i]).key == At(runs, m[p]).key
    {
      assert Ahead(runs, m[p], m[i]);
    }
  }

  lemma LandsShort(runs: Runs, m: seq<Slot>, p: nat, n: nat)
    requires AllSorted(runs) && IsMerge(runs, m) && p < |m| && n <= |m|
    requires forall q :: 0 <= q < |m| ==> (q < n <==> Before(At(runs, m[q]).key, At(runs, m[p]).key))
    ensures LastShort(runs, m, p, StepBack(|m|, n))
  {
    hide Before;
    OrderLaws();
    var key := At(runs, m[p]).key;
    assert !Before(key, key);
    assert n <= p;
    forall i | n <= i < p
      ensures At(runs, m[i]).key == key
    {
      assert Ahead(runs, m[i], m[p]);
    }
  }

  lemma DistinctStep(runs: Runs, m: seq<Slot>, p: nat, q: nat)
    requires IsMerge(runs, m) && DistinctKeys(runs) && p < |m| && FirstPast(runs, m, p, q)
    ensures q == p + 1
  {
    if p + 1 < |m| {
      MergedDiffer(runs, m, p, p + 1);
    }
  }

  lemma MergedDiffer(runs: Runs, m: seq<Slot>, p: nat, q: nat)
    requires IsMerge(runs, m) && DistinctKeys(runs) && p < q < |m|
    ensures At(runs, m[p]).key != At(runs, m[q]).key
  {
    hide Before;
    OrderLaws();
    assert Ahead(runs, m[p], m[q]);
  }

  lemma DistinctStepBack(runs: Runs, m: seq<Slot>, p: nat, n: nat)
    requires IsMerge(runs, m) && DistinctKeys(runs) && n <= |m| && LastShort(runs, m, p, StepBack(|m|, n))
    ensures StepBack(|m|, n) == StepBack(|m|, p)
  {
    if p > 0 {
      MergedDiffer(runs, m, p - 1, p);
    }
  }

  // ---- what the user of the iterator sees ----

  /** The entries in merged order. */
  function Union(runs: Runs, m: seq<Slot>): (es: seq<Entry>)
    requires forall q :: 0 <= q < |m| ==> Has(runs, m[q])
    ensures |es| == |m| && forall q :: 0 <= q < |m| ==> es[q] == At(runs, m[q])
  {
    seq(|m|, q requires 0 <= q < |m| => At(runs, m[q]))
  }

  /** With pairwise distinct keys the merged order is the sorted union of the children. */
  lemma UnionIsSorted(runs: Runs, m: seq<Slot>)
    requires AllSorted(runs) && IsMerge(runs, m) && DistinctKeys(runs)
    ensures Sorted(Union(runs, m))
    ensures forall e :: e in Union(runs, m) <==> exists c :: 0 <= c < |runs| && e in runs[c]
  {
    hide Before, Sorted;
    var u := Union(runs, m);
    forall p, q | 0 <= p < q < |u|
      ensures Before(u[p].key, u[q].key)
    {
      assert Ahead(runs, m[p], m[q]);
      StrictlyAhead(runs, m[p], m[q]);
    }
    assert Sorted(u) by { SortedIfBefore(u); }
    forall e
      ensures e in u <==> exists c :: 0 <= c < |runs| && e in runs[c]
    {
      if e in u {
        var q :| 0 <= q < |u| && u[q] == e;
        assert e in runs[m[q].child];
      }
      if c :| 0 <= c < |runs| && e in runs[c] {
        var i :| 0 <= i < |runs[c]| && runs[c][i] == e;
        assert Has(runs, Slot(c, i));
        var q :| 0 <= q < |m| && m[q] == Slot(c, i);
        assert u[q] == e;
      }
    }
  }

  lemma StrictlyAhead(runs: Runs, a: Slot, b: Slot)
    requires Has(runs, a) && Has(runs, b) && Ahead(runs, a, b) && DistinctKeys(runs)
    ensures Before(At(runs, a).key, At(runs, b).key)
  {
  }

  lemma SortedIfBefore(es: seq<Entry>)
    requires forall p, q :: 0 <= p < q < |es| ==> Before(es[p].key, es[q].key)
    ensures Sorted(es)
  {
  }

  datatype Move = First | Last | To(target: InternalKey) | Onward | Back

  /** The plain cursor over a sorted sequence: where each move leads. */
  function Replay(es: seq<Entry>, moves: seq<Move>, at: nat): nat
    decreases |moves|
  {
    if moves == [] then at
    else
      var next := match moves[0]
        case First => 0
        case Last => StepBack(|es|, |es|)
        case To(t) => LowerBound(es, t)
        case Onward => if at < |es| then at + 1 else at
        case Back => if at < |es| then StepBack(|es|, at) else at;
      Replay(es, moves[1..], next)
  }

  /** Over children with pairwise distinct keys, any mix of moves and turns ends where the
      same moves lead a plain cursor over the sorted union. */
  method Drive(it: MergingIterator, moves: seq<Move>)
    requires it.Inv() && DistinctKeys(it.Runs())
    modifies it, it.children
    ensures it.Inv()
    ensures it.at == Replay(it.All(), moves, old(it.at))
    ensures it.Valid() <==> it.at < |it.merged|
    ensures it.Valid() ==> it.Current() == it.All()[it.at]
  {
    hide Before, Ahead, Sorted, Cut, DistinctKeys, FirstPast, LastShort, AllSorted;
    var i := 0;
    ghost var es := it.All();
    while i < |moves|
      invariant 0 <= i <= |moves|
      invariant it.Inv()
      invariant Replay(es, moves[i..], it.at) == Replay(es, moves, old(it.at))
    {
      match moves[i] {
        case First => it.SeekToFirst();
        case Last => it.SeekToLast();
        case To(target) =>
          it.Seek(target);
          assert it.at == LowerBound(es, target);
        case Onward => if it.Valid() { it.Next(); }
        case Back => if it.Valid() { it.Prev(); }
      }
      assert moves[i..][1..] == moves[i + 1..];
      i := i + 1;
    }
  }

  /** A pure forward scan yields every entry of every child, equal keys by child. */
  method ScanForward(it: MergingIterator) returns (out: seq<Entry>)
    requires it.Inv()
    modifies it, it.children
    ensures it.Inv() && out == it.All()
  {
    hide Before, Ahead, Sorted, Cut, DistinctKeys, FirstPast, AllSorted, IsMerge, Union;
    it.SeekToFirst();
    out := [];
    ghost var es := it.All();
    while it.Valid()
      invariant it.Inv() && it.at <= |es| && out == es[..it.at]
      invariant it.Valid() ==> it.direction == Forward
      decreases |es| - it.at
    {
      out := out + [it.Current()];
      it.Next();
    }
  }

  function Reversed(es: seq<Entry>): (r: seq<Entry>)
    ensures |r| == |es|
    ensures forall i :: 0 <= i < |es| ==> r[i] == es[|es| - 1 - i]
  {
    seq(|es|, i requires 0 <= i < |es| => es[|es| - 1 - i])
  }

  lemma ReversedGrows(es: seq<Entry>, k: nat)
    requires k < |es|
    ensures Reversed(es)[..k] + [es[|es| - 1 - k]] == Reversed(es)[..k + 1]
  {
  }

  /** A pure backward scan is the forward scan reversed, shared keys or not. */
  method ScanBackward(it: MergingIterator) returns (out: seq<Entry>)
    requires it.Inv()
    modifies it, it.children
    ensures it.Inv() && out == Reversed(it.All())
  {
    hide Before, Ahead, Sorted, Cut, DistinctKeys, LastShort, AllSorted, IsMerge, Union, Reversed;
    it.SeekToLast();
    out := [];
    ghost var es := it.All();
    ghost var left: nat := |es|;
    while it.Valid()
      invariant it.Inv() && left <= |es| && it.at == StepBack(|es|, left)
      invariant it.Valid() ==> it.direction == Reverse
      invariant out == Reversed(es)[..|es| - left]
      decreases left
    {
      out := out + [it.Current()];
      ReversedGrows(es, |es| - left);
      left := left - 1;
      it.Prev();
    }
    assert left == 0;
  }

  lemma CutStart(runs: Runs, m: seq<Slot>, ends: seq<nat>)
    requires IsMerge(runs, m) && |ends| == |runs| && forall c :: 0 <= c < |runs| ==> ends[c] == 0
    ensures Cut(runs, m, ends, 0)
  {
  }

  lemma CutWhole(runs: Runs, m: seq<Slot>, ends: seq<nat>)
    requires IsMerge(runs, m) && |ends| == |runs| && forall c :: 0 <= c < |runs| ==> ends[c] == |runs[c]|
    ensures Cut(runs, m, ends, |m|)
  {
  }
}
