/** The skip list as its owner sees it (db/skiplist.h): levels are sorted lists, each part of
    the one below, and Insert, run to its end, adds exactly its key.
 */
module SkipListOps {
  import opened Comparator
  import opened Dbformat
  import opened Options
  import opened SkipLists
  import opened SkipListReaders

  /** The nodes of level l after node i. */
  ghost function Beyond(mem: Memory, w: Writer, i: nat, l: nat): set<nat>
    requires i < |mem.nodes|
  {
    set m: nat | m < |mem.nodes| && Linked(mem, w, m, l) && Follows(mem, i, m)
  }

  /** The nodes met by following the level-l links from i. */
  ghost function LevelFrom(mem: Memory, w: Writer, i: nat, l: nat): seq<nat>
    requires Inv(mem, w) && Linked(mem, w, i, l)
    decreases |Beyond(mem, w, i, l)|
  {
    NextBeyond(mem, w, i, l);
    match mem.nodes[i].next[l]
    case None => []
    case Some(j) => [j] + LevelFrom(mem, w, j, l)
  }

  lemma NextBeyond(mem: Memory, w: Writer, i: nat, l: nat)
    requires Inv(mem, w) && Linked(mem, w, i, l)
    ensures Succeeds(mem, w, i, l)
    ensures mem.nodes[i].next[l].Some? ==>
              var j := mem.nodes[i].next[l].value;
              Linked(mem, w, j, l) && |Beyond(mem, w, j, l)| < |Beyond(mem, w, i, l)|
  {
    hide Before, Inv, Beyond;
    AtNode(mem, w, i, l);
    if mem.nodes[i].next[l].Some? {
      BeyondShrinks(mem, w, i, mem.nodes[i].next[l].value, l);
    }
  }

  /** Nodes listed in strict key order, and exactly those of the level after i. */
  ghost predicate Lists(mem: Memory, w: Writer, i: nat, l: nat, s: seq<nat>)
    requires i < |mem.nodes|
  {
    && (forall m: nat :: m in s <==> Linked(mem, w, m, l) && Follows(mem, i, m))
    && forall a, b :: 0 <= a < b < |s| ==> s[a] < |mem.nodes| && s[b] < |mem.nodes| && Follows(mem, s[a], s[b])
  }

  /** Each level is a sorted list of exactly the nodes linked into it. */
  lemma {:induction false} LevelIsSorted(mem: Memory, w: Writer, i: nat, l: nat)
    requires Inv(mem, w) && Linked(mem, w, i, l)
    ensures Lists(mem, w, i, l, LevelFrom(mem, w, i, l))
    decreases |Beyond(mem, w, i, l)|
  {
    hide Before, Inv, Beyond;
    NextBeyond(mem, w, i, l);
    match mem.nodes[i].next[l]
    case None =>
    case Some(j) =>
      LevelIsSorted(mem, w, j, l);
      FollowsFurther(mem, w, i, j, l, LevelFrom(mem, w, j, l));
  }

  lemma BeyondShrinks(mem: Memory, w: Writer, i: nat, j: nat, l: nat)
    requires Linked(mem, w, i, l) && Linked(mem, w, j, l) && Follows(mem, i, j)
    ensures |Beyond(mem, w, j, l)| < |Beyond(mem, w, i, l)|
  {
    hide Before;
    OrderLaws();
    var a, b := Beyond(mem, w, j, l), Beyond(mem, w, i, l);
    assert a <= b;
    assert j in b && j !in a;
    Smaller(a, b);
  }

  lemma {:induction false} Smaller<T>(a: set<T>, b: set<T>)
    requires a < b
    ensures |a| < |b|
  {
    var extra := b - a;
    assert extra != {};
    assert b == a + extra;
  }

  lemma FollowsFurther(mem: Memory, w: Writer, i: nat, j: nat, l: nat, rest: seq<nat>)
    requires Linked(mem, w, i, l) && Linked(mem, w, j, l) && Follows(mem, i, j)
    requires forall m: nat :: Linked(mem, w, m, l) && Follows(mem, i, m) ==> m == j || Follows(mem, j, m)
    requires Lists(mem, w, j, l, rest)
    ensures Lists(mem, w, i, l, [j] + rest)
  {
    hide Before;
    OrderLaws();
    var s := [j] + rest;
    forall m: nat
      ensures m in s <==> Linked(mem, w, m, l) && Follows(mem, i, m)
    {
      assert m in s <==> m == j || m in rest;
    }
    forall a, b | 0 <= a < b < |s|
      ensures s[a] < |mem.nodes| && s[b] < |mem.nodes| && Follows(mem, s[a], s[b])
    {
      assert rest[b - 1] in rest;
      assert a > 0 ==> rest[a - 1] in rest;
    }
  }

  /** Each level of the list, whatever the writer is doing, is part of the one below it. */
  lemma LevelsAreSublists(mem: Memory, w: Writer, l: nat)
    requires Inv(mem, w) && l + 1 < MAX_HEIGHT
    ensures Linked(mem, w, HEAD, l + 1) && Linked(mem, w, HEAD, l)
    ensures forall m :: m in LevelFrom(mem, w, HEAD, l + 1) ==> m in LevelFrom(mem, w, HEAD, l)
  {
    hide Levels, Before, LevelFrom;
    assert Linked(mem, w, HEAD, l + 1) && Linked(mem, w, HEAD, l);
    LevelIsSorted(mem, w, HEAD, l + 1);
    LevelIsSorted(mem, w, HEAD, l);
    forall m | m in LevelFrom(mem, w, HEAD, l + 1)
      ensures m in LevelFrom(mem, w, HEAD, l)
    {
      assert Linked(mem, w, m, l + 1);
      assert Linked(mem, w, m, l);
    }
  }

  /** The keys of the list: what its lowest level holds. */
  ghost function Keys(mem: Memory): set<InternalKey> {
    set i | 0 < i < |mem.nodes| :: mem.nodes[i].key
  }

  /** With no insert under way the lowest level lists every node, each once and in order. */
  lemma LowestLevelIsAll(mem: Memory)
    requires Inv(mem, Idle)
    ensures Linked(mem, Idle, HEAD, 0)
    ensures forall m: nat :: m in LevelFrom(mem, Idle, HEAD, 0) <==> 0 < m < |mem.nodes|
    ensures |LevelFrom(mem, Idle, HEAD, 0)| == |mem.nodes| - 1
  {
    hide Levels, Before, LevelFrom;
    assert Linked(mem, Idle, HEAD, 0);
    LevelIsSorted(mem, Idle, HEAD, 0);
    var s := LevelFrom(mem, Idle, HEAD, 0);
    forall m: nat
      ensures m in s <==> 0 < m < |mem.nodes|
    {
    }
    StrictlyFollowing(mem, s);
    Count(s, |mem.nodes|);
  }

  lemma StrictlyFollowing(mem: Memory, s: seq<nat>)
    requires Inv(mem, Idle) && Lists(mem, Idle, HEAD, 0, s)
    ensures forall a, b :: 0 <= a < b < |s| ==> s[a] != s[b]
  {
    hide Before, Levels;
    OrderLaws();
    forall a, b | 0 <= a < b < |s|
      ensures s[a] != s[b]
    {
      assert s[a] in s && Follows(mem, s[a], s[b]);
    }
  }

  lemma HeadIn<T>(s: seq<T>)
    ensures s == [] || s[0] in s
  {
  }

  lemma {:induction false} Count(s: seq<nat>, n: nat)
    requires n > 0 && forall m: nat :: m in s <==> 0 < m < n
    requires forall a, b :: 0 <= a < b < |s| ==> s[a] != s[b]
    ensures |s| == n - 1
  {
    if n == 1 {
      HeadIn(s);
    } else {
      assert n - 1 in s;
      var p :| 0 <= p < |s| && s[p] == n - 1;
      var t := s[..p] + s[p + 1..];
      forall m: nat
        ensures m in t <==> 0 < m < n - 1
      {
        if m in s && m != n - 1 {
          var q :| 0 <= q < |s| && s[q] == m;
          assert t[if q < p then q else q - 1] == m;
        }
      }
      Count(t, n - 1);
    }
  }

  /** p is the last node of level l with a key before `key`, which may itself be listed. */
  ghost predicate LastBefore(mem: Memory, p: nat, key: InternalKey, l: nat) {
    && Linked(mem, Idle, p, l)
    && (p == HEAD || Before(mem.nodes[p].key, key))
    && forall m: nat :: Linked(mem, Idle, m, l) && Follows(mem, p, m) ==> !Before(mem.nodes[m].key, key)
  }

  lemma SearchDrops(mem: Memory, x: nat, key: InternalKey, l: nat)
    requires Inv(mem, Idle) && OnTrack(mem, Idle, Searching(AtLeast(key), x, l)) && Succeeds(mem, Idle, x, l)
    requires mem.nodes[x].next[l].Some? ==> !Before(mem.nodes[mem.nodes[x].next[l].value].key, key)
    ensures LastBefore(mem, x, key, l)
  {
    hide Before, Levels;
    OrderLaws();
  }

  lemma FoundIffPresent(mem: Memory, key: InternalKey, x: nat, next: Link)
    requires Inv(mem, Idle) && Answers(mem, Idle, AtLeast(key), x, next)
    ensures next.Some? ==> next.value < |mem.nodes|
    ensures (next.Some? && mem.nodes[next.value].key == key) <==> key in Keys(mem)
  {
    hide Before, Levels;
    OrderLaws();
    if key in Keys(mem) {
      var i :| 0 < i < |mem.nodes| && mem.nodes[i].key == key;
      assert Linked(mem, Idle, i, 0);
    }
  }

  lemma Bounds(mem: Memory)
    requires Inv(mem, Idle)
    ensures 1 <= mem.maxHeight <= MAX_HEIGHT && mem.nodes != []
  {
  }

  lemma MayPrepare(mem: Memory, key: InternalKey, height: nat, prev: seq<nat>)
    requires Inv(mem, Idle) && key !in Keys(mem) && 1 <= height <= MAX_HEIGHT && |prev| == MAX_HEIGHT
    requires forall l :: 0 <= l < height ==> if l < mem.maxHeight then LastBefore(mem, prev[l], key, l)
             else prev[l] == HEAD
    ensures WriterStep(mem, Idle, mem, Prepared(key, height, prev))
  {
    hide Before, Levels;
    OrderLaws();
    forall i | 0 < i < |mem.nodes|
      ensures mem.nodes[i].key != key
    {
      assert mem.nodes[i].key in Keys(mem);
    }
  }

  lemma MayRaise(mem: Memory, w: Writer)
    requires w.Prepared? && w.height > mem.maxHeight
    ensures WriterStep(mem, w, mem.(maxHeight := w.height), w)
  {
  }

  lemma MayAllocate(mem: Memory, w: Writer)
    requires w.Prepared? && w.height <= mem.maxHeight
    ensures WriterStep(mem, w, mem.(nodes := mem.nodes + [Node(w.key, NullLinks(w.height))]),
                       Linking(|mem.nodes|, w.prev, 0, false))
  {
  }

  /** The node to link from is another node, tall enough. */
  lemma MayLink(mem: Memory, w: Writer)
    requires Inv(mem, w) && w.Linking? && !w.own
    ensures w.x < |mem.nodes| && w.level < |w.prev| && w.prev[w.level] < |mem.nodes|
    ensures w.level < |mem.nodes[w.x].next| && w.level < |mem.nodes[w.prev[w.level]].next| && w.prev[w.level] != w.x
    ensures WriterStep(mem, w, SetNext(mem, w.x, w.level, mem.nodes[w.prev[w.level]].next[w.level]), w.(own := true))
  {
    hide Before, Levels;
    assert Precedes(mem, w, w.prev[w.level], mem.nodes[w.x].key, w.level);
  }

  lemma MayPublish(mem: Memory, w: Writer)
    requires Inv(mem, w) && w.Linking? && w.own
    ensures w.x < |mem.nodes| && w.level < |w.prev| && w.prev[w.level] < |mem.nodes|
    ensures w.level < |mem.nodes[w.x].next| && w.level < |mem.nodes[w.prev[w.level]].next|
    ensures WriterStep(mem, w, SetNext(mem, w.prev[w.level], w.level, Some(w.x)),
                       if w.level + 1 == |mem.nodes[w.x].next| then Idle else Linking(w.x, w.prev, w.level + 1, false))
  {
    hide Before, Levels;
  }

  lemma KeysGrow(a: seq<Node>, b: seq<Node>, key: InternalKey)
    requires |b| == |a| + 1 && a != [] && b[|a|].key == key
    requires forall n :: 0 <= n < |a| ==> b[n].key == a[n].key
    ensures forall h, h' :: Keys(Memory(b, h)) == Keys(Memory(a, h')) + {key}
  {
  }

  /** A moment between two stores of Insert. */
  datatype Moment = Moment(mem: Memory, w: Writer)

  /** Every store on the way is one step of the writer in the shared machine. */
  ghost predicate Stores(from: Moment, trace: seq<Moment>, to: Moment) {
    && trace != [] && trace[0] == from && trace[|trace| - 1] == to
    && forall i :: 0 <= i < |trace| - 1 ==> WriterStep(trace[i].mem, trace[i].w, trace[i + 1].mem, trace[i + 1].w)
  }

  lemma NoStore(from: Moment) returns (trace: seq<Moment>)
    ensures Stores(from, trace, from)
  {
    trace := [from];
  }

  lemma OneStore(from: Moment, trace: seq<Moment>, via: Moment, to: Moment) returns (more: seq<Moment>)
    requires Stores(from, trace, via) && WriterStep(via.mem, via.w, to.mem, to.w)
    ensures Stores(from, more, to)
  {
    hide WriterStep;
    more := trace + [to];
  }

  lemma MoreStores(from: Moment, first: seq<Moment>, via: Moment, rest: seq<Moment>, to: Moment)
    returns (trace: seq<Moment>)
    requires Stores(from, first, via) && Stores(via, rest, to)
    ensures Stores(from, trace, to)
  {
    hide WriterStep;
    trace := first + rest[1..];
    forall i | 0 <= i < |trace| - 1
      ensures WriterStep(trace[i].mem, trace[i].w, trace[i + 1].mem, trace[i + 1].w)
    {
      assert trace[i] == if i < |first| then first[i] else rest[i - |first| + 1];
    }
  }

  class SkipList {
    var nodes: seq<Node>
    var maxHeight: nat

    ghost function Mem(): Memory
      reads this
    {
      Memory(nodes, maxHeight)
    }

    ghost predicate Valid()
      reads this
    {
      Inv(Mem(), Idle)
    }

    constructor ()
      ensures Valid() && Keys(Mem()) == {}
    {
      nodes := [Node(LookupKey([], 0), NullLinks(MAX_HEIGHT))];
      maxHeight := 1;
      new;
      InitialGood(State(Mem(), Idle, []));
    }

    /** Also fills prev with the node before the key in every level, if asked to. */
    method FindGreaterOrEqual(key: InternalKey, prev: array?<nat>) returns (next: Link)
      requires Valid() && (prev != null ==> prev.Length == MAX_HEIGHT)
      modifies prev
      ensures exists x: nat :: Answers(Mem(), Idle, AtLeast(key), x, next)
      ensures prev != null ==> forall l :: 0 <= l < maxHeight ==> LastBefore(Mem(), prev[l], key, l)
    {
      hide Inv, Before, Answers;
      Bounds(Mem());
      var x, level: nat := HEAD, maxHeight - 1;
      ghost var mem := Mem();
      HeadOnTrack(Mem(), Idle, AtLeast(key), level);
      while true
        invariant level < maxHeight && OnTrack(Mem(), Idle, Searching(AtLeast(key), x, level))
        invariant prev != null ==> forall l :: level < l < maxHeight ==> LastBefore(mem, prev[l], key, l)
        invariant mem == Mem()
        decreases level, |Beyond(Mem(), Idle, x, level)|
      {
        ReadStays(Mem(), Idle, Searching(AtLeast(key), x, level));
        next := nodes[x].next[level];
        AtNode(Mem(), Idle, x, level);
        if next.Some? && Before(nodes[next.value].key, key) {
          BeyondShrinks(Mem(), Idle, x, next.value, level);
          x := next.value;
        } else {
          SearchDrops(Mem(), x, key, level);
          if prev != null {
            prev[level] := x;
          }
          if level == 0 {
            assert mem == Mem() && Answers(mem, Idle, AtLeast(key), x, next);
            return;
          }
          level := level - 1;
        }
      }
    }

    /** The last node before the key, or the head. */
    method FindLessThan(key: InternalKey) returns (x: nat)
      requires Valid()
      ensures exists next :: Answers(Mem(), Idle, LessThan(key), x, next)
    {
      hide Inv, Before, Answers;
      x := HEAD;
      Bounds(Mem());
      var level: nat := maxHeight - 1;
      HeadOnTrack(Mem(), Idle, LessThan(key), level);
      while true
        invariant level < maxHeight && OnTrack(Mem(), Idle, Searching(LessThan(key), x, level))
        decreases level, |Beyond(Mem(), Idle, x, level)|
      {
        ReadStays(Mem(), Idle, Searching(LessThan(key), x, level));
        AtNode(Mem(), Idle, x, level);
        var next := nodes[x].next[level];
        if next == None || !Before(nodes[next.value].key, key) {
          if level == 0 {
            return;
          }
          level := level - 1;
        } else {
          BeyondShrinks(Mem(), Idle, x, next.value, level);
          x := next.value;
        }
      }
    }

    /** The last node of all, or the head. */
    method FindLast() returns (x: nat)
      requires Valid()
      ensures exists next :: Answers(Mem(), Idle, Last, x, next)
    {
      hide Inv, Before, Answers;
      x := HEAD;
      Bounds(Mem());
      var level: nat := maxHeight - 1;
      HeadOnTrack(Mem(), Idle, Last, level);
      while true
        invariant level < maxHeight && OnTrack(Mem(), Idle, Searching(Last, x, level))
        decreases level, |Beyond(Mem(), Idle, x, level)|
      {
        ReadStays(Mem(), Idle, Searching(Last, x, level));
        AtNode(Mem(), Idle, x, level);
        var next := nodes[x].next[level];
        if next == None {
          if level == 0 {
            return;
          }
          level := level - 1;
        } else {
          BeyondShrinks(Mem(), Idle, x, next.value, level);
          x := next.value;
        }
      }
    }

    method Contains(key: InternalKey) returns (found: bool)
      requires Valid()
      ensures found <==> key in Keys(Mem())
    {
      var next := FindGreaterOrEqual(key, null);
      found := next.Some? && nodes[next.value].key == key;
      ghost var x :| Answers(Mem(), Idle, AtLeast(key), x, next);
      FoundIffPresent(Mem(), key, x, next);
    }

    /** RandomHeight is the parameter.  Every store is one step of the shared machine, so
        concurrent searches see nothing but states of SkipListReaders. */
    method Insert(key: InternalKey, height: nat) returns (ghost trace: seq<Moment>)
      requires Valid() && key !in Keys(Mem()) && 1 <= height <= MAX_HEIGHT
      modifies this
      ensures Valid()
      ensures Keys(Mem()) == old(Keys(Mem())) + {key}
      ensures |nodes| == |old(nodes)| + 1 && |nodes[|old(nodes)|].next| == height
      ensures maxHeight == if height > old(maxHeight) then height else old(maxHeight)
      ensures Stores(Moment(old(Mem()), Idle), trace, Moment(Mem(), Idle))
    {
      hide Inv, Before, WriterStep, LastBefore, Answers, Stores;
      Bounds(Mem());
      ghost var mem, was := Mem(), nodes;
      var prev := new nat[MAX_HEIGHT];
      var _ := FindGreaterOrEqual(key, prev);
      if height > maxHeight {
        for i := maxHeight to height
          invariant Mem() == mem
          invariant forall l :: 0 <= l < maxHeight ==> LastBefore(mem, prev[l], key, l)
          invariant forall l :: maxHeight <= l < i ==> prev[l] == HEAD
        {
          prev[i] := HEAD;
        }
      }
      ghost var w := Prepared(key, height, prev[..]);
      MayPrepare(mem, key, height, prev[..]);
      WriterKeeps(mem, Idle, mem, w);
      ghost var from, now := Moment(mem, Idle), Moment(mem, w);
      trace := NoStore(from);
      trace := OneStore(from, trace, from, now);
      if height > maxHeight {
        maxHeight := height;
        MayRaise(mem, w);
        WriterKeeps(mem, w, Mem(), w);
        trace := OneStore(from, trace, now, Moment(Mem(), w));
      }
      var x := |nodes|;
      mem := Mem();
      nodes := nodes + [Node(key, NullLinks(height))];
      MayAllocate(mem, w);
      ghost var linking := Linking(x, w.prev, 0, false);
      WriterKeeps(mem, w, Mem(), linking);
      now := Moment(Mem(), linking);
      trace := OneStore(from, trace, Moment(mem, w), now);
      ghost var linked := Splice(x, height, prev);
      trace := MoreStores(from, trace, now, linked, Moment(Mem(), Idle));
      KeysGrow(was, nodes, key);
    }

    /** The loop of Insert: link the new node into its levels, lowest first. */
    method Splice(x: nat, height: nat, prev: array<nat>) returns (ghost trace: seq<Moment>)
      requires 0 < height && x < |nodes| && |nodes[x].next| == height
      requires Inv(Mem(), Linking(x, prev[..], 0, false))
      modifies this`nodes
      ensures Valid()
      ensures |nodes| == |old(nodes)| && |nodes[x].next| == height
      ensures forall n :: 0 <= n < |nodes| ==> nodes[n].key == old(nodes)[n].key
      ensures Stores(Moment(old(Mem()), Linking(x, prev[..], 0, false)), trace, Moment(Mem(), Idle))
    {
      hide Inv, WriterStep, Stores;
      ghost var w := Linking(x, prev[..], 0, false);
      ghost var from := Moment(Mem(), w);
      trace := NoStore(from);
      ghost var was := nodes;
      for i := 0 to height
        invariant w == if i == height then Idle else Linking(x, prev[..], i, false)
        invariant Inv(Mem(), w) && Stores(from, trace, Moment(Mem(), w))
        invariant |nodes| == |was| && |nodes[x].next| == height
        invariant forall n :: 0 <= n < |nodes| ==> nodes[n].key == was[n].key
      {
        ghost var mem := Mem();
        MayLink(mem, w);
        nodes := nodes[x := nodes[x].(next := nodes[x].next[i := nodes[prev[i]].next[i]])];
        WriterKeeps(mem, w, Mem(), w.(own := true));
        trace := OneStore(from, trace, Moment(mem, w), Moment(Mem(), w.(own := true)));
        mem, w := Mem(), w.(own := true);
        MayPublish(mem, w);
        nodes := nodes[prev[i] := nodes[prev[i]].(next := nodes[prev[i]].next[i := Some(x)])];
        ghost var w' := if i + 1 == height then Idle else Linking(x, prev[..], i + 1, false);
        WriterKeeps(mem, w, Mem(), w');
        trace := OneStore(from, trace, Moment(mem, w), Moment(Mem(), w'));
        w := w';
      }
    }
  }
}
