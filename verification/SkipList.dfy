/** The skip list of the memtable (db/skiplist.h): one writer links a new node bottom-up,
    one store at a time, while readers follow links without any lock.
 */
module SkipLists {
  import opened Comparator
  import opened Dbformat
  import opened Options

  const MAX_HEIGHT: nat := 12
  const HEAD: nat := 0

  /** A link is the index of a node in the arena, or null. */
  type Link = Option<nat>

  datatype Node = Node(key: InternalKey, next: seq<Link>)

  /** What readers share with the writer.  Nodes are never freed; node 0 is the head. */
  datatype Memory = Memory(nodes: seq<Node>, maxHeight: nat)

  /** Where the writer stands in Insert. */
  datatype Writer =
    | Idle
    | Prepared(key: InternalKey, height: nat, prev: seq<nat>)
    | Linking(x: nat, prev: seq<nat>, level: nat, own: bool)

  /** Node i is linked into level l.  The node being inserted is in the levels done so far. */
  predicate Linked(mem: Memory, w: Writer, i: nat, l: nat) {
    && i < |mem.nodes|
    && l < |mem.nodes[i].next|
    && (w.Linking? && i == w.x ==> l < w.level)
  }

  /** Node j comes after node i in key order. */
  predicate Follows(mem: Memory, i: nat, j: nat)
    requires i < |mem.nodes| && j < |mem.nodes|
  {
    j != HEAD && (i == HEAD || Before(mem.nodes[i].key, mem.nodes[j].key))
  }

  /** The level-l link of i leads to the very next node of that level. */
  ghost predicate Succeeds(mem: Memory, w: Writer, i: nat, l: nat)
    requires Linked(mem, w, i, l)
  {
    match mem.nodes[i].next[l]
    case None => forall m: nat :: Linked(mem, w, m, l) ==> !Follows(mem, i, m)
    case Some(j) =>
      && Linked(mem, w, j, l) && Follows(mem, i, j)
      && forall m: nat :: Linked(mem, w, m, l) && Follows(mem, i, m) ==> m == j || Follows(mem, j, m)
  }

  ghost predicate WellFormed(mem: Memory) {
    && |mem.nodes| > 0 && |mem.nodes[HEAD].next| == MAX_HEIGHT
    && 1 <= mem.maxHeight <= MAX_HEIGHT
    && (forall i :: 0 < i < |mem.nodes| ==> 1 <= |mem.nodes[i].next| <= mem.maxHeight)
    && (forall i, j :: 0 < i < j < |mem.nodes| ==> mem.nodes[i].key != mem.nodes[j].key)
  }

  ghost predicate Levels(mem: Memory, w: Writer) {
    forall i: nat, l: nat :: Linked(mem, w, i, l) ==> Succeeds(mem, w, i, l)
  }

  /** p is the last node of level l with a key before `key`. */
  ghost predicate Precedes(mem: Memory, w: Writer, p: nat, key: InternalKey, l: nat) {
    && Linked(mem, w, p, l)
    && (p == HEAD || Before(mem.nodes[p].key, key))
    && forall m: nat :: Linked(mem, w, m, l) && Follows(mem, p, m) ==> Before(key, mem.nodes[m].key)
  }

  ghost predicate FreshKey(mem: Memory, key: InternalKey) {
    forall i :: 0 < i < |mem.nodes| ==> mem.nodes[i].key != key
  }

  ghost predicate WriterReady(mem: Memory, w: Writer) {
    match w
    case Idle => true
    case Prepared(key, height, prev) =>
      && 1 <= height <= MAX_HEIGHT && |prev| == MAX_HEIGHT && FreshKey(mem, key)
      && forall l :: 0 <= l < height ==> Precedes(mem, w, prev[l], key, l)
    case Linking(x, prev, level, own) =>
      && 0 < x < |mem.nodes| && |prev| == MAX_HEIGHT && level < |mem.nodes[x].next| <= MAX_HEIGHT
      && (forall l :: level <= l < |mem.nodes[x].next| ==> Precedes(mem, w, prev[l], mem.nodes[x].key, l))
      && (own ==> prev[level] < |mem.nodes| && level < |mem.nodes[prev[level]].next|
                  && mem.nodes[x].next[level] == mem.nodes[prev[level]].next[level])
  }

  /** In every reachable state each level is sorted and part of the level below. */
  ghost predicate Inv(mem: Memory, w: Writer) {
    WellFormed(mem) && Levels(mem, w) && WriterReady(mem, w)
  }

  /** One store of the writer, or one private step between stores. */
  ghost predicate WriterStep(mem: Memory, w: Writer, mem': Memory, w': Writer) {
    match w
    case Idle =>
      // FindGreaterOrEqual fills prev; nothing is written
      && mem' == mem && w'.Prepared? && 1 <= w'.height <= MAX_HEIGHT && |w'.prev| == MAX_HEIGHT
      && FreshKey(mem, w'.key)
      && forall l :: 0 <= l < w'.height ==>
           if l < mem.maxHeight then Precedes(mem, w, w'.prev[l], w'.key, l) else w'.prev[l] == HEAD
    case Prepared(key, height, prev) =>
      if height > mem.maxHeight then
        // max_height_ is raised before any link of the new level exists
        mem' == mem.(maxHeight := height) && w' == w
      else
        // the new node is allocated; no link leads to it
        && mem' == mem.(nodes := mem.nodes + [Node(key, NullLinks(height))])
        && w' == Linking(|mem.nodes|, prev, 0, false)
    case Linking(x, prev, level, own) =>
      && x < |mem.nodes| && level < |prev| && prev[level] < |mem.nodes|
      && level < |mem.nodes[x].next| && level < |mem.nodes[prev[level]].next|
      && if !own then
           // x->NoBarrier_SetNext
           && mem' == SetNext(mem, x, level, mem.nodes[prev[level]].next[level])
           && w' == w.(own := true)
         else
           // prev[i]->SetNext
           && mem' == SetNext(mem, prev[level], level, Some(x))
           && w' == if level + 1 == |mem.nodes[x].next| then Idle else Linking(x, prev, level + 1, false)
  }

  function NullLinks(n: nat): seq<Link> {
    seq(n, _ => None)
  }

  function SetNext(mem: Memory, i: nat, l: nat, link: Link): Memory
    requires i < |mem.nodes| && l < |mem.nodes[i].next|
  {
    mem.(nodes := mem.nodes[i := mem.nodes[i].(next := mem.nodes[i].next[l := link])])
  }

  /** Nothing that decides who succeeds whom in level l has changed. */
  ghost predicate SameLevel(mem: Memory, w: Writer, mem': Memory, w': Writer, l: nat) {
    && |mem.nodes| <= |mem'.nodes|
    && (forall i :: 0 <= i < |mem.nodes| ==> mem'.nodes[i].key == mem.nodes[i].key)
    && (forall i: nat :: Linked(mem', w', i, l) <==> Linked(mem, w, i, l))
    && (forall i: nat :: Linked(mem, w, i, l) ==> mem'.nodes[i].next[l] == mem.nodes[i].next[l])
  }

  lemma SameLevelKeeps(mem: Memory, w: Writer, mem': Memory, w': Writer, l: nat)
    requires SameLevel(mem, w, mem', w', l)
    ensures forall i: nat :: Linked(mem, w, i, l) && Succeeds(mem, w, i, l) ==> Succeeds(mem', w', i, l)
    ensures forall p: nat, key :: Precedes(mem, w, p, key, l) ==> Precedes(mem', w', p, key, l)
  {
    hide Before;
    forall i: nat | Linked(mem, w, i, l) && Succeeds(mem, w, i, l)
      ensures Succeeds(mem', w', i, l)
    {
    }
    forall p: nat, key | Precedes(mem, w, p, key, l)
      ensures Precedes(mem', w', p, key, l)
    {
    }
  }

  lemma AllLevelsSame(mem: Memory, w: Writer, mem': Memory, w': Writer)
    requires Levels(mem, w) && forall l: nat :: SameLevel(mem, w, mem', w', l)
    ensures Levels(mem', w')
  {
    forall i: nat, l: nat | Linked(mem', w', i, l)
      ensures Succeeds(mem', w', i, l)
    {
      SameLevelKeeps(mem, w, mem', w', l);
      assert SameLevel(mem, w, mem', w', l);
      assert Linked(mem, w, i, l);
    }
  }

  lemma BeginKeeps(mem: Memory, mem': Memory, w': Writer)
    requires Inv(mem, Idle) && WriterStep(mem, Idle, mem', w')
    ensures Inv(mem', w')
  {
    hide Before, Succeeds;
    forall l: nat
      ensures SameLevel(mem, Idle, mem, w', l)
    {
    }
    AllLevelsSame(mem, Idle, mem, w');
    forall l | 0 <= l < w'.height
      ensures Precedes(mem, w', w'.prev[l], w'.key, l)
    {
      assert SameLevel(mem, Idle, mem, w', l);
      SameLevelKeeps(mem, Idle, mem, w', l);
    }
  }

  /** Raising max_height_ early is harmless. */
  lemma RaiseKeeps(mem: Memory, w: Writer, mem': Memory, w': Writer)
    requires Inv(mem, w) && w.Prepared? && w.height > mem.maxHeight && WriterStep(mem, w, mem', w')
    ensures Inv(mem', w')
  {
    hide Before, Succeeds;
    forall l: nat
      ensures SameLevel(mem, w, mem', w', l)
    {
    }
    AllLevelsSame(mem, w, mem', w');
    forall l | 0 <= l < w'.height
      ensures Precedes(mem', w', w'.prev[l], w'.key, l)
    {
      assert SameLevel(mem, w, mem', w', l);
      SameLevelKeeps(mem, w, mem', w', l);
    }
  }

  lemma AllocateKeeps(mem: Memory, w: Writer, mem': Memory, w': Writer)
    requires Inv(mem, w) && w.Prepared? && w.height <= mem.maxHeight && WriterStep(mem, w, mem', w')
    ensures Inv(mem', w')
  {
    hide Before, Succeeds;
    forall l: nat
      ensures SameLevel(mem, w, mem', w', l)
    {
    }
    AllLevelsSame(mem, w, mem', w');
    forall l | 0 <= l < w.height
      ensures Precedes(mem', w', w'.prev[l], w.key, l)
    {
      assert SameLevel(mem, w, mem', w', l);
      SameLevelKeeps(mem, w, mem', w', l);
    }
  }

  lemma OwnLinkKeeps(mem: Memory, w: Writer, mem': Memory, w': Writer)
    requires Inv(mem, w) && w.Linking? && !w.own && WriterStep(mem, w, mem', w')
    ensures Inv(mem', w')
  {
    hide Before, Succeeds;
    assert w.prev[w.level] != w.x by {
      assert Precedes(mem, w, w.prev[w.level], mem.nodes[w.x].key, w.level);
    }
    forall l: nat
      ensures SameLevel(mem, w, mem', w', l)
    {
    }
    AllLevelsSame(mem, w, mem', w');
    forall l | w.level <= l < |mem.nodes[w.x].next|
      ensures Precedes(mem', w', w.prev[l], mem.nodes[w.x].key, l)
    {
      assert SameLevel(mem, w, mem', w', l);
      SameLevelKeeps(mem, w, mem', w', l);
    }
  }

  /** Publishing the new node in one level puts it exactly where it belongs there. */
  lemma PublishKeeps(mem: Memory, w: Writer, mem': Memory, w': Writer)
    requires Inv(mem, w) && w.Linking? && w.own && WriterStep(mem, w, mem', w')
    ensures Inv(mem', w')
  {
    hide Before, Succeeds;
    var x, level, p := w.x, w.level, w.prev[w.level];
    assert Precedes(mem, w, p, mem.nodes[x].key, level);
    forall l: nat | l != level
      ensures SameLevel(mem, w, mem', w', l)
    {
    }
    forall l | level < l < |mem.nodes[x].next|
      ensures Precedes(mem', w', w.prev[l], mem.nodes[x].key, l)
    {
      assert SameLevel(mem, w, mem', w', l);
      SameLevelKeeps(mem, w, mem', w', l);
    }
    forall i: nat, l: nat | Linked(mem', w', i, l)
      ensures Succeeds(mem', w', i, l)
    {
      if l != level {
        assert SameLevel(mem, w, mem', w', l);
        SameLevelKeeps(mem, w, mem', w', l);
      } else {
        PublishedLevel(mem, w, mem', w', i);
      }
    }
  }

  /** The three nodes a store can concern: the new one, the one before it, any other. */
  lemma PublishedLevel(mem: Memory, w: Writer, mem': Memory, w': Writer, i: nat)
    requires Inv(mem, w) && w.Linking? && w.own && WriterStep(mem, w, mem', w')
    requires Linked(mem', w', i, w.level)
    ensures Succeeds(mem', w', i, w.level)
  {
    hide Before, Succeeds;
    var x, level, p := w.x, w.level, w.prev[w.level];
    assert Precedes(mem, w, p, mem.nodes[x].key, level);
    assert Grown(mem, w, mem', w', level, x);
    if i == x {
      NewSucceeds(mem, w, mem', w', p, level, x);
    } else if i == p {
      PredecessorSucceeds(mem, w, mem', w', p, level, x);
    } else {
      assert Succeeds(mem, w, i, level);
      OtherSucceeds(mem, w, mem', w', i, p, level, x);
    }
  }

  /** Level l has gained exactly node x. */
  ghost predicate Grown(mem: Memory, w: Writer, mem': Memory, w': Writer, l: nat, x: nat) {
    && 0 < x < |mem.nodes| == |mem'.nodes|
    && (forall i :: 0 <= i < |mem.nodes| ==> mem'.nodes[i].key == mem.nodes[i].key)
    && (forall i: nat :: Linked(mem', w', i, l) <==> Linked(mem, w, i, l) || i == x)
    && !Linked(mem, w, x, l)
  }

  lemma NewSucceeds(mem: Memory, w: Writer, mem': Memory, w': Writer, p: nat, l: nat, x: nat)
    requires Grown(mem, w, mem', w', l, x) && Precedes(mem, w, p, mem.nodes[x].key, l) && Succeeds(mem, w, p, l)
    requires mem'.nodes[x].next[l] == mem.nodes[p].next[l]
    ensures Succeeds(mem', w', x, l)
  {
    hide Before;
    OrderLaws();
  }

  lemma PredecessorSucceeds(mem: Memory, w: Writer, mem': Memory, w': Writer, p: nat, l: nat, x: nat)
    requires Grown(mem, w, mem', w', l, x) && Precedes(mem, w, p, mem.nodes[x].key, l)
    requires mem'.nodes[p].next[l] == Some(x)
    ensures Succeeds(mem', w', p, l)
  {
  }

  lemma OtherSucceeds(mem: Memory, w: Writer, mem': Memory, w': Writer, i: nat, p: nat, l: nat, x: nat)
    requires Grown(mem, w, mem', w', l, x) && Precedes(mem, w, p, mem.nodes[x].key, l)
    requires i != p && Linked(mem, w, i, l) && Succeeds(mem, w, i, l)
    requires forall a, b :: 0 < a < |mem.nodes| && 0 < b < |mem.nodes| && a != b ==>
               mem.nodes[a].key != mem.nodes[b].key
    requires mem'.nodes[i].next[l] == mem.nodes[i].next[l]
    ensures Succeeds(mem', w', i, l)
  {
    hide Before;
    OrderLaws();
  }

  /** Every store of the writer keeps the invariant. */
  lemma WriterKeeps(mem: Memory, w: Writer, mem': Memory, w': Writer)
    requires Inv(mem, w) && WriterStep(mem, w, mem', w')
    ensures Inv(mem', w')
  {
    hide Inv, WriterStep;
    match w
    case Idle => BeginKeeps(mem, mem', w');
    case Prepared(_, height, _) =>
      if height > mem.maxHeight { RaiseKeeps(mem, w, mem', w'); } else { AllocateKeeps(mem, w, mem', w'); }
    case Linking(_, _, _, own) =>
      if own { PublishKeeps(mem, w, mem', w'); } else { OwnLinkKeeps(mem, w, mem', w'); }
  }
}
