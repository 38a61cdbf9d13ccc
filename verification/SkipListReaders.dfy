/** Searches of the skip list (db/skiplist.h), interleaved read by read with the stores of
    Insert, over whole runs.
 */
module SkipListReaders {
  import opened Comparator
  import opened Dbformat
  import opened Options
  import opened SkipLists

  /** FindGreaterOrEqual, FindLessThan and FindLast. */
  datatype Goal = AtLeast(target: InternalKey) | LessThan(target: InternalKey) | Last

  /** Does a search step past a node with this key? */
  predicate Passes(goal: Goal, key: InternalKey) {
    goal.Last? || Before(key, goal.target)
  }

  datatype Reader =
    | Searching(goal: Goal, x: nat, level: nat)
    | Found(goal: Goal, x: nat, next: Link)

  /** One link read and what the search does with it. */
  function Read(mem: Memory, r: Reader): Reader
    requires r.Searching? && r.x < |mem.nodes| && r.level < |mem.nodes[r.x].next|
    requires mem.nodes[r.x].next[r.level].Some? ==> mem.nodes[r.x].next[r.level].value < |mem.nodes|
  {
    var next := mem.nodes[r.x].next[r.level];
    if next.Some? && Passes(r.goal, mem.nodes[next.value].key) then
      Searching(r.goal, next.value, r.level)
    else if r.level == 0 then
      Found(r.goal, r.x, next)
    else
      Searching(r.goal, r.x, r.level - 1)
  }

  /** A search stands on a node it may have passed, linked where it reads next. */
  predicate OnTrack(mem: Memory, w: Writer, r: Reader) {
    r.Searching? ==>
      && Linked(mem, w, r.x, r.level)
      && (r.x == HEAD || Passes(r.goal, mem.nodes[r.x].key))
  }

  /** x is the last node of the list that the goal passes, and next is the node after it. */
  ghost predicate Answers(mem: Memory, w: Writer, goal: Goal, x: nat, next: Link) {
    && Linked(mem, w, x, 0) && (x == HEAD || Passes(goal, mem.nodes[x].key))
    && (forall m: nat :: Linked(mem, w, m, 0) && m != HEAD && Passes(goal, mem.nodes[m].key) ==>
        m == x || Follows(mem, m, x))
    && match next
       case None => forall m: nat :: Linked(mem, w, m, 0) && m != HEAD ==> Passes(goal, mem.nodes[m].key)
       case Some(j) =>
         && Linked(mem, w, j, 0) && j != HEAD && !Passes(goal, mem.nodes[j].key)
         && forall m: nat :: Linked(mem, w, m, 0) && m != HEAD && !Passes(goal, mem.nodes[m].key) ==>
              m == j || Follows(mem, j, m)
  }

  lemma ReadInBounds(mem: Memory, w: Writer, r: Reader)
    requires Inv(mem, w) && r.Searching? && OnTrack(mem, w, r)
    ensures r.x < |mem.nodes| && r.level < |mem.nodes[r.x].next|
    ensures mem.nodes[r.x].next[r.level].Some? ==> mem.nodes[r.x].next[r.level].value < |mem.nodes|
  {
    assert Succeeds(mem, w, r.x, r.level);
  }

  /** The last read of a search decides its answer exactly for the list as it stands then. */
  lemma ReadStays(mem: Memory, w: Writer, r: Reader)
    requires Inv(mem, w) && r.Searching? && OnTrack(mem, w, r)
    ensures r.x < |mem.nodes| && r.level < |mem.nodes[r.x].next|
    ensures mem.nodes[r.x].next[r.level].Some? ==> mem.nodes[r.x].next[r.level].value < |mem.nodes|
    ensures OnTrack(mem, w, Read(mem, r))
    ensures Read(mem, r).Found? ==> Answers(mem, w, r.goal, Read(mem, r).x, Read(mem, r).next)
  {
    hide Before, Inv;
    ReadInBounds(mem, w, r);
    AtNode(mem, w, r.x, r.level);
    var r' := Read(mem, r);
    if r'.Found? {
      LastRead(mem, w, r.goal, r.x, r'.next);
    } else if r'.level != r.level {
      assert Linked(mem, w, r.x, r.level - 1);
    }
  }

  lemma AtNode(mem: Memory, w: Writer, i: nat, l: nat)
    requires Inv(mem, w) && Linked(mem, w, i, l)
    ensures Succeeds(mem, w, i, l)
    ensures forall m: nat :: Linked(mem, w, m, l) && m != i && m != HEAD && i != HEAD ==>
              mem.nodes[m].key != mem.nodes[i].key
  {
  }

  lemma LastRead(mem: Memory, w: Writer, goal: Goal, x: nat, next: Link)
    requires Linked(mem, w, x, 0) && Succeeds(mem, w, x, 0) && next == mem.nodes[x].next[0]
    requires forall m: nat :: Linked(mem, w, m, 0) && m != x && m != HEAD && x != HEAD ==>
               mem.nodes[m].key != mem.nodes[x].key
    requires x == HEAD || Passes(goal, mem.nodes[x].key)
    requires next.Some? ==> !Passes(goal, mem.nodes[next.value].key)
    ensures Answers(mem, w, goal, x, next)
  {
    hide Before;
    OrderLaws();
  }

  /** No store of the writer disturbs a search: nodes stay linked where they were. */
  lemma WriterDisturbsNone(mem: Memory, w: Writer, mem': Memory, w': Writer, r: Reader)
    requires Inv(mem, w) && WriterStep(mem, w, mem', w') && OnTrack(mem, w, r)
    ensures OnTrack(mem', w', r)
  {
    hide Before, Levels;
    forall i: nat, l: nat | Linked(mem, w, i, l)
      ensures Linked(mem', w', i, l) && mem'.nodes[i].key == mem.nodes[i].key
    {
      LinkedStays(mem, w, mem', w', i, l);
    }
  }

  lemma LinkedStays(mem: Memory, w: Writer, mem': Memory, w': Writer, i: nat, l: nat)
    requires Inv(mem, w) && WriterStep(mem, w, mem', w') && Linked(mem, w, i, l)
    ensures Linked(mem', w', i, l) && mem'.nodes[i].key == mem.nodes[i].key
  {
    hide Before, Levels, Precedes;
  }

  /** The whole system: shared memory, the writer and every search ever started. */
  datatype State = State(mem: Memory, w: Writer, readers: seq<Reader>)

  datatype Event = Write | Start(goal: Goal, level: nat) | Step(reader: nat)

  ghost predicate Moves(s: State, e: Event, s': State) {
    match e
    case Write => WriterStep(s.mem, s.w, s'.mem, s'.w) && s'.readers == s.readers
    case Start(goal, level) =>
      // max_height_ is read without a barrier: any height may be seen, stale or early
      level < MAX_HEIGHT && s' == s.(readers := s.readers + [Searching(goal, HEAD, level)])
    case Step(r) =>
      && r < |s.readers| && s.readers[r].Searching?
      && s.readers[r].x < |s.mem.nodes| && s.readers[r].level < |s.mem.nodes[s.readers[r].x].next|
      && (var next := s.mem.nodes[s.readers[r].x].next[s.readers[r].level];
          next.Some? ==> next.value < |s.mem.nodes|)
      && s' == s.(readers := s.readers[r := Read(s.mem, s.readers[r])])
  }

  /** The constructor: a head of full height with null links, and max_height_ 1. */
  predicate Initial(s: State) {
    && |s.mem.nodes| == 1 && s.mem.nodes[HEAD].next == NullLinks(MAX_HEIGHT)
    && s.mem.maxHeight == 1 && s.w == Idle && s.readers == []
  }

  ghost predicate Run(states: seq<State>, events: seq<Event>) {
    && |states| == |events| + 1 && Initial(states[0])
    && forall i :: 0 <= i < |events| ==> Moves(states[i], events[i], states[i + 1])
  }

  ghost predicate Good(s: State) {
    Inv(s.mem, s.w) && forall r :: 0 <= r < |s.readers| ==> OnTrack(s.mem, s.w, s.readers[r])
  }

  lemma InitialGood(s: State)
    requires Initial(s)
    ensures Good(s)
  {
  }

  lemma MovesKeep(s: State, e: Event, s': State)
    requires Good(s) && Moves(s, e, s')
    ensures Good(s')
  {
    hide Inv, WriterStep, OnTrack;
    match e
    case Write =>
      WriterKeeps(s.mem, s.w, s'.mem, s'.w);
      forall r | 0 <= r < |s'.readers|
        ensures OnTrack(s'.mem, s'.w, s'.readers[r])
      {
        WriterDisturbsNone(s.mem, s.w, s'.mem, s'.w, s.readers[r]);
      }
    case Start(goal, level) =>
      HeadOnTrack(s.mem, s.w, goal, level);
    case Step(r) =>
      ReadStays(s.mem, s.w, s.readers[r]);
  }

  lemma HeadOnTrack(mem: Memory, w: Writer, goal: Goal, level: nat)
    requires Inv(mem, w) && level < MAX_HEIGHT
    ensures OnTrack(mem, w, Searching(goal, HEAD, level))
  {
  }

  lemma {:induction false} RunStaysGood(states: seq<State>, events: seq<Event>, i: nat)
    requires Run(states, events) && i < |states|
    ensures Good(states[i])
  {
    hide Good, Moves, Initial;
    if i == 0 {
      InitialGood(states[0]);
    } else {
      RunStaysGood(states, events, i - 1);
      MovesKeep(states[i - 1], events[i - 1], states[i]);
    }
  }

  /** In every run, a search that ends has the answer for the list at its last read. */
  lemma SearchIsExact(states: seq<State>, events: seq<Event>, i: nat, r: nat)
    requires Run(states, events) && i < |events| && events[i] == Step(r)
    ensures r < |states[i].readers| == |states[i + 1].readers|
    ensures states[i + 1].readers[r].Found? ==>
              var f := states[i + 1].readers[r];
              f.goal == states[i].readers[r].goal && Answers(states[i].mem, states[i].w, f.goal, f.x, f.next)
  {
    hide Inv, WriterStep, OnTrack, Answers;
    RunStaysGood(states, events, i);
    assert Moves(states[i], events[i], states[i + 1]);
    ReadStays(states[i].mem, states[i].w, states[i].readers[r]);
  }

  lemma {:induction false} StaysLinked(states: seq<State>, events: seq<Event>, i: nat, j: nat, x: nat, l: nat)
    requires Run(states, events) && i <= j < |states| && Linked(states[i].mem, states[i].w, x, l)
    ensures Linked(states[j].mem, states[j].w, x, l)
    ensures states[j].mem.nodes[x].key == states[i].mem.nodes[x].key
    decreases j
  {
    hide Inv, WriterStep, Initial;
    if i < j {
      StaysLinked(states, events, i, j - 1, x, l);
      RunStaysGood(states, events, j - 1);
      assert Moves(states[j - 1], events[j - 1], states[j]);
      if events[j - 1].Write? {
        LinkedStays(states[j - 1].mem, states[j - 1].w, states[j].mem, states[j].w, x, l);
      }
    }
  }

  /** A key in the list before a search for it ends is found: no insert can hide it. */
  lemma SearchNeverMisses(states: seq<State>, events: seq<Event>, i: nat, j: nat, r: nat, x: nat)
    requires Run(states, events) && i <= j < |events| && events[j] == Step(r)
    requires x != HEAD && Linked(states[i].mem, states[i].w, x, 0)
    requires r < |states[j + 1].readers| && states[j + 1].readers[r].Found?
    requires states[j + 1].readers[r].goal == AtLeast(states[i].mem.nodes[x].key)
    ensures states[j + 1].readers[r].next == Some(x)
  {
    hide Inv, Before, Follows, Moves, Initial;
    SearchIsExact(states, events, j, r);
    StaysLinked(states, events, i, j, x, 0);
    RunStaysGood(states, events, j);
    ExactHit(states[j].mem, states[j].w, states[j + 1].readers[r].x, states[j + 1].readers[r].next, x);
  }

  lemma ExactHit(mem: Memory, w: Writer, before: nat, next: Link, x: nat)
    requires Inv(mem, w) && x != HEAD && Linked(mem, w, x, 0)
    requires Answers(mem, w, AtLeast(mem.nodes[x].key), before, next)
    ensures next == Some(x)
  {
    hide Before, Levels, WriterReady;
    OrderLaws();
    assert !Passes(AtLeast(mem.nodes[x].key), mem.nodes[x].key);
  }
}
