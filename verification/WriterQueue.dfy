/** Group commit (DBImpl::Write, DBImpl::BuildBatchGroup in db/db_impl.cc): writers queue up,
    the one in front leads, writes the batches of a run of followers as one log record, and
    completes them all.  Every writer that has ever arrived is numbered in queue order, so
    the queue is the writers from `head` on.
 */
module WriterQueues {
  import opened Coding
  import opened Comparator
  import opened Dbformat
  import opened Options
  import opened WriteBatches

  /** A null batch asks for a memtable switch only. */
  datatype Writer = Writer(batch: Option<seq<Op>>, sync: bool)

  datatype Outcome = Done | Failed

  function ByteSize(ops: seq<Op>): nat {
    HEADER + |Body(ops)|
  }

  function OpsIn(w: Writer): seq<Op> {
    if w.batch.Some? then w.batch.value else []
  }

  /** The operations of the writers from a up to b, in queue order. */
  function OpsOf(ws: seq<Writer>, a: nat, b: nat): seq<Op>
    requires a <= b <= |ws|
    decreases b - a
  {
    if a == b then [] else OpsIn(ws[a]) + OpsOf(ws, a + 1, b)
  }

  /** The most bytes a group led by a batch of this size may hold. */
  function MaxSize(size: nat): nat {
    if size <= 0x2_0000 then size + 0x2_0000 else 0x10_0000
  }

  /** The first writer from i on that does not ride along. */
  function Reach(ws: seq<Writer>, i: nat, size: nat, maxSize: nat, sync: bool): (r: nat)
    requires i <= |ws|
    ensures i <= r <= |ws|
    decreases |ws| - i
  {
    if i == |ws| || (ws[i].sync && !sync) then i
    else if ws[i].batch.None? then Reach(ws, i + 1, size, maxSize, sync)
    else if size + ByteSize(ws[i].batch.value) > maxSize then i
    else Reach(ws, i + 1, size + ByteSize(ws[i].batch.value), maxSize, sync)
  }

  function GroupEnd(ws: seq<Writer>, start: nat): (end: nat)
    requires start < |ws| && ws[start].batch.Some?
    ensures start < end <= |ws|
  {
    var size := ByteSize(ws[start].batch.value);
    Reach(ws, start + 1, size, MaxSize(size), ws[start].sync)
  }

  /** The bytes of the batches that the writers from a up to b bring, headers included. */
  function BatchBytes(ws: seq<Writer>, a: nat, b: nat): nat
    requires a <= b <= |ws|
    decreases b - a
  {
    if a == b then 0
    else (if ws[a].batch.Some? then 12 + |Body(ws[a].batch.value)| else 0) + BatchBytes(ws, a + 1, b)
  }

  /** Whoever rides along may, and whoever comes first after them may not. */
  lemma {:induction false} RidersAreLongest(ws: seq<Writer>, i: nat, size: nat, maxSize: nat, sync: bool)
    requires i <= |ws|
    ensures var r := Reach(ws, i, size, maxSize, sync);
            && (forall id :: i <= id < r ==>
                  && (ws[id].sync ==> sync)
                  && (ws[id].batch.Some? ==> size + BatchBytes(ws, i, id + 1) <= maxSize))
            && (r < |ws| ==>
                  || (ws[r].sync && !sync)
                  || (ws[r].batch.Some? && size + BatchBytes(ws, i, r + 1) > maxSize))
    decreases |ws| - i
  {
    hide Body;
    if i < |ws| {
      assert BatchBytes(ws, i + 1, i + 1) == 0;
      var own := if ws[i].batch.Some? then 12 + |Body(ws[i].batch.value)| else 0;
      if !(ws[i].sync && !sync) && size + own <= maxSize {
        RidersAreLongest(ws, i + 1, size + own, maxSize, sync);
      } else if !(ws[i].sync && !sync) && ws[i].batch.None? {
        RidersAreLongest(ws, i + 1, size, maxSize, sync);
      }
    }
  }

  /** The group is the longest front of the queue without a sync write under a leader that
      does not sync and within the leader's size and 128 KB, or 1 MB for a large leader. */
  lemma GroupIsLongest(ws: seq<Writer>, start: nat)
    requires start < |ws| && ws[start].batch.Some?
    ensures var end, own := GroupEnd(ws, start), 12 + |Body(ws[start].batch.value)|;
            var limit := if own <= 131072 then own + 131072 else 1048576;
            && (forall id :: start < id < end ==>
                  && (ws[id].sync ==> ws[start].sync)
                  && (ws[id].batch.Some? ==> BatchBytes(ws, start, id + 1) <= limit))
            && (end < |ws| ==>
                  || (ws[end].sync && !ws[start].sync)
                  || (ws[end].batch.Some? && BatchBytes(ws, start, end + 1) > limit))
  {
    hide Body, Reach;
    var own := 12 + |Body(ws[start].batch.value)|;
    RidersAreLongest(ws, start + 1, own, MaxSize(own), ws[start].sync);
  }

  /** No sync write rides with a leader that does not sync. */
  lemma {:induction false} NoSyncRides(ws: seq<Writer>, i: nat, size: nat, maxSize: nat, sync: bool, id: nat)
    requires i <= |ws| && i <= id < Reach(ws, i, size, maxSize, sync)
    ensures ws[id].sync ==> sync
    decreases |ws| - i
  {
    if id > i {
      if ws[i].batch.None? {
        NoSyncRides(ws, i + 1, size, maxSize, sync, id);
      } else {
        NoSyncRides(ws, i + 1, size + ByteSize(ws[i].batch.value), maxSize, sync, id);
      }
    }
  }

  /** What rides along keeps the group within its bound. */
  lemma {:induction false} RidersFit(ws: seq<Writer>, i: nat, size: nat, maxSize: nat, sync: bool)
    requires i <= |ws|
    ensures var r := Reach(ws, i, size, maxSize, sync);
            OpsOf(ws, i, r) != [] ==> size + |Body(OpsOf(ws, i, r))| <= maxSize
    decreases |ws| - i
  {
    hide Body;
    if !(i == |ws| || (ws[i].sync && !sync)) {
      if ws[i].batch.None? {
        RidersFit(ws, i + 1, size, maxSize, sync);
        assert [] + OpsOf(ws, i + 1, Reach(ws, i, size, maxSize, sync))
          == OpsOf(ws, i + 1, Reach(ws, i, size, maxSize, sync));
      } else if size + ByteSize(ws[i].batch.value) <= maxSize {
        var ops := ws[i].batch.value;
        var r := Reach(ws, i, size, maxSize, sync);
        RidersFit(ws, i + 1, size + ByteSize(ops), maxSize, sync);
        BodyAppends(ops, OpsOf(ws, i + 1, r));
        if OpsOf(ws, i + 1, r) == [] {
          assert ops + OpsOf(ws, i + 1, r) == ops;
        }
      }
    }
  }

  lemma {:induction false} OpsSplit(ws: seq<Writer>, a: nat, b: nat, c: nat)
    requires a <= b <= c <= |ws|
    ensures OpsOf(ws, a, c) == OpsOf(ws, a, b) + OpsOf(ws, b, c)
    decreases b - a
  {
    if a < b {
      OpsSplit(ws, a + 1, b, c);
    }
  }

  lemma {:induction false} OpsOfPrefix(ws: seq<Writer>, more: seq<Writer>, a: nat, b: nat)
    requires a <= b <= |ws|
    ensures OpsOf(ws + more, a, b) == OpsOf(ws, a, b)
    decreases b - a
  {
    if a < b {
      OpsOfPrefix(ws, more, a + 1, b);
    }
  }

  // ---- the machine ----

  /** Where a leader stands once it has built its group and dropped the mutex. */
  datatype Phase = ToLog | ToSync | Inserting(n: nat) | Broken(syncError: bool)

  datatype Active = Active(start: nat, end: nat, seen: nat, first: nat, ops: seq<Op>, logged: bool, phase: Phase)

  /** A turn at the front, over: writers start up to end completed together.  `wrote` says
      that a group was built and logged or at least tried; `seen` is how many writers had
      arrived when it was built. */
  datatype Turn = Turn(start: nat, end: nat, seen: nat, first: nat, ops: seq<Op>, wrote: bool, logged: bool,
                       outcome: Outcome)

  datatype State = State(writers: seq<Writer>, head: nat, outcomes: seq<Outcome>, active: Option<Active>,
                         lastSequence: nat, log: seq<Bytes>, mem: seq<Entry>, bgError: bool, turns: seq<Turn>)

  datatype Event =
    | Arrive(w: Writer)
    | Lead(room: bool)
    | AppendLog(ok: bool)
    | SyncLog(ok: bool)
    | InsertOne
    | Finish
    | BackgroundError

  /** The first writer of the queue gives up its turn at once, alone. */
  function PassTurn(s: State, outcome: Outcome): State
    requires s.head < |s.writers|
  {
    s.(head := s.head + 1, outcomes := s.outcomes + [outcome],
       turns := s.turns + [Turn(s.head, s.head + 1, |s.writers|, s.lastSequence + 1, [], false, false, outcome)])
  }

  ghost predicate Step(s: State, e: Event, s': State) {
    match e
    case Arrive(w) => s' == s.(writers := s.writers + [w])
    case BackgroundError => s' == s.(bgError := true)
    case Lead(room) =>
      // MakeRoomForWrite: an earlier background error or a log file that cannot be made
      && s.active == None && s.head < |s.writers| && (s.bgError ==> !room)
      && if !room then s' == PassTurn(s, Failed)
         else if s.writers[s.head].batch.None? then s' == PassTurn(s, Done)
         else
           var end := GroupEnd(s.writers, s.head);
           var ops := OpsOf(s.writers, s.head, end);
           && s.lastSequence + |ops| <= MAX_SEQUENCE
           && s' == s.(active := Some(Active(s.head, end, |s.writers|, s.lastSequence + 1, ops, false, ToLog)))
    case AppendLog(ok) =>
      && s.active.Some? && s.active.value.phase == ToLog
      && var a := s.active.value;
         s' == if !ok then s.(active := Some(a.(phase := Broken(false))))
               else s.(log := s.log + [Rep(a.first, a.ops)],
                       active := Some(a.(logged := true, phase := if LeaderSyncs(s, a) then ToSync else Inserting(0))))
    case SyncLog(ok) =>
      && s.active.Some? && s.active.value.phase == ToSync
      && s' == s.(active := Some(s.active.value.(phase := if ok then Inserting(0) else Broken(true))))
    case InsertOne =>
      && s.active.Some? && s.active.value.phase.Inserting?
      && var a := s.active.value;
         && a.phase.n < |a.ops| && a.first + |a.ops| <= MAX_SEQUENCE + 1
         && s' == s.(mem := s.mem + [Numbered(a.first, a.ops)[a.phase.n]],
                     active := Some(a.(phase := Inserting(a.phase.n + 1))))
    case Finish =>
      && s.active.Some?
      && var a := s.active.value;
         && (a.phase.Broken? || (a.phase.Inserting? && a.phase.n == |a.ops|))
         && s.head == a.start < a.end
         && var outcome := if a.phase.Broken? then Failed else Done;
            s' == s.(bgError := s.bgError || a.phase == Broken(true),
                     lastSequence := s.lastSequence + |a.ops|,
                     head := a.end,
                     outcomes := s.outcomes + seq(a.end - a.start, _ => outcome),
                     active := None,
                     turns := s.turns + [Turn(a.start, a.end, a.seen, a.first, a.ops, true, a.logged, outcome)])
  }

  predicate LeaderSyncs(s: State, a: Active) {
    a.start < |s.writers| && s.writers[a.start].sync
  }

  // ---- what every reachable state is made of ----

  /** The log records of the turns, in order. */
  function LogOf(ts: seq<Turn>): seq<Bytes> {
    if ts == [] then []
    else LogOf(ts[..|ts| - 1]) + (var t := ts[|ts| - 1]; if t.logged then [Rep(t.first, t.ops)] else [])
  }

  function InMem(t: Turn): seq<Entry> {
    if t.outcome == Done && t.first + |t.ops| <= MAX_SEQUENCE + 1 then Numbered(t.first, t.ops) else []
  }

  /** The memtable contents the turns amount to: the batches of the successful ones. */
  function MemOf(ts: seq<Turn>): seq<Entry> {
    if ts == [] then [] else MemOf(ts[..|ts| - 1]) + InMem(ts[|ts| - 1])
  }

  /** A turn took the writers the code would have taken, with their operations in order. */
  ghost predicate FairTurn(ws: seq<Writer>, t: Turn) {
    && t.start < t.end <= t.seen <= |ws| && t.first + |t.ops| <= MAX_SEQUENCE + 1
    && if t.wrote then
         && ws[t.start].batch.Some?
         && t.end == GroupEnd(ws[..t.seen], t.start) && t.ops == OpsOf(ws, t.start, t.end)
         && (t.outcome == Done ==> t.logged)
       else
         t.end == t.start + 1 && t.ops == [] && !t.logged && (t.outcome == Done ==> ws[t.start].batch.None?)
  }

  /** Turn i starts, in writers and in sequence numbers, where the one before it ended. */
  predicate Joins(ts: seq<Turn>, base: nat, i: nat)
    requires i < |ts|
  {
    && ts[i].start == (if i == 0 then 0 else ts[i - 1].end)
    && ts[i].first == (if i == 0 then base + 1 else ts[i - 1].first + |ts[i - 1].ops|)
  }

  /** Turns follow each other without gap or overlap. */
  ghost predicate Tiled(ts: seq<Turn>, base: nat, head: nat, last: nat) {
    && (forall i :: 0 <= i < |ts| ==> Joins(ts, base, i))
    && head == (if ts == [] then 0 else ts[|ts| - 1].end)
    && last + 1 == (if ts == [] then base + 1 else ts[|ts| - 1].first + |ts[|ts| - 1].ops|)
  }

  /** Every completed writer has the outcome of the turn it was part of. */
  ghost predicate Completed(ts: seq<Turn>, outcomes: seq<Outcome>) {
    forall i, id: nat :: 0 <= i < |ts| && ts[i].start <= id < ts[i].end ==> HasOutcome(outcomes, id, ts[i].outcome)
  }

  predicate HasOutcome(outcomes: seq<Outcome>, id: nat, outcome: Outcome) {
    id < |outcomes| && outcomes[id] == outcome
  }

  ghost predicate FairActive(s: State) {
    match s.active
    case None => s.log == LogOf(s.turns) && s.mem == MemOf(s.turns)
    case Some(a) =>
      && a.start == s.head && a.start < a.end <= a.seen <= |s.writers|
      && s.writers[a.start].batch.Some?
      && a.end == GroupEnd(s.writers[..a.seen], a.start) && a.ops == OpsOf(s.writers, a.start, a.end)
      && a.first == s.lastSequence + 1 && a.first + |a.ops| <= MAX_SEQUENCE + 1
      && (a.phase == ToLog || a.phase == Broken(false) ==> !a.logged)
      && (a.phase == ToSync || a.phase.Inserting? || a.phase == Broken(true) ==> a.logged)
      && s.log == LogOf(s.turns) + (if a.logged then [Rep(a.first, a.ops)] else [])
      && (a.phase.Inserting? ==> a.phase.n <= |a.ops|)
      && s.mem == MemOf(s.turns) + (if a.phase.Inserting? then Numbered(a.first, a.ops)[..a.phase.n] else [])
  }

  ghost predicate Inv(s: State, base: nat) {
    && |s.outcomes| == s.head <= |s.writers| && s.lastSequence <= MAX_SEQUENCE
    && (forall i :: 0 <= i < |s.turns| ==> FairTurn(s.writers, s.turns[i]))
    && Tiled(s.turns, base, s.head, s.lastSequence)
    && Completed(s.turns, s.outcomes)
    && FairActive(s)
  }

  lemma ArriveKeeps(s: State, e: Event, s': State, base: nat)
    requires Inv(s, base) && e.Arrive? && Step(s, e, s')
    ensures Inv(s', base)
  {
    hide GroupEnd, OpsOf, Tiled, Completed, LogOf, MemOf, Rep;
    var more := [e.w];
    forall i | 0 <= i < |s.turns|
      ensures FairTurn(s'.writers, s'.turns[i])
    {
      var t := s.turns[i];
      assert FairTurn(s.writers, t);
      OpsOfPrefix(s.writers, more, t.start, t.end);
      assert (s.writers + more)[..t.seen] == s.writers[..t.seen];
    }
    if s.active.Some? {
      var a := s.active.value;
      OpsOfPrefix(s.writers, more, a.start, a.end);
      assert (s.writers + more)[..a.seen] == s.writers[..a.seen];
    }
  }

  lemma LeadKeeps(s: State, e: Event, s': State, base: nat)
    requires Inv(s, base) && e.Lead? && Step(s, e, s')
    ensures Inv(s', base)
  {
    hide GroupEnd, OpsOf, LogOf, MemOf, Rep;
    if s'.active.Some? {
      assert s.writers[..|s.writers|] == s.writers;
      assert s.log + [] == s.log && s.mem + [] == s.mem;
    } else {
      PassKeeps(s, s'.outcomes[s.head], base);
    }
  }

  lemma PassKeeps(s: State, outcome: Outcome, base: nat)
    requires Inv(s, base) && s.active == None && s.head < |s.writers|
    requires outcome == Done ==> s.writers[s.head].batch.None?
    ensures Inv(PassTurn(s, outcome), base)
  {
    hide GroupEnd, OpsOf, Rep, Tiled, Completed, LogOf, MemOf, Numbered;
    var s' := PassTurn(s, outcome);
    var t := s'.turns[|s.turns|];
    NoEntries(t);
    assert LogOf(s.turns) + [] == LogOf(s.turns) && MemOf(s.turns) + [] == MemOf(s.turns);
    assert FairTurn(s.writers, t);
    TurnAdded(s, s', t, [outcome], base);
  }

  lemma NoEntries(t: Turn)
    requires t.ops == []
    ensures InMem(t) == []
  {
  }

  /** A turn that is over, with its writers told and its log record and entries in place. */
  lemma TurnAdded(s: State, s': State, t: Turn, more: seq<Outcome>, base: nat)
    requires Inv(s, base) && FairTurn(s.writers, t) && t.start == s.head && t.first == s.lastSequence + 1
    requires |more| == t.end - t.start && forall i :: 0 <= i < |more| ==> more[i] == t.outcome
    requires s'.writers == s.writers && s'.head == t.end && s'.active == None
             && s'.lastSequence == s.lastSequence + |t.ops|
    requires s'.outcomes == s.outcomes + more && s'.turns == s.turns + [t]
    requires s'.log == LogOf(s.turns) + (if t.logged then [Rep(t.first, t.ops)] else [])
    requires s'.mem == MemOf(s.turns) + InMem(t)
    ensures Inv(s', base)
  {
    hide GroupEnd, OpsOf, Rep, Tiled, Completed, InMem;
    assert s'.turns[..|s.turns|] == s.turns;
    TiledGrows(s.turns, base, s.head, s.lastSequence, t);
    CompletedGrows(s.turns, s.outcomes, t, more, base, s.head, s.lastSequence);
    FairBound(s.writers, t);
    forall i | 0 <= i < |s'.turns|
      ensures FairTurn(s'.writers, s'.turns[i])
    {
      assert i < |s.turns| ==> s'.turns[i] == s.turns[i];
    }
  }

  lemma FairBound(ws: seq<Writer>, t: Turn)
    requires FairTurn(ws, t)
    ensures t.start < t.end <= |ws| && t.first + |t.ops| <= MAX_SEQUENCE + 1
  {
  }

  lemma TiledGrows(ts: seq<Turn>, base: nat, head: nat, last: nat, t: Turn)
    requires Tiled(ts, base, head, last) && t.start == head && t.first == last + 1
    ensures Tiled(ts + [t], base, t.end, last + |t.ops|)
  {
    var ts' := ts + [t];
    forall i | 0 <= i < |ts'|
      ensures Joins(ts', base, i)
    {
      if i < |ts| {
        assert Joins(ts, base, i);
      }
    }
  }

  lemma CompletedGrows(ts: seq<Turn>, outcomes: seq<Outcome>, t: Turn, more: seq<Outcome>, base: nat, head: nat,
                       last: nat)
    requires Completed(ts, outcomes) && Tiled(ts, base, head, last)
    requires |outcomes| == head == t.start < t.end && |more| == t.end - t.start
    requires forall i :: 0 <= i < |more| ==> more[i] == t.outcome
    ensures Completed(ts + [t], outcomes + more)
  {
    hide Tiled;
    var ts', all := ts + [t], outcomes + more;
    forall i, id: nat | 0 <= i < |ts'| && ts'[i].start <= id < ts'[i].end
      ensures HasOutcome(all, id, ts'[i].outcome)
    {
      if i < |ts| {
        assert ts'[i] == ts[i];
        assert HasOutcome(outcomes, id, ts[i].outcome);
      } else {
        assert ts'[i] == t && all[id] == more[id - head];
      }
    }
  }

  lemma LogKeeps(s: State, e: Event, s': State, base: nat)
    requires Inv(s, base) && (e.AppendLog? || e.SyncLog? || e.BackgroundError?) && Step(s, e, s')
    ensures Inv(s', base)
  {
    hide GroupEnd, OpsOf, Tiled, Completed, LogOf, MemOf, Rep, FairTurn, Numbered;
    if s.active.Some? {
      var a := s.active.value;
      assert LogOf(s.turns) + [] == LogOf(s.turns) && MemOf(s.turns) + [] == MemOf(s.turns);
      NumberedNone(a.first, a.ops);
    }
  }

  lemma InsertKeeps(s: State, e: Event, s': State, base: nat)
    requires Inv(s, base) && e.InsertOne? && Step(s, e, s')
    ensures Inv(s', base)
  {
    hide GroupEnd, OpsOf, Tiled, Completed, LogOf, MemOf, Rep, FairTurn, Numbered;
    var a := s.active.value;
    InsertedOne(MemOf(s.turns), a.first, a.ops, a.phase.n);
  }

  lemma InsertedOne(mem: seq<Entry>, first: nat, ops: seq<Op>, n: nat)
    requires first + |ops| <= MAX_SEQUENCE + 1 && n < |ops|
    ensures |Numbered(first, ops)| == |ops|
    ensures mem + Numbered(first, ops)[..n] + [Numbered(first, ops)[n]] == mem + Numbered(first, ops)[..n + 1]
  {
    PrefixStep(mem, Numbered(first, ops), n);
  }

  lemma PrefixStep<T>(a: seq<T>, b: seq<T>, n: nat)
    requires n < |b|
    ensures a + b[..n] + [b[n]] == a + b[..n + 1]
  {
  }

  lemma NumberedNone(first: nat, ops: seq<Op>)
    requires first + |ops| <= MAX_SEQUENCE + 1
    ensures Numbered(first, ops)[..0] == []
  {
  }

  lemma FinishKeeps(s: State, e: Event, s': State, base: nat)
    requires Inv(s, base) && e.Finish? && Step(s, e, s')
    ensures Inv(s', base)
  {
    hide GroupEnd, OpsOf, Rep, Numbered, Tiled, Completed, LogOf, MemOf;
    var a := s.active.value;
    var t := s'.turns[|s.turns|];
    assert MemOf(s.turns) + [] == MemOf(s.turns);
    if a.phase.Inserting? {
      NumberedWhole(a.first, a.ops);
    }
    assert FairTurn(s.writers, t);
    var more := seq(a.end - a.start, _ => t.outcome);
    assert s'.outcomes == s.outcomes + more;
    TurnAdded(s, s', t, more, base);
  }

  lemma NumberedWhole(first: nat, ops: seq<Op>)
    requires first + |ops| <= MAX_SEQUENCE + 1
    ensures Numbered(first, ops)[..|ops|] == Numbered(first, ops)
  {
  }

  /** Every step of every writer keeps the invariant. */
  lemma StepKeeps(s: State, e: Event, s': State, base: nat)
    requires Inv(s, base) && Step(s, e, s')
    ensures Inv(s', base)
  {
    hide Inv, Step;
    match e
    case Arrive(_) => ArriveKeeps(s, e, s', base);
    case Lead(_) => LeadKeeps(s, e, s', base);
    case Finish => FinishKeeps(s, e, s', base);
    case InsertOne => InsertKeeps(s, e, s', base);
    case _ => LogKeeps(s, e, s', base);
  }

  // ---- whole runs ----

  predicate Initial(s: State, base: nat) {
    base <= MAX_SEQUENCE && s == State([], 0, [], None, base, [], [], false, [])
  }

  ghost predicate Run(states: seq<State>, events: seq<Event>, base: nat) {
    && |states| == |events| + 1 && Initial(states[0], base)
    && forall i :: 0 <= i < |events| ==> Step(states[i], events[i], states[i + 1])
  }

  lemma {:induction false} RunKeeps(states: seq<State>, events: seq<Event>, base: nat, i: nat)
    requires Run(states, events, base) && i < |states|
    ensures Inv(states[i], base)
  {
    hide Step;
    if i > 0 {
      hide Inv, Initial;
      RunKeeps(states, events, base, i - 1);
      StepKeeps(states[i - 1], events[i - 1], states[i], base);
    }
  }

  /** Completions, log, memtable and writers only ever grow at the end. */
  ghost predicate Extends(s: State, s': State) {
    && s.outcomes <= s'.outcomes && s.log <= s'.log && s.mem <= s'.mem && s.turns <= s'.turns && s.writers <= s'.writers
    && s.lastSequence <= s'.lastSequence
  }

  lemma StepExtends(s: State, e: Event, s': State)
    requires Step(s, e, s')
    ensures Extends(s, s')
  {
    hide Rep, GroupEnd, OpsOf, Numbered;
  }

  /** So each writer completes once, and what it was told then stays true. */
  lemma {:induction false} RunExtends(states: seq<State>, events: seq<Event>, base: nat, i: nat, j: nat)
    requires Run(states, events, base) && i <= j < |states|
    ensures Extends(states[i], states[j])
    decreases j
  {
    hide Step, Initial;
    if i < j {
      RunExtends(states, events, base, i, j - 1);
      StepExtends(states[j - 1], events[j - 1], states[j]);
    }
  }

  // ---- what users rely on ----

  /** In every run each completed writer belongs to exactly one turn and has its outcome:
      the one its leader returned. */
  lemma {:induction false} TurnOf(s: State, base: nat, id: nat, n: nat) returns (i: nat)
    requires Inv(s, base) && n <= |s.turns| && id < (if n == 0 then 0 else s.turns[n - 1].end)
    ensures i < n && s.turns[i].start <= id < s.turns[i].end
    ensures id < |s.outcomes| && s.outcomes[id] == s.turns[i].outcome
    ensures FairTurn(s.writers, s.turns[i])
  {
    hide FairTurn, FairActive, GroupEnd, OpsOf;
    assert Joins(s.turns, base, n - 1);
    if s.turns[n - 1].start <= id {
      i := n - 1;
      assert HasOutcome(s.outcomes, id, s.turns[i].outcome);
    } else {
      i := TurnOf(s, base, id, n - 1);
    }
  }

  /** A turn that wrote: the operations of its writers in queue order, with consecutive
      numbers; no sync writer in it unless its leader syncs; and not too big. */
  lemma GroupIsFair(ws: seq<Writer>, t: Turn, id: nat)
    requires FairTurn(ws, t) && t.wrote && t.start <= id < t.end
    ensures ws[id].sync ==> ws[t.start].sync
    ensures t.ops == OpsOf(ws, t.start, id) + (OpsIn(ws[id]) + OpsOf(ws, id + 1, t.end))
    ensures OpsOf(ws, t.start + 1, t.end) != [] ==>
              ByteSize(ws[t.start].batch.value) + |Body(OpsOf(ws, t.start + 1, t.end))|
              <= MaxSize(ByteSize(ws[t.start].batch.value))
  {
    hide Body, OpsOf, OpsIn;
    var seen := ws[..t.seen];
    var size := ByteSize(seen[t.start].batch.value);
    if id > t.start {
      NoSyncRides(seen, t.start + 1, size, MaxSize(size), seen[t.start].sync, id);
    }
    RidersFit(seen, t.start + 1, size, MaxSize(size), seen[t.start].sync);
    assert seen + ws[t.seen..] == ws;
    OpsOfPrefix(seen, ws[t.seen..], t.start + 1, t.end);
    OpsAround(ws, t.start, id, t.end);
  }

  lemma OpsAround(ws: seq<Writer>, a: nat, id: nat, c: nat)
    requires a <= id < c <= |ws|
    ensures OpsOf(ws, a, c) == OpsOf(ws, a, id) + (OpsIn(ws[id]) + OpsOf(ws, id + 1, c))
  {
    OpsSplit(ws, a, id, c);
  }

  /** Later turns have later writers and larger sequence numbers; a failed turn uses up
      its own. */
  lemma {:induction false} RangesIncrease(ts: seq<Turn>, base: nat, head: nat, last: nat, i: nat, j: nat)
    requires Tiled(ts, base, head, last) && i < j < |ts|
    requires forall k :: 0 <= k < |ts| ==> ts[k].start < ts[k].end
    ensures ts[i].end <= ts[j].start && ts[i].first + |ts[i].ops| <= ts[j].first
    decreases j
  {
    assert Joins(ts, base, j);
    if i < j - 1 {
      RangesIncrease(ts, base, head, last, i, j - 1);
    }
  }

  /** The entries a reader at snapshot `s` can see. */
  function Visible(mem: seq<Entry>, s: nat): seq<Entry> {
    if mem == [] then []
    else if mem[|mem| - 1].key.seqno <= s then Visible(mem[..|mem| - 1], s) + [mem[|mem| - 1]]
    else Visible(mem[..|mem| - 1], s)
  }

  lemma {:induction false} VisibleAppends(a: seq<Entry>, b: seq<Entry>, s: nat)
    ensures Visible(a + b, s) == Visible(a, s) + Visible(b, s)
  {
    if b == [] {
      assert a + b == a;
    } else {
      var n := |b| - 1;
      assert (a + b)[..|a + b| - 1] == a + b[..n];
      VisibleAppends(a, b[..n], s);
      Assoc(Visible(a, s), Visible(b[..n], s), [b[n]]);
    }
  }

  lemma {:induction false} AllVisible(mem: seq<Entry>, s: nat)
    requires forall i :: 0 <= i < |mem| ==> mem[i].key.seqno <= s
    ensures Visible(mem, s) == mem
  {
    if mem != [] {
      AllVisible(mem[..|mem| - 1], s);
    }
  }

  lemma {:induction false} NoneVisible(mem: seq<Entry>, s: nat)
    requires forall i :: 0 <= i < |mem| ==> mem[i].key.seqno > s
    ensures Visible(mem, s) == []
  {
    if mem != [] {
      NoneVisible(mem[..|mem| - 1], s);
    }
  }

  /** One past the last sequence number the first n turns have used. */
  function NextSequence(ts: seq<Turn>, base: nat, n: nat): nat
    requires n <= |ts|
  {
    if n == 0 then base + 1 else ts[n - 1].first + |ts[n - 1].ops|
  }

  ghost predicate Chain(ts: seq<Turn>, base: nat) {
    forall i :: 0 <= i < |ts| ==> Joins(ts, base, i)
  }

  lemma ChainPrefix(ts: seq<Turn>, base: nat, n: nat)
    requires Chain(ts, base) && n <= |ts|
    ensures Chain(ts[..n], base)
  {
    forall i | 0 <= i < n
      ensures Joins(ts[..n], base, i)
    {
      assert Joins(ts, base, i);
    }
  }

  lemma MemStep(ts: seq<Turn>)
    requires ts != []
    ensures MemOf(ts) == MemOf(ts[..|ts| - 1]) + InMem(ts[|ts| - 1])
  {
  }

  lemma InMemBounds(t: Turn)
    ensures forall k :: 0 <= k < |InMem(t)| ==> t.first <= InMem(t)[k].key.seqno < t.first + |t.ops|
    ensures t.outcome == Failed ==> InMem(t) == []
  {
  }

  lemma {:induction false} MemBounds(ts: seq<Turn>, base: nat)
    requires Chain(ts, base)
    ensures NextSequence(ts, base, |ts|) > base
    ensures forall k :: 0 <= k < |MemOf(ts)| ==> base < MemOf(ts)[k].key.seqno < NextSequence(ts, base, |ts|)
  {
    hide Joins, InMem;
    if ts != [] {
      ChainPrefix(ts, base, |ts| - 1);
      MemBounds(ts[..|ts| - 1], base);
      LastJoins(ts, base);
      InMemBounds(ts[|ts| - 1]);
    }
  }

  lemma LastJoins(ts: seq<Turn>, base: nat)
    requires Chain(ts, base) && ts != []
    ensures ts[|ts| - 1].first == NextSequence(ts, base, |ts| - 1)
    ensures NextSequence(ts[..|ts| - 1], base, |ts| - 1) == NextSequence(ts, base, |ts| - 1)
  {
    assert Joins(ts, base, |ts| - 1);
  }

  /** A snapshot taken between two turns sees exactly what the turns before it inserted. */
  lemma {:induction false} SnapshotOfMem(ts: seq<Turn>, base: nat, n: nat)
    requires Chain(ts, base) && n <= |ts|
    ensures NextSequence(ts, base, n) > 0
    ensures Visible(MemOf(ts), NextSequence(ts, base, n) - 1) == MemOf(ts[..n])
    ensures NextSequence(ts, base, n) <= NextSequence(ts, base, |ts|)
  {
    hide Joins, Visible, MemOf, InMem, Chain;
    MemBounds(ts, base);
    if n == |ts| {
      assert ts[..n] == ts;
      AllVisible(MemOf(ts), NextSequence(ts, base, n) - 1);
    } else {
      var m := |ts| - 1;
      ChainPrefix(ts, base, m);
      SnapshotOfMem(ts[..m], base, n);
      assert ts[..m][..n] == ts[..n];
      LastJoins(ts, base);
      InMemBounds(ts[m]);
      LaterUnseen(ts, base, n);
    }
  }

  lemma LaterUnseen(ts: seq<Turn>, base: nat, n: nat)
    requires n < |ts| && 0 < NextSequence(ts, base, n) <= ts[|ts| - 1].first
    ensures Visible(MemOf(ts), NextSequence(ts, base, n) - 1)
            == Visible(MemOf(ts[..|ts| - 1]), NextSequence(ts, base, n) - 1)
  {
    hide Visible, MemOf, InMem;
    var m, snapshot := |ts| - 1, NextSequence(ts, base, n) - 1;
    MemStep(ts);
    InMemBounds(ts[m]);
    VisibleAppends(MemOf(ts[..m]), InMem(ts[m]), snapshot);
    NoneVisible(InMem(ts[m]), snapshot);
  }

  /** A reader that takes LastSequence for its snapshot sees, then and ever after, exactly
      the batches of the successful turns completed by then: all of each, and nothing of
      any other, however far the inserts of later groups have come. */
  lemma ReaderSeesWholeBatches(states: seq<State>, events: seq<Event>, base: nat, i: nat, j: nat)
    requires Run(states, events, base) && i <= j < |states|
    ensures Visible(states[j].mem, states[i].lastSequence) == MemOf(states[i].turns)
  {
    hide Step, Initial, Visible, FairTurn, GroupEnd, OpsOf, Rep, MemOf, LogOf;
    RunKeeps(states, events, base, i);
    RunKeeps(states, events, base, j);
    RunExtends(states, events, base, i, j);
    var ts, n := states[j].turns, |states[i].turns|;
    assert ts[..n] == states[i].turns;
    SnapshotOfMem(ts, base, n);
    assert states[i].lastSequence == NextSequence(ts, base, n) - 1;
    match states[j].active
    case None =>
    case Some(a) =>
      var partial := if a.phase.Inserting? then Numbered(a.first, a.ops)[..a.phase.n] else [];
      VisibleAppends(MemOf(ts), partial, states[i].lastSequence);
      NoneVisible(partial, states[i].lastSequence);
      assert MemOf(states[i].turns) + [] == MemOf(states[i].turns);
  }

  /** `part` stands in `whole` from place p on. */
  predicate StandsAt<T(==)>(whole: seq<T>, p: nat, part: seq<T>) {
    p + |part| <= |whole| && whole[p..p + |part|] == part
  }

  lemma StandsInFront<T>(a: seq<T>, b: seq<T>, p: nat, part: seq<T>)
    requires StandsAt(a, p, part)
    ensures StandsAt(a + b, p, part)
  {
  }

  lemma StandsBehind<T>(a: seq<T>, b: seq<T>, p: nat, part: seq<T>)
    requires StandsAt(b, p, part)
    ensures StandsAt(a + b, |a| + p, part)
  {
    assert (a + b)[|a| + p..|a| + p + |part|] == b[p..p + |part|];
  }

  /** A successful batch is in there whole, at consecutive numbers. */
  lemma {:induction false} BatchIsWhole(ws: seq<Writer>, ts: seq<Turn>, k: nat, id: nat) returns (p: nat)
    requires k < |ts| && FairTurn(ws, ts[k]) && ts[k].wrote && ts[k].outcome == Done && ts[k].start <= id < ts[k].end
    ensures var first, ops := ts[k].first + |OpsOf(ws, ts[k].start, id)|, OpsIn(ws[id]);
            first + |ops| <= MAX_SEQUENCE + 1 && StandsAt(MemOf(ts), p, Numbered(first, ops))
  {
    hide GroupEnd, FairTurn, MemOf, OpsOf, OpsIn, Numbered, StandsAt;
    var t := ts[k];
    TurnParts(ws, t, id);
    var before := |OpsOf(ws, t.start, id)|;
    var part := Numbered(t.first + before, OpsIn(ws[id]));
    MemStep(ts);
    if k < |ts| - 1 {
      p := BatchIsWhole(ws, ts[..|ts| - 1], k, id);
      StandsInFront(MemOf(ts[..|ts| - 1]), InMem(ts[|ts| - 1]), p, part);
    } else {
      p := |MemOf(ts[..k])| + before;
      StandsBehind(MemOf(ts[..k]), Numbered(t.first, t.ops), before, part);
    }
  }

  lemma TurnParts(ws: seq<Writer>, t: Turn, id: nat)
    requires FairTurn(ws, t) && t.wrote && t.start <= id < t.end
    ensures id < |ws| && t.start <= id <= |ws| && t.first + |t.ops| <= MAX_SEQUENCE + 1
    ensures var before, ops := |OpsOf(ws, t.start, id)|, OpsIn(ws[id]);
            before + |ops| <= |t.ops| && StandsAt(Numbered(t.first, t.ops), before, Numbered(t.first + before, ops))
  {
    hide FairTurn, Numbered, OpsOf, OpsIn, StandsAt;
    FairOps(ws, t);
    OpsAround(ws, t.start, id, t.end);
    NumberedSlice(t.first, t.ops, OpsOf(ws, t.start, id), OpsIn(ws[id]), OpsOf(ws, id + 1, t.end));
  }

  lemma FairOps(ws: seq<Writer>, t: Turn)
    requires FairTurn(ws, t) && t.wrote
    ensures t.start < t.end <= |ws| && t.first + |t.ops| <= MAX_SEQUENCE + 1 && t.ops == OpsOf(ws, t.start, t.end)
  {
    hide GroupEnd, OpsOf;
  }

  lemma NumberedSlice(first: nat, ops: seq<Op>, a: seq<Op>, b: seq<Op>, c: seq<Op>)
    requires first + |ops| <= MAX_SEQUENCE + 1 && ops == a + (b + c)
    ensures |ops| == |a| + |b| + |c|
    ensures StandsAt(Numbered(first, ops), |a|, Numbered(first + |a|, b))
  {
    var x, y := Numbered(first, ops), Numbered(first + |a|, b);
    forall i | 0 <= i < |b|
      ensures x[|a| + i] == y[i]
    {
      assert ops[|a| + i] == b[i];
    }
  }

  /** A failed turn leaves nothing behind: none of its numbers is in the memtable. */
  lemma {:induction false} FailedLeavesNone(ts: seq<Turn>, base: nat, k: nat, i: nat)
    requires Chain(ts, base) && k < |ts| && ts[k].outcome == Failed && i < |MemOf(ts)|
    ensures !(ts[k].first <= MemOf(ts)[i].key.seqno < ts[k].first + |ts[k].ops|)
  {
    hide Joins, MemOf, InMem, Chain;
    var m := |ts| - 1;
    ChainPrefix(ts, base, m);
    LastJoins(ts, base);
    MemBounds(ts[..m], base);
    MemStep(ts);
    InMemBounds(ts[m]);
    if k < m {
      SnapshotOfMem(ts[..m], base, k + 1);
      if i < |MemOf(ts[..m])| {
        FailedLeavesNone(ts[..m], base, k, i);
      }
    }
  }

  // ---- what recovery rebuilds ----

  /** The memtable that replaying the log records gives. */
  function Recovered(log: seq<Bytes>): seq<Entry> {
    if log == [] then []
    else
      var rec := log[|log| - 1];
      Recovered(log[..|log| - 1]) +
      if |rec| >= HEADER && Sequence(rec) + |ReadOps(rec[HEADER..]).0| <= MAX_SEQUENCE + 1
      then Numbered(Sequence(rec), ReadOps(rec[HEADER..]).0) else []
  }

  /** The records of the turns that were logged, replayed one by one, give the memtable back,
      unless a sync failed after its record was written. */
  lemma {:induction false} RecordsGiveMem(ts: seq<Turn>)
    requires forall i :: 0 <= i < |ts| ==> AllFit(ts[i].ops) && ts[i].first + |ts[i].ops| <= MAX_SEQUENCE + 1
    requires forall i :: 0 <= i < |ts| ==> (ts[i].wrote ==> (ts[i].logged <==> ts[i].outcome == Done))
    requires forall i :: 0 <= i < |ts| ==> (!ts[i].wrote ==> !ts[i].logged && ts[i].ops == [])
    ensures Recovered(LogOf(ts)) == MemOf(ts)
  {
    hide Rep, ReadOps, Sequence, MemOf, Numbered;
    if ts != [] {
      var m := |ts| - 1;
      RecordsGiveMem(ts[..m]);
      MemStep(ts);
      if ts[m].logged {
        OneRecord(ts[m]);
        RecoveredStep(LogOf(ts[..m]), Rep(ts[m].first, ts[m].ops));
      } else {
        if ts[m].ops == [] { NoEntries(ts[m]); } else { InMemBounds(ts[m]); }
        assert LogOf(ts[..m]) + [] == LogOf(ts[..m]) && MemOf(ts[..m]) + [] == MemOf(ts[..m]);
      }
    } else {
      NoTurns(ts);
    }
  }

  lemma NoTurns(ts: seq<Turn>)
    requires ts == []
    ensures MemOf(ts) == []
  {
  }

  lemma OneRecord(t: Turn)
    requires AllFit(t.ops) && t.first + |t.ops| <= MAX_SEQUENCE + 1 && t.outcome == Done
    ensures var rec := Rep(t.first, t.ops);
            |rec| >= HEADER && Sequence(rec) == t.first && ReadOps(rec[HEADER..]).0 == t.ops
    ensures InMem(t) == Numbered(t.first, t.ops)
  {
    BatchRoundTrip(t.first, t.ops);
  }

  lemma RecoveredStep(log: seq<Bytes>, rec: Bytes)
    ensures Recovered(log + [rec]) == Recovered(log) +
            if |rec| >= HEADER && Sequence(rec) + |ReadOps(rec[HEADER..]).0| <= MAX_SEQUENCE + 1
            then Numbered(Sequence(rec), ReadOps(rec[HEADER..]).0) else []
  {
    assert (log + [rec])[..|log|] == log;
  }

  // ---- building a group ----

  datatype Queued = Queued(batch: WriteBatch?, sync: bool)

  /** What the queue holds, object by object. */
  ghost predicate Holds(queue: seq<Queued>, ws: seq<Writer>)
    reads set i | 0 <= i < |queue| && queue[i].batch != null :: queue[i].batch
  {
    && |ws| == |queue|
    && forall i :: 0 <= i < |queue| ==>
         && ws[i].sync == queue[i].sync
         && (ws[i].batch.None? <==> queue[i].batch == null)
         && (queue[i].batch != null ==> queue[i].batch.Valid() && ws[i].batch == Some(queue[i].batch.ops))
  }

  lemma {:induction false} OpsAreBytes(ops: seq<Op>)
    ensures |ops| <= |Body(ops)|
  {
    hide Coded;
    if ops != [] {
      OpsAreBytes(ops[1..]);
      OneByte(ops[0]);
    }
  }

  lemma OneByte(op: Op)
    ensures |Coded(op)| >= 1
  {
  }

  lemma OpsExtend(ws: seq<Writer>, i: nat)
    requires i < |ws|
    ensures OpsOf(ws, 0, i + 1) == OpsOf(ws, 0, i) + OpsIn(ws[i])
  {
    OpsAround(ws, 0, i, i + 1);
    assert OpsIn(ws[i]) + OpsOf(ws, i + 1, i + 1) == OpsIn(ws[i]);
  }

  lemma EndIs(ws: seq<Writer>)
    requires ws != [] && ws[0].batch.Some?
    ensures var size := ByteSize(ws[0].batch.value);
            && GroupEnd(ws, 0) == Reach(ws, 1, size, MaxSize(size), ws[0].sync)
            && MaxSize(size) == (if size <= 0x2_0000 then size + 0x2_0000 else 0x10_0000)
    ensures forall i :: 0 <= i < |ws| ==> OpsIn(ws[i]) == if ws[i].batch.Some? then ws[i].batch.value else []
  {
  }

  /** DBImpl::BuildBatchGroup over the queue: the leader's own batch when it rides alone,
      and otherwise the temporary batch, so that no caller's batch is disturbed. */
  method BuildBatchGroup(queue: seq<Queued>, tmpBatch: WriteBatch, ghost ws: seq<Writer>)
    returns (lastWriter: nat, result: WriteBatch)
    requires queue != [] && queue[0].batch != null && Holds(queue, ws)
    requires tmpBatch.Valid() && tmpBatch.ops == []
    requires forall i :: 0 <= i < |queue| ==> queue[i].batch != tmpBatch
    modifies tmpBatch
    ensures lastWriter + 1 == GroupEnd(ws, 0)
    ensures result.Valid() && result.ops == OpsOf(ws, 0, lastWriter + 1)
    ensures if forall id :: 0 < id <= lastWriter < |queue| ==> queue[id].batch == null
            then result == queue[0].batch && tmpBatch.ops == [] else result == tmpBatch
    ensures var own := 12 + |Body(ws[0].batch.value)|;
            var limit := if own <= 131072 then own + 131072 else 1048576;
            && lastWriter < |ws|
            && (forall id :: 0 < id <= lastWriter ==>
                  && (ws[id].sync ==> ws[0].sync)
                  && (ws[id].batch.Some? ==> BatchBytes(ws, 0, id + 1) <= limit))
            && (lastWriter + 1 < |ws| ==>
                  || (ws[lastWriter + 1].sync && !ws[0].sync)
                  || (ws[lastWriter + 1].batch.Some? && BatchBytes(ws, 0, lastWriter + 2) > limit))
  {
    hide Body, OpsOf, Rep, OpsIn, MaxSize, GroupEnd, WriteBatch.Valid, BatchBytes, Reach, ByteSize;
    var first := queue[0];
    result := first.batch;
    SizeOf(result);
    var size: nat := |result.rep|;
    var maxSize: nat := 0x10_0000;
    if size <= 0x2_0000 {
      maxSize := size + 0x2_0000;
    }
    ghost var size0 := size;
    FirstOps(ws);
    EndIs(ws);
    lastWriter := 0;
    var iter := 1;
    while iter < |queue|
      invariant 1 <= iter <= |queue| && lastWriter == iter - 1 && Holds(queue, ws)
      invariant Reach(ws, iter, size, maxSize, first.sync) == Reach(ws, 1, size0, maxSize, first.sync)
      invariant result.Valid() && result.ops == OpsOf(ws, 0, iter) && tmpBatch.Valid()
      invariant |Body(OpsOf(ws, 0, iter))| <= size
      invariant if forall id :: 0 < id < iter ==> queue[id].batch == null
                then result == first.batch && tmpBatch.ops == [] else result == tmpBatch
      decreases |queue| - iter
    {
      var w := queue[iter];
      ReachStep(ws, iter, size, maxSize, first.sync);
      if w.sync && !first.sync {
        break;
      }
      OpsExtend(ws, iter);
      if w.batch != null {
        SizeOf(w.batch);
        size := size + |w.batch.rep|;
        if size > maxSize {
          break;
        }
        RoomFor(OpsOf(ws, 0, iter), w.batch.ops, size);
        result := Include(result, first.batch, tmpBatch, w.batch);
      } else {
        assert OpsOf(ws, 0, iter) + [] == OpsOf(ws, 0, iter);
      }
      lastWriter := iter;
      iter := iter + 1;
    }
    ReachEnds(ws, size, maxSize, first.sync);
    GroupIsLongest(ws, 0);
  }

  /** One round of the loop. */
  lemma ReachStep(ws: seq<Writer>, i: nat, size: nat, maxSize: nat, sync: bool)
    requires i < |ws|
    ensures Reach(ws, i, size, maxSize, sync) ==
            if ws[i].sync && !sync then i
            else if ws[i].batch.None? then Reach(ws, i + 1, size, maxSize, sync)
            else if size + ByteSize(ws[i].batch.value) > maxSize then i
            else Reach(ws, i + 1, size + ByteSize(ws[i].batch.value), maxSize, sync)
  {
  }

  lemma ReachEnds(ws: seq<Writer>, size: nat, maxSize: nat, sync: bool)
    ensures Reach(ws, |ws|, size, maxSize, sync) == |ws|
  {
  }

  /** Append to *result, which must not be a caller's batch. */
  method Include(result: WriteBatch, first: WriteBatch, tmpBatch: WriteBatch, batch: WriteBatch) returns (r: WriteBatch)
    requires result.Valid() && batch.Valid() && tmpBatch.Valid() && batch != tmpBatch && first != tmpBatch
    requires result == tmpBatch || (result == first && tmpBatch.ops == [])
    requires |result.ops| + |batch.ops| < MAX_COUNT
    modifies tmpBatch
    ensures r == tmpBatch && r.Valid() && r.ops == old(result.ops) + batch.ops
  {
    hide Rep, Body;
    r := result;
    if r == first {
      r := tmpBatch;
      r.Append(first);
      assert [] + first.ops == first.ops;
    }
    r.Append(batch);
  }

  lemma RoomFor(a: seq<Op>, b: seq<Op>, size: nat)
    requires |Body(a)| + ByteSize(b) <= size <= 0x10_0000
    ensures |Body(a + b)| <= size && |a| + |b| < MAX_COUNT
  {
    hide Body;
    BodyAppends(a, b);
    OpsAreBytes(a + b);
  }

  lemma SizeOf(b: WriteBatch)
    requires b.Valid()
    ensures |b.rep| == ByteSize(b.ops) && |Body(b.ops)| <= |b.rep|
  {
    hide Body;
  }

  lemma FirstOps(ws: seq<Writer>)
    requires ws != []
    ensures OpsOf(ws, 0, 1) == OpsIn(ws[0])
  {
    assert OpsIn(ws[0]) + OpsOf(ws, 1, 1) == OpsIn(ws[0]);
  }

  lemma {:induction false} ReachShifts(q: seq<Writer>, ws: seq<Writer>, head: nat, i: nat, size: nat, maxSize: nat,
                                       sync: bool)
    requires i <= |q| && head + |q| == |ws| && forall k :: 0 <= k < |q| ==> q[k] == ws[head + k]
    ensures head + Reach(q, i, size, maxSize, sync) == Reach(ws, head + i, size, maxSize, sync)
    decreases |q| - i
  {
    hide ByteSize;
    if i < |q| && !(q[i].sync && !sync) {
      if q[i].batch.None? {
        ReachShifts(q, ws, head, i + 1, size, maxSize, sync);
      } else {
        ReachShifts(q, ws, head, i + 1, size + ByteSize(q[i].batch.value), maxSize, sync);
      }
    }
  }

  lemma {:induction false} OpsShift(q: seq<Writer>, ws: seq<Writer>, head: nat, a: nat, b: nat)
    requires a <= b <= |q| && head + |q| == |ws| && forall k :: 0 <= k < |q| ==> q[k] == ws[head + k]
    ensures OpsOf(q, a, b) == OpsOf(ws, head + a, head + b)
    decreases b - a
  {
    hide OpsIn;
    if a < b {
      assert q[a] == ws[head + a];
      OpsShift(q, ws, head, a + 1, b);
    }
  }

  /** The group BuildBatchGroup forms from the queue is the one the machine's Lead takes. */
  lemma QueueIsTail(ws: seq<Writer>, head: nat)
    requires head < |ws| && ws[head].batch.Some?
    ensures var end := GroupEnd(ws[head..], 0);
            head + end == GroupEnd(ws, head) && OpsOf(ws[head..], 0, end) == OpsOf(ws, head, head + end)
  {
    hide Reach, OpsOf, MaxSize, ByteSize;
    var size := ByteSize(ws[head].batch.value);
    ReachShifts(ws[head..], ws, head, 1, size, MaxSize(size), ws[head].sync);
    EndIs(ws[head..]);
    OpsShift(ws[head..], ws, head, 0, GroupEnd(ws[head..], 0));
  }
}
