/** Memtable switches, flushes, obsolete logs and recovery (db/db_impl.cc): a write that was
    acknowledged survives every crash exactly if no append to its log had failed before it.
 */
module Durability {
  import opened Dbformat
  import opened Options

  /** kL0_SlowdownWritesTrigger and kL0_StopWritesTrigger */
  const SLOWDOWN: nat := 8
  const STOP: nat := 12

  /** Where the writer at the front of the queue stands in Write.  Within MakeRoomForWrite:
      what it was called with, its two flags, and how often it has slept and switched. */
  datatype Front =
    | Idle
    | Making(forced: bool, force: bool, allowDelay: bool, delays: nat, switches: nat)
    | Ready(forced: bool, delays: nat, switches: nat)
    | Logged(es: set<Entry>, safe: bool)

  /** `logs` are the log files there are, with what can be read from each; `logNumber` is the
      version's, `current` the one written to, and `intact` says that no append to it has
      failed.  `built` is a table not yet committed. */
  datatype State = State(
    mem: set<Entry>, imm: Option<set<Entry>>, tables: set<Entry>, built: Option<set<Entry>>,
    logs: map<nat, set<Entry>>, current: nat, logNumber: nat, nextFile: nat,
    intact: bool, front: Front, bgError: bool,
    acked: set<Entry>,  // what writers were told is stored
    sure: set<Entry>,   // the part of it that was appended to an intact log
    tried: set<Entry>)  // all they tried to store

  datatype Event =
    | Begin(force: bool)
    | Round(fits: bool, level0: nat, newFile: bool)
    | NoBatch
    | Log(es: set<Entry>, appended: bool, read: bool, syncError: bool)
    | Insert
    | Build
    | Commit(ok: bool)
    | RemoveObsolete
    | BackgroundError
    | Reopen

  datatype Action = GiveUp | Delay | Go | Wait | Switch

  /** One round of the loop of MakeRoomForWrite. */
  function Decide(s: State, fits: bool, level0: nat): Action
    requires s.front.Making?
  {
    if s.bgError then GiveUp
    else if s.front.allowDelay && level0 >= SLOWDOWN then Delay
    else if !s.front.force && fits then Go
    else if s.imm.Some? then Wait
    else if level0 >= STOP then Wait
    else Switch
  }

  function AfterRound(s: State, action: Action, newFile: bool): State
    requires s.front.Making?
  {
    match action
    case GiveUp => s.(front := Idle)
    case Delay => s.(front := s.front.(allowDelay := false, delays := s.front.delays + 1))
    case Go => s.(front := Ready(s.front.forced, s.front.delays, s.front.switches))
    case Wait => s
    case Switch =>
      if newFile then
        s.(logs := s.logs[s.nextFile := {}], current := s.nextFile, nextFile := s.nextFile + 1,
           intact := true, imm := Some(s.mem), mem := {},
           front := s.front.(force := false, switches := s.front.switches + 1))
      else s.(front := Idle)
  }

  function LogOf(s: State): set<Entry> {
    if s.current in s.logs then s.logs[s.current] else {}
  }

  /** What replaying the logs that recovery looks at would find. */
  ghost function Live(logs: map<nat, set<Entry>>, from: nat): set<Entry> {
    set n, e | n in logs && n >= from && e in logs[n] :: e
  }

  /** What a reader can find. */
  function Readable(s: State): set<Entry> {
    s.mem + (if s.imm.Some? then s.imm.value else {}) + s.tables
  }

  /** What would be found after a crash. */
  ghost function Recoverable(s: State): set<Entry> {
    s.tables + Live(s.logs, s.logNumber)
  }

  /** A failed append sets no background error, only a failed sync does.  After a failure the
      writer's blocks are not the reader's any more: whether a record can be read back is open
      then, also if its append succeeds, and it is certain before (Recovery.ReadBackIff). */
  ghost predicate Step(s: State, e: Event, s': State) {
    match e
    case Begin(force) => s.front == Idle && s' == s.(front := Making(force, force, !force, 0, 0))
    case Round(fits, level0, newFile) =>
      // an empty memtable is never full
      && s.front.Making? && (s.mem == {} ==> fits)
      && s' == AfterRound(s, Decide(s, fits, level0), newFile)
    case NoBatch => s.front.Ready? && s' == s.(front := Idle)
    case Log(es, appended, read, syncError) =>
      && s.front.Ready? && (syncError ==> appended) && (s.intact && appended ==> read)
      && s' == s.(logs := if read then s.logs[s.current := LogOf(s) + es] else s.logs, tried := s.tried + es,
                  intact := s.intact && appended,
                  front := if appended && !syncError then Logged(es, s.intact) else Idle,
                  bgError := s.bgError || syncError)
    case Insert =>
      && s.front.Logged?
      && s' == s.(mem := s.mem + s.front.es, acked := s.acked + s.front.es,
                  sure := if s.front.safe then s.sure + s.front.es else s.sure, front := Idle)
    case Build => s.imm.Some? && s' == s.(built := s.imm)
    case Commit(ok) =>
      && s.built.Some?
      && s' == if ok then s.(tables := s.tables + s.built.value, built := None, imm := None, logNumber := s.current)
               else s.(built := None, bgError := true)
    case RemoveObsolete =>
      !s.bgError && s' == s.(logs := map n | n in s.logs && n >= s.logNumber :: s.logs[n])
    case BackgroundError => s' == s.(bgError := true)
    case Reopen =>
      s' == State({}, None, Recoverable(s), None, s.logs[s.nextFile := {}], s.nextFile, s.nextFile, s.nextFile + 1,
                  true, Idle, false, s.acked, s.sure, s.tried)
  }

  // ---- the invariant ----

  ghost predicate LogsOk(s: State) {
    && s.current in s.logs && s.logNumber <= s.current < s.nextFile
    && (forall n :: n in s.logs ==> n <= s.current)
    && (s.built.Some? ==> s.imm == s.built)
    && (s.front.Logged? ==> s.front.es <= s.tried)
    && (s.front.Logged? && s.front.safe ==> s.front.es <= s.logs[s.current])
  }

  /** In a table, or in a memtable and a log that recovery will look at. */
  ghost predicate Kept(s: State, e: Entry)
    requires s.current in s.logs
  {
    || e in s.tables
    || (e in s.mem && e in s.logs[s.current])
    || (s.imm.Some? && e in s.imm.value && e in Live(s.logs, s.logNumber))
  }

  ghost predicate FrontOk(s: State) {
    match s.front
    case Making(forced, force, allowDelay, delays, switches) =>
      && (force ==> forced && switches == 0) && (allowDelay ==> !forced && delays == 0)
      && delays <= 1 && (forced ==> delays == 0 && (force || switches == 1))
      && switches <= 1 && (switches == 1 ==> s.mem == {})
    case Ready(forced, delays, switches) =>
      delays <= 1 && switches <= 1 && (forced ==> delays == 0 && switches == 1)
    case _ => true
  }

  ghost predicate Inv(s: State) {
    && LogsOk(s) && FrontOk(s)
    && (forall e :: e in s.sure ==> Kept(s, e))
    && s.sure <= s.acked && s.acked <= s.tried && Readable(s) <= s.tried && Recoverable(s) <= s.tried
  }

  /** What is sure can be read and would survive a crash. */
  lemma SureIsRecoverable(s: State)
    requires Inv(s)
    ensures s.sure <= Readable(s) && s.sure <= Recoverable(s)
  {
    forall e | e in s.sure
      ensures e in Readable(s) && e in Recoverable(s)
    {
      assert Kept(s, e);
    }
  }

  /** Committing the flushed memtable makes exactly the older logs useless. */
  lemma CommitKeeps(s: State, s': State)
    requires Inv(s) && Step(s, Commit(true), s')
    ensures Inv(s') && Readable(s') == Readable(s)
  {
    forall e | e in s'.sure
      ensures Kept(s', e)
    {
      assert Kept(s, e);
    }
  }

  lemma RemoveKeeps(s: State, s': State)
    requires Inv(s) && Step(s, RemoveObsolete, s')
    ensures Live(s'.logs, s'.logNumber) == Live(s.logs, s.logNumber)
    ensures Inv(s')
  {
    assert forall n :: n in s'.logs <==> n in s.logs && n >= s.logNumber;
    forall e | e in s'.sure
      ensures Kept(s', e)
    {
      assert Kept(s, e);
    }
  }

  /** A switch never gives up an immutable memtable that is still waiting to be flushed. */
  lemma RoundKeeps(s: State, e: Event, s': State)
    requires Inv(s) && e.Round? && Step(s, e, s')
    ensures Inv(s') && Readable(s') == Readable(s)
    ensures s'.current != s.current ==> s.imm == None && s'.imm == Some(s.mem) && s'.mem == {} && s'.intact
  {
    if Decide(s, e.fits, e.level0) == Switch && e.newFile {
      assert forall n :: n in s.logs ==> n in s'.logs && s'.logs[n] == s.logs[n];
      assert Live(s'.logs, s'.logNumber) == Live(s.logs, s.logNumber);
    }
    forall x | x in s'.sure
      ensures Kept(s', x)
    {
      assert Kept(s, x);
    }
  }

  /** What one round of MakeRoomForWrite comes to.  Sleeping comes first, at 8 level-0 files and if
      it has not slept yet; then room in the memtable, unless a switch is forced; a switch needs the
      last memtable to be flushed and fewer than 12 level-0 files. */
  lemma RoundCases(s: State, fits: bool, level0: nat, newFile: bool, s': State)
    requires Inv(s) && Step(s, Round(fits, level0, newFile), s')
    ensures var sleeps := s.front.allowDelay && level0 >= 8;
            var room := fits && !s.front.force;
            var full := s.imm.Some? || level0 >= 12;
            && (s'.front == Idle <==> s.bgError || (!sleeps && !room && !full && !newFile))
            && (s'.front.Ready? <==> !s.bgError && !sleeps && room)
            && (s'.current != s.current <==> !s.bgError && !sleeps && !room && !full && newFile)
            && (s' == s <==> !s.bgError && !sleeps && !room && full)
            && (s'.front.Making? && s'.front.delays == s.front.delays + 1 <==> !s.bgError && sleeps)
    ensures s'.current != s.current && !s.front.forced ==> !fits && level0 < 12
    ensures s'.front.Ready? ==>
              s'.front == Ready(s.front.forced, s.front.delays, s.front.switches) && s' == s.(front := s'.front)
    ensures s'.current == s.current ==> s' == s.(front := s'.front)
  {
  }

  lemma LogEventKeeps(s: State, e: Event, s': State)
    requires Inv(s) && e.Log? && Step(s, e, s')
    ensures Inv(s')
  {
    forall x | x in Live(s.logs, s.logNumber)
      ensures x in Live(s'.logs, s'.logNumber)
    {
      var n :| n in s.logs && n >= s.logNumber && x in s.logs[n];
      assert n in s'.logs && x in s'.logs[n];
    }
    forall x | x in s'.sure
      ensures Kept(s', x)
    {
      assert Kept(s, x);
    }
  }

  lemma InsertKeeps(s: State, s': State)
    requires Inv(s) && Step(s, Insert, s')
    ensures Inv(s')
  {
    forall e | e in s'.sure
      ensures Kept(s', e)
    {
      assert e in s.sure ==> Kept(s, e);
    }
  }

  /** Recovery puts what it finds into tables. */
  lemma ReopenKeeps(s: State, s': State)
    requires Inv(s) && Step(s, Reopen, s')
    ensures Inv(s') && Readable(s') == Recoverable(s)
  {
    SureIsRecoverable(s);
    assert Live(s'.logs, s'.logNumber) == {};
  }

  lemma StepKeeps(s: State, e: Event, s': State)
    requires Inv(s) && Step(s, e, s')
    ensures Inv(s')
    ensures s.acked <= s'.acked && s.sure <= s'.sure && s.tried <= s'.tried && s.tables <= s'.tables
    ensures !e.Reopen? ==> Readable(s) <= Readable(s')
    ensures !e.Reopen? && Readable(s) == s.acked ==> Readable(s') == s'.acked
  {
    match e
    case Round(_, _, _) => RoundKeeps(s, e, s');
    case Log(_, _, _, _) => LogEventKeeps(s, e, s');
    case Insert => InsertKeeps(s, s');
    case Commit(ok) =>
      if ok {
        CommitKeeps(s, s');
      } else {
        OthersKeep(s, s');
      }
    case RemoveObsolete => RemoveKeeps(s, s');
    case Reopen => ReopenKeeps(s, s');
    case _ => OthersKeep(s, s');
  }

  lemma OthersKeep(s: State, s': State)
    requires Inv(s) && LogsOk(s') && FrontOk(s')
    requires s' == s.(front := s'.front, built := s'.built, bgError := s'.bgError)
    ensures Inv(s')
  {
    forall e | e in s'.sure
      ensures Kept(s', e)
    {
      assert Kept(s, e);
    }
  }

  // ---- whole runs ----

  /** A database just created. */
  ghost predicate Initial(s: State) {
    exists n: nat :: s == State({}, None, {}, None, map[n := {}], n, n, n + 1, true, Idle, false, {}, {}, {})
  }

  ghost predicate Steps(states: seq<State>, events: seq<Event>) {
    && |states| == |events| + 1
    && forall i :: 0 <= i < |events| ==> Step(states[i], events[i], states[i + 1])
  }

  ghost predicate Run(states: seq<State>, events: seq<Event>) {
    Steps(states, events) && Initial(states[0])
  }

  lemma InitialIsGood(s: State)
    requires Initial(s)
    ensures Inv(s)
  {
  }

  lemma {:induction false} StepsKeep(states: seq<State>, events: seq<Event>, i: nat, j: nat)
    requires Steps(states, events) && Inv(states[0]) && i <= j < |states|
    ensures Inv(states[j]) && states[i].acked <= states[j].acked && states[i].sure <= states[j].sure
    ensures states[i].tables <= states[j].tables
    ensures (forall k :: i <= k < j ==> !events[k].Reopen?) ==> Readable(states[i]) <= Readable(states[j])
    decreases j
  {
    hide Inv, Step, Readable;
    if i < j {
      StepsKeep(states, events, i, j - 1);
      StepKeeps(states[j - 1], events[j - 1], states[j]);
    } else if j > 0 {
      StepsKeep(states, events, j - 1, j - 1);
      StepKeeps(states[j - 1], events[j - 1], states[j]);
    }
  }

  lemma RunKeeps(states: seq<State>, events: seq<Event>, i: nat)
    requires Run(states, events) && i < |states|
    ensures Inv(states[i])
  {
    hide Inv, Step;
    InitialIsGood(states[0]);
    StepsKeep(states, events, i, i);
  }

  /** What a writer was once told is stored, after an append to an intact log, can be read at
      every later moment, across switches, flushes, removed logs, errors and crashes, and would
      survive a crash then; and nothing is ever read that nobody tried to write. */
  lemma AcknowledgedIsKept(states: seq<State>, events: seq<Event>, i: nat, j: nat)
    requires Run(states, events) && i <= j < |states|
    ensures states[i].sure <= Readable(states[j]) && states[i].sure <= Recoverable(states[j])
    ensures Readable(states[j]) <= states[j].tried && Recoverable(states[j]) <= states[j].tried
  {
    hide Step;
    InitialIsGood(states[0]);
    StepsKeep(states, events, i, j);
    SureIsRecoverable(states[j]);
  }

  /** Whatever was acknowledged is read until the next crash, and what has reached a table is
      there for good. */
  lemma KeptUntilCrash(states: seq<State>, events: seq<Event>, i: nat, j: nat)
    requires Run(states, events) && i <= j < |states|
    ensures states[i].tables <= Readable(states[j]) && states[i].tables <= Recoverable(states[j])
    ensures (forall k :: i <= k < j ==> !events[k].Reopen?) ==> Readable(states[i]) <= Readable(states[j])
  {
    hide Step;
    InitialIsGood(states[0]);
    StepsKeep(states, events, i, j);
  }

  /** If no append fails, all that was acknowledged is sure. */
  lemma {:induction false} WithoutFailureAllIsSure(states: seq<State>, events: seq<Event>, i: nat)
    requires Run(states, events) && i < |states|
    requires forall k :: 0 <= k < i && events[k].Log? ==> events[k].appended
    ensures states[i].sure == states[i].acked && states[i].intact
    ensures states[i].front.Logged? ==> states[i].front.safe
  {
    if i > 0 {
      WithoutFailureAllIsSure(states, events, i - 1);
    }
  }

  /** The writes es, about to be logged, are appended with success and acknowledged. */
  ghost predicate Acknowledges(states: seq<State>, events: seq<Event>, s: State, es: set<Entry>) {
    && Steps(states, events) && states[0] == s && |events| >= 2
    && events[0].Log? && events[0].es == es && events[0].appended && !events[0].syncError
    && events[1] == Insert
  }

  /** New writes that are acknowledged are kept, whatever happens then, exactly if no append
      to the current log has failed. */
  lemma KeptIff(s: State, es: set<Entry>)
    requires Inv(s) && s.front.Ready? && es != {} && es !! s.tables + Live(s.logs, s.logNumber)
    ensures (forall states, events :: Acknowledges(states, events, s, es) ==> es <= Readable(states[|events|])) <==>
              s.intact
  {
    if s.intact {
      forall states, events | Acknowledges(states, events, s, es)
        ensures es <= Readable(states[|events|])
      {
        KeptAfter(states, events, s, es);
      }
    } else {
      var states, events := LosingRun(s, es);
      assert !(es <= Readable(states[|events|]));
    }
  }

  lemma KeptAfter(states: seq<State>, events: seq<Event>, s: State, es: set<Entry>)
    requires Inv(s) && s.intact && Acknowledges(states, events, s, es)
    ensures es <= Readable(states[|events|])
  {
    assert Step(states[0], events[0], states[1]) && Step(states[1], events[1], states[2]);
    assert es <= states[2].sure;
    hide Inv, Step;
    StepsKeep(states, events, 2, |events|);
    SureIsRecoverable(states[|events|]);
  }

  /** The record is not read back, and the process dies before the memtable is flushed. */
  lemma LosingRun(s: State, es: set<Entry>) returns (states: seq<State>, events: seq<Event>)
    requires Inv(s) && s.front.Ready? && !s.intact && es != {} && es !! s.tables + Live(s.logs, s.logNumber)
    ensures Acknowledges(states, events, s, es) && !(es <= Readable(states[|events|]))
  {
    events := [Log(es, true, false, false), Insert, Reopen];
    var s1 := s.(tried := s.tried + es, front := Logged(es, false));
    var s2 := s1.(mem := s1.mem + es, acked := s1.acked + es, front := Idle);
    var s3 := State({}, None, Recoverable(s2), None, s2.logs[s2.nextFile := {}], s2.nextFile, s2.nextFile,
                    s2.nextFile + 1,
                    true, Idle, false, s2.acked, s2.sure, s2.tried);
    states := [s, s1, s2, s3];
    assert Step(s, events[0], s1) && Step(s1, events[1], s2) && Step(s2, events[2], s3);
    assert Readable(s3) == s.tables + Live(s.logs, s.logNumber);
  }

  /** Until the first crash exactly the acknowledged writes are read: one that failed on the
      way to the log or the disk can only appear when the log is replayed. */
  lemma {:induction false} OnlyAcknowledgedIsRead(states: seq<State>, events: seq<Event>, i: nat)
    requires Run(states, events) && i < |states| && forall k :: 0 <= k < i ==> !events[k].Reopen?
    ensures Readable(states[i]) == states[i].acked
  {
    if i > 0 {
      RunKeeps(states, events, i - 1);
      OnlyAcknowledgedIsRead(states, events, i - 1);
      StepKeeps(states[i - 1], events[i - 1], states[i]);
    }
  }

  /** A call of MakeRoomForWrite sleeps at most once, and not at all when forced; it switches
      memtables at most once, and when forced exactly once before it succeeds. */
  lemma RoomIsMade(states: seq<State>, events: seq<Event>, i: nat)
    requires Run(states, events) && i < |states| && states[i].front.Ready?
    ensures var f := states[i].front;
            && f.delays <= 1 && f.switches <= 1
            && (f.forced ==> f.delays == 0 && f.switches == 1)
  {
    RunKeeps(states, events, i);
  }
}
