/** The suspend/resume handshake: a main thread runs rounds, each with a suspending
    and a resuming thread that share two auto-reset events and the manager.

    A step of a thread is one statement of its body. `Next` gives a thread's step, or
    nothing when the thread is blocked, not started or finished; a schedule is any
    sequence of steps that can be taken. Sleeping and timeouts are not steps of
    their own: a sleeping thread is one the scheduler does not pick, and a timed
    wait is taken not to run out.
 */
module Handshake {
  import opened Transactions
  import opened Wrappers

  /** Whether the threads of a round use the sleep path, and how the round ends. */
  datatype Round = Round(sleep: bool, commit: bool)

  datatype MainPc = StartSuspender | AwaitId | StartResumer | JoinSuspender | JoinResumer | CheckOutcome | Finished | Failed

  // Program counters of the suspending thread.
  const S_IDLE := 0
  const S_BEGIN := 1
  const S_PUT1 := 2
  const S_PUT2 := 3
  const S_READ_ID := 4
  const S_SET_ID := 5
  const S_WAIT := 6
  const S_PUBLISH := 7
  const S_CLEAR := 8
  const S_DONE := 9

  // Program counters of the resuming thread: before it holds the transaction ...
  const R_IDLE := 0
  const R_FIRST_CHECK := 1
  const R_EXISTS := 2
  const R_EMPTY1 := 3
  const R_EMPTY2 := 4
  const R_SIGNAL := 5
  const R_RESUME := 6
  // ... while it holds it ...
  const R_RESUMED := 7
  const R_STILL_EXISTS := 8
  const R_TWO1 := 9
  const R_TWO2 := 10
  const R_PUT := 11
  const R_END := 12
  // ... and after it has ended it.
  const R_NOT_SUSPENDED := 13
  const R_GONE := 14
  const R_TRY_RESUME := 15
  const R_TRY_RESUME_WAIT := 16
  const R_COUNT1 := 17
  const R_COUNT2 := 18
  const R_CLEAN1 := 19
  const R_CLEAN2 := 20
  const R_DONE := 21

  /** The two events whose order decides a round. */
  datatype Event = Suspended | FirstCheck

  datatype Outcome = Outcome(round: Round, log: seq<Event>)

  datatype State = State(
    todo: seq<Round>,
    main: MainPc,
    suspender: int,
    resumer: int,
    txEvent: bool,
    idUpdated: bool,
    suspenderTid: nat,
    resumerTid: nat,
    failed: bool,
    crashed: bool,
    manager: Manager<Thread>,
    log: seq<Event>,
    past: seq<Outcome>)

  const FRESH_MANAGER: Manager<Thread> := Manager({}, {}, map[], map[], NO_ENTRIES, 0)

  function Init(rounds: seq<Round>): State {
    State(rounds, if rounds == [] then Finished else StartSuspender, S_IDLE, R_IDLE,
          false, false, 0, 0, false, false, FRESH_MANAGER, [], [])
  }

  function Next(s: State, t: Thread): Option<State> {
    if s.crashed || s.todo == [] then None
    else match t
      case Main => NextMain(s)
      case Suspender => NextSuspender(s)
      case Resumer => NextResumer(s)
  }

  function NextMain(s: State): Option<State>
    requires s.todo != []
  {
    match s.main
    case StartSuspender => Some(s.(suspender := S_BEGIN, main := AwaitId))
    case AwaitId => if s.idUpdated then Some(s.(idUpdated := false, main := StartResumer)) else None
    case StartResumer => Some(s.(resumer := R_FIRST_CHECK, resumerTid := s.suspenderTid, main := JoinSuspender))
    case JoinSuspender => if s.suspender == S_DONE then Some(s.(main := JoinResumer)) else None
    case JoinResumer => if s.resumer == R_DONE then Some(s.(main := CheckOutcome)) else None
    case CheckOutcome =>
      if s.failed then Some(s.(main := Failed))
      else Some(s.(main := if |s.todo| == 1 then Finished else StartSuspender,
                   todo := s.todo[1..], suspender := S_IDLE, resumer := R_IDLE,
                   log := [], past := s.past + [Outcome(s.todo[0], s.log)]))
    case Finished => None
    case Failed => None
  }

  /** Only main moves on to the next round. */
  predicate SameRound(s: State, s': State) {
    s'.todo == s.todo && s'.past == s.past && s'.main == s.main
  }

  function NextSuspender(s: State): (n: Option<State>)
    requires s.todo != []
    ensures n.Some? ==> SameRound(s, n.value)
  {
    var m, pc := s.manager, s.suspender;
    if pc == S_BEGIN then
      if Suspender in m.current then Some(s.(crashed := true))
      else Some(s.(manager := m.Begin(Suspender), suspender := S_PUT1))
    else if pc == S_PUT1 then
      Some(s.(manager := m.Put(Suspender, Regions(OpKeys(1), {})), suspender := S_PUT2))
    else if pc == S_PUT2 then
      Some(s.(manager := m.Put(Suspender, Regions({}, OpKeys(1))), suspender := S_READ_ID))
    else if pc == S_READ_ID then
      if Suspender in m.current then Some(s.(suspenderTid := m.current[Suspender], suspender := S_SET_ID))
      else Some(s.(crashed := true))
    else if pc == S_SET_ID then
      Some(s.(idUpdated := true, suspender := if s.todo[0].sleep then S_WAIT else S_PUBLISH))
    else if pc == S_WAIT then
      if s.txEvent then Some(s.(txEvent := false, suspender := S_PUBLISH)) else None
    else if pc == S_PUBLISH then
      if Suspender in m.current
      then Some(s.(manager := m.Publish(Suspender), log := s.log + [Suspended], suspender := S_CLEAR))
      else Some(s.(crashed := true))
    else if pc == S_CLEAR then
      Some(s.(manager := m.Clear(Suspender), suspender := S_DONE))
    else None
  }

  /** `AssertCheckFail`: a failed check marks the thread and ends it. */
  function Check(s: State, holds: bool, next: int): (n: Option<State>)
    ensures n.Some? && SameRound(s, n.value)
  {
    Some(if holds then s.(resumer := next) else s.(failed := true, resumer := R_DONE))
  }

  function NextResumer(s: State): (n: Option<State>)
    requires s.todo != []
    ensures n.Some? ==> SameRound(s, n.value)
  {
    if s.resumer <= R_RESUME then BeforeResuming(s)
    else if s.resumer <= R_END then WhileHolding(s)
    else AfterEnding(s)
  }

  function BeforeResuming(s: State): (n: Option<State>)
    requires s.todo != []
    ensures n.Some? ==> SameRound(s, n.value)
  {
    var m, id, round, pc := s.manager, s.resumerTid, s.todo[0], s.resumer;
    var seen := m.View(Resumer);
    if pc == R_FIRST_CHECK then
      Check(s.(log := s.log + [FirstCheck]), m.IsSuspended(id) == !round.sleep, R_EXISTS)
    else if pc == R_EXISTS then Check(s, m.Exists(id), R_EMPTY1)
    else if pc == R_EMPTY1 then Check(s, |seen.cstx1| == 0, R_EMPTY2)
    else if pc == R_EMPTY2 then Check(s, |seen.cstx2| == 0, if round.sleep then R_SIGNAL else R_RESUME)
    else if pc == R_SIGNAL then Some(s.(txEvent := true, resumer := R_RESUME))
    else if pc == R_RESUME then
      if m.CanResume(Resumer, id) then Some(s.(manager := m.Resume(Resumer, id), resumer := R_RESUMED))
      else if !round.sleep then Some(s.(crashed := true))
      else if Resumer in m.current || !m.Exists(id) then Some(s.(resumer := R_RESUMED))
      else None
    else None
  }

  function WhileHolding(s: State): (n: Option<State>)
    requires s.todo != []
    ensures n.Some? ==> SameRound(s, n.value)
  {
    var m, id, round, pc := s.manager, s.resumerTid, s.todo[0], s.resumer;
    var seen := m.View(Resumer);
    if pc == R_RESUMED then Check(s, !m.IsSuspended(id), R_STILL_EXISTS)
    else if pc == R_STILL_EXISTS then Check(s, m.Exists(id), R_TWO1)
    else if pc == R_TWO1 then Check(s, |seen.cstx1| == 2, R_TWO2)
    else if pc == R_TWO2 then Check(s, |seen.cstx2| == 2, R_PUT)
    else if pc == R_PUT then Some(s.(manager := m.Put(Resumer, Regions({}, OpKeys(2))), resumer := R_END))
    else if Resumer !in m.current then Some(s.(crashed := true))
    else Some(s.(manager := if round.commit then m.Commit(Resumer) else m.Rollback(Resumer), resumer := R_NOT_SUSPENDED))
  }

  function AfterEnding(s: State): (n: Option<State>)
    requires s.todo != []
    ensures n.Some? ==> SameRound(s, n.value)
  {
    var m, id, round, pc := s.manager, s.resumerTid, s.todo[0], s.resumer;
    var seen := m.View(Resumer);
    if pc == R_NOT_SUSPENDED then Check(s, !m.IsSuspended(id), R_GONE)
    else if pc == R_GONE then Check(s, !m.Exists(id), R_TRY_RESUME)
    else if pc == R_TRY_RESUME then Check(s, !m.CanResume(Resumer, id), R_TRY_RESUME_WAIT)
    else if pc == R_TRY_RESUME_WAIT then
      if m.Exists(id) && !m.CanResume(Resumer, id) && Resumer !in m.current then None
      else Check(s, !(m.Exists(id) && m.CanResume(Resumer, id)), R_COUNT1)
    else if pc == R_COUNT1 then Check(s, |seen.cstx1| == (if round.commit then 2 else 0), R_COUNT2)
    else if pc == R_COUNT2 then
      Check(s, |seen.cstx2| == (if round.commit then 4 else 0), if round.commit then R_CLEAN1 else R_DONE)
    else if pc == R_CLEAN1 then Some(s.(manager := m.Destroy(Regions(OpKeys(1), {})), resumer := R_CLEAN2))
    else if pc == R_CLEAN2 then Some(s.(manager := m.Destroy(Regions({}, OpKeys(2))), resumer := R_DONE))
    else None
  }

  // ----- Runs -----

  /** Every step of the schedule can be taken. */
  ghost predicate Feasible(s: State, schedule: seq<Thread>)
    decreases |schedule|
  {
    schedule == [] || (Next(s, schedule[0]).Some? && Feasible(Next(s, schedule[0]).value, schedule[1..]))
  }

  ghost function After(s: State, schedule: seq<Thread>): State
    requires Feasible(s, schedule)
    decreases |schedule|
  {
    if schedule == [] then s else After(Next(s, schedule[0]).value, schedule[1..])
  }

  // ----- The invariant -----

  /** Main's position fixes which of the two threads have been started and joined. */
  ghost predicate Started(s: State) {
    && S_IDLE <= s.suspender <= S_DONE && R_IDLE <= s.resumer <= R_DONE
    && match s.main
       case StartSuspender => s.suspender == S_IDLE && s.resumer == R_IDLE
       case AwaitId => s.suspender > S_IDLE && s.resumer == R_IDLE
       case StartResumer => s.suspender >= S_WAIT && s.resumer == R_IDLE
       case JoinSuspender => s.suspender >= S_WAIT && s.resumer > R_IDLE
       case JoinResumer => s.suspender == S_DONE && s.resumer > R_IDLE
       case CheckOutcome => s.suspender == S_DONE && s.resumer == R_DONE
       case Finished => s.suspender == S_IDLE && s.resumer == R_IDLE
       case Failed => s.suspender == S_DONE && s.resumer == R_DONE && s.failed
  }

  /** Each event is set exactly while its one waiter has yet to consume it. */
  ghost predicate Events(s: State) {
    && (s.idUpdated <==> s.main == AwaitId && s.suspender >= S_WAIT)
    && (s.txEvent <==> s.suspender == S_WAIT && s.resumer == R_RESUME)
  }

  ghost predicate Sleeps(s: State) {
    s.todo != [] && s.todo[0].sleep
  }

  /** The order in which the two threads may pass each other. */
  ghost predicate Order(s: State) {
    && (s.suspender == S_WAIT ==> Sleeps(s) && s.resumer <= R_RESUME)
    && (Sleeps(s) && s.resumer < R_RESUME ==> s.suspender <= S_WAIT)
    && (s.resumer == R_SIGNAL ==> Sleeps(s))
    && (!Sleeps(s) && s.resumer > R_FIRST_CHECK && !s.failed ==> s.suspender >= S_CLEAR)
    && (Sleeps(s) && s.resumer > R_RESUME ==> s.suspender >= S_CLEAR)
    && (s.failed ==> !Sleeps(s) && s.resumer == R_DONE)
  }

  /** The log records the events passed so far, in their order. */
  ghost predicate Logged(s: State) {
    s.log ==
      if s.suspender < S_CLEAR then (if s.resumer <= R_FIRST_CHECK then [] else [FirstCheck])
      else if s.resumer <= R_FIRST_CHECK then [Suspended]
      else if Sleeps(s) || s.failed then [FirstCheck, Suspended]
      else [Suspended, FirstCheck]
  }

  /** What the round's transaction has written so far. */
  ghost function Written(s: State): Regions {
    if s.suspender <= S_PUT1 then NO_ENTRIES
    else if s.suspender == S_PUT2 then Regions(OpKeys(1), {})
    else if s.resumer == R_END then Regions(OpKeys(1), OpKeys(2))
    else Regions(OpKeys(1), OpKeys(1))
  }

  /** The committed entries once the round's transaction has ended. */
  ghost function Leftover(s: State): Regions {
    if s.todo == [] || !s.todo[0].commit || s.resumer == R_DONE then NO_ENTRIES
    else if s.resumer == R_CLEAN2 then Regions({}, OpKeys(2))
    else Regions(OpKeys(1), OpKeys(2))
  }

  /** What the manager holds, given where the two threads are. */
  ghost function Expected(s: State): Manager<Thread> {
    var n := s.manager.nextId;
    if s.suspender <= S_BEGIN || n == 0 then Manager({}, {}, map[], map[], NO_ENTRIES, n)
    else
      var id: nat := n - 1;
      var current: map<Thread, nat> := if s.suspender == S_DONE then map[] else map[Suspender := id];
      if s.resumer <= R_RESUME || s.failed then
        Manager({id}, if s.suspender >= S_CLEAR then {id} else {}, current, map[id := Written(s)], NO_ENTRIES, n)
      else if s.resumer <= R_END then
        Manager({id}, {}, current[Resumer := id], map[id := Written(s)], NO_ENTRIES, n)
      else
        Manager({}, {}, current, map[], Leftover(s), n)
  }

  ghost predicate Managed(s: State) {
    && s.manager == Expected(s)
    && (s.suspender > S_BEGIN ==> s.manager.nextId > 0)
    && (s.suspender >= S_SET_ID ==> s.suspenderTid == s.manager.nextId - 1)
    && (s.resumer > R_IDLE ==> s.resumerTid == s.manager.nextId - 1)
  }

  /** The part of the invariant that the steps of one round can affect. */
  ghost predicate Good(s: State) {
    !s.crashed && s.todo != [] && Started(s) && Events(s) && Order(s) && Logged(s) && Managed(s)
  }

  lemma Counts()
    ensures |OpKeys(1)| == 2 && |OpKeys(2)| == 4
    ensures OpKeys(1) + OpKeys(2) == OpKeys(2)
  {
    OpKeysCount(1);
    OpKeysCount(2);
  }

  lemma SuspenderBegins(s: State)
    requires Good(s) && s.suspender == S_BEGIN
    ensures Good(NextSuspender(s).value)
  {
    var m := s.manager;
    assert {} + {m.nextId} == {m.nextId};
  }

  lemma SuspenderPuts(s: State)
    requires Good(s) && S_PUT1 <= s.suspender <= S_PUT2
    ensures Good(NextSuspender(s).value)
  {
    var none: set<int> := {};
    assert none + OpKeys(1) == OpKeys(1) && OpKeys(1) + none == OpKeys(1) && none + none == none;
  }

  lemma SuspenderSuspends(s: State)
    requires Good(s) && s.suspender > S_PUT2 && NextSuspender(s).Some?
    ensures Good(NextSuspender(s).value)
  {
  }

  lemma ResumerChecksFirst(s: State)
    requires Good(s) && s.resumer == R_FIRST_CHECK
    ensures Good(NextResumer(s).value)
  {
  }

  lemma ResumerChecksBefore(s: State)
    requires Good(s) && R_EXISTS <= s.resumer <= R_SIGNAL
    ensures Good(NextResumer(s).value)
  {
  }

  lemma ResumerResumes(s: State)
    requires Good(s) && s.resumer == R_RESUME && NextResumer(s).Some?
    ensures Good(NextResumer(s).value)
  {
  }

  lemma ResumerChecksHolding(s: State)
    requires Good(s) && R_RESUMED <= s.resumer <= R_STILL_EXISTS
    ensures Good(NextResumer(s).value)
  {
  }

  lemma ResumerSees(s: State)
    requires Good(s) && R_TWO1 <= s.resumer <= R_TWO2
    ensures s.manager.View(Resumer) == Regions(OpKeys(1), OpKeys(1))
  {
    assert {} + OpKeys(1) == OpKeys(1);
  }

  lemma ResumerCountsHolding(s: State)
    requires Good(s) && R_TWO1 <= s.resumer <= R_TWO2
    ensures Good(NextResumer(s).value)
  {
    ResumerSees(s);
    Counts();
  }

  lemma ResumerPuts(s: State)
    requires Good(s) && s.resumer == R_PUT
    ensures Good(NextResumer(s).value)
  {
    Counts();
    assert OpKeys(1) + {} == OpKeys(1);
  }

  lemma ResumerEnds(s: State)
    requires Good(s) && s.resumer == R_END
    ensures Good(NextResumer(s).value)
  {
    assert {} + OpKeys(1) == OpKeys(1) && {} + OpKeys(2) == OpKeys(2);
  }

  lemma ResumerChecksAfter(s: State)
    requires Good(s) && R_NOT_SUSPENDED <= s.resumer <= R_TRY_RESUME_WAIT && NextResumer(s).Some?
    ensures Good(NextResumer(s).value)
  {
  }

  lemma ResumerCounts(s: State)
    requires Good(s) && R_COUNT1 <= s.resumer <= R_COUNT2
    ensures Good(NextResumer(s).value)
  {
    Counts();
  }

  lemma ResumerCleans(s: State)
    requires Good(s) && R_CLEAN1 <= s.resumer <= R_CLEAN2
    ensures Good(NextResumer(s).value)
  {
    assert OpKeys(1) - OpKeys(1) == {} && OpKeys(2) - OpKeys(2) == {} && OpKeys(2) - {} == OpKeys(2);
  }

  lemma SuspenderStep(s: State)
    requires Good(s) && NextSuspender(s).Some?
    ensures Good(NextSuspender(s).value)
  {
    if s.suspender == S_BEGIN {
      SuspenderBegins(s);
    } else if s.suspender <= S_PUT2 {
      SuspenderPuts(s);
    } else {
      SuspenderSuspends(s);
    }
  }

  lemma ResumerStep(s: State)
    requires Good(s) && NextResumer(s).Some?
    ensures Good(NextResumer(s).value)
  {
    var pc := s.resumer;
    if pc == R_FIRST_CHECK {
      ResumerChecksFirst(s);
    } else if pc <= R_SIGNAL {
      ResumerChecksBefore(s);
    } else if pc == R_RESUME {
      ResumerResumes(s);
    } else if pc <= R_STILL_EXISTS {
      ResumerChecksHolding(s);
    } else if pc <= R_TWO2 {
      ResumerCountsHolding(s);
    } else if pc == R_PUT {
      ResumerPuts(s);
    } else if pc == R_END {
      ResumerEnds(s);
    } else if pc <= R_TRY_RESUME_WAIT {
      ResumerChecksAfter(s);
    } else if pc <= R_COUNT2 {
      ResumerCounts(s);
    } else {
      ResumerCleans(s);
    }
  }

  /** A round that passed did so in the one order its threads allow. */
  ghost predicate Passed(o: Outcome) {
    o.log == if o.round.sleep then [FirstCheck, Suspended] else [Suspended, FirstCheck]
  }

  /** Nothing is left over between rounds: both events unset, both regions empty, no
      transaction known to the manager. */
  ghost predicate Clean(s: State) {
    && !s.txEvent && !s.idUpdated && !s.failed
    && s.manager == FRESH_MANAGER.(nextId := s.manager.nextId)
  }

  ghost predicate Inv(rounds: seq<Round>, s: State) {
    && !s.crashed
    && (s.todo == [] <==> s.main == Finished)
    && (if s.todo == [] then Clean(s) else Good(s))
    && |s.past| + |s.todo| == |rounds|
    && s.todo == rounds[|s.past|..]
    && (forall i :: 0 <= i < |s.past| ==> s.past[i].round == rounds[i] && Passed(s.past[i]))
  }

  lemma InitInv(rounds: seq<Round>)
    ensures Inv(rounds, Init(rounds))
  {
  }

  lemma MainStep(rounds: seq<Round>, s: State)
    requires Inv(rounds, s) && Next(s, Main).Some?
    ensures Inv(rounds, Next(s, Main).value)
  {
    if s.main == CheckOutcome && !s.failed {
      assert rounds[|s.past|..][1..] == rounds[|s.past| + 1..];
    }
  }

  lemma FrameKeepsInv(rounds: seq<Round>, s: State, s': State)
    requires Inv(rounds, s) && Good(s')
    requires SameRound(s, s')
    ensures Inv(rounds, s')
  {
  }

  lemma StepKeepsInv(rounds: seq<Round>, s: State, t: Thread)
    requires Inv(rounds, s) && Next(s, t).Some?
    ensures Inv(rounds, Next(s, t).value)
  {
    if t == Main {
      MainStep(rounds, s);
    } else {
      var s' := Next(s, t).value;
      if t == Suspender {
        SuspenderStep(s);
      } else {
        ResumerStep(s);
      }
      FrameKeepsInv(rounds, s, s');
    }
  }

  // ----- Progress -----

  ghost function MainRank(pc: MainPc): nat {
    match pc
    case StartSuspender => 6
    case AwaitId => 5
    case StartResumer => 4
    case JoinSuspender => 3
    case JoinResumer => 2
    case CheckOutcome => 1
    case Finished => 0
    case Failed => 0
  }

  const STEPS_PER_ROUND := 37

  /** More than the number of steps left. */
  ghost function Rank(s: State): int {
    if s.todo == [] then 0
    else STEPS_PER_ROUND * (|s.todo| - 1) + MainRank(s.main) + (S_DONE - s.suspender) + (R_DONE - s.resumer)
  }

  lemma MainRankFalls(s: State)
    requires Good(s) && NextMain(s).Some?
    ensures 0 <= Rank(NextMain(s).value) < Rank(s)
  {
  }

  lemma SuspenderRankFalls(s: State)
    requires Good(s) && NextSuspender(s).Some?
    ensures 0 <= Rank(NextSuspender(s).value) < Rank(s)
  {
    SuspenderStep(s);
  }

  /** The statements left to the resuming thread if no check fails; main starts it. */
  ghost function ResumerLeft(r: Round, pc: int): int {
    R_DONE - (if pc == R_IDLE then R_FIRST_CHECK else pc)
    - (if pc < R_SIGNAL && !r.sleep then 1 else 0) - (if pc < R_CLEAN1 && !r.commit then 2 else 0)
  }

  ghost predicate Advances(s: State, s': State)
    requires s.todo != []
  {
    || s'.crashed
    || (&& s.resumer < s'.resumer <= R_DONE && s'.suspender == s.suspender
        && (s'.log == s.log || s'.log == s.log + [FirstCheck])
        && (s'.failed || ResumerLeft(s.todo[0], s'.resumer) == ResumerLeft(s.todo[0], s.resumer) - 1))
  }

  lemma ChecksBeforeAdvance(s: State)
    requires s.todo != [] && R_IDLE <= s.resumer <= R_EMPTY2 && BeforeResuming(s).Some?
    ensures Advances(s, BeforeResuming(s).value)
  {
  }

  lemma ResumingAdvances(s: State)
    requires s.todo != [] && R_SIGNAL <= s.resumer <= R_RESUME && BeforeResuming(s).Some?
    ensures Advances(s, BeforeResuming(s).value)
  {
  }

  lemma ChecksHoldingAdvance(s: State)
    requires s.todo != [] && R_RESUMED <= s.resumer <= R_TWO2
    ensures Advances(s, WhileHolding(s).value)
  {
  }

  lemma EndingAdvances(s: State)
    requires s.todo != [] && R_PUT <= s.resumer <= R_END
    ensures Advances(s, WhileHolding(s).value)
  {
  }

  lemma ChecksAfterAdvance(s: State)
    requires s.todo != [] && R_NOT_SUSPENDED <= s.resumer <= R_TRY_RESUME_WAIT && AfterEnding(s).Some?
    ensures Advances(s, AfterEnding(s).value)
  {
  }

  lemma CleaningAdvances(s: State)
    requires s.todo != [] && R_COUNT1 <= s.resumer <= R_DONE && AfterEnding(s).Some?
    ensures Advances(s, AfterEnding(s).value)
  {
  }

  lemma ResumerAdvances(s: State)
    requires s.todo != [] && R_IDLE <= s.resumer <= R_DONE && NextResumer(s).Some?
    ensures Advances(s, NextResumer(s).value)
  {
    if s.resumer <= R_EMPTY2 {
      ChecksBeforeAdvance(s);
    } else if s.resumer <= R_RESUME {
      ResumingAdvances(s);
    } else if s.resumer <= R_TWO2 {
      ChecksHoldingAdvance(s);
    } else if s.resumer <= R_END {
      EndingAdvances(s);
    } else if s.resumer <= R_TRY_RESUME_WAIT {
      ChecksAfterAdvance(s);
    } else {
      CleaningAdvances(s);
    }
  }

  lemma AdvancingRankFalls(s: State, s': State)
    requires Good(s) && Good(s') && SameRound(s, s') && Advances(s, s')
    ensures 0 <= Rank(s') < Rank(s)
  {
  }

  lemma ResumerRankFalls(s: State)
    requires Good(s) && NextResumer(s).Some?
    ensures 0 <= Rank(NextResumer(s).value) < Rank(s)
  {
    ResumerStep(s);
    ResumerAdvances(s);
    AdvancingRankFalls(s, NextResumer(s).value);
  }

  /** While main has work left, some thread can take a step. */
  lemma NoDeadlock(s: State)
    requires Good(s) && s.main != Failed && s.main != Finished
    ensures exists t :: Next(s, t).Some?
  {
    if s.main == AwaitId && !s.idUpdated {
      assert Next(s, Suspender).Some?;
    } else if s.main == JoinSuspender && s.suspender != S_DONE {
      if s.suspender == S_WAIT && !s.txEvent {
        assert Next(s, Resumer).Some?;
      } else {
        assert Next(s, Suspender).Some?;
      }
    } else if s.main == JoinResumer && s.resumer != R_DONE {
      assert Next(s, Resumer).Some?;
    } else {
      assert Next(s, Main).Some?;
    }
  }

  // ----- Theorems over whole runs -----

  lemma StepRankFalls(rounds: seq<Round>, s: State, t: Thread)
    requires Inv(rounds, s) && Next(s, t).Some?
    ensures 0 <= Rank(Next(s, t).value) < Rank(s)
  {
    match t
    case Main => MainRankFalls(s);
    case Suspender => SuspenderRankFalls(s);
    case Resumer => ResumerRankFalls(s);
  }

  lemma {:induction false} RunKeepsInv(rounds: seq<Round>, s: State, schedule: seq<Thread>)
    requires Inv(rounds, s) && Feasible(s, schedule)
    ensures Inv(rounds, After(s, schedule))
    ensures |schedule| + Rank(After(s, schedule)) <= Rank(s)
    decreases |schedule|
  {
    if schedule != [] {
      var t := schedule[0];
      StepKeepsInv(rounds, s, t);
      StepRankFalls(rounds, s, t);
      RunKeepsInv(rounds, Next(s, t).value, schedule[1..]);
    }
  }

  ghost predicate Stuck(s: State) {
    forall t :: Next(s, t).None?
  }

  /** Safety in every reachable state. No thread ever throws. A sleep round never
      fails a check, and makes its first check before the transaction is suspended. A
      round without sleep has failed only if its first check came before the
      suspension. Every round passed so far had its events in the one good order, and
      between rounds both events are unset and both regions are empty. */
  lemma HandshakeSafe(rounds: seq<Round>, schedule: seq<Thread>)
    requires Feasible(Init(rounds), schedule)
    ensures var s := After(Init(rounds), schedule);
            && !s.crashed
            && (s.failed ==> !Sleeps(s) && [FirstCheck] <= s.log)
            && (Sleeps(s) && s.log != [] ==> s.log[0] == FirstCheck)
            && (s.main in {StartSuspender, Finished} ==> Clean(s))
            && |s.past| <= |rounds|
            && (forall i :: 0 <= i < |s.past| ==> s.past[i].round == rounds[i] && Passed(s.past[i]))
  {
    InitInv(rounds);
    RunKeepsInv(rounds, Init(rounds), schedule);
  }

  /** When both threads of a round have been joined, the round has passed exactly when
      it slept or its suspension came before the first check. */
  lemma RoundOutcome(rounds: seq<Round>, schedule: seq<Thread>)
    requires Feasible(Init(rounds), schedule)
    ensures var s := After(Init(rounds), schedule);
            s.main == CheckOutcome ==>
              (!s.failed <==> Sleeps(s) || s.log == [Suspended, FirstCheck])
  {
    InitInv(rounds);
    RunKeepsInv(rounds, Init(rounds), schedule);
  }

  /** Every run is finite, and one that cannot go on has either passed all rounds or
      stopped at a round without sleep that lost the race: no deadlock. */
  lemma HandshakeEnds(rounds: seq<Round>, schedule: seq<Thread>)
    requires Feasible(Init(rounds), schedule)
    ensures |schedule| <= STEPS_PER_ROUND * |rounds|
    ensures var s := After(Init(rounds), schedule);
            Stuck(s) ==>
              || (s.main == Finished && |s.past| == |rounds|)
              || (s.main == Failed && !Sleeps(s) && s.log == [FirstCheck, Suspended])
  {
    InitInv(rounds);
    RunKeepsInv(rounds, Init(rounds), schedule);
    var s := After(Init(rounds), schedule);
    if s.main != Finished && s.main != Failed {
      NoDeadlock(s);
    }
  }

  /** A schedule with sleeping rounds only cannot lose. */
  lemma SleepRoundsAlwaysPass(rounds: seq<Round>, schedule: seq<Thread>)
    requires forall i :: 0 <= i < |rounds| ==> rounds[i].sleep
    requires Feasible(Init(rounds), schedule) && Stuck(After(Init(rounds), schedule))
    ensures After(Init(rounds), schedule).main == Finished
  {
    HandshakeEnds(rounds, schedule);
    InitInv(rounds);
    RunKeepsInv(rounds, Init(rounds), schedule);
  }

  // ----- Exactly how many steps a passing run takes -----

  /** The statements of a round that passes: six of main, seven of the suspending and
      seventeen of the resuming thread, two more with sleep, and two more to clean up after
      a commit. */
  ghost function RoundSteps(r: Round): nat {
    6 + 7 + 17 + (if r.sleep then 2 else 0) + (if r.commit then 2 else 0)
  }

  ghost function TotalSteps(rounds: seq<Round>): nat {
    if rounds == [] then 0 else RoundSteps(rounds[0]) + TotalSteps(rounds[1..])
  }

  ghost function SuspenderLeft(r: Round, pc: int): int {
    S_DONE - (if pc == S_IDLE then S_BEGIN else pc) - (if pc < S_WAIT && !r.sleep then 1 else 0)
  }

  ghost function StepsLeft(s: State): int {
    if s.todo == [] then 0
    else MainRank(s.main) + SuspenderLeft(s.todo[0], s.suspender) + ResumerLeft(s.todo[0], s.resumer) + TotalSteps(s.todo[1..])
  }

  lemma MainStepCounts(s: State)
    requires Good(s) && NextMain(s).Some? && !NextMain(s).value.failed
    ensures !s.failed && StepsLeft(NextMain(s).value) == StepsLeft(s) - 1
  {
  }

  lemma SuspenderStepCounts(s: State)
    requires Good(s) && NextSuspender(s).Some? && !NextSuspender(s).value.failed
    ensures !s.failed && StepsLeft(NextSuspender(s).value) == StepsLeft(s) - 1
  {
    SuspenderStep(s);
  }

  lemma ResumerStepCounts(s: State)
    requires Good(s) && NextResumer(s).Some? && !NextResumer(s).value.failed
    ensures !s.failed && StepsLeft(NextResumer(s).value) == StepsLeft(s) - 1
  {
    ResumerStep(s);
    ResumerAdvances(s);
  }

  lemma StepCounts(rounds: seq<Round>, s: State, t: Thread)
    requires Inv(rounds, s) && Next(s, t).Some? && !Next(s, t).value.failed
    ensures !s.failed && StepsLeft(Next(s, t).value) == StepsLeft(s) - 1
  {
    match t
    case Main => MainStepCounts(s);
    case Suspender => SuspenderStepCounts(s);
    case Resumer => ResumerStepCounts(s);
  }

  lemma {:induction false} RunCounts(rounds: seq<Round>, s: State, schedule: seq<Thread>)
    requires Inv(rounds, s) && Feasible(s, schedule) && !After(s, schedule).failed
    ensures !s.failed && |schedule| + StepsLeft(After(s, schedule)) == StepsLeft(s)
    decreases |schedule|
  {
    if schedule != [] {
      var t := schedule[0];
      StepKeepsInv(rounds, s, t);
      RunCounts(rounds, Next(s, t).value, schedule[1..]);
      StepCounts(rounds, s, t);
    }
  }

  /** Under every schedule, a run that passes all rounds takes exactly the statements of its
      rounds: none is skipped and none repeated. */
  lemma PassingRunLength(rounds: seq<Round>, schedule: seq<Thread>)
    requires Feasible(Init(rounds), schedule) && After(Init(rounds), schedule).main == Finished
    ensures |schedule| == TotalSteps(rounds)
  {
    InitInv(rounds);
    RunKeepsInv(rounds, Init(rounds), schedule);
    RunCounts(rounds, Init(rounds), schedule);
  }

  // ----- Both outcomes of the race happen -----

  /** The suspending thread is never left behind by main. */
  ghost predicate Eager(s: State) {
    !s.failed && (s.todo != [] && !Sleeps(s) && s.main != StartSuspender && s.main != AwaitId ==> s.suspender == S_DONE)
  }

  lemma EagerSuspender(s: State)
    requires Good(s) && Eager(s) && NextSuspender(s).Some?
    ensures Eager(NextSuspender(s).value)
  {
  }

  lemma EagerMain(s: State)
    requires Good(s) && Eager(s) && NextMain(s).Some? && NextSuspender(s).None?
    ensures Eager(NextMain(s).value)
  {
  }

  lemma EagerResumer(s: State, s': State)
    requires Good(s) && Eager(s) && Good(s') && SameRound(s, s') && Advances(s, s')
    ensures Eager(s')
  {
    assert s.log != [] ==> s'.log[0] == s.log[0];
  }

  lemma EagerStep(s: State) returns (t: Thread)
    requires Good(s) && Eager(s) && s.main != Finished
    ensures Next(s, t).Some? && Eager(Next(s, t).value)
  {
    NoDeadlock(s);
    if Next(s, Suspender).Some? {
      t := Suspender;
      EagerSuspender(s);
    } else if Next(s, Main).Some? {
      t := Main;
      EagerMain(s);
    } else {
      t := Resumer;
      ResumerStep(s);
      ResumerAdvances(s);
      EagerResumer(s, NextResumer(s).value);
    }
  }

  ghost predicate AtRound(s: State, k: nat) {
    |s.past| == k && (s.main == StartSuspender || s.main == Finished)
  }

  /** An eager run reaches the start of every round, and the end. */
  lemma {:induction false} EagerRun(rounds: seq<Round>, s: State, k: nat) returns (schedule: seq<Thread>)
    requires Inv(rounds, s) && Eager(s) && |s.past| <= k <= |rounds|
    requires |s.past| == k ==> AtRound(s, k)
    ensures Feasible(s, schedule) && AtRound(After(s, schedule), k)
    decreases Rank(s)
  {
    if |s.past| == k {
      schedule := [];
    } else {
      var t := EagerStep(s);
      StepKeepsInv(rounds, s, t);
      StepRankFalls(rounds, s, t);
      var rest := EagerRun(rounds, Next(s, t).value, k);
      schedule := [t] + rest;
      assert schedule[1..] == rest;
    }
  }

  /** Every list of rounds has a run that passes them all. */
  lemma CanPass(rounds: seq<Round>) returns (schedule: seq<Thread>)
    ensures Feasible(Init(rounds), schedule) && After(Init(rounds), schedule).main == Finished
  {
    InitInv(rounds);
    schedule := EagerRun(rounds, Init(rounds), |rounds|);
    RunKeepsInv(rounds, Init(rounds), schedule);
  }

  lemma {:induction false} Extend(s: State, schedule: seq<Thread>, rest: seq<Thread>)
    requires Feasible(s, schedule) && Feasible(After(s, schedule), rest)
    ensures Feasible(s, schedule + rest)
    ensures After(s, schedule + rest) == After(After(s, schedule), rest)
    decreases |schedule|
  {
    if schedule == [] {
      assert schedule + rest == rest;
    } else {
      assert (schedule + rest)[1..] == schedule[1..] + rest;
      Extend(Next(s, schedule[0]).value, schedule[1..], rest);
    }
  }

  lemma Take(rounds: seq<Round>, s0: State, schedule: seq<Thread>, t: Thread) returns (longer: seq<Thread>)
    requires Feasible(s0, schedule) && Inv(rounds, After(s0, schedule)) && Next(After(s0, schedule), t).Some?
    ensures Feasible(s0, longer) && After(s0, longer) == Next(After(s0, schedule), t).value
    ensures Inv(rounds, After(s0, longer))
  {
    var s := After(s0, schedule);
    StepKeepsInv(rounds, s, t);
    assert [t][1..] == [];
    Extend(s0, schedule, [t]);
    longer := schedule + [t];
  }

  /** The resuming thread looks before the suspending one has acted. */
  lemma HastyRound(rounds: seq<Round>, s0: State) returns (schedule: seq<Thread>)
    requires Inv(rounds, s0) && s0.main == StartSuspender && !Sleeps(s0)
    ensures Feasible(s0, schedule)
    ensures After(s0, schedule).main == Failed && |After(s0, schedule).past| == |s0.past|
  {
    schedule := Take(rounds, s0, [], Main);
    schedule := SuspenderWrites(rounds, s0, schedule);
    schedule := Take(rounds, s0, schedule, Main);
    schedule := Take(rounds, s0, schedule, Main);
    schedule := Take(rounds, s0, schedule, Resumer);
    schedule := FailedRound(rounds, s0, schedule);
  }

  /** The suspending thread runs up to the suspension. */
  lemma SuspenderWrites(rounds: seq<Round>, s0: State, start: seq<Thread>) returns (schedule: seq<Thread>)
    requires Feasible(s0, start)
    requires var s := After(s0, start);
             Inv(rounds, s) && s.todo == s0.todo && !Sleeps(s) && s.main == AwaitId && s.suspender == S_BEGIN
    ensures Feasible(s0, schedule)
    ensures var s := After(s0, schedule);
            Inv(rounds, s) && s.todo == s0.todo && s.main == AwaitId && s.suspender == S_PUBLISH
  {
    schedule := start;
    var i := S_BEGIN;
    while i < S_PUBLISH
      invariant i in {S_BEGIN, S_PUT1, S_PUT2, S_READ_ID, S_SET_ID, S_PUBLISH}
      invariant Feasible(s0, schedule)
      invariant var s := After(s0, schedule);
                Inv(rounds, s) && s.todo == s0.todo && s.main == AwaitId && s.suspender == i
    {
      schedule := Take(rounds, s0, schedule, Suspender);
      i := if i == S_SET_ID then S_PUBLISH else i + 1;
    }
  }

  /** Once the check has failed the round is wound up: the transaction is suspended, both
      threads are joined and main reports the failure. */
  lemma FailedRound(rounds: seq<Round>, s0: State, start: seq<Thread>) returns (schedule: seq<Thread>)
    requires Feasible(s0, start)
    requires var s := After(s0, start);
             Inv(rounds, s) && s.failed && s.main == JoinSuspender && s.suspender == S_PUBLISH
    ensures Feasible(s0, schedule)
    ensures After(s0, schedule).main == Failed && |After(s0, schedule).past| == |After(s0, start).past|
  {
    schedule := Take(rounds, s0, start, Suspender);
    schedule := Take(rounds, s0, schedule, Suspender);
    schedule := Take(rounds, s0, schedule, Main);
    schedule := Take(rounds, s0, schedule, Main);
    schedule := Take(rounds, s0, schedule, Main);
  }

  /** Any list with a round that does not sleep has a run that fails at that round. */
  lemma CanFail(rounds: seq<Round>, k: nat) returns (schedule: seq<Thread>)
    requires k < |rounds| && !rounds[k].sleep
    ensures Feasible(Init(rounds), schedule)
    ensures After(Init(rounds), schedule).main == Failed && |After(Init(rounds), schedule).past| == k
  {
    InitInv(rounds);
    schedule := EagerRun(rounds, Init(rounds), k);
    RunKeepsInv(rounds, Init(rounds), schedule);
    var s := After(Init(rounds), schedule);
    var rest := HastyRound(rounds, s);
    Extend(Init(rounds), schedule, rest);
    schedule := schedule + rest;
  }
}
