/** The result collector: a monitor that function execution fills and callers wait on.

    An event is one critical section: a call that runs to its end or to the point where
    it waits, the expiry of a waiting caller's timeout, and the wake-up that a pulse
    gives to the caller that has waited longest. Callers are numbered.
 */
module ResultCollector {
  import opened Wrappers

  datatype Outcome = AtOnce | Released | TimedOut | NotReady

  /** How a call of `GetResult` ended; a call that returned saw `results`. */
  datatype Finish<T> = Finish(caller: nat, outcome: Outcome, results: seq<T>)

  datatype Event<T> = Add(result: T) | Get(caller: nat, positive: bool) | Expire(caller: nat) | End | Clear

  datatype State<T> = State(
    ready: bool,
    results: seq<T>,
    adds: nat,
    gets: nat,
    ends: nat,
    waiting: seq<nat>,
    finished: seq<Finish<T>>)

  predicate Normal(o: Outcome) {
    o == AtOnce || o == Released
  }

  /** The queue without the first entry of `c`. */
  function Remove(waiting: seq<nat>, c: nat): seq<nat> {
    if waiting == [] then [] else if waiting[0] == c then waiting[1..] else [waiting[0]] + Remove(waiting[1..], c)
  }

  class Collector<T> {
    var resultReady: bool
    var results: seq<T>
    var addResultCount: nat
    var getResultCount: nat
    var endResultCount: nat
    /** The monitor's queue of waiting callers. */
    var waiting: seq<nat>
    ghost var finished: seq<Finish<T>>

    ghost function Now(): State<T>
      reads this
    {
      State(resultReady, results, addResultCount, getResultCount, endResultCount, waiting, finished)
    }

    constructor ()
      ensures Now() == Fresh()
    {
      resultReady, results, addResultCount, getResultCount, endResultCount, waiting, finished := false, [], 0, 0, 0, [], [];
    }

    method AddResult(result: T)
      modifies this
      ensures Now() == Step(old(Now()), Add(result))
    {
      addResultCount := addResultCount + 1;
      results := results + [result];
    }

    /** Nothing is returned while the caller waits. */
    method GetResult(caller: nat, positive: bool) returns (outcome: Option<Outcome>)
      modifies this
      ensures Now() == Step(old(Now()), Get(caller, positive))
      ensures outcome == if old(resultReady) then Some(AtOnce) else if positive then None else Some(NotReady)
    {
      getResultCount := getResultCount + 1;
      if !resultReady {
        if positive {
          waiting := waiting + [caller];
          return None;
        }
        finished := finished + [Finish(caller, NotReady, [])];
        return Some(NotReady);
      }
      finished := finished + [Finish(caller, AtOnce, results)];
      outcome := Some(AtOnce);
    }

    /** A caller's wait runs out: `Monitor.Wait` gives false and the call throws. */
    method Timeout(caller: nat)
      requires caller in waiting
      modifies this
      ensures Now() == Step(old(Now()), Expire(caller))
    {
      waiting := Remove(waiting, caller);
      finished := finished + [Finish(caller, TimedOut, [])];
    }

    method EndResults() returns (released: Option<nat>)
      modifies this
      ensures Now() == Step(old(Now()), End)
      ensures released == if old(waiting) == [] then None else Some(old(waiting)[0])
    {
      endResultCount := endResultCount + 1;
      resultReady := true;
      if waiting == [] {
        return None;
      }
      released := Some(waiting[0]);
      finished := finished + [Finish(waiting[0], Released, results)];
      waiting := waiting[1..];
    }

    method ClearResults()
      modifies this
      ensures Now() == Step(old(Now()), Clear)
    {
      results, addResultCount, getResultCount, endResultCount, resultReady := [], 0, 0, 0, false;
    }
  }

  // ----- Runs -----

  ghost function Fresh<T>(): State<T> {
    State(false, [], 0, 0, 0, [], [])
  }

  ghost function Step<T>(s: State<T>, e: Event<T>): State<T> {
    match e
    case Add(result) => s.(adds := s.adds + 1, results := s.results + [result])
    case Get(c, positive) =>
      var t := s.(gets := s.gets + 1);
      if s.ready then t.(finished := s.finished + [Finish(c, AtOnce, s.results)])
      else if positive then t.(waiting := s.waiting + [c])
      else t.(finished := s.finished + [Finish(c, NotReady, [])])
    case Expire(c) => s.(waiting := Remove(s.waiting, c), finished := s.finished + [Finish(c, TimedOut, [])])
    case End =>
      var t := s.(ends := s.ends + 1, ready := true);
      if s.waiting == [] then t
      else t.(waiting := s.waiting[1..], finished := s.finished + [Finish(s.waiting[0], Released, s.results)])
    case Clear => s.(ready := false, results := [], adds := 0, gets := 0, ends := 0)
  }

  ghost function Run<T>(events: seq<Event<T>>): State<T> {
    if events == [] then Fresh() else Step(Run(events[..|events| - 1]), events[|events| - 1])
  }

  /** Only a waiting caller's wait runs out. */
  ghost predicate Feasible<T>(events: seq<Event<T>>) {
    forall i :: 0 <= i < |events| && events[i].Expire? ==> events[i].caller in Run(events[..i]).waiting
  }

  // ----- What the events alone say -----

  ghost function Ends<T>(events: seq<Event<T>>): nat {
    if events == [] then 0 else Ends(events[..|events| - 1]) + if events[|events| - 1].End? then 1 else 0
  }

  ghost function Gets<T>(events: seq<Event<T>>): nat {
    if events == [] then 0 else Gets(events[..|events| - 1]) + if events[|events| - 1].Get? then 1 else 0
  }

  /** The events after the last `Clear`. */
  ghost function SinceClear<T>(events: seq<Event<T>>): seq<Event<T>> {
    if events == [] || events[|events| - 1].Clear? then []
    else SinceClear(events[..|events| - 1]) + [events[|events| - 1]]
  }

  ghost function Added<T>(events: seq<Event<T>>): seq<T> {
    if events == [] then []
    else Added(events[..|events| - 1]) + if events[|events| - 1].Add? then [events[|events| - 1].result] else []
  }

  /** The callers that came with time to wait while no `End` had come since results were
      last cleared, in order. */
  ghost function Waiters<T>(events: seq<Event<T>>): seq<nat> {
    if events == [] then []
    else
      var earlier, e := events[..|events| - 1], events[|events| - 1];
      Waiters(earlier) + if e.Get? && e.positive && Ends(SinceClear(earlier)) == 0 then [e.caller] else []
  }

  /** How many of them the `End`s release when no wait runs out: one each, if one waits. */
  ghost function Freed<T>(events: seq<Event<T>>): (n: nat)
    ensures n <= |Waiters(events)|
  {
    if events == [] then 0
    else
      var earlier := events[..|events| - 1];
      if events[|events| - 1].End? && Freed(earlier) < |Waiters(earlier)| then Freed(earlier) + 1 else Freed(earlier)
  }

  /** The results added before the first `End`. */
  ghost function Complete<T>(events: seq<Event<T>>): seq<T> {
    if events == [] then []
    else
      var earlier, e := events[..|events| - 1], events[|events| - 1];
      Complete(earlier) + if e.Add? && Ends(earlier) == 0 then [e.result] else []
  }

  ghost function Callers<T>(finished: seq<Finish<T>>, o: Outcome): seq<nat> {
    if finished == [] then []
    else
      var last := finished[|finished| - 1];
      Callers(finished[..|finished| - 1], o) + if last.outcome == o then [last.caller] else []
  }

  lemma CallersAppend<T>(finished: seq<Finish<T>>, f: Finish<T>, o: Outcome)
    ensures Callers(finished + [f], o) == Callers(finished, o) + if f.outcome == o then [f.caller] else []
  {
    assert (finished + [f])[..|finished|] == finished;
  }

  // ----- Every run -----

  lemma CountsAppend<T>(events: seq<Event<T>>, e: Event<T>)
    ensures Ends(events + [e]) == Ends(events) + if e.End? then 1 else 0
    ensures Gets(events + [e]) == Gets(events) + if e.Get? then 1 else 0
    ensures Added(events + [e]) == Added(events) + if e.Add? then [e.result] else []
  {
    assert (events + [e])[..|events|] == events;
  }

  /** The flag, the results and the counters are those of the given events. */
  ghost predicate Counted<T>(s: State<T>, recent: seq<Event<T>>) {
    && (s.ready <==> Ends(recent) > 0)
    && s.results == Added(recent) && s.adds == |Added(recent)|
    && s.gets == Gets(recent) && s.ends == Ends(recent)
  }

  lemma CountedStep<T>(s: State<T>, recent: seq<Event<T>>, e: Event<T>)
    requires Counted(s, recent) && !e.Clear?
    ensures Counted(Step(s, e), recent + [e])
  {
    CountsAppend(recent, e);
    assert Added(recent) + [] == Added(recent);
  }

  /** In every run the flag, the results and the counters say what has happened since results
      were last cleared, and nothing of what happened before. */
  lemma {:induction false} CountsSinceClear<T>(events: seq<Event<T>>)
    ensures Counted(Run(events), SinceClear(events))
  {
    if events != [] && !events[|events| - 1].Clear? {
      var n := |events| - 1;
      CountsSinceClear(events[..n]);
      CountedStep(Run(events[..n]), SinceClear(events[..n]), events[n]);
    }
  }

  /** A call returns normally only after some `EndResults`, even if results are cleared
      in between. */
  lemma {:induction false} ReturnsNeedEnd<T>(events: seq<Event<T>>)
    ensures Run(events).ready ==> Ends(events) > 0
    ensures forall f :: f in Run(events).finished && Normal(f.outcome) ==> Ends(events) > 0
  {
    if events != [] {
      ReturnsNeedEnd(events[..|events| - 1]);
    }
  }

  ghost predicate NoClear<T>(events: seq<Event<T>>) {
    forall i :: 0 <= i < |events| ==> !events[i].Clear?
  }

  lemma {:induction false} RemoveOne(w: seq<nat>, c: nat)
    requires c in w
    ensures multiset(w) == multiset(Remove(w, c)) + multiset{c}
    ensures |Remove(w, c)| == |w| - 1
  {
    assert w == [w[0]] + w[1..];
    if w[0] != c {
      RemoveOne(w[1..], c);
    }
  }

  /** The callers that have waited: released, timed out or still waiting. */
  ghost function Waited<T>(s: State<T>): multiset<nat> {
    multiset(Callers(s.finished, Released)) + multiset(Callers(s.finished, TimedOut)) + multiset(s.waiting)
  }

  lemma GetBalances<T>(s: State<T>, c: nat, positive: bool)
    ensures var t := Step(s, Get(c, positive));
            && Waited(t) == Waited(s) + (if !s.ready && positive then multiset{c} else multiset{})
            && |Callers(t.finished, Released)| == |Callers(s.finished, Released)|
            && |t.finished| + |t.waiting| == |s.finished| + |s.waiting| + 1
  {
    var f := if s.ready then Finish(c, AtOnce, s.results) else Finish(c, NotReady, []);
    CallersAppend(s.finished, f, Released);
    CallersAppend(s.finished, f, TimedOut);
    assert Callers(s.finished, Released) + [] == Callers(s.finished, Released);
    assert Callers(s.finished, TimedOut) + [] == Callers(s.finished, TimedOut);
  }

  lemma ExpireBalances<T>(s: State<T>, c: nat)
    requires c in s.waiting
    ensures var t := Step(s, Expire(c));
            && Waited(t) == Waited(s)
            && |Callers(t.finished, Released)| == |Callers(s.finished, Released)|
            && |t.finished| + |t.waiting| == |s.finished| + |s.waiting|
  {
    RemoveOne(s.waiting, c);
    CallersAppend(s.finished, Finish(c, TimedOut, []), Released);
    CallersAppend(s.finished, Finish(c, TimedOut, []), TimedOut);
    assert Callers(s.finished, Released) + [] == Callers(s.finished, Released);
  }

  lemma EndBalances<T>(s: State<T>)
    ensures var t := Step(s, End);
            && Waited(t) == Waited(s)
            && |Callers(t.finished, Released)| <= |Callers(s.finished, Released)| + 1
            && |t.finished| + |t.waiting| == |s.finished| + |s.waiting|
  {
    if s.waiting != [] {
      var f := Finish(s.waiting[0], Released, s.results);
      assert s.waiting == [s.waiting[0]] + s.waiting[1..];
      CallersAppend(s.finished, f, Released);
      CallersAppend(s.finished, f, TimedOut);
      assert Callers(s.finished, TimedOut) + [] == Callers(s.finished, TimedOut);
    }
  }

  /** Every one of `gets` calls is either waiting or finished, every caller that ever waited
      is released, timed out or still waiting, and no `EndResults` releases two. */
  ghost predicate Balanced<T>(s: State<T>, gets: nat, ends: nat, waiters: multiset<nat>) {
    gets == |s.finished| + |s.waiting| && |Callers(s.finished, Released)| <= ends && waiters == Waited(s)
  }

  lemma BalancedStep<T>(s: State<T>, e: Event<T>, gets: nat, ends: nat, waiters: multiset<nat>)
    requires Balanced(s, gets, ends, waiters) && (e.Expire? ==> e.caller in s.waiting)
    ensures Balanced(Step(s, e), gets + (if e.Get? then 1 else 0), ends + (if e.End? then 1 else 0),
                     waiters + (if e.Get? && e.positive && !s.ready then multiset{e.caller} else multiset{}))
  {
    match e
    case Get(c, positive) => GetBalances(s, c, positive);
    case Expire(c) => ExpireBalances(s, c);
    case End => EndBalances(s);
    case _ =>
  }

  ghost predicate Accounted<T>(events: seq<Event<T>>, s: State<T>) {
    Balanced(s, Gets(events), Ends(events), multiset(Waiters(events)))
  }

  /** In every run, however often results are cleared, all calls are accounted for. */
  lemma {:induction false} CallsAccounted<T>(events: seq<Event<T>>)
    requires Feasible(events)
    ensures Accounted(events, Run(events))
  {
    if events != [] {
      var n := |events| - 1;
      var earlier, e := events[..n], events[n];
      assert forall i :: 0 <= i < n ==> earlier[..i] == events[..i];
      CallsAccounted(earlier);
      CountsSinceClear(earlier);
      BalancedStep(Run(earlier), e, Gets(earlier), Ends(earlier), multiset(Waiters(earlier)));
    }
  }

  /** The first `n` of the callers are released and the rest wait. */
  ghost predicate InOrder<T>(s: State<T>, w: seq<nat>, n: nat) {
    n <= |w| && Callers(s.finished, Released) == w[..n] && s.waiting == w[n..]
  }

  lemma GetInOrder<T>(s: State<T>, w: seq<nat>, n: nat, c: nat, positive: bool)
    requires InOrder(s, w, n)
    ensures InOrder(Step(s, Get(c, positive)), w + (if positive && !s.ready then [c] else []), n)
  {
    if s.ready || !positive {
      CallersAppend(s.finished, if s.ready then Finish(c, AtOnce, s.results) else Finish(c, NotReady, []), Released);
      assert Callers(s.finished, Released) + [] == Callers(s.finished, Released);
      assert w + [] == w;
    } else {
      assert (w + [c])[..n] == w[..n];
      assert (w + [c])[n..] == w[n..] + [c];
    }
  }

  lemma EndInOrder<T>(s: State<T>, w: seq<nat>, n: nat)
    requires InOrder(s, w, n)
    ensures InOrder(Step(s, End), w, if n < |w| then n + 1 else n)
  {
    if n < |w| {
      CallersAppend(s.finished, Finish(w[n], Released, s.results), Released);
      assert w[..n] + [w[n]] == w[..n + 1];
      assert w[n..][1..] == w[n + 1..];
    }
  }

  /** Without timeouts callers are released in the order they came, one per `EndResults`
      while one waits, and the rest keep waiting although the results are ready; clearing
      makes no difference to that. */
  lemma {:induction false} ReleasedInOrder<T>(events: seq<Event<T>>)
    requires forall i :: 0 <= i < |events| ==> !events[i].Expire?
    ensures InOrder(Run(events), Waiters(events), Freed(events))
  {
    if events != [] {
      var earlier, e := events[..|events| - 1], events[|events| - 1];
      ReleasedInOrder(earlier);
      var s, w, n := Run(earlier), Waiters(earlier), Freed(earlier);
      assert w + [] == w;
      match e
      case Get(c, positive) =>
        CountsSinceClear(earlier);
        GetInOrder(s, w, n, c, positive);
      case End => EndInOrder(s, w, n);
      case _ =>
    }
  }

  lemma {:induction false} NoneCleared<T>(events: seq<Event<T>>)
    requires NoClear(events)
    ensures SinceClear(events) == events
  {
    if events != [] {
      NoneCleared(events[..|events| - 1]);
    }
  }

  /** Until results are cleared, as many are released as there are calls of `EndResults`,
      or all. */
  lemma {:induction false} FreedByEnds<T>(events: seq<Event<T>>)
    requires NoClear(events)
    ensures Freed(events) == if Ends(events) < |Waiters(events)| then Ends(events) else |Waiters(events)|
  {
    if events != [] {
      FreedByEnds(events[..|events| - 1]);
      NoneCleared(events[..|events| - 1]);
    }
  }

  /** Once `EndResults` has been called, and until results are cleared, a caller returns at
      once, whatever its timeout, and the queue stays as it is. */
  lemma LaterCallersReturn<T>(events: seq<Event<T>>, c: nat, positive: bool)
    requires Ends(SinceClear(events)) > 0
    ensures var s := Run(events);
            var t := Run(events + [Get(c, positive)]);
            t.finished == s.finished + [Finish(c, AtOnce, Added(SinceClear(events)))] && t.waiting == s.waiting
  {
    CountsSinceClear(events);
    assert (events + [Get(c, positive)])[..|events|] == events;
  }

  /** Every normal return sees at least the results added before the first
      `EndResults`, and nothing is ever taken back. */
  lemma {:induction false} ReturnsSeeResults<T>(events: seq<Event<T>>)
    requires NoClear(events)
    ensures var s := Run(events);
            && Complete(events) <= s.results && (Ends(events) == 0 ==> Complete(events) == s.results)
            && (forall f :: f in s.finished && Normal(f.outcome) ==> Complete(events) <= f.results <= s.results)
  {
    if events != [] {
      ReturnsSeeResults(events[..|events| - 1]);
      ReturnsNeedEnd(events[..|events| - 1]);
    }
  }
}
