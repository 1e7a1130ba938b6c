/** Every run of the transaction manager: any number of threads begin, put, suspend,
    resume, commit and roll back, in any order the manager allows.

    Suspending is two steps, as in the native manager: the transaction is published as
    suspended before the thread lets go of it, so another thread can resume it, and
    even end it, in between. A thread in that position is `leaving` and can do nothing
    but let go. A resume whose connection cannot be had loses the transaction. A commit that
    the server refuses retires its transaction as a rollback does. What a run has
    written, ended and lost is kept in a log, and the committed regions are characterised
    by the log alone.
 */
module TransactionRuns {
  import opened Transactions
  import opened Wrappers

  datatype Call<T> =
    | Begin(t: T)
    | Put(t: T, entries: Regions)
    | Publish(t: T)
    | Clear(t: T)
    | Resume(t: T, id: nat)
    | ResumeFails(t: T, id: nat)
    | End(t: T, commit: bool)

  /** Entries written inside a transaction or outside any, and the ends and losses of
      transactions. */
  datatype Event = Wrote(tx: Option<nat>, entries: Regions) | Ended(id: nat, commit: bool) | Orphaned(id: nat)

  datatype State<T(==)> = State(m: Manager<T>, leaving: set<T>, log: seq<Event>)

  ghost function Start<T>(): State<T> {
    State(Manager({}, {}, map[], map[], NO_ENTRIES, 0), {}, [])
  }

  /** The thread works on a transaction. */
  ghost predicate Holds<T>(s: State<T>, t: T, id: nat) {
    t in s.m.current && t !in s.leaving && s.m.current[t] == id
  }

  /** The manager throws unless this holds, or the thread is inside another call. */
  ghost predicate Allowed<T>(s: State<T>, c: Call<T>) {
    match c
    case Begin(t) => t !in s.m.current
    case Put(t, _) => t !in s.leaving
    case Publish(t) => t in s.m.current && t !in s.leaving
    case Clear(t) => t in s.leaving
    case Resume(t, id) => s.m.CanResume(t, id)
    case ResumeFails(t, id) => s.m.CanResume(t, id)
    case End(t, _) => t in s.m.current && t !in s.leaving
  }

  ghost function Step<T>(s: State<T>, c: Call<T>): State<T>
    requires Allowed(s, c)
  {
    var m := s.m;
    match c
    case Begin(t) => s.(m := m.Begin(t))
    case Put(t, entries) =>
      var id := if t in m.current then Some(m.current[t]) else None;
      s.(m := m.Put(t, entries), log := s.log + [Wrote(id, entries)])
    case Publish(t) => s.(m := m.Publish(t), leaving := s.leaving + {t})
    case Clear(t) => s.(m := m.Clear(t), leaving := s.leaving - {t})
    case Resume(t, id) => s.(m := m.Resume(t, id))
    case ResumeFails(_, id) => s.(m := m.ResumeFails(id), log := s.log + [Orphaned(id)])
    case End(t, commit) =>
      s.(m := if commit then m.Commit(t) else m.Rollback(t), log := s.log + [Ended(m.current[t], commit)])
  }

  ghost predicate Feasible<T>(calls: seq<Call<T>>)
    decreases |calls|, 0
  {
    calls == [] ||
    (Feasible(calls[..|calls| - 1]) && Allowed(After(calls[..|calls| - 1]), calls[|calls| - 1]))
  }

  ghost function After<T>(calls: seq<Call<T>>): State<T>
    requires Feasible(calls)
    decreases |calls|, 1
  {
    if calls == [] then Start() else Step(After(calls[..|calls| - 1]), calls[|calls| - 1])
  }

  // ----- What the log says -----

  /** A key of the first or the second region. */
  datatype Place = Place(first: bool, key: int)

  ghost predicate In(p: Place, r: Regions) {
    p.key in if p.first then r.cstx1 else r.cstx2
  }

  ghost predicate WroteAt(log: seq<Event>, i: nat, id: Option<nat>, p: Place) {
    i < |log| && log[i].Wrote? && log[i].tx == id && In(p, log[i].entries)
  }

  /** Some put of the transaction wrote the key. */
  ghost predicate WroteBy(log: seq<Event>, id: Option<nat>, p: Place) {
    exists i: nat :: WroteAt(log, i, id, p)
  }

  /** The key was written outside any transaction, or by one that was committed. */
  ghost predicate Kept(log: seq<Event>, p: Place) {
    WroteBy(log, None, p) || exists id: nat :: Ended(id, true) in log && WroteBy(log, Some(id), p)
  }

  // ----- The invariant -----

  /** A live transaction is suspended, held by one thread, or lost. */
  ghost predicate Owned<T(!new)>(s: State<T>) {
    && s.leaving <= s.m.current.Keys
    && (forall t, id :: Holds(s, t, id) ==> id in s.m.live && id !in s.m.suspended)
    && (forall t, u, id :: Holds(s, t, id) && Holds(s, u, id) ==> t == u)
    && (forall id :: id in s.m.live && id !in s.m.suspended && Orphaned(id) !in s.log ==> exists t :: Holds(s, t, id))
    && (forall id :: Orphaned(id) in s.log ==> id in s.m.live && id !in s.m.suspended && !exists t :: Holds(s, t, id))
  }

  /** Ids are used once: nothing is logged of one before it is given out or after its end. */
  ghost predicate Logged<T>(s: State<T>) {
    && (forall e :: e in s.log && e.Wrote? && e.tx.Some? ==> e.tx.value < s.m.nextId)
    && (forall e :: e in s.log && e.Ended? ==> e.id < s.m.nextId && e.id !in s.m.live)
  }

  ghost predicate Recorded<T>(s: State<T>) {
    && (forall p :: In(p, s.m.committed) <==> Kept(s.log, p))
    && (forall id, p :: id in s.m.written ==> (In(p, s.m.written[id]) <==> WroteBy(s.log, Some(id), p)))
  }

  ghost predicate Inv<T(!new)>(s: State<T>) {
    s.m.WellFormed() && Owned(s) && Logged(s) && Recorded(s)
  }

  // ----- Ownership -----

  /** Threads other than `t` go on holding what they hold. */
  lemma OthersHold<T(!new)>(s: State<T>, s': State<T>, t: T)
    requires s'.leaving - {t} == s.leaving - {t}
    requires forall u :: u != t ==> (u in s'.m.current <==> u in s.m.current)
    requires forall u :: u != t && u in s.m.current ==> s'.m.current[u] == s.m.current[u]
    ensures forall u, id :: u != t ==> (Holds(s', u, id) <==> Holds(s, u, id))
  {
    assert forall u :: u != t ==> (u in s'.leaving <==> u in s'.leaving - {t});
    assert forall u :: u != t ==> (u in s.leaving <==> u in s.leaving - {t});
  }

  lemma BeginOwned<T(!new)>(s: State<T>, t: T)
    requires s.m.WellFormed() && Owned(s) && Allowed(s, Begin(t))
    ensures Step(s, Begin(t)).m.WellFormed() && Owned(Step(s, Begin(t)))
  {
    var s' := Step(s, Begin(t));
    OthersHold(s, s', t);
    assert Holds(s', t, s.m.nextId);
  }

  lemma PublishOwned<T(!new)>(s: State<T>, t: T)
    requires s.m.WellFormed() && Owned(s) && Allowed(s, Publish(t))
    ensures Step(s, Publish(t)).m.WellFormed() && Owned(Step(s, Publish(t)))
  {
    OthersHold(s, Step(s, Publish(t)), t);
    assert Holds(s, t, s.m.current[t]);
  }

  lemma ClearOwned<T(!new)>(s: State<T>, t: T)
    requires s.m.WellFormed() && Owned(s) && Allowed(s, Clear(t))
    ensures Step(s, Clear(t)).m.WellFormed() && Owned(Step(s, Clear(t)))
  {
    OthersHold(s, Step(s, Clear(t)), t);
  }

  lemma ResumeOwned<T(!new)>(s: State<T>, t: T, id: nat)
    requires s.m.WellFormed() && Owned(s) && Allowed(s, Resume(t, id))
    ensures Step(s, Resume(t, id)).m.WellFormed() && Owned(Step(s, Resume(t, id)))
  {
    var s' := Step(s, Resume(t, id));
    OthersHold(s, s', t);
    assert Holds(s', t, id);
  }

  lemma ResumeFailsOwned<T(!new)>(s: State<T>, t: T, id: nat)
    requires s.m.WellFormed() && Owned(s) && Allowed(s, ResumeFails(t, id))
    ensures Step(s, ResumeFails(t, id)).m.WellFormed() && Owned(Step(s, ResumeFails(t, id)))
  {
    var s' := Step(s, ResumeFails(t, id));
    assert forall u, j :: Holds(s', u, j) <==> Holds(s, u, j);
    assert forall j :: Orphaned(j) in s'.log <==> Orphaned(j) in s.log || j == id;
  }

  lemma EndOwned<T(!new)>(s: State<T>, t: T, commit: bool)
    requires s.m.WellFormed() && Owned(s) && Allowed(s, End(t, commit))
    ensures Step(s, End(t, commit)).m.WellFormed() && Owned(Step(s, End(t, commit)))
  {
    OthersHold(s, Step(s, End(t, commit)), t);
    assert Holds(s, t, s.m.current[t]);
  }

  lemma PutOwned<T(!new)>(s: State<T>, t: T, entries: Regions)
    requires s.m.WellFormed() && Owned(s) && Allowed(s, Put(t, entries))
    ensures Step(s, Put(t, entries)).m.WellFormed() && Owned(Step(s, Put(t, entries)))
  {
    var s' := Step(s, Put(t, entries));
    assert t in s.m.current ==> Holds(s, t, s.m.current[t]);
    assert forall u, id :: Holds(s', u, id) <==> Holds(s, u, id);
  }

  lemma OwnedStep<T(!new)>(s: State<T>, c: Call<T>)
    requires s.m.WellFormed() && Owned(s) && Allowed(s, c)
    ensures Step(s, c).m.WellFormed() && Owned(Step(s, c))
  {
    match c
    case Begin(t) => BeginOwned(s, t);
    case Put(t, entries) => PutOwned(s, t, entries);
    case Publish(t) => PublishOwned(s, t);
    case Clear(t) => ClearOwned(s, t);
    case Resume(t, id) => ResumeOwned(s, t, id);
    case ResumeFails(t, id) => ResumeFailsOwned(s, t, id);
    case End(t, commit) => EndOwned(s, t, commit);
  }

  // ----- The log -----

  lemma WroteByAppend(log: seq<Event>, e: Event, id: Option<nat>, p: Place)
    ensures WroteBy(log + [e], id, p) <==> WroteBy(log, id, p) || (e.Wrote? && e.tx == id && In(p, e.entries))
  {
    var log' := log + [e];
    if WroteBy(log, id, p) {
      var i: nat :| WroteAt(log, i, id, p);
      assert WroteAt(log', i, id, p);
    }
    if WroteBy(log', id, p) {
      var i: nat :| WroteAt(log', i, id, p);
      assert i < |log| ==> WroteAt(log, i, id, p);
    }
    if e.Wrote? && e.tx == id && In(p, e.entries) {
      assert WroteAt(log', |log|, id, p);
    }
  }

  lemma LoggedStep<T(!new)>(s: State<T>, c: Call<T>)
    requires s.m.WellFormed() && Owned(s) && Logged(s) && Allowed(s, c)
    ensures Logged(Step(s, c))
  {
    assert c.End? || (c.Put? && c.t in s.m.current) ==> Holds(s, c.t, s.m.current[c.t]);
  }

  lemma BeginRecorded<T(!new)>(s: State<T>, t: T)
    requires Inv(s) && Allowed(s, Begin(t))
    ensures Recorded(Step(s, Begin(t)))
  {
    assert forall p :: !WroteBy(s.log, Some(s.m.nextId), p);
  }

  /** What a put adds to the log is kept at once only outside a transaction. */
  lemma KeptAfterPut(log: seq<Event>, tx: Option<nat>, entries: Regions, p: Place)
    requires tx.Some? ==> Ended(tx.value, true) !in log
    ensures Kept(log + [Wrote(tx, entries)], p) <==> Kept(log, p) || (tx.None? && In(p, entries))
  {
    var e := Wrote(tx, entries);
    forall id: Option<nat>
      ensures WroteBy(log + [e], id, p) <==> WroteBy(log, id, p) || (e.tx == id && In(p, e.entries))
    {
      WroteByAppend(log, e, id, p);
    }
    assert forall id: nat :: Ended(id, true) in log + [e] <==> Ended(id, true) in log;
  }

  lemma PutRecorded<T(!new)>(s: State<T>, t: T, entries: Regions)
    requires Inv(s) && Allowed(s, Put(t, entries))
    ensures Recorded(Step(s, Put(t, entries)))
  {
    var s' := Step(s, Put(t, entries));
    var tx := if t in s.m.current then Some(s.m.current[t]) else None;
    assert tx.Some? ==> Holds(s, t, tx.value);
    forall p ensures In(p, s'.m.committed) <==> Kept(s'.log, p) {
      KeptAfterPut(s.log, tx, entries, p);
    }
    forall id, p | id in s'.m.live ensures In(p, s'.m.written[id]) <==> WroteBy(s'.log, Some(id), p) {
      WroteByAppend(s.log, Wrote(tx, entries), Some(id), p);
    }
  }

  lemma KeptAfterEnd(log: seq<Event>, id: nat, commit: bool, p: Place)
    ensures Kept(log + [Ended(id, commit)], p) <==> Kept(log, p) || (commit && WroteBy(log, Some(id), p))
  {
    var e := Ended(id, commit);
    forall tx: Option<nat> ensures WroteBy(log + [e], tx, p) <==> WroteBy(log, tx, p) {
      WroteByAppend(log, e, tx, p);
    }
    assert forall j: nat :: Ended(j, true) in log + [e] <==> Ended(j, true) in log || (commit && j == id);
  }

  lemma ResumeFailsRecorded<T(!new)>(s: State<T>, t: T, id: nat)
    requires Inv(s) && Allowed(s, ResumeFails(t, id))
    ensures Recorded(Step(s, ResumeFails(t, id)))
  {
    var s', e := Step(s, ResumeFails(t, id)), Orphaned(id);
    forall tx: Option<nat>, p ensures WroteBy(s'.log, tx, p) <==> WroteBy(s.log, tx, p) {
      WroteByAppend(s.log, e, tx, p);
    }
    assert forall j: nat :: Ended(j, true) in s'.log <==> Ended(j, true) in s.log;
    assert forall p :: Kept(s'.log, p) <==> Kept(s.log, p);
  }

  lemma EndRecorded<T(!new)>(s: State<T>, t: T, commit: bool)
    requires Inv(s) && Allowed(s, End(t, commit))
    ensures Recorded(Step(s, End(t, commit)))
  {
    var s', id := Step(s, End(t, commit)), s.m.current[t];
    assert Holds(s, t, id);
    forall p ensures In(p, s'.m.committed) <==> Kept(s'.log, p) {
      KeptAfterEnd(s.log, id, commit, p);
      assert In(p, s.m.written[id]) <==> WroteBy(s.log, Some(id), p);
    }
    forall j, p | j in s'.m.live ensures In(p, s'.m.written[j]) <==> WroteBy(s'.log, Some(j), p) {
      WroteByAppend(s.log, Ended(id, commit), Some(j), p);
    }
  }

  lemma StepKeepsInv<T(!new)>(s: State<T>, c: Call<T>)
    requires Inv(s) && Allowed(s, c)
    ensures Inv(Step(s, c))
  {
    OwnedStep(s, c);
    LoggedStep(s, c);
    match c
    case Begin(t) => BeginRecorded(s, t);
    case Put(t, entries) => PutRecorded(s, t, entries);
    case ResumeFails(t, id) => ResumeFailsRecorded(s, t, id);
    case End(t, commit) => EndRecorded(s, t, commit);
    case _ =>
  }

  lemma {:induction false} RunKeepsInv<T(!new)>(calls: seq<Call<T>>)
    requires Feasible(calls)
    ensures Inv(After(calls))
  {
    if calls != [] {
      RunKeepsInv(calls[..|calls| - 1]);
      StepKeepsInv(After(calls[..|calls| - 1]), calls[|calls| - 1]);
    }
  }

  // ----- Every run -----

  /** In every run, no two threads hold one transaction, one that is held is not suspended,
      and an ended one can never be resumed again. A live transaction is suspended or held
      but not both, if and only if no resume of it has failed. */
  lemma TransactionsOwned<T(!new)>(calls: seq<Call<T>>)
    requires Feasible(calls)
    ensures var s := After(calls);
            && s.m.WellFormed()
            && (forall t, u, id :: Holds(s, t, id) && Holds(s, u, id) ==> t == u)
            && (forall t, id :: Holds(s, t, id) ==> s.m.Exists(id) && !s.m.IsSuspended(id))
            && (forall id :: s.m.Exists(id) ==>
                  ((s.m.IsSuspended(id) <==> !exists t :: Holds(s, t, id)) <==> Orphaned(id) !in s.log))
            && (forall id, commit :: Ended(id, commit) in s.log ==> !s.m.Exists(id) && !s.m.IsSuspended(id))
  {
    RunKeepsInv(calls);
  }

  lemma {:induction false} LogGrows<T(!new)>(calls: seq<Call<T>>, n: nat)
    requires Feasible(calls) && n <= |calls|
    ensures Feasible(calls[..n]) && After(calls[..n]).log <= After(calls).log
    decreases |calls|
  {
    if n == |calls| {
      assert calls[..n] == calls;
    } else {
      var k := |calls| - 1;
      LogGrows(calls[..k], n);
      assert calls[..k][..n] == calls[..n];
    }
  }

  /** A transaction whose resume failed stays for ever: in every later state it exists, is
      not suspended, is held by no thread and can be resumed by none. */
  lemma OrphansStay<T(!new)>(calls: seq<Call<T>>, n: nat, id: nat)
    requires Feasible(calls) && n <= |calls| && Feasible(calls[..n]) && Orphaned(id) in After(calls[..n]).log
    ensures var s := After(calls);
            s.m.Exists(id) && !s.m.IsSuspended(id) && forall t :: !Holds(s, t, id) && !s.m.CanResume(t, id)
  {
    LogGrows(calls, n);
    RunKeepsInv(calls);
  }

  lemma OneMore<T(!new)>(calls: seq<Call<T>>, c: Call<T>)
    requires Feasible(calls) && Allowed(After(calls), c)
    ensures Feasible(calls + [c]) && After(calls + [c]) == Step(After(calls), c)
  {
    assert (calls + [c])[..|calls|] == calls;
  }

  /** A run that loses a transaction and what it has written. */
  lemma OrphanExample<T(!new)>(t: T, entries: Regions)
    ensures var calls := [Begin(t), Put(t, entries), Publish(t), Clear(t), ResumeFails(t, 0)];
            Feasible(calls) && Orphaned(0) in After(calls).log && After(calls).m.committed == NO_ENTRIES
  {
    var none: seq<Call<T>> := [];
    OneMore(none, Begin(t));
    var begun := none + [Begin(t)];
    OneMore(begun, Put(t, entries));
    var written := begun + [Put(t, entries)];
    OneMore(written, Publish(t));
    var published := written + [Publish(t)];
    OneMore(published, Clear(t));
    var suspended := published + [Clear(t)];
    OneMore(suspended, ResumeFails(t, 0));
    assert suspended + [ResumeFails(t, 0)] == [Begin(t), Put(t, entries), Publish(t), Clear(t), ResumeFails(t, 0)];
  }

  /** In every run, the committed regions hold exactly what was written by committed
      transactions or outside any; a thread in a transaction sees in addition what its
      transaction has written, whichever threads held it before, and nothing else. */
  lemma CommittedIsKept<T(!new)>(calls: seq<Call<T>>, t: T, p: Place)
    requires Feasible(calls)
    ensures var s := After(calls);
            && (In(p, s.m.committed) <==> Kept(s.log, p))
            && (forall id :: Holds(s, t, id) ==> (In(p, s.m.View(t)) <==> Kept(s.log, p) || WroteBy(s.log, Some(id), p)))
  {
    RunKeepsInv(calls);
    var s := After(calls);
    forall id | Holds(s, t, id) ensures In(p, s.m.View(t)) <==> Kept(s.log, p) || WroteBy(s.log, Some(id), p) {
      assert In(p, s.m.written[id]) <==> WroteBy(s.log, Some(id), p);
    }
  }
}
