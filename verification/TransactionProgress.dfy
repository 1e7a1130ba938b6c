/** What every run of the transaction manager can still do: transactions can be begun, and
    those that no failed resume has lost can be ended.
 */
module TransactionProgress {
  import opened TransactionRuns

  /** Thread `t` lets go of whatever it works on, without ending it. */
  lemma {:induction false} LetGo<T(!new)>(calls: seq<Call<T>>, t: T, id: nat) returns (longer: seq<Call<T>>)
    requires Feasible(calls) && !Holds(After(calls), t, id) && id in After(calls).m.suspended
    ensures calls <= longer && Feasible(longer) && After(longer).log == After(calls).log
    ensures After(longer).m.CanResume(t, id)
  {
    RunKeepsInv(calls);
    longer := calls;
    if t in After(calls).m.current && t !in After(calls).leaving {
      OneMore(calls, Publish(t));
      longer := calls + [Publish(t)];
    }
    if t in After(longer).m.current {
      OneMore(longer, Clear(t));
      longer := longer + [Clear(t)];
    }
  }

  /** Unless its resume has failed, every live transaction can still be committed or rolled
      back in some continuation of the run, by the thread that holds it or by any given
      thread, without ending any other. */
  lemma {:induction false} CanEnd<T(!new)>(calls: seq<Call<T>>, t: T, id: nat, commit: bool) returns (longer: seq<Call<T>>)
    requires Feasible(calls) && After(calls).m.Exists(id) && Orphaned(id) !in After(calls).log
    ensures calls <= longer && Feasible(longer) && After(longer).log == After(calls).log + [Ended(id, commit)]
  {
    var s := After(calls);
    RunKeepsInv(calls);
    if id in s.m.suspended {
      longer := LetGo(calls, t, id);
      OneMore(longer, Resume(t, id));
      RunKeepsInv(longer);
      longer := longer + [Resume(t, id)];
      OneMore(longer, End(t, commit));
      longer := longer + [End(t, commit)];
    } else {
      var u :| Holds(s, u, id);
      OneMore(calls, End(u, commit));
      longer := calls + [End(u, commit)];
    }
  }

  /** Any thread that is not inside a call or a transaction can begin one. */
  lemma {:induction false} CanBegin<T(!new)>(calls: seq<Call<T>>, t: T)
    requires Feasible(calls) && t !in After(calls).m.current
    ensures Feasible(calls + [Begin(t)]) && Holds(After(calls + [Begin(t)]), t, After(calls).m.nextId)
    ensures !After(calls).m.Exists(After(calls).m.nextId)
  {
    RunKeepsInv(calls);
    OneMore(calls, Begin(t));
  }
}
