/** The single-threaded transaction scripts: begin, put, suspend, resume, put and end.

    The scripts' assertions pin down how the manager behaves. Here they are shown of the
    manager model for any thread and whatever other transactions are under way, and the
    script is shown to leave no trace but a used transaction id.
 */
module TransactionScripts {
  import opened Transactions

  /** Any idle thread that gets a connection can resume a suspended transaction and then sees
      what its first thread saw; for that thread itself, resuming undoes suspending. One
      that gets no connection loses the transaction for all threads. */
  lemma ResumeRestores<T(!new)>(m: Manager<T>, t: T, u: T)
    requires m.WellFormed() && t in m.current && m.current[t] in m.live && (u == t || u !in m.current)
    ensures var id := m.current[t];
            var s := m.Publish(t).Clear(t);
            && s.CanResume(u, id) && s.Resume(u, id).WellFormed() && s.Resume(u, id).View(u) == m.View(t)
            && !s.Resume(u, id).IsSuspended(id) && !s.Resume(u, id).CanResume(u, id)
            && (id !in m.suspended && u == t ==> s.Resume(u, id) == m)
            && s.ResumeFails(id).Exists(id) && (forall v :: !s.ResumeFails(id).CanResume(v, id))
  {
    var id := m.current[t];
    var r := m.Publish(t).Clear(t).Resume(u, id);
    if id !in m.suspended && u == t {
      assert r.suspended == m.suspended;
      assert r.current == m.current;
    }
  }

  // ----- The scripts -----

  /** A manager in which the thread has one more transaction, with these entries. */
  ghost function With<T>(m: Manager<T>, t: T, entries: Regions): Manager<T> {
    m.(live := m.live + {m.nextId},
       current := m.current[t := m.nextId],
       written := m.written[m.nextId := entries],
       nextId := m.nextId + 1)
  }

  ghost predicate Holds<T>(m: Manager<T>, t: T, n1: nat, n2: nat) {
    |m.View(t).cstx1| == n1 && |m.View(t).cstx2| == n2
  }

  ghost predicate Idle<T>(m: Manager<T>, t: T) {
    m.WellFormed() && t !in m.current && m.committed == NO_ENTRIES
  }

  lemma Unions(s: set<int>)
    ensures {} + s == s && s + {} == s && s - s == {}
  {
  }

  lemma WithPut<T>(m: Manager<T>, t: T, entries: Regions, more: Regions)
    requires Idle(m, t)
    ensures With(m, t, entries).Put(t, more) == With(m, t, Overlay(entries, more))
    ensures With(m, t, entries).View(t) == entries
  {
    var w := With(m, t, entries).Put(t, more);
    assert w.written == With(m, t, Overlay(entries, more)).written;
    Unions(entries.cstx1);
    Unions(entries.cstx2);
  }

  ghost function ScriptPuts<T>(m: Manager<T>, t: T): Manager<T> {
    m.Begin(t).Put(t, Regions(OpKeys(1), {})).Put(t, Regions({}, OpKeys(1)))
  }

  lemma ScriptPutsWith<T>(m: Manager<T>, t: T)
    requires Idle(m, t)
    ensures ScriptPuts(m, t) == With(m, t, Regions(OpKeys(1), OpKeys(1)))
  {
    var k := OpKeys(1);
    assert m.Begin(t) == With(m, t, NO_ENTRIES);
    WithPut(m, t, NO_ENTRIES, Regions(k, {}));
    Unions(k);
    Unions({});
    WithPut(m, t, Regions(k, {}), Regions({}, k));
  }

  ghost function ScriptMorePuts<T>(m: Manager<T>, t: T): Manager<T> {
    ScriptPuts(m, t).Put(t, Regions({}, OpKeys(2)))
  }

  lemma ScriptMorePutsWith<T>(m: Manager<T>, t: T)
    requires Idle(m, t)
    ensures ScriptMorePuts(m, t) == With(m, t, Regions(OpKeys(1), OpKeys(2)))
  {
    ScriptPutsWith(m, t);
    WithPut(m, t, Regions(OpKeys(1), OpKeys(1)), Regions({}, OpKeys(2)));
    Unions(OpKeys(1));
    assert OpKeys(1) + OpKeys(2) == OpKeys(2);
  }

  ghost function ScriptEnd<T>(m: Manager<T>, t: T, commit: bool): Manager<T>
    requires Idle(m, t)
  {
    ScriptMorePutsWith(m, t);
    if commit then ScriptMorePuts(m, t).Commit(t) else ScriptMorePuts(m, t).Rollback(t)
  }

  lemma ScriptEndIs<T>(m: Manager<T>, t: T, commit: bool)
    requires Idle(m, t)
    ensures ScriptEnd(m, t, commit) ==
            m.(nextId := m.nextId + 1, committed := if commit then Regions(OpKeys(1), OpKeys(2)) else NO_ENTRIES)
  {
    var w := With(m, t, Regions(OpKeys(1), OpKeys(2)));
    ScriptMorePutsWith(m, t);
    Unions(OpKeys(1));
    Unions(OpKeys(2));
    assert w.live - {m.nextId} == m.live;
    assert w.current - {t} == m.current;
    assert w.written - {m.nextId} == m.written;
  }

  /** The assertions up to the second put hold in any manager whose regions are empty:
      suspending hides the transaction's entries and resuming undoes suspending. */
  lemma ScriptSuspends<T(!new)>(m: Manager<T>, t: T)
    requires Idle(m, t)
    ensures var id := m.nextId;
            var a := ScriptPuts(m, t);
            && t in a.current && !a.IsSuspended(id) && a.Exists(id) && Holds(a, t, 2, 2)
            && (var b := a.Publish(t).Clear(t);
                && b.IsSuspended(id) && b.Exists(id) && Holds(b, t, 0, 0) && b.CanResume(t, id)
                && b.Resume(t, id) == a && !a.CanResume(t, id))
  {
    OpKeysCount(1);
    ScriptPutsWith(m, t);
    WithPut(m, t, Regions(OpKeys(1), OpKeys(1)), NO_ENTRIES);
    ResumeRestores(ScriptPuts(m, t), t, t);
  }

  /** So do those from the second put on, and the script leaves the manager as it was except
      for the next transaction id. */
  lemma ScriptEnds<T>(m: Manager<T>, t: T, commit: bool)
    requires Idle(m, t)
    ensures var id := m.nextId;
            && Holds(ScriptMorePuts(m, t), t, 2, 4)
            && (var e := ScriptEnd(m, t, commit);
                && !e.IsSuspended(id) && !e.Exists(id) && !e.CanResume(t, id)
                && Holds(e, t, if commit then 2 else 0, if commit then 4 else 0)
                && e.Destroy(Regions(OpKeys(1), {})).Destroy(Regions({}, OpKeys(2))) == m.(nextId := id + 1))
  {
    OpKeysCount(1);
    OpKeysCount(2);
    ScriptMorePutsWith(m, t);
    ScriptEndIs(m, t, commit);
    WithPut(m, t, Regions(OpKeys(1), OpKeys(2)), NO_ENTRIES);
    Unions(OpKeys(1));
    Unions(OpKeys(2));
  }
}
