/** The client's transaction manager, and the put and destroy loops that the
    transaction tests drive it with.

    `Manager` follows the bookkeeping of the native manager: the list of live
    transactions, the table of suspended ones, and the thread-local current one. The
    entries a transaction has written stay apart from the committed regions until
    it commits. A region is the set of its keys; nothing here looks at values.
 */
module Transactions {

  datatype Thread = Main | Suspender | Resumer

  /** The keys of the two regions under test. */
  datatype Regions = Regions(cstx1: set<int>, cstx2: set<int>)

  const NO_ENTRIES := Regions({}, {})

  function Overlay(below: Regions, above: Regions): Regions {
    Regions(below.cstx1 + above.cstx1, below.cstx2 + above.cstx2)
  }

  datatype Manager<T(==)> = Manager(
    live: set<nat>,
    suspended: set<nat>,
    current: map<T, nat>,
    written: map<nat, Regions>,
    committed: Regions,
    nextId: nat)
  {
    /** The bookkeeping: every live transaction has its entries, the suspended ones are
        live, and ids are given out in order. */
    ghost predicate WellFormed() {
      && live == written.Keys
      && suspended <= live
      && (forall id :: id in live ==> id < nextId)
    }

    predicate Exists(id: nat) {
      id in live
    }

    predicate IsSuspended(id: nat) {
      id in suspended
    }

    /** What a thread sees: the committed entries and its own transaction's. */
    function View(t: T): Regions {
      if t in current && current[t] in written then Overlay(committed, written[current[t]]) else committed
    }

    function Begin(t: T): Manager<T> {
      this.(live := live + {nextId},
            current := current[t := nextId],
            written := written[nextId := NO_ENTRIES],
            nextId := nextId + 1)
    }

    /** Entries go to the thread's transaction if it has one, else to the regions. */
    function Put(t: T, entries: Regions): Manager<T> {
      if t in current && current[t] in written
      then this.(written := written[current[t] := Overlay(written[current[t]], entries)])
      else this.(committed := Overlay(committed, entries))
    }

    function Destroy(entries: Regions): Manager<T> {
      this.(committed := Regions(committed.cstx1 - entries.cstx1, committed.cstx2 - entries.cstx2))
    }

    /** Suspending publishes the transaction first and clears the thread after. */
    function Publish(t: T): Manager<T>
      requires t in current
    {
      this.(suspended := suspended + {current[t]})
    }

    function Clear(t: T): Manager<T> {
      this.(current := current - {t})
    }

    predicate CanResume(t: T, id: nat) {
      t !in current && id in suspended
    }

    function Resume(t: T, id: nat): Manager<T> {
      this.(suspended := suspended - {id}, current := current[t := id])
    }

    /** A resume that gets no connection: the transaction has left the table of suspended
        ones and no thread holds it. */
    function ResumeFails(id: nat): Manager<T> {
      this.(suspended := suspended - {id})
    }

    function Retire(t: T): Manager<T>
      requires t in current
    {
      this.(live := live - {current[t]},
            current := current - {t},
            written := written - {current[t]})
    }

    function Commit(t: T): Manager<T>
      requires t in current
    {
      this.(committed := View(t)).Retire(t)
    }

    function Rollback(t: T): Manager<T>
      requires t in current
    {
      Retire(t)
    }
  }

  /** The keys that `PutOp(n)` writes and `DestroyOpWithPdxValue(n)` removes. */
  function OpKeys(n: int): set<int>
    decreases if n < 0 then 0 else n
  {
    if n <= 0 then {} else OpKeys(n - 1) + {n, 10000 + n}
  }

  class RegionOperation<V> {
    var region: map<int, V>

    method PutOp(key: int, value: V, pdx: V)
      modifies this
      ensures region.Keys == old(region.Keys) + OpKeys(key)
      ensures forall k :: k in region && k !in OpKeys(key) ==> region[k] == old(region)[k]
      ensures forall k :: k in OpKeys(key) ==> region[k] == if k <= key then value else pdx
    {
      for i := 1 to (if key >= 1 then key + 1 else 1)
        invariant region.Keys == old(region.Keys) + OpKeys(i - 1)
        invariant forall k :: k in region && k !in OpKeys(i - 1) ==> region[k] == old(region)[k]
        invariant forall k :: k in OpKeys(i - 1) ==> region[k] == if k < i then value else pdx
      {
        OpKeysMembers(i - 1);
        region := region[i := value];
        region := region[10000 + i := pdx];
      }
    }

    method DestroyOpWithPdxValue(key: int)
      modifies this
      ensures region == old(region) - OpKeys(key)
    {
      for i := 1 to (if key >= 1 then key + 1 else 1)
        invariant region == old(region) - OpKeys(i - 1)
      {
        region := region - {i};
        region := region - {10000 + i};
      }
    }
  }

  lemma {:induction false} OpKeysMembers(n: int)
    ensures forall k :: k in OpKeys(n) <==> 1 <= k <= n || 10001 <= k <= 10000 + n
    decreases if n < 0 then 0 else n
  {
    if n > 0 {
      OpKeysMembers(n - 1);
    }
  }

  lemma OpKeysGrow(n: nat)
    ensures |OpKeys(n + 1)| == |OpKeys(n)| + if n < 10000 then 2 else 1
  {
    OpKeysMembers(n);
    if n < 10000 {
      assert OpKeys(n + 1) == OpKeys(n) + {n + 1} + {10001 + n};
    } else {
      assert OpKeys(n + 1) == OpKeys(n) + {10001 + n};
    }
  }

  /** The two families of keys stay apart up to a count of 10000, and then overlap. */
  lemma {:induction false} OpKeysCount(n: nat)
    ensures |OpKeys(n)| == if n <= 10000 then 2 * n else 10000 + n
  {
    if n > 0 {
      OpKeysCount(n - 1);
      OpKeysGrow(n - 1);
    }
  }
}
