/** The polling verifier of the distributed-operation tests: it looks at a region up to a
    thousand times until what it waits for is observed.

    The region is changed by others while the verifier polls, so each look has its own
    observation: `View` gives what every check of every poll would see.
 */
module PollingVerifier {
  import opened Wrappers

  const MAX_LOOP := 1000

  /** What the checks before the loop see, and what the checks of poll `i` see. A `Get`
      that finds nothing throws. */
  datatype View<V> = View(
    keyBefore: bool,
    valueBefore: bool,
    hasKey: nat -> bool,
    hasValue: nat -> bool,
    got: nat -> Option<V>)

  datatype Request<V> = Request(val: Option<V>, noKey: bool, isCreated: bool, checkVal: bool)

  /** The assertions made before polling. */
  predicate Prechecked<V>(q: Request<V>, view: View<V>) {
    q.isCreated || ((q.noKey || view.keyBefore) && (q.val.None? || !q.checkVal || view.valueBefore))
  }

  /** Whether poll `i` gets as far as the value. When the key should be gone and is still
      there, the last poll fails before it looks at the value. */
  predicate Reaches<V>(q: Request<V>, view: View<V>, i: nat) {
    !q.isCreated && (q.noKey ==> view.hasKey(i) && i < MAX_LOOP)
  }

  /** Poll `i` observes what the request waits for. */
  predicate Stops<V(==)>(q: Request<V>, view: View<V>, i: nat) {
    || (q.isCreated && view.hasKey(i))
    || (!q.isCreated && q.noKey && !view.hasKey(i))
    || (Reaches(q, view, i) && if q.val.None? then !view.hasValue(i) else view.got(i) == q.val)
  }

  /** Poll `i` asks for a value that is not there. */
  predicate Throws<V>(q: Request<V>, view: View<V>, i: nat) {
    Reaches(q, view, i) && q.val.Some? && view.got(i).None?
  }

  /** No poll before `i` decides anything. */
  ghost predicate Undecided<V>(q: Request<V>, view: View<V>, i: nat) {
    forall j: nat :: 1 <= j < i ==> !Stops(q, view, j) && !Throws(q, view, j)
  }

  /** The verifier makes at most a thousand polls and returns normally exactly when one of
      them observes what it waits for before any of them throws; the end of the loop is
      never reached. */
  method VerifyAll<V(==)>(q: Request<V>, view: View<V>) returns (r: Option<Error>, polls: nat)
    ensures polls <= MAX_LOOP
    ensures !Prechecked(q, view) ==> r == Some(AssertionFailed) && polls == 0
    ensures Prechecked(q, view) ==>
              match r
              case None => 1 <= polls && Stops(q, view, polls) && Undecided(q, view, polls)
              case Some(NotFound) => 1 <= polls && Throws(q, view, polls) && Undecided(q, view, polls)
              case Some(e) => e == AssertionFailed && Undecided(q, view, MAX_LOOP + 1)
  {
    polls := 0;
    if !q.isCreated {
      if !q.noKey && !view.keyBefore {
        return Some(AssertionFailed), polls;
      }
      if q.val.Some? && q.checkVal && !view.valueBefore {
        return Some(AssertionFailed), polls;
      }
    }
    var containsKeyCnt, containsValueCnt, testValueCnt := 0, 0, 0;
    for i := 1 to MAX_LOOP + 1
      invariant polls == i - 1
      invariant containsKeyCnt == if q.isCreated || q.noKey then i - 1 else 0
      invariant containsValueCnt == if !q.isCreated && q.val.None? then i - 1 else 0
      invariant testValueCnt == if !q.isCreated && q.val.Some? then i - 1 else 0
      invariant Undecided(q, view, i)
      invariant i <= MAX_LOOP
    {
      polls := i;
      if q.isCreated {
        if view.hasKey(i) {
          return None, polls;
        }
        containsKeyCnt := containsKeyCnt + 1;
        if containsKeyCnt >= MAX_LOOP {
          return Some(AssertionFailed), polls;
        }
      } else {
        if q.noKey {
          if !view.hasKey(i) {
            return None, polls;
          }
          containsKeyCnt := containsKeyCnt + 1;
          if containsKeyCnt >= MAX_LOOP {
            return Some(AssertionFailed), polls;
          }
        }
        if q.val.None? {
          if !view.hasValue(i) {
            return None, polls;
          }
          containsValueCnt := containsValueCnt + 1;
          if containsValueCnt >= MAX_LOOP {
            return Some(AssertionFailed), polls;
          }
        } else {
          var cVal := view.got(i);
          if cVal.None? {
            return Some(NotFound), polls;
          }
          if cVal == q.val {
            return None, polls;
          }
          testValueCnt := testValueCnt + 1;
          if testValueCnt >= MAX_LOOP {
            return Some(AssertionFailed), polls;
          }
        }
      }
    }
    r := None;
  }

  /** The value is gone although the key is not: `VerifyDestroyed` is satisfied. */
  method VerifyDestroyed<V(==)>(view: View<V>) returns (r: Option<Error>)
    ensures r.None? <==>
            exists i :: 1 <= i <= MAX_LOOP && (!view.hasKey(i) || (i < MAX_LOOP && !view.hasValue(i)))
    ensures r.Some? ==> r == Some(AssertionFailed)
  {
    var q: Request<V> := Request(None, true, false, true);
    var polls;
    r, polls := VerifyAll(q, view);
    if r.Some? {
      forall i | 1 <= i <= MAX_LOOP ensures view.hasKey(i) && (i < MAX_LOOP ==> view.hasValue(i)) {
        assert !Stops(q, view, i);
      }
    }
  }

  method VerifyInvalid<V(==)>(view: View<V>) returns (r: Option<Error>)
    ensures r.None? <==> view.keyBefore && exists i :: 1 <= i <= MAX_LOOP && !view.hasValue(i)
    ensures r.Some? ==> r == Some(AssertionFailed)
  {
    var q: Request<V> := Request(None, false, false, true);
    var polls;
    r, polls := VerifyAll(q, view);
    if r.Some? && view.keyBefore {
      forall i | 1 <= i <= MAX_LOOP ensures view.hasValue(i) {
        assert !Stops(q, view, i);
      }
    }
  }

  method VerifyCreated<V(==)>(view: View<V>) returns (r: Option<Error>)
    ensures r.None? <==> exists i :: 1 <= i <= MAX_LOOP && view.hasKey(i)
    ensures r.Some? ==> r == Some(AssertionFailed)
  {
    var q: Request<V> := Request(None, false, true, false);
    var polls;
    r, polls := VerifyAll(q, view);
    if r.Some? {
      forall i | 1 <= i <= MAX_LOOP ensures !view.hasKey(i) {
        assert !Stops(q, view, i);
      }
    }
  }

  /** The expected value must be seen before a poll finds no value at all. */
  method VerifyEntry<V(==)>(val: V, checkVal: bool, view: View<V>) returns (r: Option<Error>)
    ensures r.None? <==>
            && view.keyBefore && (checkVal ==> view.valueBefore)
            && exists i :: 1 <= i <= MAX_LOOP && view.got(i) == Some(val) && forall j :: 1 <= j < i ==> view.got(j).Some?
    ensures r == Some(NotFound) <==>
            && view.keyBefore && (checkVal ==> view.valueBefore)
            && exists i :: 1 <= i <= MAX_LOOP && view.got(i).None? &&
                           forall j :: 1 <= j < i ==> view.got(j).Some? && view.got(j) != Some(val)
    ensures r.None? || r == Some(NotFound) || r == Some(AssertionFailed)
  {
    var q := Request(Some(val), false, false, checkVal);
    var polls;
    r, polls := VerifyAll(q, view);
    if Prechecked(q, view) {
      var end := if r.None? || r == Some(NotFound) then polls else MAX_LOOP + 1;
      forall j | 1 <= j < end ensures view.got(j).Some? && view.got(j) != Some(val) {
        assert !Stops(q, view, j) && !Throws(q, view, j);
      }
    }
  }
}
