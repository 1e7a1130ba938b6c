/** The listener that looks for duplicate or out-of-order events: it counts events,
    remembers the last value of each key and asserts that every next value is one more.

    Values and the counter are 32-bit. The source expects 4 keys with final value 100;
    here both numbers are parameters.
 */
module DupListener {
  import opened MachineIntegers
  import opened Wrappers

  datatype Event<K> = Event(key: K, value: Int32)

  datatype State<K> = State(ops: Int32, last: map<K, Int32>)

  /** Whether the listener's assertion holds for the event. */
  predicate Accepts<K(==)>(s: State<K>, e: Event<K>) {
    e.key in s.last ==> e.value == Increment(s.last[e.key])
  }

  ghost function Step<K>(s: State<K>, e: Event<K>): State<K> {
    State(Increment(s.ops), if Accepts(s, e) then s.last[e.key := e.value] else s.last)
  }

  ghost function Run<K>(events: seq<Event<K>>): State<K> {
    if events == [] then State(0, map[]) else Step(Run(events[..|events| - 1]), events[|events| - 1])
  }

  /** No assertion fails during the run. */
  ghost predicate Passes<K>(events: seq<Event<K>>) {
    events == [] || (Passes(events[..|events| - 1]) && Accepts(Run(events[..|events| - 1]), events[|events| - 1]))
  }

  ghost predicate Validates<K>(s: State<K>, keys: nat, final: nat) {
    |s.last| == keys && s.ops == keys * final && forall k :: k in s.last ==> s.last[k] == final
  }

  class Listener<K(==)> {
    var ops: Int32
    var last: map<K, Int32>

    ghost function Now(): State<K>
      reads this
    {
      State(ops, last)
    }

    constructor ()
      ensures Now() == Run([])
    {
      ops, last := 0, map[];
    }

    /** `AfterCreate` and `AfterUpdate`: `ok` says whether the assertion held. */
    method Check(key: K, value: Int32) returns (ok: bool)
      modifies this
      ensures Now() == Step(old(Now()), Event(key, value))
      ensures ok == Accepts(old(Now()), Event(key, value))
    {
      ops := Increment(ops);
      if key in last {
        if value != Increment(last[key]) {
          return false;
        }
      }
      last := last[key := value];
      ok := true;
    }

    method Validate(keys: nat, final: nat) returns (ok: bool)
      ensures ok == Validates(Now(), keys, final)
    {
      if |last| != keys || ops != keys * final {
        return false;
      }
      var rest := last.Keys;
      while rest != {}
        invariant rest <= last.Keys
        invariant forall k :: k in last && k !in rest ==> last[k] == final
      {
        var k :| k in rest;
        if last[k] != final {
          return false;
        }
        rest := rest - {k};
      }
      ok := true;
    }
  }

  // ----- What the events alone say -----

  /** The values received for one key, in order. */
  ghost function Received<K>(events: seq<Event<K>>, k: K): seq<Int32> {
    if events == [] then []
    else Received(events[..|events| - 1], k) + if events[|events| - 1].key == k then [events[|events| - 1].value] else []
  }

  /** The keys in the order they first appear. */
  ghost function KeyList<K>(events: seq<Event<K>>): seq<K> {
    if events == [] then []
    else
      var earlier, k := KeyList(events[..|events| - 1]), events[|events| - 1].key;
      if k in earlier then earlier else earlier + [k]
  }

  /** 1, 2, ..., n. */
  ghost function UpTo(n: nat): (s: seq<int>)
    ensures |s| == n
  {
    seq(n, i => i + 1)
  }

  /** Exactly `keys` keys, and each got the values 1 to `final`, once each and in order. */
  ghost predicate Exact<K>(events: seq<Event<K>>, keys: nat, final: nat) {
    && |KeyList(events)| == keys
    && (forall k :: k in KeyList(events) ==> Received(events, k) == UpTo(final))
  }

  ghost predicate Positive<K>(events: seq<Event<K>>) {
    forall i :: 0 <= i < |events| ==> events[i].value >= 1
  }

  /** Each value is one more than the one before it. */
  ghost predicate Chain(r: seq<Int32>) {
    forall i :: 0 < i < |r| ==> r[i] == Increment(r[i - 1])
  }

  ghost function SumLengths<K>(events: seq<Event<K>>, ks: seq<K>): nat {
    if ks == [] then 0 else SumLengths(events, ks[..|ks| - 1]) + |Received(events, ks[|ks| - 1])|
  }

  // ----- The run in terms of the events -----

  lemma {:induction false} KeyListFacts<K>(events: seq<Event<K>>)
    ensures Distinct(KeyList(events))
    ensures forall k :: k in KeyList(events) <==> Received(events, k) != []
  {
    if events != [] {
      KeyListFacts(events[..|events| - 1]);
    }
  }

  /** The counter shows the number of events modulo 2^32. */
  lemma {:induction false} OpsCount<K>(events: seq<Event<K>>)
    ensures Run(events).ops == Wrapped(|events|)
  {
    if events != [] {
      OpsCount(events[..|events| - 1]);
      WrappedSteps(|events| - 1);
    }
  }

  lemma {:induction false} LastKeys<K>(events: seq<Event<K>>)
    requires Passes(events)
    ensures |Run(events).last| == |KeyList(events)|
    ensures forall k :: k in Run(events).last <==> k in KeyList(events)
  {
    if events != [] {
      LastKeys(events[..|events| - 1]);
    }
  }

  lemma {:induction false} LastValue<K>(events: seq<Event<K>>, k: K)
    requires Passes(events) && k in Run(events).last
    ensures var r := Received(events, k); r != [] && Run(events).last[k] == r[|r| - 1]
  {
    if k in Run(events[..|events| - 1]).last {
      LastValue(events[..|events| - 1], k);
    }
  }

  lemma LastValues<K>(events: seq<Event<K>>)
    requires Passes(events)
    ensures var m := Run(events).last;
            && |m| == |KeyList(events)|
            && (forall k :: k in m <==> k in KeyList(events))
            && (forall k :: k in m ==> var r := Received(events, k); r != [] && m[k] == r[|r| - 1])
  {
    LastKeys(events);
    forall k | k in Run(events).last
      ensures var r := Received(events, k); r != [] && Run(events).last[k] == r[|r| - 1]
    {
      LastValue(events, k);
    }
  }

  /** The events whose assertion held. */
  ghost function Accepted<K>(events: seq<Event<K>>): seq<Event<K>> {
    if events == [] then []
    else
      var n := |events| - 1;
      Accepted(events[..n]) + if Accepts(Run(events[..n]), events[n]) then [events[n]] else []
  }

  /** In every run, also one with failed assertions, the rejected events are counted and
      otherwise forgotten: the accepted ones alone pass and leave the same map. */
  lemma {:induction false} RejectedAreForgotten<K>(events: seq<Event<K>>)
    ensures Passes(Accepted(events)) && Run(Accepted(events)).last == Run(events).last
    ensures Run(events).ops == Wrapped(|events|)
  {
    OpsCount(events);
    if events != [] {
      var n := |events| - 1;
      var kept, e := Accepted(events[..n]), events[n];
      RejectedAreForgotten(events[..n]);
      assert (kept + [e])[..|kept|] == kept;
      assert kept + [] == kept;
    }
  }

  ghost predicate AllChains<K(!new)>(events: seq<Event<K>>) {
    forall k :: Chain(Received(events, k))
  }

  lemma AllChainsStep<K(!new)>(events: seq<Event<K>>)
    requires events != []
    ensures var earlier, e := events[..|events| - 1], events[|events| - 1];
            var r := Received(earlier, e.key);
            AllChains(events) <==> AllChains(earlier) && (r != [] ==> e.value == Increment(r[|r| - 1]))
  {
    var earlier, e := events[..|events| - 1], events[|events| - 1];
    ChainExtends(Received(earlier, e.key), e.value);
    forall k ensures Chain(Received(events, k)) ==> Chain(Received(earlier, k)) {
      assert k != e.key ==> Received(events, k) == Received(earlier, k);
    }
    forall k | k != e.key ensures Chain(Received(earlier, k)) ==> Chain(Received(events, k)) {
      assert Received(events, k) == Received(earlier, k);
    }
    if AllChains(events) {
      assert Chain(Received(events, e.key));
    }
  }

  /** The assertions hold exactly when every key's values form a chain. */
  lemma {:induction false} PassesMeansChains<K(!new)>(events: seq<Event<K>>)
    ensures Passes(events) <==> AllChains(events)
  {
    if events != [] {
      var earlier := events[..|events| - 1];
      PassesMeansChains(earlier);
      AllChainsStep(events);
      if Passes(earlier) {
        LastValues(earlier);
        KeyListFacts(earlier);
      }
    }
  }

  lemma ChainExtends(r: seq<Int32>, v: Int32)
    ensures Chain(r + [v]) <==> Chain(r) && (r != [] ==> v == Increment(r[|r| - 1]))
  {
    var s := r + [v];
    if Chain(s) {
      forall i | 0 < i < |r| ensures r[i] == Increment(r[i - 1]) {
        assert s[i] == r[i] && s[i - 1] == r[i - 1];
      }
      assert r != [] ==> s[|r|] == Increment(s[|r| - 1]);
    }
  }

  // ----- Counting -----

  ghost function Product(n: nat, m: nat): nat {
    if n == 0 then 0 else Product(n - 1, m) + m
  }

  lemma {:induction false} ProductIsTimes(n: nat, m: nat)
    ensures Product(n, m) == n * m
  {
    if n > 0 {
      ProductIsTimes(n - 1, m);
    }
  }

  /** One event adds one to the total length over distinct keys. */
  lemma {:induction false} SumLengthsStep<K>(events: seq<Event<K>>, ks: seq<K>)
    requires events != [] && Distinct(ks)
    ensures SumLengths(events, ks) == SumLengths(events[..|events| - 1], ks) + if events[|events| - 1].key in ks then 1 else 0
    decreases |ks|
  {
    if ks != [] {
      var n := |ks| - 1;
      SumLengthsStep(events, ks[..n]);
      assert ks == ks[..n] + [ks[n]];
    }
  }

  lemma {:induction false} SumLengthsIsCount<K>(events: seq<Event<K>>, ks: seq<K>)
    requires Distinct(ks) && forall i :: 0 <= i < |events| ==> events[i].key in ks
    ensures SumLengths(events, ks) == |events|
    decreases |events|
  {
    if events == [] {
      NoEvents<K>(ks);
    } else {
      SumLengthsIsCount(events[..|events| - 1], ks);
      SumLengthsStep(events, ks);
    }
  }

  lemma {:induction false} NoEvents<K>(ks: seq<K>)
    ensures SumLengths([], ks) == 0
  {
    if ks != [] {
      NoEvents(ks[..|ks| - 1]);
    }
  }

  lemma {:induction false} KeysListed<K>(events: seq<Event<K>>)
    ensures forall i :: 0 <= i < |events| ==> events[i].key in KeyList(events)
  {
    if events != [] {
      KeysListed(events[..|events| - 1]);
    }
  }

  /** If no key has more than `final` values but together they have that many each, then
      every key has exactly `final`. */
  lemma {:induction false} AllFull<K>(events: seq<Event<K>>, ks: seq<K>, final: nat)
    requires forall k :: k in ks ==> |Received(events, k)| <= final
    ensures SumLengths(events, ks) <= Product(|ks|, final)
    ensures SumLengths(events, ks) == Product(|ks|, final) ==> forall k :: k in ks ==> |Received(events, k)| == final
    decreases |ks|
  {
    if ks != [] {
      var n := |ks| - 1;
      AllFull(events, ks[..n], final);
      assert ks == ks[..n] + [ks[n]];
    }
  }

  lemma {:induction false} SumLengthsFull<K>(events: seq<Event<K>>, ks: seq<K>, final: nat)
    requires forall k :: k in ks ==> |Received(events, k)| == final
    ensures SumLengths(events, ks) == Product(|ks|, final)
    decreases |ks|
  {
    if ks != [] {
      var n := |ks| - 1;
      SumLengthsFull(events, ks[..n], final);
    }
  }

  // ----- Chains of positive values -----

  lemma {:induction false} ReceivedPositive<K>(events: seq<Event<K>>, k: K)
    requires Positive(events)
    ensures forall i :: 0 <= i < |Received(events, k)| ==> Received(events, k)[i] >= 1
  {
    if events != [] {
      ReceivedPositive(events[..|events| - 1], k);
    }
  }

  lemma {:induction false} PositiveChain(r: seq<Int32>, i: nat)
    requires Chain(r) && i < |r| && forall j :: 0 <= j < |r| ==> r[j] >= 1
    ensures r[i] == r[0] + i
  {
    if i > 0 {
      PositiveChain(r, i - 1);
    }
  }

  /** A positive chain ending in `final` has at most `final` values, and with that many
      it is 1, 2, ..., `final`. */
  lemma FullChain(r: seq<Int32>, final: nat)
    requires Chain(r) && r != [] && r[|r| - 1] == final && forall j :: 0 <= j < |r| ==> r[j] >= 1
    ensures |r| <= final && (|r| == final ==> r == UpTo(final))
  {
    PositiveChain(r, |r| - 1);
    if |r| == final {
      forall i | 0 <= i < final ensures r[i] == UpTo(final)[i] {
        PositiveChain(r, i);
      }
    }
  }

  // ----- The theorem -----

  lemma ExactIfValidated<K(!new)>(events: seq<Event<K>>, keys: nat, final: nat)
    requires keys * final < 0x8000_0000 && Positive(events)
    requires Passes(events) && Validates(Run(events), keys, final)
    ensures Exact(events, keys, final)
  {
    var ks := KeyList(events);
    PassesMeansChains(events);
    LastValues(events);
    KeyListFacts(events);
    KeysListed(events);
    forall k | k in ks
      ensures |Received(events, k)| <= final && (|Received(events, k)| == final ==> Received(events, k) == UpTo(final))
    {
      assert Chain(Received(events, k));
      ReceivedPositive(events, k);
      FullChain(Received(events, k), final);
    }
    AllFull(events, ks, final);
    ProductIsTimes(keys, final);
    SumLengthsIsCount(events, ks);
    OpsCount(events);
    WrappedSmall(|events|);
  }

  lemma PassesIfExact<K(!new)>(events: seq<Event<K>>, keys: nat, final: nat)
    requires Exact(events, keys, final)
    ensures Passes(events)
  {
    KeyListFacts(events);
    forall k ensures Chain(Received(events, k)) {
      assert k !in KeyList(events) ==> Received(events, k) == [];
    }
    PassesMeansChains(events);
  }

  lemma CountIfExact<K(!new)>(events: seq<Event<K>>, keys: nat, final: nat)
    requires Exact(events, keys, final)
    ensures |events| == keys * final
  {
    var ks := KeyList(events);
    KeyListFacts(events);
    KeysListed(events);
    SumLengthsFull(events, ks, final);
    SumLengthsIsCount(events, ks);
    ProductIsTimes(keys, final);
  }

  lemma PositiveIfExact<K>(events: seq<Event<K>>, keys: nat, final: nat)
    requires Exact(events, keys, final)
    ensures Positive(events)
  {
    KeysListed(events);
    forall i | 0 <= i < |events| ensures events[i].value >= 1 {
      ReceivedHas(events, i);
    }
  }

  lemma ValidatedIfExact<K(!new)>(events: seq<Event<K>>, keys: nat, final: nat)
    requires 0 < final && keys * final < 0x8000_0000 && Exact(events, keys, final)
    ensures Positive(events) && Passes(events) && Validates(Run(events), keys, final)
  {
    PassesIfExact(events, keys, final);
    CountIfExact(events, keys, final);
    PositiveIfExact(events, keys, final);
    LastValues(events);
    OpsCount(events);
    WrappedSmall(|events|);
  }

  lemma {:induction false} ReceivedHas<K>(events: seq<Event<K>>, i: nat)
    requires i < |events|
    ensures events[i].value in Received(events, events[i].key)
    decreases |events|
  {
    if i < |events| - 1 {
      ReceivedHas(events[..|events| - 1], i);
    }
  }

  /** A run without failed assertions that validates delivered every key exactly the values
      1 to `final`, in order, if and only if every value was at least 1; and a run that
      delivered exactly that always passes and validates. */
  lemma ValidationMeansExact<K(!new)>(events: seq<Event<K>>, keys: nat, final: nat)
    requires 0 < final && keys * final < 0x8000_0000
    ensures Passes(events) && Validates(Run(events), keys, final) ==>
              (Exact(events, keys, final) <==> Positive(events))
    ensures Exact(events, keys, final) ==> Passes(events) && Validates(Run(events), keys, final)
  {
    if Exact(events, keys, final) {
      ValidatedIfExact(events, keys, final);
    } else if Passes(events) && Validates(Run(events), keys, final) && Positive(events) {
      ExactIfValidated(events, keys, final);
    }
  }

  /** Without the condition on values a key that starts at 0 can make up for one that
      missed an event. */
  lemma ZeroHidesALostEvent()
    ensures var events := [Event(false, 0), Event(false, 1), Event(false, 2), Event(true, 2)];
            Passes(events) && Validates(Run(events), 2, 2) && !Exact(events, 2, 2)
  {
    var e0: seq<Event<bool>> := [];
    OneMore(e0, Event(false, 0));
    var e1 := e0 + [Event(false, 0)];
    OneMore(e1, Event(false, 1));
    var e2 := e1 + [Event(false, 1)];
    OneMore(e2, Event(false, 2));
    var e3 := e2 + [Event(false, 2)];
    OneMore(e3, Event(true, 2));
    var e4 := e3 + [Event(true, 2)];
    assert e4 == [Event(false, 0), Event(false, 1), Event(false, 2), Event(true, 2)];
    assert true in KeyList(e4) && |Received(e4, true)| == 1;
  }

  lemma OneMore(events: seq<Event<bool>>, e: Event<bool>)
    ensures Run(events + [e]) == Step(Run(events), e)
    ensures Passes(events + [e]) <==> Passes(events) && Accepts(Run(events), e)
    ensures |Received(events + [e], true)| == |Received(events, true)| + if e.key then 1 else 0
    ensures e.key in KeyList(events + [e])
  {
    assert (events + [e])[..|events|] == events;
  }
}
