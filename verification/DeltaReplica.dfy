/** The delta sender of the delta tests: each put increments a 32-bit counter, and its
    parity decides whether the change or the whole value is sent.

    Serialized forms are the fields they hold. A client that has no copy yet cannot apply
    a change.
 */
module DeltaReplica {
  import opened MachineIntegers
  import opened Wrappers

  const STATIC_DATA := "Data which don't get updated"

  datatype Value = Value(counter: Int32, data: string)

  datatype Message = Delta(counter: Int32) | Full(counter: Int32, data: string)

  /** C#'s remainder takes the sign of the dividend. */
  function Remainder(x: int, m: int): int
    requires m > 0
  {
    if x < 0 then -(-x % m) else x % m
  }

  predicate SendsDelta(counter: Int32) {
    Remainder(counter, 2) == 1
  }

  /** What the sender becomes, what it sends, and what a receiver makes of it. */
  function Bumped(v: Value): Value {
    v.(counter := Increment(v.counter))
  }

  function Sent(v: Value): Message {
    var b := Bumped(v);
    if SendsDelta(b.counter) then Delta(b.counter) else Full(b.counter, b.data)
  }

  function Apply(r: Option<Value>, m: Message): Option<Value> {
    match m
    case Full(counter, data) => Some(Value(counter, data))
    case Delta(counter) => if r.Some? then Some(r.value.(counter := counter)) else None
  }

  class DeltaTestAD {
    var deltaUpdate: Int32
    var staticData: string

    function Now(): Value
      reads this
    {
      Value(deltaUpdate, staticData)
    }

    constructor ()
      ensures Now() == Value(1, STATIC_DATA)
    {
      deltaUpdate, staticData := 1, STATIC_DATA;
    }

    constructor FromData(counter: Int32, data: string)
      ensures Now() == Value(counter, data)
    {
      deltaUpdate, staticData := counter, data;
    }

    method FromDelta(counter: Int32)
      modifies this
      ensures Now() == old(Now()).(counter := counter)
    {
      deltaUpdate := counter;
    }

    method HasDelta() returns (isDelta: bool)
      modifies this
      ensures Now() == Bumped(old(Now())) && isDelta == SendsDelta(deltaUpdate)
    {
      deltaUpdate := Increment(deltaUpdate);
      isDelta := Remainder(deltaUpdate, 2) == 1;
    }
  }

  /** One put as one receiver sees it. */
  method Put(sender: DeltaTestAD, receiver: DeltaTestAD?) returns (copy: DeltaTestAD?)
    requires sender != receiver
    modifies sender, receiver
    ensures sender.Now() == Bumped(old(sender.Now()))
    ensures var before := if receiver == null then None else Some(old(receiver.Now()));
            (if copy == null then None else Some(copy.Now())) == Apply(before, Sent(old(sender.Now())))
  {
    var isDelta := sender.HasDelta();
    if !isDelta {
      copy := new DeltaTestAD.FromData(sender.deltaUpdate, sender.staticData);
    } else {
      if receiver != null {
        receiver.FromDelta(sender.deltaUpdate);
      }
      copy := receiver;
    }
  }

  // ----- Runs -----

  /** The clients' copies. A put by a client that has no copy does nothing. */
  type Clients = seq<Option<Value>>

  ghost function AfterPut(cs: Clients, p: nat): (r: Clients)
    ensures |r| == |cs|
  {
    if p >= |cs| || cs[p].None? then cs
    else seq(|cs|, i requires 0 <= i < |cs| =>
                     if i == p then Some(Bumped(cs[p].value)) else Apply(cs[i], Sent(cs[p].value)))
  }

  ghost predicate Puts(cs: Clients, p: nat) {
    p < |cs| && cs[p].Some?
  }

  /** A change is sent to a client that has nothing to apply it to. */
  ghost predicate Lost(cs: Clients, p: nat) {
    Puts(cs, p) && Sent(cs[p].value).Delta? && exists i :: 0 <= i < |cs| && i != p && cs[i].None?
  }

  ghost function Run(n: nat, puts: seq<nat>): (r: Clients)
    ensures |r| == n + 1
  {
    if puts == [] then [Some(Value(1, STATIC_DATA))] + seq(n, _ => None)
    else AfterPut(Run(n, puts[..|puts| - 1]), puts[|puts| - 1])
  }

  /** Puts that were made, not counting those by clients without a copy. */
  ghost function Made(n: nat, puts: seq<nat>): nat {
    if puts == [] then 0
    else Made(n, puts[..|puts| - 1]) + if Puts(Run(n, puts[..|puts| - 1]), puts[|puts| - 1]) then 1 else 0
  }

  /** The counter starts at 1. */
  ghost function Counter(k: nat): Int32 {
    Wrapped(k + 1)
  }

  ghost predicate InStep(cs: Clients, k: nat) {
    && |cs| > 0 && cs[0].Some?
    && (forall i :: 0 <= i < |cs| && cs[i].Some? ==> cs[i] == Some(Value(Counter(k), STATIC_DATA)))
    && (k > 0 ==> forall i :: 0 <= i < |cs| ==> cs[i].Some?)
  }

  lemma FirstPutIsFull(k: nat)
    requires SendsDelta(Counter(k + 1))
    ensures k > 0
  {
  }

  lemma PutKeepsStep(cs: Clients, p: nat, k: nat)
    requires InStep(cs, k) && Puts(cs, p)
    ensures InStep(AfterPut(cs, p), k + 1) && !Lost(cs, p)
  {
    WrappedSteps(k + 1);
    if SendsDelta(Counter(k + 1)) {
      FirstPutIsFull(k);
    }
  }

  lemma {:induction false} RunInStep(n: nat, puts: seq<nat>)
    ensures InStep(Run(n, puts), Made(n, puts))
  {
    if puts != [] {
      var earlier := puts[..|puts| - 1];
      RunInStep(n, earlier);
      if Puts(Run(n, earlier), puts[|puts| - 1]) {
        PutKeepsStep(Run(n, earlier), puts[|puts| - 1], Made(n, earlier));
      }
    }
  }

  /** However the puts are spread over the clients and however many there are, after the first
      one every copy shows the number of puts made, through every wrap of the counter, and
      the data of the first client; and no change ever reaches a client without a copy. */
  lemma ReplicasAgree(n: nat, puts: seq<nat>, p: nat)
    ensures Made(n, puts) > 0 ==>
              forall i :: 0 <= i <= n ==> Run(n, puts)[i] == Some(Value(Wrapped(Made(n, puts) + 1), STATIC_DATA))
    ensures !Lost(Run(n, puts), p)
  {
    RunInStep(n, puts);
    if Puts(Run(n, puts), p) {
      PutKeepsStep(Run(n, puts), p, Made(n, puts));
    }
  }

  /** Put number `k` sends a change exactly when it comes to a positive odd counter: half of
      the time until the counter wraps, and never while it is negative. */
  lemma DeltaWhen(k: nat)
    ensures SendsDelta(Counter(k)) <==> k % 2 == 0 && k % 0x1_0000_0000 < 0x7fff_ffff
  {
    var q, r := k / 0x1_0000_0000, k % 0x1_0000_0000;
    CounterAt(k, q, r);
    OddRemainder(Counter(k));
    SameParity(k, q, r);
  }

  lemma CounterAt(k: nat, q: nat, r: nat)
    requires r < 0x1_0000_0000 && k == q * 0x1_0000_0000 + r
    ensures Counter(k) == if r < 0x7fff_ffff then r + 1 else r + 1 - 0x1_0000_0000
  {
    if r < 0x7fff_ffff {
      assert k + 1 + 0x8000_0000 == q * 0x1_0000_0000 + (r + 1 + 0x8000_0000);
    } else {
      assert k + 1 + 0x8000_0000 == (q + 1) * 0x1_0000_0000 + (r + 1 - 0x8000_0000);
    }
  }

  lemma OddRemainder(x: Int32)
    ensures SendsDelta(x) <==> x > 0 && x % 2 == 1
  {
  }

  lemma SameParity(k: nat, q: nat, r: nat)
    requires k == q * 0x1_0000_0000 + r
    ensures k % 2 == r % 2
  {
    assert k == 2 * (q * 0x8000_0000) + r;
  }
}
