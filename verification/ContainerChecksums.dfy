/** The checksums of containers: an exclusive-or fold over the entries in whatever order
    the container enumerates them.

    `create` and `createKey` stand for the factory's lookup of the wrapper for an object;
    `sum` is the wrapper's own checksum, which may throw. The message of the null check
    reads a field of the wrapper it checks, so a missing wrapper throws a null reference.
 */
module ContainerChecksums {
  import opened Crc32
  import opened Wrappers

  // ----- Exclusive or -----

  lemma PlusCommutes(a: bv32, b: bv32)
    ensures Plus(a, b) == Plus(b, a)
  {
  }

  lemma PlusAssociates(a: bv32, b: bv32, c: bv32)
    ensures Plus(Plus(a, b), c) == Plus(a, Plus(b, c))
  {
  }

  lemma PlusCancels(a: bv32, b: bv32)
    ensures Plus(a, a) == 0 && Plus(a, 0) == a && (Plus(a, b) == 0 ==> a == b)
  {
  }

  // ----- The fold -----

  /** The checksum of the entries, or the first error in their order. */
  function Fold<E>(es: seq<E>, f: E -> Result<bv32>): Result<bv32> {
    if es == [] then Ok(0)
    else
      var earlier, last := Fold(es[..|es| - 1], f), f(es[|es| - 1]);
      if earlier.Err? then earlier
      else if last.Err? then last
      else Ok(Plus(earlier.value, last.value))
  }

  /** Whether the fold throws does not depend on the order. */
  lemma {:induction false} FoldSucceeds<E>(es: seq<E>, f: E -> Result<bv32>)
    ensures Fold(es, f).Ok? <==> forall e :: e in es ==> f(e).Ok?
  {
    if es != [] {
      var n := |es| - 1;
      FoldSucceeds(es[..n], f);
      assert es == es[..n] + [es[n]];
    }
  }

  function Without<E>(es: seq<E>, i: nat): (r: seq<E>)
    requires i < |es|
    ensures |r| == |es| - 1
  {
    es[..i] + es[i + 1..]
  }

  lemma WithoutMultiset<E>(es: seq<E>, i: nat)
    requires i < |es|
    ensures multiset(es) == multiset(Without(es, i)) + multiset{es[i]}
  {
    assert es == es[..i] + [es[i]] + es[i + 1..];
  }

  lemma PlusSwap(a: bv32, b: bv32, c: bv32)
    ensures Plus(Plus(a, b), c) == Plus(Plus(a, c), b)
  {
    PlusAssociates(a, b, c);
    PlusCommutes(b, c);
    PlusAssociates(a, c, b);
  }

  /** Removing one entry, wherever it is, removes its contribution. */
  lemma {:induction false} FoldWithout<E>(es: seq<E>, f: E -> Result<bv32>, i: nat)
    requires i < |es| && Fold(es, f).Ok?
    ensures Fold(Without(es, i), f).Ok? && f(es[i]).Ok?
    ensures Fold(es, f).value == Plus(Fold(Without(es, i), f).value, f(es[i]).value)
    decreases |es|
  {
    var n := |es| - 1;
    if i == n {
      assert Without(es, i) == es[..n];
    } else {
      FoldWithout(es[..n], f, i);
      var rest := Without(es[..n], i);
      assert Without(es, i)[..n - 1] == rest;
      assert Without(es, i) == rest + [es[n]];
      PlusSwap(Fold(rest, f).value, f(es[i]).value, f(es[n]).value);
    }
  }

  /** Entries that occur an even number of times cancel. */
  ghost predicate AllEven<E(!new)>(es: seq<E>) {
    forall e :: multiset(es)[e] % 2 == 0
  }

  lemma PairUp<E(!new)>(es: seq<E>) returns (i: nat)
    requires AllEven(es) && es != []
    ensures i < |es| - 1 && es[i] == es[|es| - 1] && AllEven(Without(es[..|es| - 1], i))
  {
    var n := |es| - 1;
    assert es == es[..n] + [es[n]];
    assert multiset(es)[es[n]] == multiset(es[..n])[es[n]] + 1;
    assert es[n] in es[..n];
    i :| 0 <= i < n && es[i] == es[n];
    WithoutMultiset(es[..n], i);
    forall e ensures multiset(Without(es[..n], i))[e] % 2 == 0 {
      EvenLess(multiset(es)[e], multiset(Without(es[..n], i))[e]);
    }
  }

  lemma EvenLess(x: nat, y: nat)
    requires x % 2 == 0 && (x == y || x == y + 2)
    ensures y % 2 == 0
  {
  }

  lemma {:induction false} EvenFoldsToZero<E(!new)>(es: seq<E>, f: E -> Result<bv32>)
    requires AllEven(es) && Fold(es, f).Ok?
    ensures Fold(es, f) == Ok(0)
    decreases |es|
  {
    if es != [] {
      var n := |es| - 1;
      var i := PairUp(es);
      FoldWithout(es[..n], f, i);
      var rest := Without(es[..n], i);
      EvenFoldsToZero(rest, f);
      PlusAssociates(0, f(es[n]).value, f(es[n]).value);
      PlusCancels(f(es[n]).value, 0);
      PlusCancels(0, 0);
    }
  }

  lemma {:induction false} FoldConcat<E>(a: seq<E>, b: seq<E>, f: E -> Result<bv32>)
    requires Fold(a, f).Ok? && Fold(b, f).Ok?
    ensures Fold(a + b, f) == Ok(Plus(Fold(a, f).value, Fold(b, f).value))
    decreases |b|
  {
    if b == [] {
      assert a + b == a;
      PlusCancels(Fold(a, f).value, 0);
    } else {
      var n := |b| - 1;
      assert (a + b)[..|a + b| - 1] == a + b[..n];
      FoldConcat(a, b[..n], f);
      PlusAssociates(Fold(a, f).value, Fold(b[..n], f).value, f(b[n]).value);
    }
  }

  ghost predicate SameParity<E(!new)>(a: seq<E>, b: seq<E>) {
    forall e :: multiset(a)[e] % 2 == multiset(b)[e] % 2
  }

  lemma EvenSum(x: nat, y: nat)
    requires x % 2 == y % 2
    ensures (x + y) % 2 == 0
  {
  }

  lemma JoinedEven<E(!new)>(a: seq<E>, b: seq<E>)
    requires SameParity(a, b)
    ensures AllEven(a + b)
  {
    forall e ensures multiset(a + b)[e] % 2 == 0 {
      EvenSum(multiset(a)[e], multiset(b)[e]);
    }
  }

  /** The checksum sees no more than which entries occur an odd number of times. */
  lemma ParityDecides<E(!new)>(a: seq<E>, b: seq<E>, f: E -> Result<bv32>)
    requires Fold(a, f).Ok? && Fold(b, f).Ok? && SameParity(a, b)
    ensures Fold(a, f) == Fold(b, f)
  {
    FoldConcat(a, b, f);
    JoinedEven(a, b);
    EvenFoldsToZero(a + b, f);
    PlusCancels(Fold(a, f).value, Fold(b, f).value);
  }

  /** In particular the order of the entries does not matter. */
  lemma OrderIrrelevant<E(!new)>(a: seq<E>, b: seq<E>, f: E -> Result<bv32>)
    requires multiset(a) == multiset(b)
    ensures Fold(a, f).Ok? <==> Fold(b, f).Ok?
    ensures Fold(a, f).Ok? ==> Fold(a, f) == Fold(b, f)
  {
    FoldSucceeds(a, f);
    FoldSucceeds(b, f);
    assert forall e :: e in a <==> e in multiset(a);
    assert forall e :: e in b <==> e in multiset(b);
    if Fold(a, f).Ok? {
      ParityDecides(a, b, f);
    }
  }

  /** Adding one entry anywhere, in any new order, changes the checksum by exactly that
      entry's contribution; read from right to left, so does removing one. */
  lemma OneMoreEntry<E(!new)>(a: seq<E>, b: seq<E>, e: E, f: E -> Result<bv32>)
    requires multiset(b) == multiset(a) + multiset{e}
    ensures Fold(b, f).Ok? <==> Fold(a, f).Ok? && f(e).Ok?
    ensures Fold(b, f).Ok? ==> Fold(b, f).value == Plus(Fold(a, f).value, f(e).value)
  {
    assert multiset(a + [e]) == multiset(b);
    OrderIrrelevant(a + [e], b, f);
    assert (a + [e])[..|a|] == a;
  }

  // ----- The containers -----

  /** A list, vector, object array or stack skips null entries. */
  function ListEntry<T, W>(create: T -> Option<W>, sum: (W, T) -> Result<bv32>): Option<T> -> Result<bv32> {
    (e: Option<T>) =>
      if e.None? then Ok(0)
      else if create(e.value).None? then Err(NullReference)
      else sum(create(e.value).value, e.value)
  }

  /** A set has no null entries. */
  function SetEntry<T, W>(createKey: T -> Option<W>, sum: (W, T) -> Result<bv32>): T -> Result<bv32> {
    (e: T) => if createKey(e).None? then Err(NullReference) else sum(createKey(e).value, e)
  }

  /** A map entry contributes the exclusive or of its key's and its value's checksums; a
      null value throws. */
  function MapEntry<T, W>(createKey: T -> Option<W>, create: T -> Option<W>, sum: (W, T) -> Result<bv32>)
    : ((T, Option<T>)) -> Result<bv32>
  {
    (e: (T, Option<T>)) =>
      if createKey(e.0).None? || e.1.None? || create(e.1.value).None? then Err(NullReference)
      else
        var k, v := sum(createKey(e.0).value, e.0), sum(create(e.1.value).value, e.1.value);
        if k.Err? then k else if v.Err? then v else Ok(Plus(k.value, v.value))
  }

  /** An error stops the fold. */
  lemma {:induction false} FoldStops<E>(es: seq<E>, f: E -> Result<bv32>, i: nat)
    requires i <= |es|
    ensures Fold(es[..i], f).Err? ==> Fold(es, f) == Fold(es[..i], f)
    decreases |es|
  {
    if i == |es| {
      assert es[..i] == es;
    } else {
      assert es[..|es| - 1][..i] == es[..i];
      FoldStops(es[..|es| - 1], f, i);
    }
  }

  // ----- What the checksums are, object by object -----

  /** Every object has a wrapper and a checksum. */
  ghost predicate Summable<T, W>(xs: seq<T>, create: T -> Option<W>, sum: (W, T) -> Result<bv32>) {
    forall x :: x in xs ==> create(x).Some? && sum(create(x).value, x).Ok?
  }

  /** The exclusive or of the checksums of the objects. */
  ghost function Total<T, W>(xs: seq<T>, create: T -> Option<W>, sum: (W, T) -> Result<bv32>): bv32
    requires Summable(xs, create, sum)
  {
    if xs == [] then 0
    else
      var n := |xs| - 1;
      Plus(Total(xs[..n], create, sum), sum(create(xs[n]).value, xs[n]).value)
  }

  /** Why an object has no checksum: no wrapper, or the wrapper's own error. */
  ghost predicate Unsummed<T, W>(x: T, create: T -> Option<W>, sum: (W, T) -> Result<bv32>, e: Error) {
    if create(x).None? then e == NullReference else sum(create(x).value, x) == Err(e)
  }

  /** Object `i` is the first without a checksum. */
  ghost predicate FailsFirst<T, W>(xs: seq<T>, create: T -> Option<W>, sum: (W, T) -> Result<bv32>, i: nat, e: Error) {
    i < |xs| && Summable(xs[..i], create, sum) && Unsummed(xs[i], create, sum, e)
  }

  /** The exclusive or of all checksums, or the error of the first object without one. */
  ghost predicate SumsTo<T, W>(xs: seq<T>, create: T -> Option<W>, sum: (W, T) -> Result<bv32>, r: Result<bv32>) {
    && (r.Ok? <==> Summable(xs, create, sum))
    && (r.Ok? ==> r.value == Total(xs, create, sum))
    && (r.Err? ==> exists i: nat :: FailsFirst(xs, create, sum, i, r.error))
  }

  lemma SummableStep<T, W>(xs: seq<T>, x: T, create: T -> Option<W>, sum: (W, T) -> Result<bv32>)
    ensures Summable(xs + [x], create, sum) <==>
            Summable(xs, create, sum) && create(x).Some? && sum(create(x).value, x).Ok?
    ensures Summable(xs + [x], create, sum) ==>
              Total(xs + [x], create, sum) == Plus(Total(xs, create, sum), sum(create(x).value, x).value)
  {
    assert (xs + [x])[..|xs|] == xs;
  }

  /** One more object. */
  lemma SumsToStep<T, W>(xs: seq<T>, x: T, create: T -> Option<W>, sum: (W, T) -> Result<bv32>, r: Result<bv32>)
    requires SumsTo(xs, create, sum, r)
    ensures r.Err? ==> SumsTo(xs + [x], create, sum, r)
    ensures r.Ok? && create(x).None? ==> SumsTo(xs + [x], create, sum, Err(NullReference))
    ensures r.Ok? && create(x).Some? ==>
              var c := sum(create(x).value, x);
              SumsTo(xs + [x], create, sum, if c.Err? then c else Ok(Plus(r.value, c.value)))
  {
    SummableStep(xs, x, create, sum);
    var longer := xs + [x];
    if r.Err? {
      var i: nat :| FailsFirst(xs, create, sum, i, r.error);
      assert longer[..i] == xs[..i];
      assert FailsFirst(longer, create, sum, i, r.error);
    } else {
      assert longer[..|xs|] == xs;
      if create(x).None? {
        assert FailsFirst(longer, create, sum, |xs|, NullReference);
      } else if sum(create(x).value, x).Err? {
        assert FailsFirst(longer, create, sum, |xs|, sum(create(x).value, x).error);
      }
    }
  }

  lemma {:induction false} SetFold<T, W>(xs: seq<T>, create: T -> Option<W>, sum: (W, T) -> Result<bv32>)
    ensures SumsTo(xs, create, sum, Fold(xs, SetEntry(create, sum)))
  {
    if xs != [] {
      var n := |xs| - 1;
      SetFold(xs[..n], create, sum);
      SumsToStep(xs[..n], xs[n], create, sum, Fold(xs[..n], SetEntry(create, sum)));
      assert xs[..n] + [xs[n]] == xs;
    }
  }

  /** The entries that are not null. */
  ghost function NonNull<T>(es: seq<Option<T>>): seq<T> {
    if es == [] then []
    else
      var n := |es| - 1;
      NonNull(es[..n]) + if es[n].Some? then [es[n].value] else []
  }

  lemma {:induction false} ListFold<T, W>(es: seq<Option<T>>, create: T -> Option<W>, sum: (W, T) -> Result<bv32>)
    ensures SumsTo(NonNull(es), create, sum, Fold(es, ListEntry(create, sum)))
  {
    if es != [] {
      var n := |es| - 1;
      var earlier, r := NonNull(es[..n]), Fold(es[..n], ListEntry(create, sum));
      ListFold(es[..n], create, sum);
      if es[n].Some? {
        SumsToStep(earlier, es[n].value, create, sum, r);
      } else {
        assert earlier + [] == earlier;
        PlusCancels(if r.Ok? then r.value else 0, 0);
      }
    }
  }

  ghost function Firsts<T>(es: seq<(T, Option<T>)>): seq<T> {
    seq(|es|, i requires 0 <= i < |es| => es[i].0)
  }

  ghost function Seconds<T>(es: seq<(T, Option<T>)>): seq<Option<T>> {
    seq(|es|, i requires 0 <= i < |es| => es[i].1)
  }

  /** Every key and every value has a wrapper and a checksum, and no value is null. */
  ghost predicate PairsSummable<T, W>(es: seq<(T, Option<T>)>, createKey: T -> Option<W>, create: T -> Option<W>,
                                      sum: (W, T) -> Result<bv32>)
  {
    Summable(Firsts(es), createKey, sum) && None !in Seconds(es) && Summable(NonNull(Seconds(es)), create, sum)
  }

  /** Why a pair has no checksum: something is missing, or the error of the key, or else of
      the value. */
  ghost predicate PairUnsummed<T, W>(e: (T, Option<T>), createKey: T -> Option<W>, create: T -> Option<W>,
                                     sum: (W, T) -> Result<bv32>, error: Error)
  {
    if createKey(e.0).None? || e.1.None? || create(e.1.value).None? then error == NullReference
    else
      || Unsummed(e.0, createKey, sum, error)
      || (sum(createKey(e.0).value, e.0).Ok? && Unsummed(e.1.value, create, sum, error))
  }

  ghost predicate PairFailsFirst<T, W>(es: seq<(T, Option<T>)>, createKey: T -> Option<W>, create: T -> Option<W>,
                                       sum: (W, T) -> Result<bv32>, i: nat, error: Error)
  {
    i < |es| && PairsSummable(es[..i], createKey, create, sum) && PairUnsummed(es[i], createKey, create, sum, error)
  }

  /** The exclusive or of the checksums of all keys and of all values, or the error of the
      first pair without one. */
  ghost predicate PairsSumTo<T, W>(es: seq<(T, Option<T>)>, createKey: T -> Option<W>, create: T -> Option<W>,
                                   sum: (W, T) -> Result<bv32>, r: Result<bv32>)
  {
    && (r.Ok? <==> PairsSummable(es, createKey, create, sum))
    && (r.Ok? ==> r.value == Plus(Total(Firsts(es), createKey, sum), Total(NonNull(Seconds(es)), create, sum)))
    && (r.Err? ==> exists i: nat :: PairFailsFirst(es, createKey, create, sum, i, r.error))
  }

  lemma PlusFour(a: bv32, b: bv32, c: bv32, d: bv32)
    ensures Plus(Plus(a, b), Plus(c, d)) == Plus(Plus(a, c), Plus(b, d))
  {
    PlusAssociates(a, b, Plus(c, d));
    PlusAssociates(b, c, d);
    PlusCommutes(b, c);
    PlusAssociates(c, b, d);
    PlusAssociates(a, c, Plus(b, d));
  }

  lemma PairsStep<T, W>(es: seq<(T, Option<T>)>, createKey: T -> Option<W>, create: T -> Option<W>, sum: (W, T) -> Result<bv32>)
    requires es != []
    ensures var n := |es| - 1;
            var e := es[n];
            && (PairsSummable(es, createKey, create, sum) <==>
                 && PairsSummable(es[..n], createKey, create, sum)
                 && createKey(e.0).Some? && sum(createKey(e.0).value, e.0).Ok?
                 && e.1.Some? && create(e.1.value).Some? && sum(create(e.1.value).value, e.1.value).Ok?)
            && (PairsSummable(es, createKey, create, sum) ==>
                 && Total(Firsts(es), createKey, sum) ==
                      Plus(Total(Firsts(es[..n]), createKey, sum), sum(createKey(e.0).value, e.0).value)
                 && Total(NonNull(Seconds(es)), create, sum) ==
                      Plus(Total(NonNull(Seconds(es[..n])), create, sum), sum(create(e.1.value).value, e.1.value).value))
  {
    var n := |es| - 1;
    var (k, v) := es[n];
    assert Firsts(es) == Firsts(es[..n]) + [k];
    assert Seconds(es) == Seconds(es[..n]) + [v] && Seconds(es)[..n] == Seconds(es[..n]);
    SummableStep(Firsts(es[..n]), k, createKey, sum);
    if v.Some? {
      SummableStep(NonNull(Seconds(es[..n])), v.value, create, sum);
    }
  }

  lemma {:induction false} MapFold<T, W>(es: seq<(T, Option<T>)>, createKey: T -> Option<W>, create: T -> Option<W>,
                                         sum: (W, T) -> Result<bv32>)
    ensures PairsSumTo(es, createKey, create, sum, Fold(es, MapEntry(createKey, create, sum)))
  {
    var f := MapEntry(createKey, create, sum);
    if es == [] {
      PlusCancels(0, 0);
    } else {
      var n := |es| - 1;
      var earlier := Fold(es[..n], f);
      MapFold(es[..n], createKey, create, sum);
      PairsStep(es, createKey, create, sum);
      if earlier.Err? {
        var i: nat :| PairFailsFirst(es[..n], createKey, create, sum, i, earlier.error);
        assert es[..n][..i] == es[..i];
        assert PairFailsFirst(es, createKey, create, sum, i, earlier.error);
      } else if f(es[n]).Err? {
        assert PairFailsFirst(es, createKey, create, sum, n, f(es[n]).error);
      } else {
        var (k, v) := es[n];
        PlusFour(Total(Firsts(es[..n]), createKey, sum), Total(NonNull(Seconds(es[..n])), create, sum),
                 sum(createKey(k).value, k).value, sum(create(v.value).value, v.value).value);
      }
    }
  }

  // ----- The loops -----

  method ListChecksum<T, W>(value: Option<seq<Option<T>>>, create: T -> Option<W>, sum: (W, T) -> Result<bv32>)
    returns (r: Result<bv32>)
    ensures value.None? ==> r == Err(AssertionFailed)
    ensures value.Some? ==> r == Fold(value.value, ListEntry(create, sum))
    ensures value.Some? ==> SumsTo(NonNull(value.value), create, sum, r)
  {
    if value.None? {
      return Err(AssertionFailed);
    }
    var es := value.value;
    var ckSum: bv32 := 0;
    ghost var f := ListEntry(create, sum);
    ListFold(es, create, sum);
    for i := 0 to |es|
      invariant Fold(es[..i], f) == Ok(ckSum)
    {
      assert es[..i + 1][..i] == es[..i];
      FoldStops(es, f, i + 1);
      if es[i].None? {
        PlusCancels(ckSum, 0);
        continue;
      }
      var wrapper := create(es[i].value);
      if wrapper.None? {
        return Err(NullReference);
      }
      var c := sum(wrapper.value, es[i].value);
      if c.Err? {
        return c;
      }
      ckSum := Plus(ckSum, c.value);
    }
    assert es[..|es|] == es;
    r := Ok(ckSum);
  }

  method SetChecksum<T, W>(value: Option<seq<T>>, createKey: T -> Option<W>, sum: (W, T) -> Result<bv32>)
    returns (r: Result<bv32>)
    ensures value.None? ==> r == Err(AssertionFailed)
    ensures value.Some? ==> r == Fold(value.value, SetEntry(createKey, sum))
    ensures value.Some? ==> SumsTo(value.value, createKey, sum, r)
  {
    if value.None? {
      return Err(AssertionFailed);
    }
    var es := value.value;
    var ckSum: bv32 := 0;
    ghost var f := SetEntry(createKey, sum);
    SetFold(es, createKey, sum);
    for i := 0 to |es|
      invariant Fold(es[..i], f) == Ok(ckSum)
    {
      assert es[..i + 1][..i] == es[..i];
      FoldStops(es, f, i + 1);
      var wrapper := createKey(es[i]);
      if wrapper.None? {
        return Err(NullReference);
      }
      var c := sum(wrapper.value, es[i]);
      if c.Err? {
        return c;
      }
      ckSum := Plus(ckSum, c.value);
    }
    assert es[..|es|] == es;
    r := Ok(ckSum);
  }

  method MapChecksum<T, W>(value: Option<seq<(T, Option<T>)>>, createKey: T -> Option<W>, create: T -> Option<W>,
                           sum: (W, T) -> Result<bv32>)
    returns (r: Result<bv32>)
    ensures value.None? ==> r == Err(AssertionFailed)
    ensures value.Some? ==> r == Fold(value.value, MapEntry(createKey, create, sum))
    ensures value.Some? ==> PairsSumTo(value.value, createKey, create, sum, r)
  {
    if value.None? {
      return Err(AssertionFailed);
    }
    r := PairsChecksum(value.value, createKey, create, sum);
    MapFold(value.value, createKey, create, sum);
  }

  /** The loop over the pairs. */
  method PairsChecksum<T, W>(es: seq<(T, Option<T>)>, createKey: T -> Option<W>, create: T -> Option<W>,
                             sum: (W, T) -> Result<bv32>)
    returns (r: Result<bv32>)
    ensures r == Fold(es, MapEntry(createKey, create, sum))
  {
    var ckSum: bv32 := 0;
    ghost var f := MapEntry(createKey, create, sum);
    for i := 0 to |es|
      invariant Fold(es[..i], f) == Ok(ckSum)
    {
      assert es[..i + 1][..i] == es[..i];
      FoldStops(es, f, i + 1);
      var (key, val) := es[i];
      var keyWrapper := createKey(key);
      if keyWrapper.None? || val.None? {
        return Err(NullReference);
      }
      var valueWrapper := create(val.value);
      if valueWrapper.None? {
        return Err(NullReference);
      }
      var k := sum(keyWrapper.value, key);
      if k.Err? {
        return k;
      }
      var v := sum(valueWrapper.value, val.value);
      if v.Err? {
        return v;
      }
      ckSum := Plus(ckSum, Plus(k.value, v.value));
    }
    assert es[..|es|] == es;
    r := Ok(ckSum);
  }

  // ----- Dictionaries -----

  /** `es` lists the entries of `m`, each once, in some order. */
  ghost predicate Enumerates<K, V>(es: seq<(K, V)>, m: map<K, V>) {
    && (forall i, j :: 0 <= i < j < |es| ==> es[i].0 != es[j].0)
    && (forall i :: 0 <= i < |es| ==> es[i].0 in m && m[es[i].0] == es[i].1)
    && (forall k :: k in m ==> (k, m[k]) in es)
  }

  lemma {:induction false} DistinctCounts<E>(es: seq<E>, e: E)
    requires forall i, j :: 0 <= i < j < |es| ==> es[i] != es[j]
    ensures multiset(es)[e] == if e in es then 1 else 0
    decreases |es|
  {
    if es != [] {
      var n := |es| - 1;
      DistinctCounts(es[..n], e);
      assert es == es[..n] + [es[n]];
    }
  }

  lemma EnumerationsAgree<K(!new), V(!new)>(a: seq<(K, V)>, b: seq<(K, V)>, m: map<K, V>)
    requires Enumerates(a, m) && Enumerates(b, m)
    ensures multiset(a) == multiset(b)
  {
    forall e ensures multiset(a)[e] == multiset(b)[e] {
      DistinctCounts(a, e);
      DistinctCounts(b, e);
      assert e in a <==> e.0 in m && m[e.0] == e.1;
      assert e in b <==> e.0 in m && m[e.0] == e.1;
    }
  }

  /** The checksum of a dictionary is a function of the dictionary: any two
      enumerations of it fold to the same result. */
  lemma DictionaryChecksumWellDefined<K(!new), V(!new)>(a: seq<(K, V)>, b: seq<(K, V)>, m: map<K, V>, f: ((K, V)) -> Result<bv32>)
    requires Enumerates(a, m) && Enumerates(b, m)
    ensures Fold(a, f).Ok? <==> Fold(b, f).Ok?
    ensures Fold(a, f).Ok? ==> Fold(a, f) == Fold(b, f)
  {
    EnumerationsAgree(a, b, m);
    OrderIrrelevant(a, b, f);
  }

  /** Adding a new key changes it by that entry's contribution. */
  lemma DictionaryAdd<K(!new), V(!new)>(a: seq<(K, V)>, b: seq<(K, V)>, m: map<K, V>, k: K, v: V, f: ((K, V)) -> Result<bv32>)
    requires k !in m && Enumerates(a, m) && Enumerates(b, m[k := v])
    ensures Fold(b, f).Ok? <==> Fold(a, f).Ok? && f((k, v)).Ok?
    ensures Fold(b, f).Ok? ==> Fold(b, f).value == Plus(Fold(a, f).value, f((k, v)).value)
  {
    var longer := a + [(k, v)];
    assert Enumerates(longer, m[k := v]);
    EnumerationsAgree(longer, b, m[k := v]);
    OneMoreEntry(a, b, (k, v), f);
  }
}
