/** The put/get verification protocol: one client writes its data entries and two
    families of checksum entries into a region, another client reads the region back
    and compares checksums.

    A region is a map shared by the clients. A stored value is null, a boxed 32-bit
    number or some other object. The checksum functions of the wrappers are fields of
    the client: they are functions of the object alone, and may throw, as for a date that
    cannot be rounded or for an object of another type.
 */
module PutGet {
  import opened Decimals
  import opened Keys
  import opened MachineIntegers
  import opened Wrappers

  datatype Stored<+V> = Null | Number(n: Int32) | Other(v: V)

  // ----- Checksum keys -----

  const KEY_CHECKSUM := "KeyChecksum:"
  const VAL_CHECKSUM := "ValChecksum:"

  function KeySumKey(i: nat): Object {
    Text(KEY_CHECKSUM + Digits(i))
  }

  function ValSumKey(i: nat): Object {
    Text(VAL_CHECKSUM + Digits(i))
  }

  lemma SumKeysInjective(prefix: string, i: nat, j: nat)
    requires prefix + Digits(i) == prefix + Digits(j)
    ensures i == j
  {
    assert Digits(i) == (prefix + Digits(i))[|prefix|..] == Digits(j);
    DigitsInjective(i, j);
  }

  /** Keys that can hold checksums. */
  predicate Reserved(k: Object) {
    k.Text? && k.s != [] && k.s[0] in {'K', 'V'}
  }

  lemma SumKeysApart(i: nat, j: nat)
    ensures Reserved(KeySumKey(i)) && Reserved(ValSumKey(i)) && KeySumKey(i) != ValSumKey(j)
  {
    assert KeySumKey(i).s[0] == 'K' && ValSumKey(j).s[0] == 'V' && ValSumKey(i).s[0] == 'V';
  }

  /** No key type makes a key that could be taken for a checksum key. */
  lemma DataKeysNotReserved(kind: Kind, i: int, maxSize: int, base: int)
    requires InitKey(kind, i, maxSize, base).Ok?
    ensures !Reserved(InitKey(kind, i, maxSize, base).value)
  {
    var k := InitKey(kind, i, maxSize, base).value;
    assert k.Text? && k.s != [] ==> k.s[0] in {LATIN_A, DEVANAGARI_A};
  }

  // ----- What the loops do to the region -----

  type Entries<V> = map<Object, Stored<V>>

  /** The entries after storing the first `n` pairs in order. */
  function PutAll<V>(m: Entries<V>, keys: seq<Object>, values: seq<Stored<V>>, n: nat): Entries<V>
    requires n <= |keys| && n <= |values|
  {
    if n == 0 then m else PutAll(m, keys, values, n - 1)[keys[n - 1] := values[n - 1]]
  }

  /** The entries after storing the first `n` checksums. */
  function PutSums<V>(m: Entries<V>, at: nat -> Object, sums: seq<UInt32>, n: nat): Entries<V>
    requires n <= |sums|
  {
    if n == 0 then m else PutSums(m, at, sums, n - 1)[at(n - 1) := Number(ToInt32(sums[n - 1]))]
  }

  /** The last of the first `n` indices that has this key, or -1. */
  function Last(keys: seq<Object>, n: nat, k: Object): (j: int)
    requires n <= |keys|
    ensures -1 <= j < n && (j >= 0 ==> keys[j] == k) && (forall i :: j < i < n ==> keys[i] != k)
  {
    if n == 0 then -1 else if keys[n - 1] == k then n - 1 else Last(keys, n - 1, k)
  }

  /** A data key holds the value stored under it last. */
  lemma {:induction false} PutAllAt<V>(m: Entries<V>, keys: seq<Object>, values: seq<Stored<V>>, n: nat, k: Object)
    requires n <= |keys| && n <= |values|
    ensures var j := Last(keys, n, k);
            if j >= 0 then k in PutAll(m, keys, values, n) && PutAll(m, keys, values, n)[k] == values[j]
            else (k in PutAll(m, keys, values, n) <==> k in m) && (k in m ==> PutAll(m, keys, values, n)[k] == m[k])
  {
    if n > 0 {
      PutAllAt(m, keys, values, n - 1, k);
    }
  }

  lemma {:induction false} PutSumsAt<V>(m: Entries<V>, at: nat -> Object, sums: seq<UInt32>, n: nat, i: nat)
    requires i < n <= |sums| && (forall a: nat, b: nat :: at(a) == at(b) ==> a == b)
    ensures at(i) in PutSums(m, at, sums, n) && PutSums(m, at, sums, n)[at(i)] == Number(ToInt32(sums[i]))
  {
    if i < n - 1 {
      PutSumsAt(m, at, sums, n - 1, i);
    }
  }

  lemma {:induction false} PutSumsElsewhere<V>(m: Entries<V>, at: nat -> Object, sums: seq<UInt32>, n: nat, k: Object)
    requires n <= |sums| && (forall i: nat :: at(i) != k)
    ensures k in PutSums(m, at, sums, n) <==> k in m
    ensures k in m ==> PutSums(m, at, sums, n)[k] == m[k]
  {
    if n > 0 {
      PutSumsElsewhere(m, at, sums, n - 1, k);
    }
  }

  // ----- What the verifying loop checks -----

  /** Reading a checksum entry and casting it back. */
  function ReadSum<V>(m: Entries<V>, k: Object): Result<UInt32> {
    if k !in m || m[k].Null? then Err(NotFound)
    else if !m[k].Number? then Err(InvalidCast)
    else Ok(ToUInt32(m[k].n))
  }

  /** The second look at an entry, through `GetEntry`: a missing entry counts as 0. */
  function CompareEntry<V>(m: Entries<V>, k: Object, put: UInt32, valSum: Stored<V> -> Result<UInt32>): Option<Error> {
    var sum := if k in m then valSum(m[k]) else Ok(0);
    if sum.Err? then Some(sum.error) else if sum.value != put then Some(AssertionFailed) else None
  }

  /** The first thing that goes wrong at index `i`, if any. */
  function CheckEntry<V>(m: Entries<V>, keys: seq<Object>, i: nat, count: nat,
                         keySum: Object -> Result<UInt32>, valSum: Stored<V> -> Result<UInt32>): Option<Error>
  {
    if i >= |keys| then None
    else if keys[i] !in m || m[keys[i]].Null? then Some(NotFound)
    else
      var k := keys[i];
      var keyed, putKey := keySum(k), ReadSum(m, KeySumKey(i));
      if keyed.Err? then Some(keyed.error)
      else if putKey.Err? then Some(putKey.error)
      else if putKey.value != keyed.value then Some(AssertionFailed)
      else if i >= count then Some(IndexOutOfRange)
      else
        var sum, putVal := valSum(m[k]), ReadSum(m, ValSumKey(i));
        if sum.Err? then Some(sum.error)
        else if putVal.Err? then Some(putVal.error)
        else if putVal.value != sum.value then Some(AssertionFailed)
        else None
  }

  /** The first error among the first `n` checks. */
  function FirstError(check: nat -> Option<Error>, n: nat): Option<Error> {
    if n == 0 then None
    else
      var earlier := FirstError(check, n - 1);
      if earlier.Some? then earlier else check(n - 1)
  }

  lemma {:induction false} NoErrors(check: nat -> Option<Error>, n: nat)
    ensures FirstError(check, n).None? <==> forall i: nat :: i < n ==> check(i).None?
  {
    if n > 0 {
      NoErrors(check, n - 1);
    }
  }

  /** Later checks do not change the first error. */
  lemma {:induction false} FirstErrorStops(check: nat -> Option<Error>, i: nat, n: nat)
    requires i <= n
    ensures FirstError(check, i).Some? ==> FirstError(check, n) == FirstError(check, i)
  {
    if i < n {
      FirstErrorStops(check, i, n - 1);
    }
  }

  function Checks<V>(m: Entries<V>, keys: seq<Object>, count: nat,
                     keySum: Object -> Result<UInt32>, valSum: Stored<V> -> Result<UInt32>): nat -> Option<Error>
  {
    (i: nat) => CheckEntry(m, keys, i, count, keySum, valSum)
  }

  function Verify<V>(m: Entries<V>, keys: seq<Object>, n: nat, count: nat,
                     keySum: Object -> Result<UInt32>, valSum: Stored<V> -> Result<UInt32>): Option<Error>
  {
    FirstError(Checks(m, keys, count, keySum, valSum), n)
  }

  // ----- What a passing entry looks like, from the region alone -----

  /** The region holds a number under the key, and cast back it is this checksum. */
  ghost predicate Records<V>(m: Entries<V>, k: Object, sum: UInt32) {
    k in m && m[k].Number? && ToUInt32(m[k].n) == sum
  }

  /** The region vouches for index `i`: its key holds a value that is not null, both
      checksums are recorded under their names, and there is a value of that index. */
  ghost predicate Vouched<V>(m: Entries<V>, key: Object, i: nat, count: nat,
                             keySum: Object -> Result<UInt32>, valSum: Stored<V> -> Result<UInt32>)
  {
    && key in m && m[key] != Null
    && keySum(key).Ok? && Records(m, Text("KeyChecksum:" + Digits(i)), keySum(key).value)
    && i < count
    && valSum(m[key]).Ok? && Records(m, Text("ValChecksum:" + Digits(i)), valSum(m[key]).value)
  }

  /** Why a recorded checksum does not do: nothing there, no number, or another number. */
  ghost predicate Unrecorded<V>(m: Entries<V>, k: Object, sum: UInt32, e: Error) {
    || (e == NotFound && (k !in m || m[k] == Null))
    || (e == InvalidCast && k in m && m[k].Other?)
    || (e == AssertionFailed && k in m && m[k].Number? && ToUInt32(m[k].n) != sum)
  }

  /** Why the region does not vouch for index `i`: the first of the conditions that fails. */
  ghost predicate Refused<V>(m: Entries<V>, key: Object, i: nat, count: nat,
                             keySum: Object -> Result<UInt32>, valSum: Stored<V> -> Result<UInt32>, e: Error)
  {
    if key !in m || m[key] == Null then e == NotFound
    else if keySum(key).Err? then keySum(key) == Err(e)
    else if !Records(m, Text("KeyChecksum:" + Digits(i)), keySum(key).value)
      then Unrecorded(m, Text("KeyChecksum:" + Digits(i)), keySum(key).value, e)
    else if i >= count then e == IndexOutOfRange
    else if valSum(m[key]).Err? then valSum(m[key]) == Err(e)
    else Unrecorded(m, Text("ValChecksum:" + Digits(i)), valSum(m[key]).value, e)
  }

  lemma ReadSumRecords<V>(m: Entries<V>, k: Object, sum: UInt32)
    ensures ReadSum(m, k) == Ok(sum) <==> Records(m, k, sum)
    ensures ReadSum(m, k).Err? ==> Unrecorded(m, k, sum, ReadSum(m, k).error)
    ensures ReadSum(m, k).Ok? && ReadSum(m, k).value != sum ==> Unrecorded(m, k, sum, AssertionFailed)
  {
  }

  lemma CheckIsVouched<V>(m: Entries<V>, keys: seq<Object>, i: nat, count: nat,
                          keySum: Object -> Result<UInt32>, valSum: Stored<V> -> Result<UInt32>)
    requires i < |keys|
    ensures var check := CheckEntry(m, keys, i, count, keySum, valSum);
            && (check.None? <==> Vouched(m, keys[i], i, count, keySum, valSum))
            && (check.Some? ==> Refused(m, keys[i], i, count, keySum, valSum, check.value))
  {
    var k := keys[i];
    if k in m && m[k] != Null {
      if keySum(k).Ok? {
        ReadSumRecords(m, KeySumKey(i), keySum(k).value);
      }
      if valSum(m[k]).Ok? {
        ReadSumRecords(m, ValSumKey(i), valSum(m[k]).value);
      }
    }
  }

  /** The first error belongs to the first index that has one. */
  lemma {:induction false} FirstErrorAt(check: nat -> Option<Error>, n: nat) returns (i: nat)
    requires FirstError(check, n).Some?
    ensures i < n && check(i) == FirstError(check, n) && forall j: nat :: j < i ==> check(j).None?
  {
    if FirstError(check, n - 1).Some? {
      i := FirstErrorAt(check, n - 1);
    } else {
      i := n - 1;
      NoErrors(check, n - 1);
    }
  }

  /** Index `i` is the first the region does not vouch for. */
  ghost predicate RefusedFirst<V>(m: Entries<V>, keys: seq<Object>, i: nat, count: nat,
                                  keySum: Object -> Result<UInt32>, valSum: Stored<V> -> Result<UInt32>, e: Error)
  {
    && i < |keys| && !Vouched(m, keys[i], i, count, keySum, valSum) && Refused(m, keys[i], i, count, keySum, valSum, e)
    && forall j :: 0 <= j < i ==> Vouched(m, keys[j], j, count, keySum, valSum)
  }

  /** On any region the verification finds nothing exactly when the region vouches for every
      index; otherwise it reports why it does not vouch for the first one. */
  lemma VerifyDecided<V>(m: Entries<V>, keys: seq<Object>, count: nat,
                         keySum: Object -> Result<UInt32>, valSum: Stored<V> -> Result<UInt32>)
    ensures var found := Verify(m, keys, |keys|, count, keySum, valSum);
            && (found.None? <==> forall i :: 0 <= i < |keys| ==> Vouched(m, keys[i], i, count, keySum, valSum))
            && (found.Some? ==> exists i: nat :: RefusedFirst(m, keys, i, count, keySum, valSum, found.value))
  {
    var check, n := Checks(m, keys, count, keySum, valSum), |keys|;
    forall i: nat | i < n
      ensures check(i).None? <==> Vouched(m, keys[i], i, count, keySum, valSum)
      ensures check(i).Some? ==> Refused(m, keys[i], i, count, keySum, valSum, check(i).value)
    {
      CheckIsVouched(m, keys, i, count, keySum, valSum);
    }
    NoErrors(check, n);
    if FirstError(check, n).Some? {
      var i := FirstErrorAt(check, n);
      assert RefusedFirst(m, keys, i, count, keySum, valSum, check(i).value);
    }
  }

  // ----- The protocol -----

  /** The region after one client's three rounds of puts. */
  function AfterPuts<V>(m: Entries<V>, keys: seq<Object>, values: seq<Stored<V>>, keySums: seq<UInt32>, valSums: seq<UInt32>): Entries<V>
    requires |keys| == |values| == |keySums| == |valSums|
  {
    PutSums(PutSums(PutAll(m, keys, values, |keys|), KeySumKey, keySums, |keySums|), ValSumKey, valSums, |valSums|)
  }

  lemma AtInjective()
    ensures forall a: nat, b: nat :: KeySumKey(a) == KeySumKey(b) ==> a == b
    ensures forall a: nat, b: nat :: ValSumKey(a) == ValSumKey(b) ==> a == b
  {
    forall a: nat, b: nat | KeySumKey(a) == KeySumKey(b) ensures a == b {
      SumKeysInjective(KEY_CHECKSUM, a, b);
    }
    forall a: nat, b: nat | ValSumKey(a) == ValSumKey(b) ensures a == b {
      SumKeysInjective(VAL_CHECKSUM, a, b);
    }
  }

  /** What the other client finds at index `i`, whatever the region held before. */
  lemma AfterPutsAt<V>(m: Entries<V>, keys: seq<Object>, values: seq<Stored<V>>, keySums: seq<UInt32>, valSums: seq<UInt32>, i: nat)
    requires i < |keys| == |values| == |keySums| == |valSums| && !Reserved(keys[i])
    ensures var r := AfterPuts(m, keys, values, keySums, valSums);
            && keys[i] in r && r[keys[i]] == values[Last(keys, |keys|, keys[i])]
            && ReadSum(r, KeySumKey(i)) == Ok(keySums[i])
            && ReadSum(r, ValSumKey(i)) == Ok(valSums[i])
  {
    AtInjective();
    var n := |keys|;
    var data := PutAll(m, keys, values, n);
    var withKeys := PutSums(data, KeySumKey, keySums, n);
    forall j: nat ensures KeySumKey(j) != keys[i] && ValSumKey(j) != keys[i] && ValSumKey(j) != KeySumKey(i) {
      SumKeysApart(j, j);
      SumKeysApart(i, j);
    }
    PutAllAt(m, keys, values, n, keys[i]);
    PutSumsElsewhere(data, KeySumKey, keySums, n, keys[i]);
    PutSumsElsewhere(withKeys, ValSumKey, valSums, n, keys[i]);
    PutSumsAt(data, KeySumKey, keySums, n, i);
    PutSumsElsewhere(withKeys, ValSumKey, valSums, n, KeySumKey(i));
    PutSumsAt(withKeys, ValSumKey, valSums, n, i);
    CastRoundTrip(keySums[i]);
    CastRoundTrip(valSums[i]);
  }

  /** The checksums a client holds are those of its keys and values. */
  ghost predicate Summed<V>(keys: seq<Object>, values: seq<Stored<V>>, keySums: seq<UInt32>, valSums: seq<UInt32>,
                            keySum: Object -> Result<UInt32>, valSum: Stored<V> -> Result<UInt32>)
  {
    && |keys| == |values| == |keySums| == |valSums|
    && (forall i :: 0 <= i < |keys| ==> keySum(keys[i]) == Ok(keySums[i]) && valSum(values[i]) == Ok(valSums[i]))
  }

  /** Index `i` can be verified: its key holds a value with the checksum recorded for it. */
  ghost predicate Agrees<V>(keys: seq<Object>, values: seq<Stored<V>>, valSums: seq<UInt32>, i: nat)
    requires i < |keys| == |values| == |valSums|
  {
    var j := Last(keys, |keys|, keys[i]);
    j >= 0 && values[j] != Null && valSums[j] == valSums[i]
  }

  lemma CheckAfterPuts<V>(m: Entries<V>, keys: seq<Object>, values: seq<Stored<V>>, keySums: seq<UInt32>, valSums: seq<UInt32>,
                          keySum: Object -> Result<UInt32>, valSum: Stored<V> -> Result<UInt32>, i: nat)
    requires Summed(keys, values, keySums, valSums, keySum, valSum) && i < |keys| && !Reserved(keys[i])
    ensures CheckEntry(AfterPuts(m, keys, values, keySums, valSums), keys, i, |keys|, keySum, valSum).None?
            <==> Agrees(keys, values, valSums, i)
  {
    AfterPutsAt(m, keys, values, keySums, valSums, i);
  }

  /** For any keys outside the reserved names, any values and any earlier contents, the
      verifying client passes exactly when every key's last value is not null and has
      the checksum of every value stored under that key. */
  lemma VerifyAfterPuts<V>(m: Entries<V>, keys: seq<Object>, values: seq<Stored<V>>, keySums: seq<UInt32>, valSums: seq<UInt32>,
                           keySum: Object -> Result<UInt32>, valSum: Stored<V> -> Result<UInt32>)
    requires Summed(keys, values, keySums, valSums, keySum, valSum)
    requires forall i :: 0 <= i < |keys| ==> !Reserved(keys[i])
    ensures Verify(AfterPuts(m, keys, values, keySums, valSums), keys, |keys|, |keys|, keySum, valSum).None? <==>
            forall i :: 0 <= i < |keys| ==> Agrees(keys, values, valSums, i)
  {
    var r, n := AfterPuts(m, keys, values, keySums, valSums), |keys|;
    forall i: nat | i < n
      ensures Checks(r, keys, n, keySum, valSum)(i).None? <==> Agrees(keys, values, valSums, i)
    {
      CheckAfterPuts(m, keys, values, keySums, valSums, keySum, valSum, i);
    }
    NoErrors(Checks(r, keys, n, keySum, valSum), n);
  }

  ghost predicate Generated(keys: seq<Object>, kind: Kind, maxSize: int, base: int) {
    && |keys| <= MaxKeys(kind)
    && (forall i :: 0 <= i < |keys| ==> InitKey(kind, i, maxSize, base) == Ok(keys[i]))
  }

  /** How many keys `InitKeys` makes. */
  function KeyCount(kind: Kind, numKeys: int): (n: int)
    ensures n <= numKeys && n <= MaxKeys(kind) && (n == numKeys || n == MaxKeys(kind))
  {
    if numKeys > MaxKeys(kind) then MaxKeys(kind) else numKeys
  }

  /** Every key can be made and has a checksum. */
  ghost predicate KeysWork(kind: Kind, n: int, maxSize: int, base: int, keySum: Object -> Result<UInt32>) {
    forall i :: 0 <= i < n ==> InitKey(kind, i, maxSize, base).Ok? && keySum(InitKey(kind, i, maxSize, base).value).Ok?
  }

  /** Every drawn value has a checksum. */
  ghost predicate ValuesWork<V>(random: nat -> Stored<V>, n: int, valSum: Stored<V> -> Result<UInt32>) {
    forall i: nat :: i < n ==> valSum(random(i)).Ok?
  }

  /** The first `i` keys and checksums are those of the first `i` indices; the later
      checksums are still 0. */
  ghost predicate Keyed(keys: seq<Object>, sums: seq<UInt32>, kind: Kind, maxSize: int, base: int,
                        keySum: Object -> Result<UInt32>, i: nat)
  {
    && i <= |keys| == |sums|
    && (forall j :: 0 <= j < i ==> InitKey(kind, j, maxSize, base) == Ok(keys[j]) && keySum(keys[j]) == Ok(sums[j]))
    && (forall j :: i <= j < |sums| ==> sums[j] == 0)
  }

  /** The first `i` values are the drawn ones, with their checksums; the later ones are
      still null and 0. */
  ghost predicate Drawn<V>(values: seq<Stored<V>>, sums: seq<UInt32>, random: nat -> Stored<V>,
                           valSum: Stored<V> -> Result<UInt32>, i: nat)
  {
    && i <= |values| == |sums|
    && (forall j :: 0 <= j < i ==> values[j] == random(j) && valSum(values[j]) == Ok(sums[j]))
    && (forall j :: i <= j < |sums| ==> values[j] == Null && sums[j] == 0)
  }

  /** The type is not registered, or the checksum of the value cannot be computed. */
  ghost predicate ValueFails<V>(registered: bool, v: Stored<V>, valSum: Stored<V> -> Result<UInt32>, e: Error) {
    if registered then valSum(v) == Err(e) else e == NullReference
  }

  /** The key of an index cannot be made, or its checksum cannot be computed. */
  ghost predicate KeyFails(kind: Kind, i: int, maxSize: int, base: int, keySum: Object -> Result<UInt32>, e: Error) {
    var key := InitKey(kind, i, maxSize, base);
    key == Err(e) || (key.Ok? && keySum(key.value) == Err(e))
  }

  lemma GeneratedDistinct(keys: seq<Object>, kind: Kind, maxSize: int, base: int)
    requires Generated(keys, kind, maxSize, base) && (kind == KFloat ==> |keys| <= EXACT_FLOAT + 1)
    ensures forall i :: 0 <= i < |keys| ==> Last(keys, |keys|, keys[i]) == i
  {
    FirstKeysDistinct(kind, |keys|, maxSize, base);
    forall i | 0 <= i < |keys| ensures Last(keys, |keys|, keys[i]) == i {
      var j := Last(keys, |keys|, keys[i]);
      assert j >= i;
      assert j > i ==> InitKey(kind, i, maxSize, base) != InitKey(kind, j, maxSize, base);
    }
  }

  lemma AgreeWithoutNulls<V>(keys: seq<Object>, values: seq<Stored<V>>, valSums: seq<UInt32>)
    requires |keys| == |values| == |valSums| && (forall i :: 0 <= i < |keys| ==> Last(keys, |keys|, keys[i]) == i)
    ensures (forall i :: 0 <= i < |keys| ==> Agrees(keys, values, valSums, i)) <==> Null !in values
  {
    forall i | 0 <= i < |keys| ensures Agrees(keys, values, valSums, i) <==> values[i] != Null {
    }
  }

  /** With generated keys the verifying client passes exactly when no value is null. */
  lemma GeneratedKeysVerify<V>(m: Entries<V>, keys: seq<Object>, values: seq<Stored<V>>, keySums: seq<UInt32>, valSums: seq<UInt32>,
                               keySum: Object -> Result<UInt32>, valSum: Stored<V> -> Result<UInt32>,
                               kind: Kind, maxSize: int, base: int)
    requires Summed(keys, values, keySums, valSums, keySum, valSum)
    requires Generated(keys, kind, maxSize, base) && (kind == KFloat ==> |keys| <= EXACT_FLOAT + 1)
    ensures Verify(AfterPuts(m, keys, values, keySums, valSums), keys, |keys|, |keys|, keySum, valSum).None? <==>
            Null !in values
  {
    forall i | 0 <= i < |keys| ensures !Reserved(keys[i]) {
      DataKeysNotReserved(kind, i, maxSize, base);
    }
    GeneratedDistinct(keys, kind, maxSize, base);
    AgreeWithoutNulls(keys, values, valSums);
    VerifyAfterPuts(m, keys, values, keySums, valSums, keySum, valSum);
  }

  // ----- The clients -----

  class Region<V> {
    var entries: Entries<V>
  }

  class Client<V> {
    const keySum: Object -> Result<UInt32>
    const valSum: Stored<V> -> Result<UInt32>
    var region: Region?<V>
    var keys: array?<Object>
    var keyCksums: array?<UInt32>
    var values: array?<Stored<V>>
    var valCksums: array?<UInt32>

    constructor (keySum: Object -> Result<UInt32>, valSum: Stored<V> -> Result<UInt32>, region: Region<V>)
      ensures this.keySum == keySum && this.valSum == valSum && this.region == region
      ensures keys == null && keyCksums == null && values == null && valCksums == null
    {
      this.keySum, this.valSum, this.region := keySum, valSum, region;
      keys, keyCksums, values, valCksums := null, null, null, null;
    }

    /** The first indices of the type, at most `MaxKeys` of them, and their checksums. The
        assertion about a type that is not a key type needs the name of the type. */
    method InitKeys(kinds: map<nat, Kind>, named: set<nat>, typeId: nat, numKeys: int, maxSize: int, base: int)
      returns (r: Result<nat>)
      modifies `keys, `keyCksums
      ensures numKeys <= 0 ==> r == Err(AssertionFailed) && unchanged(this)
      ensures numKeys > 0 && typeId !in kinds ==>
                r == Err(if typeId in named then AssertionFailed else NullReference) && unchanged(this)
      ensures numKeys > 0 && typeId in kinds ==>
                var kind := kinds[typeId];
                var n := KeyCount(kind, numKeys);
                && (r.Ok? <==> KeysWork(kind, n, maxSize, base, keySum))
                && keys != null && keyCksums != null && fresh(keys) && fresh(keyCksums)
                && keys.Length == keyCksums.Length == n
                && (r.Ok? ==> r.value == n && Keyed(keys[..], keyCksums[..], kind, maxSize, base, keySum, n))
                && (r.Err? ==> exists i :: 0 <= i < n && Keyed(keys[..], keyCksums[..], kind, maxSize, base, keySum, i)
                                           && KeyFails(kind, i, maxSize, base, keySum, r.error))
    {
      if numKeys <= 0 {
        return Err(AssertionFailed);
      }
      if typeId !in kinds {
        return Err(if typeId in named then AssertionFailed else NullReference);
      }
      var kind := kinds[typeId];
      var n := KeyCount(kind, numKeys);
      var objects := new Object[n](_ => Bool(false));
      var sums := new UInt32[n](_ => 0);
      keys, keyCksums := objects, sums;
      for i := 0 to n
        invariant keys == objects && keyCksums == sums && fresh(objects) && fresh(sums)
        invariant Keyed(objects[..], sums[..], kind, maxSize, base, keySum, i)
      {
        var key := InitKey(kind, i, maxSize, base);
        if key.Err? {
          return Err(key.error);
        }
        var sum := keySum(key.value);
        if sum.Err? {
          return Err(sum.error);
        }
        sums[i] := sum.value;
        objects[i] := key.value;
      }
      r := Ok(n);
    }

    /** Values chosen by the environment, and their checksums. */
    method InitValues(types: set<nat>, typeId: nat, numValues: int, random: nat -> Stored<V>) returns (r: Option<Error>)
      modifies `values, `valCksums
      ensures numValues <= 0 ==> r == Some(AssertionFailed) && unchanged(this)
      ensures numValues > 0 ==>
                && (r.None? <==> typeId in types && ValuesWork(random, numValues, valSum))
                && values != null && valCksums != null && fresh(values) && fresh(valCksums)
                && values.Length == valCksums.Length == numValues
                && (r.None? ==> Drawn(values[..], valCksums[..], random, valSum, numValues))
                && (r.Some? ==> exists i :: 0 <= i < numValues && Drawn(values[..], valCksums[..], random, valSum, i)
                                            && ValueFails(typeId in types, random(i), valSum, r.value))
    {
      if numValues <= 0 {
        return Some(AssertionFailed);
      }
      var objects: array<Stored<V>> := new Stored<V>[numValues](_ => Null);
      var sums := new UInt32[numValues](_ => 0);
      values, valCksums := objects, sums;
      for i := 0 to numValues
        invariant values == objects && valCksums == sums && fresh(objects) && fresh(sums)
        invariant i > 0 ==> typeId in types
        invariant Drawn(objects[..], sums[..], random, valSum, i)
      {
        if typeId !in types {
          return Some(NullReference);
        }
        var sum := valSum(random(i));
        if sum.Err? {
          return Some(sum.error);
        }
        sums[i] := sum.value;
        objects[i] := random(i);
      }
      r := None;
    }

    /** Stores the pairs in order, up to the end of the shorter array. */
    method DoPuts() returns (r: Option<Error>)
      modifies region
      ensures keys == null || values == null || region == null ==>
                r == Some(AssertionFailed) && (region != null ==> unchanged(region))
      ensures keys != null && values != null && region != null ==>
                var n := if keys.Length <= values.Length then keys.Length else values.Length;
                && region.entries == PutAll(old(region.entries), keys[..], values[..], n)
                && r == if 0 < keys.Length <= values.Length then None else Some(IndexOutOfRange)
    {
      if keys == null || values == null || region == null {
        return Some(AssertionFailed);
      }
      for i := 0 to keys.Length
        invariant i <= values.Length
        invariant region.entries == PutAll(old(region.entries), keys[..], values[..], i)
      {
        if i >= values.Length {
          return Some(IndexOutOfRange);
        }
        var key, val := keys[i], values[i];
        if val != Null {
          region.entries := region.entries[key := val];
        } else {
          region.entries := region.entries - {key};
          region.entries := region.entries[key := val];
          assert region.entries == PutAll(old(region.entries), keys[..], values[..], i)[key := val];
        }
      }
      r := if keys.Length == 0 then Some(IndexOutOfRange) else None;
    }

    /** Stores the checksums of the keys; the final log line needs keys and values. */
    method DoKeyChecksumPuts() returns (r: Option<Error>)
      modifies region
      ensures keyCksums == null || region == null ==> r == Some(AssertionFailed) && (region != null ==> unchanged(region))
      ensures keyCksums != null && region != null ==>
                && region.entries == PutSums(old(region.entries), KeySumKey, keyCksums[..], keyCksums.Length)
                && r == LogTypes()
    {
      if keyCksums == null || region == null {
        return Some(AssertionFailed);
      }
      for i := 0 to keyCksums.Length
        invariant region.entries == PutSums(old(region.entries), KeySumKey, keyCksums[..], i)
      {
        region.entries := region.entries[KeySumKey(i) := Number(ToInt32(keyCksums[i]))];
      }
      r := LogTypes();
    }

    method DoValChecksumPuts() returns (r: Option<Error>)
      modifies region
      ensures valCksums == null || region == null ==> r == Some(AssertionFailed) && (region != null ==> unchanged(region))
      ensures valCksums != null && region != null ==>
                && region.entries == PutSums(old(region.entries), ValSumKey, valCksums[..], valCksums.Length)
                && r == LogTypes()
    {
      if valCksums == null || region == null {
        return Some(AssertionFailed);
      }
      for i := 0 to valCksums.Length
        invariant region.entries == PutSums(old(region.entries), ValSumKey, valCksums[..], i)
      {
        region.entries := region.entries[ValSumKey(i) := Number(ToInt32(valCksums[i]))];
      }
      r := LogTypes();
    }

    /** The closing log line reads the first key and the first value. */
    function LogTypes(): (r: Option<Error>)
      reads this
      ensures r.None? <==> keys != null && values != null && 0 < keys.Length && 0 < values.Length
      ensures r.Some? ==> r == Some(if keys == null || (0 < keys.Length && values == null) then NullReference else IndexOutOfRange)
    {
      if keys == null then Some(NullReference)
      else if keys.Length == 0 then Some(IndexOutOfRange)
      else if values == null then Some(NullReference)
      else if values.Length == 0 then Some(IndexOutOfRange)
      else None
    }

    /** Reads every entry back and compares it with its checksums. */
    method DoGetsVerify() returns (r: Option<Error>)
      ensures keys == null ==> r == Some(NullReference)
      ensures keys != null && (values == null || region == null) ==> r == Some(AssertionFailed)
      ensures keys != null && values != null && region != null ==>
                var found := Verify(region.entries, keys[..], keys.Length, values.Length, keySum, valSum);
                r == if found.Some? then found else LogTypes()
      ensures keys != null && values != null && region != null && keys.Length == 0 ==> r == Some(IndexOutOfRange)
      ensures keys != null && values != null && region != null && keys.Length > 0 ==>
                var m, n := region.entries, values.Length;
                && (r.None? <==> forall i :: 0 <= i < keys.Length ==> Vouched(m, keys[..][i], i, n, keySum, valSum))
                && (r.Some? ==> exists i: nat :: RefusedFirst(m, keys[..], i, n, keySum, valSum, r.value))
    {
      if keys == null {
        return Some(NullReference);
      }
      if values == null || region == null {
        return Some(AssertionFailed);
      }
      var m := region.entries;
      VerifyDecided(m, keys[..], values.Length, keySum, valSum);
      for i := 0 to keys.Length
        invariant Verify(m, keys[..], i, values.Length, keySum, valSum).None?
      {
        FirstErrorStops(Checks(m, keys[..], values.Length, keySum, valSum), i + 1, keys.Length);
        var key := keys[i];
        if key !in m || m[key].Null? {
          return Some(NotFound);
        }
        var actual := m[key];
        var keyed := keySum(key);
        if keyed.Err? {
          return Some(keyed.error);
        }
        var put := ReadSum(m, KeySumKey(i));
        if put.Err? {
          return Some(put.error);
        }
        if keyed.value != put.value {
          return Some(AssertionFailed);
        }
        if i >= values.Length {
          return Some(IndexOutOfRange);
        }
        var sum := valSum(actual);
        if sum.Err? {
          return Some(sum.error);
        }
        put := ReadSum(m, ValSumKey(i));
        if put.Err? {
          return Some(put.error);
        }
        if sum.value != put.value {
          return Some(AssertionFailed);
        }
        r := CompareEntry(m, key, put.value, valSum);
        if r.Some? {
          return;
        }
      }
      r := LogTypes();
    }
  }

  // ----- Both directions -----

  /** A client whose `InitKeys` and `InitValues` have succeeded. */
  ghost predicate Ready<V>(c: Client<V>, region: Region<V>, kind: Kind, maxSize: int, base: int)
    reads c, c.keys, c.keyCksums, c.values, c.valCksums
  {
    && c.region == region && c.keys != null && c.keyCksums != null && c.values != null && c.valCksums != null
    && 0 < c.keys.Length && (kind == KFloat ==> c.keys.Length <= EXACT_FLOAT + 1)
    && Generated(c.keys[..], kind, maxSize, base)
    && Summed(c.keys[..], c.values[..], c.keyCksums[..], c.valCksums[..], c.keySum, c.valSum)
  }

  /** One client's puts. */
  method PutPhase<V>(writer: Client<V>, region: Region<V>, kind: Kind, maxSize: int, base: int) returns (r: Option<Error>)
    requires Ready(writer, region, kind, maxSize, base)
    modifies region
    ensures r.None?
    ensures region.entries == AfterPuts(old(region.entries), writer.keys[..], writer.values[..],
                                        writer.keyCksums[..], writer.valCksums[..])
  {
    r := writer.DoPuts();
    if r.None? {
      r := writer.DoKeyChecksumPuts();
      if r.None? {
        r := writer.DoValChecksumPuts();
      }
    }
  }

  /** The verifying path of the protocol: the first client writes and the second reads,
      then the other way round. `between` is whatever the invalidation and the query in
      the middle leave in the region. */
  method PutGetSteps<V>(client1: Client<V>, client2: Client<V>, region: Region<V>, between: Entries<V>,
                        kind: Kind, maxSize: int, base: int) returns (r: Option<Error>)
    requires Ready(client1, region, kind, maxSize, base) && Ready(client2, region, kind, maxSize, base)
    requires client1.keys[..] == client2.keys[..]
    requires client1.keySum == client2.keySum && client1.valSum == client2.valSum
    modifies region
    ensures r.None? <==> Null !in client1.values[..] && Null !in client2.values[..]
  {
    r := PutPhase(client1, region, kind, maxSize, base);
    if r.Some? {
      return;
    }
    GeneratedKeysVerify(old(region.entries), client1.keys[..], client1.values[..], client1.keyCksums[..],
                        client1.valCksums[..], client1.keySum, client1.valSum, kind, maxSize, base);
    r := client2.DoGetsVerify();
    if r.Some? {
      return;
    }
    region.entries := between;
    r := PutPhase(client2, region, kind, maxSize, base);
    if r.Some? {
      return;
    }
    GeneratedKeysVerify(between, client2.keys[..], client2.values[..], client2.keyCksums[..],
                        client2.valCksums[..], client2.keySum, client2.valSum, kind, maxSize, base);
    r := client1.DoGetsVerify();
  }

  // ----- From the start -----

  function Thrown<T>(r: Result<T>): Option<Error> {
    if r.Err? then Some(r.error) else None
  }

  lemma SameKeys(a: seq<Object>, b: seq<Object>, x: seq<UInt32>, y: seq<UInt32>,
                 kind: Kind, maxSize: int, base: int, keySum: Object -> Result<UInt32>)
    requires |a| == |b| && Keyed(a, x, kind, maxSize, base, keySum, |a|) && Keyed(b, y, kind, maxSize, base, keySum, |b|)
    ensures a == b
  {
    assert forall i :: 0 <= i < |a| ==> Ok(a[i]) == InitKey(kind, i, maxSize, base) == Ok(b[i]);
  }

  lemma DrawnNulls<V>(values: seq<Stored<V>>, sums: seq<UInt32>, random: nat -> Stored<V>, valSum: Stored<V> -> Result<UInt32>)
    requires Drawn(values, sums, random, valSum, |values|)
    ensures Null !in values <==> forall i: nat :: i < |values| ==> random(i) != Null
  {
    assert forall i: nat :: i < |values| ==> values[i] == random(i);
  }

  /** Keys and values for two clients; it succeeds exactly when all of them work. */
  method SetUp<V>(client1: Client<V>, client2: Client<V>, kinds: map<nat, Kind>, types: set<nat>,
                  keyTypeId: nat, valueTypeId: nat, numKeys: int, keySize: int, base: int,
                  random1: nat -> Stored<V>, random2: nat -> Stored<V>) returns (r: Option<Error>)
    requires keyTypeId in kinds && client1 != client2
    requires client1.keySum == client2.keySum && client1.valSum == client2.valSum
    modifies client1, client2
    ensures client1.region == old(client1.region) && client2.region == old(client2.region)
    ensures var n := KeyCount(kinds[keyTypeId], numKeys);
            r.None? <==>
              && numKeys > 0 && KeysWork(kinds[keyTypeId], n, keySize, base, client1.keySum) && valueTypeId in types
              && ValuesWork(random1, n, client1.valSum) && ValuesWork(random2, n, client1.valSum)
    ensures r.None? ==>
              var n := KeyCount(kinds[keyTypeId], numKeys);
              && SetUpOne(client1, kinds[keyTypeId], n, keySize, base, random1)
              && SetUpOne(client2, kinds[keyTypeId], n, keySize, base, random2)
              && fresh(client1.keys) && fresh(client1.keyCksums) && fresh(client1.values) && fresh(client1.valCksums)
              && fresh(client2.keys) && fresh(client2.keyCksums) && fresh(client2.values) && fresh(client2.valCksums)
  {
    var made1 := client1.InitKeys(kinds, types, keyTypeId, numKeys, keySize, base);
    r := Thrown(made1);
    if r.Some? {
      return;
    }
    var made2 := client2.InitKeys(kinds, types, keyTypeId, numKeys, keySize, base);
    r := Thrown(made2);
    if r.Some? {
      return;
    }
    r := client1.InitValues(types, valueTypeId, made2.value, random1);
    if r.Some? {
      return;
    }
    r := client2.InitValues(types, valueTypeId, made2.value, random2);
  }

  /** What one client holds after a successful set-up. */
  ghost predicate SetUpOne<V>(c: Client<V>, kind: Kind, n: int, keySize: int, base: int, random: nat -> Stored<V>)
    reads c, c.keys, c.keyCksums, c.values, c.valCksums
  {
    && c.keys != null && c.keyCksums != null && c.values != null && c.valCksums != null
    && 0 < n == c.keys.Length == c.values.Length
    && Keyed(c.keys[..], c.keyCksums[..], kind, keySize, base, c.keySum, n)
    && Drawn(c.values[..], c.valCksums[..], random, c.valSum, n)
  }

  lemma SetUpIsReady<V>(c: Client<V>, region: Region<V>, kind: Kind, n: int, keySize: int, base: int, random: nat -> Stored<V>)
    requires SetUpOne(c, kind, n, keySize, base, random) && c.region == region && n <= MaxKeys(kind)
    requires kind == KFloat ==> n <= EXACT_FLOAT + 1
    ensures Ready(c, region, kind, keySize, base)
  {
  }

  /** One pair of key type and value type, from two new clients: both make the same keys,
      draw their own values, and run the protocol in both directions over a region with
      any contents. The test passes exactly when the keys and values can be set up and no
      value is null; with float keys, as long as all of them are exact. */
  method TestKeyValuePair<V>(region: Region<V>, between: Entries<V>, keySum: Object -> Result<UInt32>,
                             valSum: Stored<V> -> Result<UInt32>, kinds: map<nat, Kind>, types: set<nat>,
                             keyTypeId: nat, valueTypeId: nat, numKeys: int, keySize: int, base: int,
                             random1: nat -> Stored<V>, random2: nat -> Stored<V>) returns (r: Option<Error>)
    requires keyTypeId in kinds && (kinds[keyTypeId] == KFloat ==> numKeys <= EXACT_FLOAT + 1)
    modifies region
    ensures var n := KeyCount(kinds[keyTypeId], numKeys);
            r.None? <==>
              && numKeys > 0 && KeysWork(kinds[keyTypeId], n, keySize, base, keySum) && valueTypeId in types
              && ValuesWork(random1, n, valSum) && ValuesWork(random2, n, valSum)
              && forall i: nat :: i < n ==> random1(i) != Null && random2(i) != Null
  {
    var client1 := new Client(keySum, valSum, region);
    var client2 := new Client(keySum, valSum, region);
    r := SetUp(client1, client2, kinds, types, keyTypeId, valueTypeId, numKeys, keySize, base, random1, random2);
    if r.Some? {
      return;
    }
    ghost var kind, n := kinds[keyTypeId], KeyCount(kinds[keyTypeId], numKeys);
    SetUpIsReady(client1, region, kind, n, keySize, base, random1);
    SetUpIsReady(client2, region, kind, n, keySize, base, random2);
    SameKeys(client1.keys[..], client2.keys[..], client1.keyCksums[..], client2.keyCksums[..], kind, keySize, base, keySum);
    DrawnNulls(client1.values[..], client1.valCksums[..], random1, valSum);
    DrawnNulls(client2.values[..], client2.valCksums[..], random2, valSum);
    r := PutGetSteps(client1, client2, region, between, kinds[keyTypeId], keySize, base);
  }
}
