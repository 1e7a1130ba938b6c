/** The nested loops by which the hash-map wrapper fills a dictionary with one entry per
    pair of key type and value type, and the proof that it never adds a key twice.
 */
module HashMapKeys {
  import opened Dates
  import opened Keys
  import opened MachineIntegers
  import opened Wrappers

  // Type ids are the serialization codes with the top bit set.
  const BOOLEAN := 0x8000_0000 + 53
  const ASCII_STRING_HUGE := 0x8000_0000 + 88
  const STRING_HUGE := 0x8000_0000 + 89
  const NULL_STRING := 0x8000_0000 + 69
  const CONTAINERS: set<int> := {
    0x8000_0000 + 52, 0x8000_0000 + 71, 0x8000_0000 + 65, 0x8000_0000 + 74, 0x8000_0000 + 67,
    0x8000_0000 + 72, 0x8000_0000 + 70, 0x8000_0000 + 73, 0x8000_0000 + 66}
  const UNHANDLED: set<int> := {0x8000_0000 + 63, 0x8000_0000 + 7, 0x8000_0000 + 8}

  const KEY_SIZE := 16

  predicate IsHuge(id: int) {
    id == ASCII_STRING_HUGE || id == STRING_HUGE
  }

  /** The pairs of types that the loops pass over. */
  predicate Skipped(keyType: int, valueType: int) {
    || (IsHuge(valueType) && keyType != BOOLEAN)
    || (IsHuge(keyType) && valueType != BOOLEAN)
    || valueType == NULL_STRING
  }

  predicate Stored(valueType: int) {
    valueType !in CONTAINERS && valueType !in UNHANDLED
  }

  /** `(int)(keyTypeId << 8)` on a 32-bit unsigned id. */
  function Base(keyType: int): int {
    Wrap(keyType * 0x100, 0x1_0000_0000)
  }

  datatype Entry = Entry(keyType: int, index: nat, valueType: int)

  /** The entries whose keys the inner loop makes: also those whose value type is not
      stored. */
  function Tries(keyType: int, kind: Kind, valueTypes: seq<int>, index: nat): seq<Entry>
    decreases |valueTypes|
  {
    if valueTypes == [] then []
    else if Skipped(keyType, valueTypes[0]) then Tries(keyType, kind, valueTypes[1..], index)
    else if MaxKeys(kind) <= index then []
    else [Entry(keyType, index, valueTypes[0])] + Tries(keyType, kind, valueTypes[1..], index + 1)
  }

  /** An entry whose value type is not stored is made but not added. */
  function Added(e: Entry): seq<Entry> {
    if Stored(e.valueType) then [e] else []
  }

  function StoredOf(tries: seq<Entry>): seq<Entry> {
    if tries == [] then [] else StoredOf(tries[..|tries| - 1]) + Added(tries[|tries| - 1])
  }

  /** What the inner loop adds for one key type. */
  function Row(keyType: int, kind: Kind, valueTypes: seq<int>): seq<Entry> {
    StoredOf(Tries(keyType, kind, valueTypes, 0))
  }

  function AllTries(keyTypes: seq<int>, kinds: map<int, Kind>, valueTypes: seq<int>): seq<Entry>
    requires forall t :: t in keyTypes ==> t in kinds
    decreases |keyTypes|
  {
    if keyTypes == [] then []
    else Tries(keyTypes[0], kinds[keyTypes[0]], valueTypes, 0) + AllTries(keyTypes[1..], kinds, valueTypes)
  }

  function Rows(keyTypes: seq<int>, kinds: map<int, Kind>, valueTypes: seq<int>): seq<Entry>
    requires forall t :: t in keyTypes ==> t in kinds
    decreases |keyTypes|
  {
    if keyTypes == [] then []
    else Row(keyTypes[0], kinds[keyTypes[0]], valueTypes) + Rows(keyTypes[1..], kinds, valueTypes)
  }

  /** `InitKey` with the key size of the generation. */
  function Numbered(base: int): (Kind, int) -> Result<Object> {
    (kind: Kind, x: int) => InitKey(kind, x, KEY_SIZE, base)
  }

  function KeyOf(e: Entry, kinds: map<int, Kind>, number: (Kind, int) -> Result<Object>): Result<Object> {
    if e.keyType in kinds then number(kinds[e.keyType], Base(e.keyType) + e.index) else Err(AssertionFailed)
  }

  /** The registered key types: each kind under one id, whose code below the top byte
      fits 16 bits and is not zero. Float keys must stay among the exact ones. */
  ghost predicate Registered(kinds: map<int, Kind>, numValueTypes: nat) {
    && numValueTypes < 0x7f00_0000
    && (forall t, u :: t in kinds && u in kinds && kinds[t] == kinds[u] ==> t == u)
    && (forall t :: t in kinds ==> 0 <= t < 0x1_0000_0000 && 1 <= t % 0x100_0000 <= 0xffff)
    && (forall t :: t in kinds && kinds[t] == KFloat ==> (t % 0x100_0000) * 0x100 + numValueTypes <= EXACT_FLOAT)
  }

  lemma BaseOfCode(t: int)
    requires 0 <= t < 0x1_0000_0000 && 1 <= t % 0x100_0000 <= 0xffff
    ensures Base(t) == (t % 0x100_0000) * 0x100
  {
    var top, code := t / 0x100_0000, t % 0x100_0000;
    assert t * 0x100 == top * 0x1_0000_0000 + code * 0x100;
  }

  /** An entry that a row can hold. */
  ghost predicate InRow(e: Entry, kinds: map<int, Kind>, numValueTypes: nat) {
    e.keyType in kinds && e.index < MaxKeys(kinds[e.keyType]) && e.index < numValueTypes
  }

  predicate IsString(kind: Kind) {
    kind in {KString, KUnicode, KHugeString, KHugeUnicode}
  }

  /** A string key fills its size, and begins with the character of its type. */
  lemma StringKeyShape(kind: Kind, x: nat, base: int) returns (s: string)
    requires IsString(kind) && x > 0
    ensures InitKey(kind, x, KEY_SIZE, base) == Ok(Text(s))
    ensures |s| == (if kind in {KString, KUnicode} then 16 else 65552)
    ensures s[0] == (if kind in {KString, KHugeString} then LATIN_A else DEVANAGARI_A)
  {
    s := InitKey(kind, x, KEY_SIZE, base).value.s;
  }

  lemma StringKeysApart(k: Kind, l: Kind, x: nat, y: nat, base: int)
    requires k != l && IsString(k) && IsString(l) && x > 0 && y > 0
    ensures InitKey(k, x, KEY_SIZE, base) != InitKey(l, y, KEY_SIZE, base)
  {
    var s := StringKeyShape(k, x, base);
    var t := StringKeyShape(l, y, base);
  }

  /** Keys of different types differ: by their .NET type, or among strings by length and
      first character. */
  lemma KindsApart(k: Kind, l: Kind, x: nat, y: nat, base: int)
    requires k != l && x > 0 && y > 0 && InitKey(k, x, KEY_SIZE, base).Ok?
    ensures InitKey(k, x, KEY_SIZE, base) != InitKey(l, y, KEY_SIZE, base)
  {
    if IsString(k) && IsString(l) {
      StringKeysApart(k, l, x, y, base);
    }
  }

  lemma BaseInRange(kinds: map<int, Kind>, n: nat, t: int)
    requires Registered(kinds, n) && t in kinds
    ensures 0x100 <= Base(t) <= 0xff_ff00
    ensures kinds[t] == KFloat ==> Base(t) + n <= EXACT_FLOAT
  {
    BaseOfCode(t);
  }

  /** Keys of different kinds differ, and so do keys of one kind whose indices are closer
      than its width. */
  ghost predicate Separating(number: (Kind, int) -> Result<Object>) {
    && (forall k, l, x: nat, y: nat :: k != l && x > 0 && y > 0 && number(k, x).Ok? ==> number(k, x) != number(l, y))
    && (forall k, x: nat, y: nat :: x < y < 0x8000_0000 && WithinWidth(k, y - x) && Exact(k, y) && number(k, x).Ok? ==>
          number(k, x) != number(k, y))
  }

  lemma NumberedSeparates(base: int)
    ensures Separating(Numbered(base))
  {
    var number := Numbered(base);
    forall k, l, x: nat, y: nat | k != l && x > 0 && y > 0 && number(k, x).Ok? ensures number(k, x) != number(l, y) {
      KindsApart(k, l, x, y, base);
    }
    forall k, x: nat, y: nat | x < y < 0x8000_0000 && WithinWidth(k, y - x) && Exact(k, y) && number(k, x).Ok?
      ensures number(k, x) != number(k, y)
    {
      InitKeyInjective(k, x, y, KEY_SIZE, base);
    }
  }

  lemma SameTypeApart(e: Entry, f: Entry, kinds: map<int, Kind>, n: nat, number: (Kind, int) -> Result<Object>)
    requires Registered(kinds, n) && InRow(e, kinds, n) && InRow(f, kinds, n) && Separating(number)
    requires e.keyType == f.keyType && e.index < f.index && KeyOf(e, kinds, number).Ok?
    ensures KeyOf(e, kinds, number) != KeyOf(f, kinds, number)
  {
    BaseInRange(kinds, n, e.keyType);
    MaxKeysWithinWidth(kinds[e.keyType], e.index, f.index);
  }

  lemma OtherKind(e: Entry, f: Entry, kinds: map<int, Kind>, n: nat)
    requires Registered(kinds, n) && e.keyType in kinds && f.keyType in kinds && e.keyType != f.keyType
    ensures kinds[e.keyType] != kinds[f.keyType] && Base(e.keyType) > 0 && Base(f.keyType) > 0
  {
    BaseInRange(kinds, n, e.keyType);
    BaseInRange(kinds, n, f.keyType);
  }

  lemma OtherTypeApart(e: Entry, f: Entry, kinds: map<int, Kind>, n: nat, number: (Kind, int) -> Result<Object>)
    requires Registered(kinds, n) && InRow(e, kinds, n) && InRow(f, kinds, n) && Separating(number)
    requires e.keyType != f.keyType && KeyOf(e, kinds, number).Ok?
    ensures KeyOf(e, kinds, number) != KeyOf(f, kinds, number)
  {
    OtherKind(e, f, kinds, n);
  }

  /** Entries of one key type, with indices rising from `low` and below `high`. */
  ghost predicate IsRow(row: seq<Entry>, keyType: int, low: int, high: int) {
    && (forall p :: 0 <= p < |row| ==> row[p].keyType == keyType && low <= row[p].index < high)
    && (forall p, q :: 0 <= p < q < |row| ==> row[p].index < row[q].index)
  }

  lemma RowCons(e: Entry, rest: seq<Entry>, high: int)
    requires IsRow(rest, e.keyType, e.index + 1, high) && e.index < high
    ensures IsRow([e] + rest, e.keyType, e.index, high)
    ensures IsRow(rest, e.keyType, e.index, high)
  {
    var row := [e] + rest;
    assert forall p :: 1 <= p < |row| ==> row[p] == rest[p - 1];
  }

  lemma {:induction false} TriesAreRow(keyType: int, kind: Kind, valueTypes: seq<int>, index: nat, high: int)
    requires high == MaxKeys(kind) || index + |valueTypes| <= high
    ensures IsRow(Tries(keyType, kind, valueTypes, index), keyType, index, high)
    decreases |valueTypes|
  {
    if valueTypes != [] {
      if Skipped(keyType, valueTypes[0]) {
        TriesAreRow(keyType, kind, valueTypes[1..], index, high);
      } else if index < MaxKeys(kind) {
        TriesAreRow(keyType, kind, valueTypes[1..], index + 1, high);
        RowCons(Entry(keyType, index, valueTypes[0]), Tries(keyType, kind, valueTypes[1..], index + 1), high);
      }
    }
  }

  lemma {:induction false} StoredIsTried(tries: seq<Entry>)
    ensures forall e :: e in StoredOf(tries) ==> e in tries
  {
    if tries != [] {
      StoredIsTried(tries[..|tries| - 1]);
    }
  }

  lemma {:induction false} StoredIsRow(tries: seq<Entry>, keyType: int, low: int, high: int)
    requires IsRow(tries, keyType, low, high)
    ensures IsRow(StoredOf(tries), keyType, low, high)
  {
    if tries != [] {
      var n := |tries| - 1;
      var row := StoredOf(tries[..n]);
      StoredIsRow(tries[..n], keyType, low, high);
      StoredIsTried(tries[..n]);
      forall p | 0 <= p < |row| ensures row[p].index < tries[n].index {
        assert row[p] in tries[..n];
      }
    }
  }

  lemma RowEntries(keyType: int, kind: Kind, valueTypes: seq<int>, high: int)
    requires high == MaxKeys(kind) || |valueTypes| <= high
    ensures IsRow(Row(keyType, kind, valueTypes), keyType, 0, high)
  {
    TriesAreRow(keyType, kind, valueTypes, 0, high);
    StoredIsRow(Tries(keyType, kind, valueTypes, 0), keyType, 0, high);
  }

  /** Entries of the given key types, no two with the same type and index. */
  ghost predicate AreRows(rows: seq<Entry>, keyTypes: seq<int>, kinds: map<int, Kind>, n: nat) {
    && (forall p :: 0 <= p < |rows| ==> rows[p].keyType in keyTypes && InRow(rows[p], kinds, n))
    && (forall p, q :: 0 <= p < q < |rows| ==> rows[p].keyType != rows[q].keyType || rows[p].index < rows[q].index)
  }

  lemma JoinRows(row: seq<Entry>, rows: seq<Entry>, keyTypes: seq<int>, kinds: map<int, Kind>, n: nat)
    requires keyTypes != [] && keyTypes[0] in kinds && keyTypes[0] !in keyTypes[1..]
    requires IsRow(row, keyTypes[0], 0, n) && IsRow(row, keyTypes[0], 0, MaxKeys(kinds[keyTypes[0]]))
    requires AreRows(rows, keyTypes[1..], kinds, n)
    ensures AreRows(row + rows, keyTypes, kinds, n)
  {
    var all := row + rows;
    forall p | 0 <= p < |all|
      ensures all[p].keyType in keyTypes && InRow(all[p], kinds, n)
    {
      if p >= |row| {
        assert all[p] == rows[p - |row|];
      }
    }
  }

  lemma {:induction false} RowsEntries(keyTypes: seq<int>, kinds: map<int, Kind>, valueTypes: seq<int>)
    requires forall t :: t in keyTypes ==> t in kinds
    requires Distinct(keyTypes)
    ensures AreRows(Rows(keyTypes, kinds, valueTypes), keyTypes, kinds, |valueTypes|)
    decreases |keyTypes|
  {
    if keyTypes != [] {
      var t := keyTypes[0];
      RowEntries(t, kinds[t], valueTypes, |valueTypes|);
      RowEntries(t, kinds[t], valueTypes, MaxKeys(kinds[t]));
      RowsEntries(keyTypes[1..], kinds, valueTypes);
      JoinRows(Row(t, kinds[t], valueTypes), Rows(keyTypes[1..], kinds, valueTypes), keyTypes, kinds, |valueTypes|);
    }
  }

  /** No two additions of the whole generation make the same key. */
  lemma GeneratedKeysDistinct(keyTypes: seq<int>, kinds: map<int, Kind>, valueTypes: seq<int>, base: int, p: nat, q: nat)
    requires forall t :: t in keyTypes ==> t in kinds
    requires Distinct(keyTypes) && Registered(kinds, |valueTypes|)
    requires p < q < |Rows(keyTypes, kinds, valueTypes)|
    ensures var rows := Rows(keyTypes, kinds, valueTypes);
            KeyOf(rows[p], kinds, Numbered(base)).Ok? ==>
              KeyOf(rows[p], kinds, Numbered(base)) != KeyOf(rows[q], kinds, Numbered(base))
  {
    RowsEntries(keyTypes, kinds, valueTypes);
    NumberedSeparates(base);
    var rows := Rows(keyTypes, kinds, valueTypes);
    RowsApart(rows[p], rows[q], kinds, |valueTypes|, Numbered(base));
  }

  lemma RowsApart(e: Entry, f: Entry, kinds: map<int, Kind>, n: nat, number: (Kind, int) -> Result<Object>)
    requires Registered(kinds, n) && InRow(e, kinds, n) && InRow(f, kinds, n) && Separating(number)
    requires e.keyType == f.keyType ==> e.index < f.index
    ensures KeyOf(e, kinds, number).Ok? ==> KeyOf(e, kinds, number) != KeyOf(f, kinds, number)
  {
    if KeyOf(e, kinds, number).Ok? {
      if e.keyType == f.keyType {
        SameTypeApart(e, f, kinds, n, number);
      } else {
        OtherTypeApart(e, f, kinds, n, number);
      }
    }
  }

  // ----- Filling the dictionary -----

  /** The dictionary holds exactly the keys made from the entries, each with its drawn
      value, and no two entries share a key. */
  ghost predicate Filled<V>(m: map<Object, V>, done: seq<Entry>, make: Entry -> Result<Object>, draw: Entry -> V) {
    && (forall p :: 0 <= p < |done| ==> make(done[p]).Ok? && make(done[p]).value in m && m[make(done[p]).value] == draw(done[p]))
    && (forall k :: k in m ==> exists p :: 0 <= p < |done| && make(done[p]) == Ok(k))
    && |m| == |done|
  }

  ghost predicate NoneTwice(rows: seq<Entry>, make: Entry -> Result<Object>) {
    forall p, q :: 0 <= p < q < |rows| && make(rows[p]).Ok? ==> make(rows[p]) != make(rows[q])
  }

  /** The dictionary after trying the entries one by one, or the first error. */
  function Outcome<V>(tries: seq<Entry>, make: Entry -> Result<Object>, draw: Entry -> V): Result<map<Object, V>> {
    if tries == [] then Ok(map[])
    else
      var earlier := Outcome(tries[..|tries| - 1], make, draw);
      if earlier.Err? then earlier else TryOne(earlier.value, tries[|tries| - 1], make, draw)
  }

  function TryOne<V>(m: map<Object, V>, e: Entry, make: Entry -> Result<Object>, draw: Entry -> V): Result<map<Object, V>> {
    match make(e)
    case Err(error) => Err(error)
    case Ok(k) =>
      if !Stored(e.valueType) then Ok(m)
      else if k in m then Err(DuplicateKey)
      else Ok(m[k := draw(e)])
  }

  lemma FilledStep<V>(m: map<Object, V>, done: seq<Entry>, e: Entry, k: Object, make: Entry -> Result<Object>, draw: Entry -> V)
    requires Filled(m, done, make, draw) && make(e) == Ok(k) && k !in m
    ensures Filled(m[k := draw(e)], done + [e], make, draw)
  {
    var m', done' := m[k := draw(e)], done + [e];
    forall x | x in m'
      ensures exists p :: 0 <= p < |done'| && make(done'[p]) == Ok(x)
    {
      if x == k {
        assert done'[|done|] == e;
      } else {
        var p :| 0 <= p < |done| && make(done[p]) == Ok(x);
        assert done'[p] == done[p];
      }
    }
  }

  /** A dictionary that is made holds exactly the stored entries. */
  lemma {:induction false} OutcomeFilled<V>(tries: seq<Entry>, make: Entry -> Result<Object>, draw: Entry -> V)
    requires Outcome(tries, make, draw).Ok?
    ensures Filled(Outcome(tries, make, draw).value, StoredOf(tries), make, draw)
  {
    if tries != [] {
      var n := |tries| - 1;
      var e, m := tries[n], Outcome(tries[..n], make, draw).value;
      OutcomeFilled(tries[..n], make, draw);
      if Stored(e.valueType) {
        FilledStep(m, StoredOf(tries[..n]), e, make(e).value, make, draw);
      } else {
        assert StoredOf(tries[..n]) + [] == StoredOf(tries[..n]);
      }
    }
  }

  ghost predicate AllMade(tries: seq<Entry>, make: Entry -> Result<Object>) {
    forall e :: e in tries ==> make(e).Ok?
  }

  lemma AllMadeStep(tries: seq<Entry>, make: Entry -> Result<Object>)
    requires tries != []
    ensures AllMade(tries, make) <==> AllMade(tries[..|tries| - 1], make) && make(tries[|tries| - 1]).Ok?
  {
    assert tries == tries[..|tries| - 1] + [tries[|tries| - 1]];
  }

  /** One more stored entry keeps the keys distinct exactly when its key is new. */
  lemma NoneTwiceStep<V>(row: seq<Entry>, e: Entry, m: map<Object, V>, make: Entry -> Result<Object>, draw: Entry -> V)
    requires NoneTwice(row, make) && Filled(m, row, make, draw) && make(e).Ok?
    ensures NoneTwice(row + [e], make) <==> make(e).value !in m
  {
    var rows, k := row + [e], make(e).value;
    assert forall p :: 0 <= p < |row| ==> rows[p] == row[p];
    if k in m {
      var p :| 0 <= p < |row| && make(row[p]) == Ok(k);
      assert make(rows[p]) == make(rows[|row|]);
    } else {
      assert forall p :: 0 <= p < |row| ==> make(rows[p]) != make(e);
    }
  }

  lemma PrefixNoneTwice(rows: seq<Entry>, later: seq<Entry>, make: Entry -> Result<Object>)
    requires NoneTwice(rows + later, make)
    ensures NoneTwice(rows, make)
  {
    var all := rows + later;
    assert forall p :: 0 <= p < |rows| ==> rows[p] == all[p];
  }

  /** A dictionary is made exactly when every key can be made and no two stored ones are
      equal. */
  lemma {:induction false} OutcomeDecided<V>(tries: seq<Entry>, make: Entry -> Result<Object>, draw: Entry -> V)
    ensures Outcome(tries, make, draw).Ok? <==> AllMade(tries, make) && NoneTwice(StoredOf(tries), make)
  {
    if tries != [] {
      var n := |tries| - 1;
      var e, row := tries[n], StoredOf(tries[..n]);
      OutcomeDecided(tries[..n], make, draw);
      AllMadeStep(tries, make);
      if Outcome(tries[..n], make, draw).Ok? {
        OutcomeFilled(tries[..n], make, draw);
        if make(e).Ok? && Stored(e.valueType) {
          NoneTwiceStep(row, e, Outcome(tries[..n], make, draw).value, make, draw);
        } else {
          assert row + [] == row;
        }
      } else if NoneTwice(StoredOf(tries), make) {
        PrefixNoneTwice(row, Added(e), make);
      }
    }
  }

  /** The errors: a key that cannot be made, or two that are equal. */
  lemma {:induction false} OutcomeErrors<V>(tries: seq<Entry>, make: Entry -> Result<Object>, draw: Entry -> V) returns (e: Entry)
    requires Outcome(tries, make, draw).Err?
    ensures var error := Outcome(tries, make, draw).error;
            (e in tries && make(e) == Err(error)) || (error == DuplicateKey && !NoneTwice(StoredOf(tries), make))
  {
    var n := |tries| - 1;
    e := tries[n];
    var row := StoredOf(tries[..n]);
    if Outcome(tries[..n], make, draw).Err? {
      e := OutcomeErrors(tries[..n], make, draw);
      if NoneTwice(StoredOf(tries), make) {
        PrefixNoneTwice(row, Added(tries[n]), make);
      }
    } else if make(e).Ok? {
      OutcomeDecided(tries[..n], make, draw);
      OutcomeFilled(tries[..n], make, draw);
      NoneTwiceStep(row, e, Outcome(tries[..n], make, draw).value, make, draw);
    }
  }

  /** An error stops the generation. */
  lemma {:induction false} OutcomeStops<V>(a: seq<Entry>, b: seq<Entry>, make: Entry -> Result<Object>, draw: Entry -> V)
    ensures Outcome(a, make, draw).Err? ==> Outcome(a + b, make, draw) == Outcome(a, make, draw)
    decreases |b|
  {
    if b == [] {
      assert a + b == a;
    } else {
      assert (a + b)[..|a + b| - 1] == a + b[..|b| - 1];
      OutcomeStops(a, b[..|b| - 1], make, draw);
    }
  }

  lemma OutcomeStep<V>(tried: seq<Entry>, e: Entry, rest: seq<Entry>, make: Entry -> Result<Object>, draw: Entry -> V)
    requires Outcome(tried, make, draw).Ok?
    ensures var next := TryOne(Outcome(tried, make, draw).value, e, make, draw);
            && Outcome(tried + [e], make, draw) == next
            && (next.Err? ==> Outcome(tried + [e] + rest, make, draw) == next)
  {
    assert (tried + [e])[..|tried|] == tried;
    OutcomeStops(tried + [e], rest, make, draw);
  }

  /** How an entry's key is made: the wrapper of its key type, initialized with the
      shifted type id plus the index. */
  function Maker(kinds: map<int, Kind>, base: int): Entry -> Result<Object> {
    e => KeyOf(e, kinds, Numbered(base))
  }

  /** Making a key fails only with an assertion or a value out of range. */
  ghost predicate FailsPlainly(make: Entry -> Result<Object>) {
    forall e :: make(e).Ok? || make(e).error == AssertionFailed || make(e).error == OutOfRange
  }

  lemma MakerFailsPlainly(kinds: map<int, Kind>, base: int)
    ensures FailsPlainly(Maker(kinds, base))
  {
  }

  lemma GenerationHasNoneTwice(keyTypes: seq<int>, kinds: map<int, Kind>, valueTypes: seq<int>, base: int)
    requires forall t :: t in keyTypes ==> t in kinds
    requires Distinct(keyTypes) && Registered(kinds, |valueTypes|)
    ensures NoneTwice(Rows(keyTypes, kinds, valueTypes), Maker(kinds, base))
  {
    var rows, make := Rows(keyTypes, kinds, valueTypes), Maker(kinds, base);
    forall p, q | 0 <= p < q < |rows| && make(rows[p]).Ok?
      ensures make(rows[p]) != make(rows[q])
    {
      GeneratedKeysDistinct(keyTypes, kinds, valueTypes, base, p, q);
    }
  }

  /** One round of the inner loop, seen from what is left to try. */
  lemma TriesSkip(keyType: int, kind: Kind, valueTypes: seq<int>, j: nat, index: nat)
    requires j < |valueTypes| && Skipped(keyType, valueTypes[j])
    ensures Tries(keyType, kind, valueTypes[j..], index) == Tries(keyType, kind, valueTypes[j + 1..], index)
  {
    assert valueTypes[j..][1..] == valueTypes[j + 1..];
  }

  lemma TriesNext(keyType: int, kind: Kind, valueTypes: seq<int>, j: nat, index: nat)
    requires j < |valueTypes| && !Skipped(keyType, valueTypes[j])
    ensures Tries(keyType, kind, valueTypes[j..], index) ==
            if MaxKeys(kind) <= index then []
            else [Entry(keyType, index, valueTypes[j])] + Tries(keyType, kind, valueTypes[j + 1..], index + 1)
  {
    assert valueTypes[j..][1..] == valueTypes[j + 1..];
  }

  lemma TryNext<V>(m: map<Object, V>, tried: seq<Entry>, keyType: int, kind: Kind, valueTypes: seq<int>, j: nat, index: nat,
                   make: Entry -> Result<Object>, draw: Entry -> V)
    requires j < |valueTypes| && !Skipped(keyType, valueTypes[j]) && index < MaxKeys(kind)
    requires Outcome(tried, make, draw) == Ok(m)
    ensures var e := Entry(keyType, index, valueTypes[j]);
            var next, tries := TryOne(m, e, make, draw), tried + Tries(keyType, kind, valueTypes[j..], index);
            && tries == (tried + [e]) + Tries(keyType, kind, valueTypes[j + 1..], index + 1)
            && Outcome(tried + [e], make, draw) == next
            && (next.Err? ==> Outcome(tries, make, draw) == next)
  {
    var e, rest := Entry(keyType, index, valueTypes[j]), Tries(keyType, kind, valueTypes[j + 1..], index + 1);
    TriesNext(keyType, kind, valueTypes, j, index);
    assert tried + ([e] + rest) == (tried + [e]) + rest;
    OutcomeStep(tried, e, rest, make, draw);
  }

  /** One key type's inner loop, going on from what has been tried. */
  method FillRow<V>(m0: map<Object, V>, keyType: int, kind: Kind, valueTypes: seq<int>,
                    make: Entry -> Result<Object>, draw: Entry -> V, ghost done: seq<Entry>)
    returns (r: Result<map<Object, V>>)
    requires Outcome(done, make, draw) == Ok(m0)
    ensures r == Outcome(done + Tries(keyType, kind, valueTypes, 0), make, draw)
  {
    var m, index, j := m0, 0, 0;
    ghost var tries, tried := done + Tries(keyType, kind, valueTypes, 0), done;
    assert valueTypes[0..] == valueTypes;
    while j < |valueTypes|
      invariant 0 <= j <= |valueTypes| && index >= 0
      invariant tried + Tries(keyType, kind, valueTypes[j..], index) == tries
      invariant Outcome(tried, make, draw) == Ok(m)
    {
      var valueType := valueTypes[j];
      if Skipped(keyType, valueType) {
        TriesSkip(keyType, kind, valueTypes, j, index);
        j := j + 1;
        continue;
      }
      if MaxKeys(kind) <= index {
        TriesNext(keyType, kind, valueTypes, j, index);
        break;
      }
      var e := Entry(keyType, index, valueType);
      TryNext(m, tried, keyType, kind, valueTypes, j, index, make, draw);
      tried := tried + [e];
      j := j + 1;
      var key := make(e);
      if key.Err? {
        return Err(key.error);
      }
      if Stored(valueType) {
        if key.value in m {
          return Err(DuplicateKey);
        }
        m := m[key.value := draw(e)];
      }
      index := index + 1;
    }
    assert tried == tries;
    return Ok(m);
  }

  /** The outer loop, for any way of making keys. */
  method FillRows<V>(keyTypes: seq<int>, kinds: map<int, Kind>, valueTypes: seq<int>, make: Entry -> Result<Object>, draw: Entry -> V)
    returns (r: Result<map<Object, V>>)
    requires forall t :: t in keyTypes ==> t in kinds
    ensures r == Outcome(AllTries(keyTypes, kinds, valueTypes), make, draw)
  {
    var m: map<Object, V> := map[];
    ghost var tried: seq<Entry>, tries := [], AllTries(keyTypes, kinds, valueTypes);
    assert keyTypes[0..] == keyTypes;
    for i := 0 to |keyTypes|
      invariant tried + AllTries(keyTypes[i..], kinds, valueTypes) == tries
      invariant Outcome(tried, make, draw) == Ok(m)
    {
      var keyType := keyTypes[i];
      ghost var some, later := Tries(keyType, kinds[keyType], valueTypes, 0), AllTries(keyTypes[i + 1..], kinds, valueTypes);
      assert keyTypes[i..][0] == keyType && keyTypes[i..][1..] == keyTypes[i + 1..];
      assert tries == (tried + some) + later;
      var filled := FillRow(m, keyType, kinds[keyType], valueTypes, make, draw, tried);
      if filled.Err? {
        OutcomeStops(tried + some, later, make, draw);
        return filled;
      }
      m := filled.value;
      tried := tried + some;
    }
    assert AllTries(keyTypes[|keyTypes|..], kinds, valueTypes) == [];
    assert tried == tries;
    return Ok(m);
  }

  // ----- When a dictionary is made -----

  lemma {:induction false} StoredConcat(a: seq<Entry>, b: seq<Entry>)
    ensures StoredOf(a + b) == StoredOf(a) + StoredOf(b)
    decreases |b|
  {
    if b == [] {
      assert a + b == a;
    } else {
      assert (a + b)[..|a + b| - 1] == a + b[..|b| - 1];
      StoredConcat(a, b[..|b| - 1]);
    }
  }

  lemma {:induction false} RowsAreStored(keyTypes: seq<int>, kinds: map<int, Kind>, valueTypes: seq<int>)
    requires forall t :: t in keyTypes ==> t in kinds
    ensures StoredOf(AllTries(keyTypes, kinds, valueTypes)) == Rows(keyTypes, kinds, valueTypes)
    decreases |keyTypes|
  {
    if keyTypes != [] {
      RowsAreStored(keyTypes[1..], kinds, valueTypes);
      StoredConcat(Tries(keyTypes[0], kinds[keyTypes[0]], valueTypes, 0), AllTries(keyTypes[1..], kinds, valueTypes));
    }
  }

  lemma {:induction false} TriesInRange(keyTypes: seq<int>, kinds: map<int, Kind>, valueTypes: seq<int>)
    requires forall t :: t in keyTypes ==> t in kinds
    ensures forall e :: e in AllTries(keyTypes, kinds, valueTypes) ==> e.keyType in keyTypes && e.index < |valueTypes|
    decreases |keyTypes|
  {
    if keyTypes != [] {
      TriesAreRow(keyTypes[0], kinds[keyTypes[0]], valueTypes, 0, |valueTypes|);
      TriesInRange(keyTypes[1..], kinds, valueTypes);
    }
  }

  // ----- Which pairs of types are combined -----

  /** The huge strings go with booleans only, and null strings are left out. */
  ghost predicate Excluded(keyType: int, valueType: int) {
    || (valueType in {0x8000_0000 + 88, 0x8000_0000 + 89} && keyType != 0x8000_0000 + 53)
    || (keyType in {0x8000_0000 + 88, 0x8000_0000 + 89} && valueType != 0x8000_0000 + 53)
    || valueType == 0x8000_0000 + 69
  }

  /** How many of the first `j` value types are combined with the key type. */
  ghost function Combined(keyType: int, valueTypes: seq<int>, j: nat): nat
    requires j <= |valueTypes|
  {
    if j == 0 then 0
    else (if Excluded(keyType, valueTypes[0]) then 0 else 1) + Combined(keyType, valueTypes[1..], j - 1)
  }

  /** The entry is that of value type number `j`, with its place among the combined ones
      counted from `first`. */
  ghost predicate IsTry(e: Entry, kind: Kind, valueTypes: seq<int>, first: nat, j: nat) {
    && j < |valueTypes| && valueTypes[j] == e.valueType && !Excluded(e.keyType, e.valueType)
    && e.index == first + Combined(e.keyType, valueTypes, j) && e.index < MaxKeys(kind)
  }

  /** A key is made for the entry: its pair of types is not excluded, and its index is the
      number of value types combined before it, below the limit of the key type. */
  ghost predicate Tried(e: Entry, keyTypes: seq<int>, kinds: map<int, Kind>, valueTypes: seq<int>) {
    e.keyType in keyTypes && e.keyType in kinds && exists j: nat :: IsTry(e, kinds[e.keyType], valueTypes, 0, j)
  }

  /** And the entry is added: its value type is neither a container (object array, array
      list, hash set, hash map, hash table, vector, identity hash map, linked hash set,
      stack) nor one of the types that are not handled (the two kinds of managed objects
      and file names). */
  ghost predicate Belongs(e: Entry, keyTypes: seq<int>, kinds: map<int, Kind>, valueTypes: seq<int>) {
    && Tried(e, keyTypes, kinds, valueTypes)
    && e.valueType - 0x8000_0000 !in {52, 65, 66, 67, 70, 71, 72, 73, 74}
    && e.valueType - 0x8000_0000 !in {7, 8, 63}
  }

  lemma IsTryShift(e: Entry, kind: Kind, valueTypes: seq<int>, first: nat, j: nat)
    requires valueTypes != []
    ensures IsTry(e, kind, valueTypes, first, j + 1) <==>
            IsTry(e, kind, valueTypes[1..], first + if Excluded(e.keyType, valueTypes[0]) then 0 else 1, j)
  {
  }

  /** A row holds exactly its tries. */
  lemma {:induction false} TriesMembers(e: Entry, keyType: int, kind: Kind, valueTypes: seq<int>, first: nat)
    ensures e in Tries(keyType, kind, valueTypes, first) <==>
            e.keyType == keyType && exists j: nat :: IsTry(e, kind, valueTypes, first, j)
    decreases |valueTypes|
  {
    if valueTypes != [] {
      var v, rest := valueTypes[0], valueTypes[1..];
      var next := first + if Excluded(keyType, v) then 0 else 1;
      TriesMembers(e, keyType, kind, rest, next);
      forall j: nat ensures e.keyType == keyType ==> (IsTry(e, kind, valueTypes, first, j + 1) <==> IsTry(e, kind, rest, next, j)) {
        IsTryShift(e, kind, valueTypes, first, j);
      }
      assert IsTry(e, kind, valueTypes, first, 0) <==>
             e.valueType == v && !Excluded(e.keyType, v) && e.index == first < MaxKeys(kind);
      if exists j: nat :: IsTry(e, kind, valueTypes, first, j) {
        var j: nat :| IsTry(e, kind, valueTypes, first, j);
        assert j > 0 && e.keyType == keyType ==> IsTry(e, kind, rest, next, j - 1);
      }
    }
  }

  lemma {:induction false} AllTriesMembers(e: Entry, keyTypes: seq<int>, kinds: map<int, Kind>, valueTypes: seq<int>)
    requires forall t :: t in keyTypes ==> t in kinds
    ensures e in AllTries(keyTypes, kinds, valueTypes) <==> Tried(e, keyTypes, kinds, valueTypes)
    decreases |keyTypes|
  {
    if keyTypes != [] {
      TriesMembers(e, keyTypes[0], kinds[keyTypes[0]], valueTypes, 0);
      AllTriesMembers(e, keyTypes[1..], kinds, valueTypes);
      assert keyTypes == [keyTypes[0]] + keyTypes[1..];
    }
  }

  lemma {:induction false} StoredMembers(e: Entry, tries: seq<Entry>)
    ensures e in StoredOf(tries) <==> e in tries && Stored(e.valueType)
  {
    if tries != [] {
      var n := |tries| - 1;
      StoredMembers(e, tries[..n]);
      assert tries == tries[..n] + [tries[n]];
    }
  }

  /** The generation adds exactly the entries that belong. */
  lemma RowsMembers(e: Entry, keyTypes: seq<int>, kinds: map<int, Kind>, valueTypes: seq<int>)
    requires forall t :: t in keyTypes ==> t in kinds
    ensures e in Rows(keyTypes, kinds, valueTypes) <==> Belongs(e, keyTypes, kinds, valueTypes)
  {
    RowsAreStored(keyTypes, kinds, valueTypes);
    StoredMembers(e, AllTries(keyTypes, kinds, valueTypes));
    AllTriesMembers(e, keyTypes, kinds, valueTypes);
  }

  /** The key of an entry: the index, counted from the shifted type id, at size 16. */
  ghost predicate HasKey(e: Entry, kinds: map<int, Kind>, base: int, k: Object) {
    e.keyType in kinds && InitKey(kinds[e.keyType], Wrap(e.keyType * 0x100, 0x1_0000_0000) + e.index, 16, base) == Ok(k)
  }

  lemma MakerHasKey(e: Entry, kinds: map<int, Kind>, base: int, k: Object)
    ensures Maker(kinds, base)(e) == Ok(k) <==> HasKey(e, kinds, base, k)
  {
  }

  /** The dictionary has the keys of exactly the entries that belong, with their values. */
  ghost predicate HoldsExactly<V>(m: map<Object, V>, keyTypes: seq<int>, kinds: map<int, Kind>, valueTypes: seq<int>,
                                  base: int, draw: Entry -> V)
  {
    && (forall e :: Belongs(e, keyTypes, kinds, valueTypes) ==> exists k :: HasKey(e, kinds, base, k) && k in m && m[k] == draw(e))
    && (forall k :: k in m ==> exists e :: Belongs(e, keyTypes, kinds, valueTypes) && HasKey(e, kinds, base, k))
  }

  lemma FilledHoldsExactly<V>(m: map<Object, V>, keyTypes: seq<int>, kinds: map<int, Kind>, valueTypes: seq<int>, base: int, draw: Entry -> V)
    requires forall t :: t in keyTypes ==> t in kinds
    requires Filled(m, Rows(keyTypes, kinds, valueTypes), Maker(kinds, base), draw)
    ensures HoldsExactly(m, keyTypes, kinds, valueTypes, base, draw)
  {
    var rows, make := Rows(keyTypes, kinds, valueTypes), Maker(kinds, base);
    forall e | Belongs(e, keyTypes, kinds, valueTypes)
      ensures exists k :: HasKey(e, kinds, base, k) && k in m && m[k] == draw(e)
    {
      RowsMembers(e, keyTypes, kinds, valueTypes);
      var p :| 0 <= p < |rows| && rows[p] == e;
      MakerHasKey(e, kinds, base, make(e).value);
    }
    forall k | k in m ensures exists e :: Belongs(e, keyTypes, kinds, valueTypes) && HasKey(e, kinds, base, k) {
      var p :| 0 <= p < |rows| && make(rows[p]) == Ok(k);
      RowsMembers(rows[p], keyTypes, kinds, valueTypes);
      MakerHasKey(rows[p], kinds, base, k);
    }
  }

  /** Every tried entry has a key. */
  ghost predicate EachMade(keyTypes: seq<int>, kinds: map<int, Kind>, valueTypes: seq<int>, base: int) {
    forall e :: Tried(e, keyTypes, kinds, valueTypes) ==> exists k :: HasKey(e, kinds, base, k)
  }

  lemma AllMadeIsEachMade(keyTypes: seq<int>, kinds: map<int, Kind>, valueTypes: seq<int>, base: int)
    requires forall t :: t in keyTypes ==> t in kinds
    ensures AllMade(AllTries(keyTypes, kinds, valueTypes), Maker(kinds, base)) <==> EachMade(keyTypes, kinds, valueTypes, base)
  {
    var make := Maker(kinds, base);
    forall e
      ensures e in AllTries(keyTypes, kinds, valueTypes) <==> Tried(e, keyTypes, kinds, valueTypes)
      ensures make(e).Ok? <==> exists k :: HasKey(e, kinds, base, k)
    {
      AllTriesMembers(e, keyTypes, kinds, valueTypes);
      if make(e).Ok? {
        MakerHasKey(e, kinds, base, make(e).value);
      }
    }
  }

  /** No two entries that belong have the same key. */
  ghost predicate KeysApart(keyTypes: seq<int>, kinds: map<int, Kind>, valueTypes: seq<int>, base: int) {
    forall e, f, k | Belongs(e, keyTypes, kinds, valueTypes) && Belongs(f, keyTypes, kinds, valueTypes) ::
      HasKey(e, kinds, base, k) && HasKey(f, kinds, base, k) ==> e == f
  }

  ghost predicate MadeApart(rows: seq<Entry>, make: Entry -> Result<Object>) {
    forall e, f :: e in rows && f in rows && make(e).Ok? && make(e) == make(f) ==> e == f
  }

  lemma NoneTwiceIsMadeApart(rows: seq<Entry>, make: Entry -> Result<Object>)
    requires Distinct(rows)
    ensures NoneTwice(rows, make) <==> MadeApart(rows, make)
  {
    if MadeApart(rows, make) {
      forall p, q | 0 <= p < q < |rows| && make(rows[p]).Ok? ensures make(rows[p]) != make(rows[q]) {
        assert rows[p] != rows[q] && rows[p] in rows && rows[q] in rows;
      }
    }
  }

  lemma MadeApartIsKeysApart(keyTypes: seq<int>, kinds: map<int, Kind>, valueTypes: seq<int>, base: int)
    requires forall t :: t in keyTypes ==> t in kinds
    ensures MadeApart(Rows(keyTypes, kinds, valueTypes), Maker(kinds, base)) <==> KeysApart(keyTypes, kinds, valueTypes, base)
  {
    var rows, make := Rows(keyTypes, kinds, valueTypes), Maker(kinds, base);
    forall e ensures e in rows <==> Belongs(e, keyTypes, kinds, valueTypes) {
      RowsMembers(e, keyTypes, kinds, valueTypes);
    }
    forall e, k ensures make(e) == Ok(k) <==> HasKey(e, kinds, base, k) {
      MakerHasKey(e, kinds, base, k);
    }
    if KeysApart(keyTypes, kinds, valueTypes, base) {
      forall e, f | e in rows && f in rows && make(e).Ok? && make(e) == make(f) ensures e == f {
        assert HasKey(e, kinds, base, make(e).value) && HasKey(f, kinds, base, make(e).value);
      }
    }
  }

  lemma NoneTwiceIsApart(keyTypes: seq<int>, kinds: map<int, Kind>, valueTypes: seq<int>, base: int)
    requires (forall t :: t in keyTypes ==> t in kinds) && Distinct(keyTypes)
    ensures NoneTwice(Rows(keyTypes, kinds, valueTypes), Maker(kinds, base)) <==> KeysApart(keyTypes, kinds, valueTypes, base)
  {
    RowsEntries(keyTypes, kinds, valueTypes);
    NoneTwiceIsMadeApart(Rows(keyTypes, kinds, valueTypes), Maker(kinds, base));
    MadeApartIsKeysApart(keyTypes, kinds, valueTypes, base);
  }

  /** The dates made for `n` value types stay within the calendar. */
  ghost predicate DatesFit(kinds: map<int, Kind>, n: nat, base: int) {
    forall t :: t in kinds && kinds[t] == KDate ==>
      0 <= base + Base(t) * TICKS_PER_MINUTE && base + (Base(t) + n) * TICKS_PER_MINUTE <= MAX_TICKS
  }

  lemma OthersMade(kind: Kind, x: int, base: int)
    requires kind != KDate
    ensures InitKey(kind, x, KEY_SIZE, base).Ok?
  {
  }

  lemma DateMade(first: int, index: nat, n: nat, base: int)
    requires index < n
    requires 0 <= base + first * TICKS_PER_MINUTE && base + (first + n) * TICKS_PER_MINUTE <= MAX_TICKS
    ensures InitKey(KDate, first + index, KEY_SIZE, base).Ok?
  {
  }

  lemma EntryMade(e: Entry, kinds: map<int, Kind>, n: nat, base: int)
    requires DatesFit(kinds, n, base) && e.keyType in kinds && e.index < n
    ensures Maker(kinds, base)(e).Ok?
  {
    if kinds[e.keyType] == KDate {
      DateMade(Base(e.keyType), e.index, n, base);
    } else {
      OthersMade(kinds[e.keyType], Base(e.keyType) + e.index, base);
    }
  }

  lemma GenerationMade(keyTypes: seq<int>, kinds: map<int, Kind>, valueTypes: seq<int>, base: int)
    requires (forall t :: t in keyTypes ==> t in kinds) && DatesFit(kinds, |valueTypes|, base)
    ensures AllMade(AllTries(keyTypes, kinds, valueTypes), Maker(kinds, base))
  {
    TriesInRange(keyTypes, kinds, valueTypes);
    forall e | e in AllTries(keyTypes, kinds, valueTypes) ensures Maker(kinds, base)(e).Ok? {
      EntryMade(e, kinds, |valueTypes|, base);
    }
  }

  /** `InitRandomValue` of the hash-map wrapper. The random values come from `draw`. With
      types to combine, a dictionary is made exactly when every key can be made and no
      two are equal; for distinct registered ids and a base date whose keys stay in the
      calendar it always is. */
  method InitRandomValue<V>(keyTypes: seq<int>, kinds: map<int, Kind>, valueTypes: seq<int>, base: int, draw: Entry -> V)
    returns (r: Result<map<Object, V>>)
    requires forall t :: t in keyTypes ==> t in kinds
    ensures r.Ok? ==> Filled(r.value, Rows(keyTypes, kinds, valueTypes), Maker(kinds, base), draw)
    ensures r.Ok? ==> HoldsExactly(r.value, keyTypes, kinds, valueTypes, base, draw)
    ensures keyTypes != [] && valueTypes != [] && Distinct(keyTypes) ==>
              (r.Ok? <==> EachMade(keyTypes, kinds, valueTypes, base) && KeysApart(keyTypes, kinds, valueTypes, base))
    ensures keyTypes != [] && valueTypes != [] ==>
              (r.Ok? <==> && AllMade(AllTries(keyTypes, kinds, valueTypes), Maker(kinds, base))
                          && NoneTwice(Rows(keyTypes, kinds, valueTypes), Maker(kinds, base)))
    ensures r == Err(DivideByZero) <==> keyTypes == [] || valueTypes == []
    ensures r.Err? && r.error != DivideByZero && r.error != DuplicateKey ==>
              exists e :: e in AllTries(keyTypes, kinds, valueTypes) && Maker(kinds, base)(e) == Err(r.error)
    ensures Distinct(keyTypes) && Registered(kinds, |valueTypes|) ==>
              r != Err(DuplicateKey) && (keyTypes != [] && valueTypes != [] && DatesFit(kinds, |valueTypes|, base) ==> r.Ok?)
  {
    if |keyTypes| * |valueTypes| == 0 {
      return Err(DivideByZero);
    }
    ghost var tries, make := AllTries(keyTypes, kinds, valueTypes), Maker(kinds, base);
    RowsAreStored(keyTypes, kinds, valueTypes);
    MakerFailsPlainly(kinds, base);
    OutcomeDecided(tries, make, draw);
    AllMadeIsEachMade(keyTypes, kinds, valueTypes, base);
    if Distinct(keyTypes) {
      NoneTwiceIsApart(keyTypes, kinds, valueTypes, base);
    }
    if DatesFit(kinds, |valueTypes|, base) {
      GenerationMade(keyTypes, kinds, valueTypes, base);
    }
    if Distinct(keyTypes) && Registered(kinds, |valueTypes|) {
      GenerationHasNoneTwice(keyTypes, kinds, valueTypes, base);
    }
    r := FillRows(keyTypes, kinds, valueTypes, Maker(kinds, base), draw);
    if r.Ok? {
      OutcomeFilled(tries, make, draw);
      FilledHoldsExactly(r.value, keyTypes, kinds, valueTypes, base, draw);
    } else {
      ghost var e := OutcomeErrors(tries, make, draw);
    }
  }

  // ----- The built-in key types -----

  /** The type id under which `RegisterBuiltins` registers each key type. */
  function BuiltinId(kind: Kind): int {
    match kind
    case KBoolean => BOOLEAN
    case KByte => 0x8000_0000 + 55
    case KCharacter => 0x8000_0000 + 54
    case KDate => 0x8000_0000 + 61
    case KDouble => 0x8000_0000 + 60
    case KFileName => 0x8000_0000 + 63
    case KFloat => 0x8000_0000 + 59
    case KInt16 => 0x8000_0000 + 56
    case KInt32 => 0x8000_0000 + 57
    case KInt64 => 0x8000_0000 + 58
    case KString => 0x8000_0000 + 87
    case KUnicode => 0x8000_0000 + 42
    case KHugeString => ASCII_STRING_HUGE
    case KHugeUnicode => STRING_HUGE
    case KPdx => 10001
  }

  /** The built-in ids meet the conditions, for any selection of key types and any number
      of value types up to the first float index that is not exact. */
  lemma BuiltinsRegistered(kinds: map<int, Kind>, numValueTypes: nat)
    requires numValueTypes <= EXACT_FLOAT - 59 * 0x100
    requires forall t :: t in kinds ==> t == BuiltinId(kinds[t])
    ensures Registered(kinds, numValueTypes)
  {
    forall t | t in kinds
      ensures 0 <= t < 0x1_0000_0000 && 1 <= t % 0x100_0000 <= 0xffff
    {
      BuiltinCode(kinds[t]);
    }
    assert BuiltinId(KFloat) % 0x100_0000 == 59;
  }

  lemma BuiltinCode(kind: Kind)
    ensures 0 <= BuiltinId(kind) < 0x1_0000_0000 && 1 <= BuiltinId(kind) % 0x100_0000 <= 0xffff
  {
  }

  lemma BytePeriodic(x: int)
    ensures Wrap(x + 0x100, 0x100) == Wrap(x, 0x100)
  {
  }

  lemma ShortPeriodic(x: int)
    ensures Wrap(x + 0x1_0000, 0x1_0000) == Wrap(x, 0x1_0000)
  {
  }

  lemma CharPeriodic(x: int)
    ensures (x + 0x1_0000) % 0x1_0000 == x % 0x1_0000
  {
  }

  /** Without the `MaxKeys` limit the narrow types repeat themselves. */
  lemma NarrowTypesRepeat(kind: Kind, x: nat, base: int)
    requires kind in {KBoolean, KByte, KInt16, KCharacter}
    ensures var width := if kind == KBoolean then 2 else if kind == KByte then 0x100 else 0x1_0000;
            InitKey(kind, x, KEY_SIZE, base) == InitKey(kind, x + width, KEY_SIZE, base)
  {
    match kind
    case KByte => BytePeriodic(x);
    case KInt16 => ShortPeriodic(x);
    case KCharacter => CharPeriodic(x);
    case KBoolean =>
  }
}
