/** The SQLite overflow store: a table of byte strings behind a helper that reports
    return codes, and a persistence manager that serializes keys and values, turns
    codes into exceptions and so behaves as a map.

    Which statements fail, where, and with what code is chosen by the environment: every
    operation takes a fault. A statement that fails changes nothing.
 */
module SqliteStore {
  import opened Wrappers

  const SQLITE_OK := 0
  const SQLITE_ERROR := 1
  const SQLITE_ROW := 100
  const SQLITE_DONE := 101

  type ErrorCode = c: int | c != SQLITE_OK && c != SQLITE_ROW && c != SQLITE_DONE witness SQLITE_ERROR

  /** Where a statement fails: when prepared, when first stepped, or when stepped again. */
  datatype Fault = NoFault | Prepare(code: ErrorCode) | FirstStep(code: ErrorCode) | SecondStep(code: ErrorCode)

  type Bytes = seq<bv8>

  type Table = map<Bytes, Bytes>

  /** A statement without result rows works when the table exists and nothing fails. */
  predicate Works(fault: Fault) {
    fault.NoFault? || fault.SecondStep?
  }

  class SqLiteHelper {
    var open: bool
    var table: Option<Table>

    constructor (file: Option<Table>)
      ensures !open && table == file
    {
      open, table := false, file;
    }

    /** The code of preparing a statement that names the table. */
    function PrepareCode(fault: Fault): int
      reads this
    {
      if fault.Prepare? then fault.code else if table.None? then SQLITE_ERROR else SQLITE_OK
    }

    /** Opening keeps the rows of a table that is already in the file. A failed pragma
        stops the opening before the table is created. */
    method InitDB(maxPageCount: int, pageSize: int, opening: Fault, countPragma: int, sizePragma: int, fault: Fault)
      returns (retCode: int)
      modifies this
      ensures var pragmas := if maxPageCount > 0 && countPragma != SQLITE_OK then countPragma
                             else if pageSize > 0 then sizePragma else SQLITE_OK;
              && retCode == (if !opening.NoFault? then opening.code
                             else if pragmas != SQLITE_OK then pragmas
                             else if Works(fault) then SQLITE_OK else fault.code)
              && (retCode == SQLITE_OK ==> open && table == if old(table).None? then Some(map[]) else old(table))
              && (retCode != SQLITE_OK ==> table == old(table) && open == (old(open) || opening.NoFault?))
    {
      if !opening.NoFault? {
        return opening.code;
      }
      open := true;
      retCode := SQLITE_OK;
      if maxPageCount > 0 {
        retCode := countPragma;
      }
      if retCode == SQLITE_OK && pageSize > 0 {
        retCode := sizePragma;
      }
      if retCode == SQLITE_OK {
        retCode := CreateTable(fault);
      }
    }

    method CreateTable(fault: Fault) returns (retCode: int)
      requires open
      modifies `table
      ensures retCode == if Works(fault) then SQLITE_OK else fault.code
      ensures table == if old(table).None? && Works(fault) then Some(map[]) else old(table)
    {
      if !Works(fault) {
        return fault.code;
      }
      if table.None? {
        table := Some(map[]);
      }
      retCode := SQLITE_OK;
    }

    method InsertKeyValue(key: Bytes, value: Bytes, fault: Fault) returns (retCode: int)
      requires open
      modifies `table
      ensures retCode == SQLITE_OK <==> old(table).Some? && Works(fault)
      ensures table == if retCode == SQLITE_OK then Some(old(table).value[key := value]) else old(table)
    {
      retCode := PrepareCode(fault);
      if retCode == SQLITE_OK {
        if fault.FirstStep? {
          retCode := fault.code;
        } else {
          table := Some(table.value[key := value]);
          retCode := SQLITE_DONE;
        }
      }
      retCode := if retCode == SQLITE_DONE then SQLITE_OK else retCode;
    }

    method RemoveKey(key: Bytes, fault: Fault) returns (retCode: int)
      requires open
      modifies `table
      ensures retCode == SQLITE_OK <==> old(table).Some? && Works(fault)
      ensures table == if retCode == SQLITE_OK then Some(old(table).value - {key}) else old(table)
    {
      retCode := PrepareCode(fault);
      if retCode == SQLITE_OK {
        if fault.FirstStep? {
          retCode := fault.code;
        } else {
          table := Some(table.value - {key});
          retCode := SQLITE_DONE;
        }
      }
      retCode := if retCode == SQLITE_DONE then SQLITE_OK else retCode;
    }

    /** `value` is nothing when the output arguments are left as they were: code 0 does not
        mean that the key was found. A row is fetched by one step and the end of the
        result by a second one. */
    method GetValue(key: Bytes, fault: Fault) returns (retCode: int, value: Option<Bytes>)
      requires open
      ensures retCode == SQLITE_OK <==>
              table.Some? && (fault.NoFault? || (fault.SecondStep? && key !in table.value))
      ensures retCode == SQLITE_OK ==> value == if key in table.value then Some(table.value[key]) else None
    {
      value := None;
      retCode := PrepareCode(fault);
      if retCode == SQLITE_OK {
        retCode := if fault.FirstStep? then fault.code else if key in table.value then SQLITE_ROW else SQLITE_DONE;
        if retCode == SQLITE_ROW {
          value := Some(table.value[key]);
          retCode := if fault.SecondStep? then fault.code else SQLITE_DONE;
        }
      }
      retCode := if retCode == SQLITE_DONE then SQLITE_OK else retCode;
    }

    method DropTable(fault: Fault) returns (retCode: int)
      requires open
      modifies `table
      ensures retCode == SQLITE_OK <==> old(table).Some? && Works(fault)
      ensures table == if retCode == SQLITE_OK then None else old(table)
    {
      retCode := PrepareCode(fault);
      if retCode == SQLITE_OK {
        if fault.FirstStep? {
          retCode := fault.code;
        } else {
          table := None;
          retCode := SQLITE_DONE;
        }
      }
      retCode := if retCode == SQLITE_DONE then SQLITE_OK else retCode;
    }

    method CloseDB(dropping: Fault, closing: Fault) returns (retCode: int)
      requires open
      modifies this
      ensures table == if old(table).Some? && Works(dropping) then None else old(table)
      ensures retCode == SQLITE_OK <==> old(table).Some? && Works(dropping) && closing.NoFault?
      ensures open <==> retCode != SQLITE_OK
    {
      retCode := DropTable(dropping);
      if retCode == SQLITE_OK {
        if closing.NoFault? {
          open := false;
        } else {
          retCode := closing.code;
        }
      }
    }
  }

  // ----- Serialization -----

  /** Keys serialize injectively and values can be read back. */
  datatype Codec<!K(!new), !V(!new)> = Codec(key: K -> Bytes, value: V -> Bytes, read: Bytes -> V)
  {
    ghost predicate Valid() {
      && (forall k, l :: key(k) == key(l) ==> k == l)
      && (forall v :: read(value(v)) == v)
    }
  }

  /** The table holds the serialized form of `m`. */
  ghost predicate Represents<K(!new), V(!new)>(codec: Codec<K, V>, t: Table, m: map<K, V>) {
    && (forall k :: k in m <==> codec.key(k) in t)
    && (forall k :: k in m ==> t[codec.key(k)] == codec.value(m[k]))
  }

  // ----- The persistence manager -----

  datatype Call<K, V> =
    | Write(key: K, value: V, fault: Fault)
    | Destroy(key: K, fault: Fault)
    | Read(key: K, fault: Fault)
    | DestroyAll(dropping: Fault, closing: Fault)

  /** How a call ends. `Unset` is a read that goes on with the output arguments of a lookup
      that found nothing; `NotMade` is a call that a destroyed region does not get. */
  datatype Outcome<V> = Done | Threw | Value(value: V) | Unset | NotMade

  /** What a call does to the map, and how it ends, as long as the table is not dropped. */
  function Effect<K, V>(m: map<K, V>, c: Call<K, V>): map<K, V> {
    match c
    case Write(k, v, fault) => if Works(fault) then m[k := v] else m
    case Destroy(k, fault) => if Works(fault) then m - {k} else m
    case Read(_, _) => m
    case DestroyAll(_, _) => m
  }

  function Ends<K, V>(m: map<K, V>, c: Call<K, V>): Outcome<V> {
    match c
    case Write(_, _, fault) => if Works(fault) then Done else Threw
    case Destroy(_, fault) => if Works(fault) then Done else Threw
    case Read(k, fault) =>
      if fault.NoFault? then (if k in m then Value(m[k]) else Unset)
      else if fault.SecondStep? && k !in m then Unset
      else Threw
    case DestroyAll(_, _) => Threw
  }

  class SqLiteImpl<K(!new), V(!new)> {
    const codec: Codec<K, V>
    const helper: SqLiteHelper
    ghost var contents: map<K, V>

    ghost predicate Valid()
      reads this, helper
    {
      && codec.Valid() && helper.open
      && (helper.table.Some? ==> Represents(codec, helper.table.value, contents))
    }

    /** `rows` is what the opened table already holds. */
    constructor (codec: Codec<K, V>, helper: SqLiteHelper, ghost rows: map<K, V>)
      requires codec.Valid() && helper.open && helper.table.Some? && Represents(codec, helper.table.value, rows)
      ensures Valid() && contents == rows && this.codec == codec && this.helper == helper
    {
      this.codec, this.helper, contents := codec, helper, rows;
    }

    method WriteEntry(key: K, value: V, fault: Fault) returns (r: Outcome<V>)
      requires Valid()
      modifies this, helper
      ensures Valid()
      ensures old(helper.table).Some? ==>
                && helper.table.Some? && contents == Effect(old(contents), Write(key, value, fault))
                && r == Ends(old(contents), Write(key, value, fault))
      ensures old(helper.table).None? ==> r == Threw && helper.table.None? && contents == old(contents)
    {
      var retCode := helper.InsertKeyValue(codec.key(key), codec.value(value), fault);
      if retCode != 0 {
        return Threw;
      }
      contents := contents[key := value];
      r := Done;
    }

    method ReadEntry(key: K, fault: Fault) returns (r: Outcome<V>)
      requires Valid()
      ensures r == if helper.table.Some? then Ends(contents, Read(key, fault)) else Threw
      ensures helper.table.Some? ==>
                && (r == Threw <==> fault.Prepare? || fault.FirstStep? || (fault.SecondStep? && key in contents))
                && (r != Threw ==> r == if key in contents then Value(contents[key]) else Unset)
    {
      var retCode, value := helper.GetValue(codec.key(key), fault);
      if retCode != 0 {
        return Threw;
      }
      r := if value.None? then Unset else Value(codec.read(value.value));
    }

    method DestroyEntry(key: K, fault: Fault) returns (r: Outcome<V>)
      requires Valid()
      modifies this, helper
      ensures Valid()
      ensures old(helper.table).Some? ==>
                && helper.table.Some? && contents == Effect(old(contents), Destroy(key, fault))
                && r == Ends(old(contents), Destroy(key, fault))
      ensures old(helper.table).None? ==> r == Threw && helper.table.None? && contents == old(contents)
    {
      var retCode := helper.RemoveKey(codec.key(key), fault);
      if retCode != 0 {
        return Threw;
      }
      contents := contents - {key};
      r := Done;
    }

    /** Once the table has been dropped but the handle could not be closed, no later
        attempt succeeds: dropping a missing table fails. */
    method DestroyRegion(dropping: Fault, closing: Fault) returns (r: Outcome<V>)
      requires Valid()
      modifies helper
      ensures r == if old(helper.table).Some? && Works(dropping) && closing.NoFault? then Done else Threw
      ensures helper.table == if old(helper.table).Some? && Works(dropping) then None else old(helper.table)
      ensures helper.open <==> r == Threw
      ensures r == Threw ==> Valid()
    {
      var retCode := helper.CloseDB(dropping, closing);
      r := if retCode != 0 then Threw else Done;
    }
  }

  // ----- Runs -----

  /** The map after a run of calls on a store that holds `start`. */
  ghost function Contents<K, V>(start: map<K, V>, calls: seq<Call<K, V>>): map<K, V> {
    if calls == [] then start else Effect(Contents(start, calls[..|calls| - 1]), calls[|calls| - 1])
  }

  /** How each call of the run ends. */
  ghost function Outcomes<K, V>(start: map<K, V>, calls: seq<Call<K, V>>): (os: seq<Outcome<V>>)
    ensures |os| == |calls|
  {
    if calls == [] then []
    else Outcomes(start, calls[..|calls| - 1]) + [Ends(Contents(start, calls[..|calls| - 1]), calls[|calls| - 1])]
  }

  /** The value that the calls which did not throw leave under a key, read off the
      calls and their outcomes alone, newest first; before them come the rows the store
      started with. */
  ghost function LastWritten<K, V>(start: map<K, V>, calls: seq<Call<K, V>>, outcomes: seq<Outcome<V>>, k: K): Option<V>
    requires |calls| == |outcomes|
  {
    if calls == [] then Lookup(start, k)
    else
      var n := |calls| - 1;
      if (calls[n].Write? || calls[n].Destroy?) && calls[n].key == k && outcomes[n] != Threw
      then if calls[n].Write? then Some(calls[n].value) else None
      else LastWritten(start, calls[..n], outcomes[..n], k)
  }

  lemma {:induction false} HoldsLastWritten<K, V>(start: map<K, V>, calls: seq<Call<K, V>>, k: K)
    ensures LastWritten(start, calls, Outcomes(start, calls), k) == Lookup(Contents(start, calls), k)
  {
    if calls != [] {
      var n := |calls| - 1;
      HoldsLastWritten(start, calls[..n], k);
      assert Outcomes(start, calls)[..n] == Outcomes(start, calls[..n]);
    }
  }

  /** How call `i` of a run must end, from its fault and the value written last under its
      key by a call that did not throw. A read throws when its statement cannot be prepared
      or first stepped, and when the second step fails after a row was found; otherwise it
      returns that value, and is left with unset outputs when there is none. */
  ghost predicate Answered<K, V>(start: map<K, V>, calls: seq<Call<K, V>>, outcomes: seq<Outcome<V>>, i: nat)
    requires i < |calls| == |outcomes|
  {
    match calls[i]
    case Write(_, _, fault) => outcomes[i] == if fault.Prepare? || fault.FirstStep? then Threw else Done
    case Destroy(_, fault) => outcomes[i] == if fault.Prepare? || fault.FirstStep? then Threw else Done
    case DestroyAll(dropping, _) => (dropping.Prepare? || dropping.FirstStep?) && outcomes[i] == Threw
    case Read(k, fault) =>
      var last := LastWritten(start, calls[..i], outcomes[..i], k);
      && (outcomes[i] == Threw <==> fault.Prepare? || fault.FirstStep? || (fault.SecondStep? && last.Some?))
      && (outcomes[i] != Threw ==> outcomes[i] == if last.Some? then Value(last.value) else Unset)
  }

  lemma {:induction false} OutcomeAt<K, V>(start: map<K, V>, calls: seq<Call<K, V>>, i: nat)
    requires i < |calls|
    ensures Outcomes(start, calls)[..i] == Outcomes(start, calls[..i])
    ensures Outcomes(start, calls)[i] == Ends(Contents(start, calls[..i]), calls[i])
    decreases |calls|
  {
    var n := |calls| - 1;
    assert Outcomes(start, calls)[..n] == Outcomes(start, calls[..n]);
    if i < n {
      OutcomeAt(start, calls[..n], i);
      assert calls[..n][..i] == calls[..i];
      assert Outcomes(start, calls)[..n][..i] == Outcomes(start, calls)[..i];
    }
  }

  lemma CallsAnswered<K, V>(start: map<K, V>, calls: seq<Call<K, V>>, i: nat)
    requires i < |calls| && !Drops(calls[i])
    ensures Answered(start, calls, Outcomes(start, calls), i)
  {
    OutcomeAt(start, calls, i);
    if calls[i].Read? {
      HoldsLastWritten(start, calls[..i], calls[i].key);
    }
  }

  /** A call that drops the table. */
  ghost predicate Drops<K, V>(c: Call<K, V>) {
    c.DestroyAll? && (c.dropping.NoFault? || c.dropping.SecondStep?)
  }

  /** The first call that drops the table, or the number of calls. */
  ghost function FirstLoss<K, V>(calls: seq<Call<K, V>>): (d: nat)
    ensures d <= |calls|
    ensures d < |calls| ==> Drops(calls[d])
    ensures forall j :: 0 <= j < d ==> !Drops(calls[j])
  {
    if calls == [] then 0
    else
      var n := |calls| - 1;
      var d := FirstLoss(calls[..n]);
      if d < n then d else if Drops(calls[n]) then n else n + 1
  }

  /** Call `d` drops the table: it destroys the region if it also closes the handle, and
      then no further call is made; if it does not, it throws, and so does every later
      call. */
  ghost predicate LostFrom<K, V>(calls: seq<Call<K, V>>, outcomes: seq<Outcome<V>>, d: nat)
    requires d < |calls| && calls[d].DestroyAll? && |outcomes| <= |calls|
  {
    var closed := calls[d].closing.NoFault?;
    && (d < |outcomes| ==> outcomes[d] == if closed then Done else Threw)
    && (forall j :: d < j < |outcomes| ==> outcomes[j] == if closed then NotMade else Threw)
  }

  /** One call on a store. */
  method Perform<K(!new), V(!new)>(store: SqLiteImpl<K, V>, call: Call<K, V>) returns (r: Outcome<V>)
    requires store.Valid()
    modifies store, store.helper
    ensures old(store.helper.table).None? ==> r == Threw && store.Valid() && store.helper.table.None?
    ensures old(store.helper.table).Some? ==>
              if call.DestroyAll? && Works(call.dropping) then
                && store.helper.table.None? && r == (if call.closing.NoFault? then Done else Threw)
                && (r == Threw ==> store.Valid()) && (r == Done ==> !store.helper.open)
              else
                && store.Valid() && store.helper.table.Some?
                && store.contents == Effect(old(store.contents), call) && r == Ends(old(store.contents), call)
  {
    match call {
      case Write(k, v, fault) => r := store.WriteEntry(k, v, fault);
      case Destroy(k, fault) => r := store.DestroyEntry(k, fault);
      case Read(k, fault) => r := store.ReadEntry(k, fault);
      case DestroyAll(dropping, closing) => r := store.DestroyRegion(dropping, closing);
    }
  }

  /** Any list of calls, with any failures, made on a store that has its table: up to the
      first call that drops it, the table goes on representing the fold of the calls that
      did not throw over the rows that were there, each key holds what was written last,
      and every call is answered accordingly. From then on the region is destroyed or
      lost. */
  method Execute<K(!new), V(!new)>(store: SqLiteImpl<K, V>, calls: seq<Call<K, V>>) returns (outcomes: seq<Outcome<V>>)
    requires store.Valid() && store.helper.table.Some?
    modifies store, store.helper
    ensures |outcomes| == |calls|
    ensures var start, d := old(store.contents), FirstLoss(calls);
            && outcomes[..d] == Outcomes(start, calls[..d])
            && (forall i :: 0 <= i < d ==> Answered(start, calls[..d], outcomes[..d], i))
            && (d == |calls| ==>
                  && store.Valid() && store.helper.table.Some? && store.contents == Contents(start, calls)
                  && forall k :: Lookup(store.contents, k) == LastWritten(start, calls, outcomes, k))
            && (d < |calls| ==> LostFrom(calls, outcomes, d) && store.helper.table.None?
                                && (store.helper.open <==> !calls[d].closing.NoFault?))
  {
    ghost var start, d := store.contents, FirstLoss(calls);
    outcomes := [];
    var destroyed := false;
    for i := 0 to |calls|
      invariant |outcomes| == i
      invariant i <= d ==> !destroyed && store.Valid() && store.helper.table.Some? && store.contents == Contents(start, calls[..i])
      invariant i <= d ==> outcomes == Outcomes(start, calls[..i])
      invariant i > d ==> store.helper.table.None? && outcomes[..d] == Outcomes(start, calls[..d])
      invariant i > d ==> LostFrom(calls, outcomes, d) && destroyed == calls[d].closing.NoFault?
      invariant if destroyed then !store.helper.open else store.Valid()
    {
      assert calls[..i + 1][..i] == calls[..i];
      var r := NotMade;
      if !destroyed {
        r := Perform(store, calls[i]);
        destroyed := r == Done && calls[i].DestroyAll?;
      }
      outcomes := outcomes + [r];
      assert i >= d ==> outcomes[..d] == outcomes[..i][..d];
    }
    assert outcomes[..|calls|] == outcomes && calls[..|calls|] == calls;
    forall k ensures Lookup(Contents(start, calls[..d]), k) == LastWritten(start, calls[..d], outcomes[..d], k) {
      HoldsLastWritten(start, calls[..d], k);
    }
    forall i | 0 <= i < d ensures Answered(start, calls[..d], outcomes[..d], i) {
      CallsAnswered(start, calls[..d], i);
    }
  }

  /** A store that has lost its table throws at every call. */
  method ExecuteLost<K(!new), V(!new)>(store: SqLiteImpl<K, V>, calls: seq<Call<K, V>>) returns (outcomes: seq<Outcome<V>>)
    requires store.Valid() && store.helper.table.None?
    modifies store, store.helper
    ensures |outcomes| == |calls| && forall j :: 0 <= j < |calls| ==> outcomes[j] == Threw
    ensures store.Valid() && store.helper.table.None?
  {
    outcomes := [];
    for i := 0 to |calls|
      invariant |outcomes| == i && forall j :: 0 <= j < i ==> outcomes[j] == Threw
      invariant store.Valid() && store.helper.table.None?
    {
      var r := Perform(store, calls[i]);
      outcomes := outcomes + [r];
    }
  }

  ghost function Succeeded<K, V>(calls: seq<Call<K, V>>, outcomes: seq<Outcome<V>>): seq<Call<K, V>>
    requires |calls| == |outcomes|
  {
    if calls == [] then []
    else
      var n := |calls| - 1;
      Succeeded(calls[..n], outcomes[..n]) + if outcomes[n] == Threw then [] else [calls[n]]
  }

  /** Calls that threw can be left out without changing the store. */
  lemma {:induction false} FailuresLeaveNoTrace<K, V>(start: map<K, V>, calls: seq<Call<K, V>>)
    ensures Contents(start, Succeeded(calls, Outcomes(start, calls))) == Contents(start, calls)
  {
    if calls != [] {
      var n := |calls| - 1;
      var kept := Succeeded(calls[..n], Outcomes(start, calls[..n]));
      FailuresLeaveNoTrace(start, calls[..n]);
      assert Outcomes(start, calls)[..n] == Outcomes(start, calls[..n]);
      assert (kept + [calls[n]])[..|kept|] == kept;
      assert kept + [] == kept;
    }
  }

  // ----- Destroying the region -----

  /** The first attempt whose drop statement works, or the number of attempts. */
  ghost function FirstDrop(attempts: seq<(Fault, Fault)>): (i: nat)
    ensures i <= |attempts| && (i < |attempts| ==> Works(attempts[i].0))
    ensures forall j :: 0 <= j < i ==> !Works(attempts[j].0)
    decreases |attempts|
  {
    if attempts == [] || Works(attempts[0].0) then 0
    else
      assert forall j :: 0 < j < |attempts| ==> attempts[j] == attempts[1..][j - 1];
      1 + FirstDrop(attempts[1..])
  }

  /** Trying to destroy a region again and again, each time with a fault for dropping the
      table and one for closing the handle, succeeds if and only if the first attempt
      that drops the table also closes the handle: afterwards there is no table to
      drop, and every further attempt throws. */
  method DestroyRepeatedly<K(!new), V(!new)>(store: SqLiteImpl<K, V>, attempts: seq<(Fault, Fault)>)
    returns (destroyed: bool, tries: nat)
    requires store.Valid()
    modifies store.helper
    ensures var i := FirstDrop(attempts);
            && (destroyed <==> old(store.helper.table).Some? && i < |attempts| && attempts[i].1.NoFault?)
            && tries == (if destroyed then i + 1 else |attempts|)
            && (old(store.helper.table).Some? ==> (store.helper.table.None? <==> i < |attempts|))
    ensures store.helper.open <==> !destroyed
  {
    ghost var first := FirstDrop(attempts);
    destroyed, tries := false, 0;
    while tries < |attempts|
      invariant 0 <= tries <= |attempts| && store.Valid()
      invariant store.helper.table == if first < tries then None else old(store.helper.table)
      invariant first < tries && old(store.helper.table).Some? ==> !attempts[first].1.NoFault?
    {
      var r := store.DestroyRegion(attempts[tries].0, attempts[tries].1);
      tries := tries + 1;
      if r == Done {
        destroyed := true;
        return;
      }
    }
  }
}
