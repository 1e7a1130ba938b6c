/** The registry of wrappers: four dictionaries that the register methods fill and
    the create methods read.

    A wrapper delegate is a value of type `W`, a .NET type a value of type `D`. What the
    dictionaries must hold is said in terms of the history of registrations.
 */
module WrapperFactory {
  import opened Wrappers

  /** One call of a register method; `dotnet` is its optional last argument. */
  datatype Registration<W, D> = Registration(isKey: bool, typeId: nat, name: D, wrapper: W, dotnet: Option<D>)

  type History<W, D> = seq<Registration<W, D>>

  /** The newest registration of a type id, or the newest one as a key type. */
  ghost function Newest<W, D>(history: History<W, D>, typeId: nat, keysOnly: bool): Option<Registration<W, D>> {
    if history == [] then None
    else
      var last := history[|history| - 1];
      if last.typeId == typeId && (keysOnly ==> last.isKey) then Some(last)
      else Newest(history[..|history| - 1], typeId, keysOnly)
  }

  /** The newest registration that named a .NET type. */
  ghost function NewestFor<W, D>(history: History<W, D>, d: D): Option<Registration<W, D>> {
    if history == [] then None
    else
      var last := history[|history| - 1];
      if last.dotnet == Some(d) then Some(last) else NewestFor(history[..|history| - 1], d)
  }

  ghost function WrapperOf<W, D>(g: Option<Registration<W, D>>): Option<W> {
    if g.Some? then Some(g.value.wrapper) else None
  }

  ghost function NameOf<W, D>(g: Option<Registration<W, D>>): Option<D> {
    if g.Some? then Some(g.value.name) else None
  }

  /** What the dictionaries hold after a history. */
  ghost predicate Follows<W, D(!new)>(history: History<W, D>, keyWrappers: map<nat, W>, valueWrappers: map<nat, W>,
                                      names: map<nat, D>, dotnetIds: map<D, nat>)
  {
    && (forall id: nat :: Lookup(valueWrappers, id) == WrapperOf(Newest(history, id, false)))
    && (forall id: nat :: Lookup(keyWrappers, id) == WrapperOf(Newest(history, id, true)))
    && (forall id: nat :: Lookup(names, id) == NameOf(Newest(history, id, false)))
    && (forall d :: d in dotnetIds <==> NewestFor(history, d).Some?)
    && (forall d :: d in dotnetIds ==> dotnetIds[d] == NewestFor(history, d).value.typeId)
  }

  class Factory<W, D(==, !new)> {
    var keyWrappers: map<nat, W>
    var valueWrappers: map<nat, W>
    var names: map<nat, D>
    var dotnetIds: map<D, nat>
    /** The registrations since the dictionaries were last cleared. */
    ghost var history: History<W, D>

    ghost predicate Valid()
      reads this
    {
      Follows(history, keyWrappers, valueWrappers, names, dotnetIds)
    }

    constructor ()
      ensures Valid() && history == []
    {
      keyWrappers, valueWrappers, names, dotnetIds, history := map[], map[], map[], map[], [];
    }

    method RegisterType(typeId: nat, name: D, wrapper: W, dotnet: Option<D>)
      requires Valid()
      modifies this
      ensures Valid() && history == old(history) + [Registration(false, typeId, name, wrapper, dotnet)]
    {
      valueWrappers := valueWrappers[typeId := wrapper];
      names := names[typeId := name];
      if dotnet.Some? {
        dotnetIds := dotnetIds[dotnet.value := typeId];
      }
      history := history + [Registration(false, typeId, name, wrapper, dotnet)];
      assert history[..|history| - 1] == old(history);
    }

    method RegisterKeyType(typeId: nat, name: D, wrapper: W, dotnet: Option<D>)
      requires Valid()
      modifies this
      ensures Valid() && history == old(history) + [Registration(true, typeId, name, wrapper, dotnet)]
    {
      keyWrappers := keyWrappers[typeId := wrapper];
      valueWrappers := valueWrappers[typeId := wrapper];
      names := names[typeId := name];
      if dotnet.Some? {
        dotnetIds := dotnetIds[dotnet.value := typeId];
      }
      history := history + [Registration(true, typeId, name, wrapper, dotnet)];
      assert history[..|history| - 1] == old(history);
    }

    method ClearStaticVariables()
      modifies this
      ensures Valid() && history == []
    {
      keyWrappers, valueWrappers, names, dotnetIds, history := map[], map[], map[], map[], [];
    }

    /** The wrapper of an id is the one registered last, as any kind of type. */
    function CreateInstance(typeId: nat): (w: Option<W>)
      requires Valid()
      reads this
      ensures w == WrapperOf(Newest(history, typeId, false))
    {
      Lookup(valueWrappers, typeId)
    }

    /** The key wrapper of an id is the one registered last as a key type. */
    function CreateKeyInstance(typeId: nat): (w: Option<W>)
      requires Valid()
      reads this
      ensures w == WrapperOf(Newest(history, typeId, true))
    {
      Lookup(keyWrappers, typeId)
    }

    function GetTypeForId(typeId: nat): (d: Option<D>)
      requires Valid()
      reads this
      ensures d == NameOf(Newest(history, typeId, false))
    {
      Lookup(names, typeId)
    }

    /** An object of .NET type `d` gets a wrapper exactly when its type was registered. */
    function CreateInstanceFor(d: D): (w: Option<W>)
      requires Valid()
      reads this
      ensures w.Some? <==> NewestFor(history, d).Some?
      ensures w.Some? ==> w == WrapperOf(Newest(history, NewestFor(history, d).value.typeId, false))
    {
      NamedTypeRegistered(history, d);
      if d in dotnetIds then CreateInstance(dotnetIds[d]) else None
    }

    /** A key wrapper needs the id to have been registered as a key type at some time. */
    function CreateKeyInstanceFor(d: D): (w: Option<W>)
      requires Valid()
      reads this
      ensures w == if NewestFor(history, d).None? then None
                   else WrapperOf(Newest(history, NewestFor(history, d).value.typeId, true))
    {
      if d in dotnetIds then CreateKeyInstance(dotnetIds[d]) else None
    }
  }

  /** A .NET type never leads to an id without a wrapper. */
  lemma {:induction false} NamedTypeRegistered<W, D>(history: History<W, D>, d: D)
    ensures NewestFor(history, d).Some? ==> Newest(history, NewestFor(history, d).value.typeId, false).Some?
  {
    if history != [] {
      NamedTypeRegistered(history[..|history| - 1], d);
    }
  }

  /** Key types are value types: a key wrapper implies a wrapper. */
  lemma {:induction false} KeyTypesAreTypes<W, D>(history: History<W, D>, typeId: nat)
    ensures Newest(history, typeId, true).Some? ==> Newest(history, typeId, false).Some?
  {
    if history != [] {
      KeyTypesAreTypes(history[..|history| - 1], typeId);
    }
  }

  ghost predicate LastAt<W, D>(history: History<W, D>, matches: Registration<W, D> -> bool, i: nat) {
    i < |history| && matches(history[i]) && forall j :: i < j < |history| ==> !matches(history[j])
  }

  /** The last registration that meets a condition, or none if there is none. */
  ghost predicate IsLast<W, D>(history: History<W, D>, matches: Registration<W, D> -> bool, g: Option<Registration<W, D>>) {
    match g
    case None => forall i :: 0 <= i < |history| ==> !matches(history[i])
    case Some(r) => exists i: nat :: LastAt(history, matches, i) && history[i] == r
  }

  lemma LastAtStep<W, D>(history: History<W, D>, matches: Registration<W, D> -> bool, i: nat)
    requires history != [] && !matches(history[|history| - 1]) && LastAt(history[..|history| - 1], matches, i)
    ensures LastAt(history, matches, i)
  {
    var earlier := history[..|history| - 1];
    forall j | i < j < |history| ensures !matches(history[j]) {
      assert j < |earlier| ==> history[j] == earlier[j];
    }
  }

  lemma IsLastStep<W, D>(history: History<W, D>, matches: Registration<W, D> -> bool, g: Option<Registration<W, D>>)
    requires history != [] && IsLast(history[..|history| - 1], matches, g)
    ensures var last := history[|history| - 1];
            IsLast(history, matches, if matches(last) then Some(last) else g)
  {
    var n := |history| - 1;
    if matches(history[n]) {
      assert LastAt(history, matches, n);
    } else if g.Some? {
      var i: nat :| LastAt(history[..n], matches, i) && history[..n][i] == g.value;
      LastAtStep(history, matches, i);
    }
  }

  /** What an id leads to: its last registration, and for keys its last one as a key type. */
  lemma {:induction false} NewestIsLast<W, D>(history: History<W, D>, typeId: nat, keysOnly: bool)
    ensures IsLast(history, (r: Registration<W, D>) => r.typeId == typeId && (keysOnly ==> r.isKey), Newest(history, typeId, keysOnly))
  {
    if history != [] {
      var matches := (r: Registration<W, D>) => r.typeId == typeId && (keysOnly ==> r.isKey);
      NewestIsLast(history[..|history| - 1], typeId, keysOnly);
      IsLastStep(history, matches, Newest(history[..|history| - 1], typeId, keysOnly));
    }
  }

  /** What a .NET type leads to: the last registration that named it. */
  lemma {:induction false} NewestForIsLast<W, D>(history: History<W, D>, d: D)
    ensures IsLast(history, (r: Registration<W, D>) => r.dotnet == Some(d), NewestFor(history, d))
  {
    if history != [] {
      var matches := (r: Registration<W, D>) => r.dotnet == Some(d);
      NewestForIsLast(history[..|history| - 1], d);
      IsLastStep(history, matches, NewestFor(history[..|history| - 1], d));
    }
  }
}
