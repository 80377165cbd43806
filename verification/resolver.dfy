/** The private resolver `pass_first_index_matching_predicate_to` together
    with its three compile-time type filters and two run-time key predicates.
    It walks the slot indices 0..N-1 in order and selects the first index that
    passes both the type filter (on the slot's base type) and the key
    predicate; when none does, the call fails with InvalidArgument. */
module Resolver {
  import opened Wrappers
  import opened Slots

  /** `TruePredicate`: every slot type passes (used by `is_set`). */
  function TruePredicate(): (p: Ty -> bool)
    ensures forall t :: p(t)
  {
    _ => true
  }

  /** `IsSettableFrom<T>`: the slot type is reachable from T by implicit
      conversion (used by `set`). */
  function IsSettableFrom<V>(tp: Typing<V>, from: Ty): (p: Ty -> bool)
    ensures forall t :: p(t) <==> tp.convertible(from, t)
  {
    t => tp.convertible(from, t)
  }

  /** `IsGettableAs<T>`: the slot type is exactly T (used by `get`). */
  function IsGettableAs(want: Ty): (p: Ty -> bool)
    ensures p(want)
    ensures forall t :: p(t) ==> t == want
  {
    t => t == want
  }

  /** `ensure_name_matches`: hashes the looked-up name once and compares it
      with the hash stored for each slot. */
  function NameMatches<V>(m: ParameterMap<V>, hash: string -> nat, name: string): (p: nat -> bool)
    ensures forall i: nat :: p(i) <==> i < |m.hashes| && m.hashes[i] == hash(name)
  {
    var h := hash(name);
    (i: nat) => i < |m.hashes| && m.hashes[i] == h
  }

  /** The key predicate of the run-time-index overloads: `i == index`. */
  function IndexIs(index: nat): (p: nat -> bool)
    ensures p(index)
    ensures forall i: nat :: p(i) ==> i == index
  {
    i => i == index
  }

  /** Slot i passes both filters. */
  ghost predicate Matches<V>(m: ParameterMap<V>, typeOk: Ty -> bool, keyOk: nat -> bool, i: nat) {
    i < |m.tys| && typeOk(m.tys[i]) && keyOk(i)
  }

  /** Slot i is the lowest index that passes both filters. */
  ghost predicate IsFirstMatch<V>(m: ParameterMap<V>, typeOk: Ty -> bool, keyOk: nat -> bool, i: nat) {
    Matches(m, typeOk, keyOk, i) && forall j :: 0 <= j < i ==> !Matches(m, typeOk, keyOk, j)
  }

  /** No slot passes both filters. */
  ghost predicate NoMatch<V>(m: ParameterMap<V>, typeOk: Ty -> bool, keyOk: nat -> bool) {
    forall j :: 0 <= j < |m.tys| ==> !Matches(m, typeOk, keyOk, j)
  }

  /** One step of the unrolled `static_for` per index i, carrying the `found`
      flag (here: the index it was set at). The key predicate is consulted only
      while nothing has been found, as in the source. */
  function Scan<V>(m: ParameterMap<V>, typeOk: Ty -> bool, keyOk: nat -> bool, i: nat, found: Option<nat>): (r: Option<nat>)
    requires m.WellFormed() && i <= |m.tys|
    requires found.Some? ==> found.value < i && IsFirstMatch(m, typeOk, keyOk, found.value)
    requires found.None? ==> forall j :: 0 <= j < i ==> !Matches(m, typeOk, keyOk, j)
    ensures r.Some? ==> IsFirstMatch(m, typeOk, keyOk, r.value)
    ensures r.None? ==> NoMatch(m, typeOk, keyOk)
    decreases |m.tys| - i
  {
    if i == |m.tys| then found
    else
      var found' := if typeOk(m.tys[i]) && found.None? && keyOk(i) then Some(i) else found;
      Scan(m, typeOk, keyOk, i + 1, found')
  }

  /** The resolver proper: the index the action would be run on, or
      InvalidArgument ("No parameters match the given input"). */
  function Resolve<V>(m: ParameterMap<V>, typeOk: Ty -> bool, keyOk: nat -> bool): (r: Result<nat, Err>)
    requires m.WellFormed()
    ensures r.Success? ==> IsFirstMatch(m, typeOk, keyOk, r.value)
    ensures r.Failure? ==> r.error == InvalidArgument && NoMatch(m, typeOk, keyOk)
  {
    match Scan(m, typeOk, keyOk, 0, None)
    case Some(i) => Success(i)
    case None => Failure(InvalidArgument)
  }

  /** The first match is unique, so the resolver's choice is determined. */
  lemma FirstMatchUnique<V>(m: ParameterMap<V>, typeOk: Ty -> bool, keyOk: nat -> bool, i: nat, j: nat)
    requires IsFirstMatch(m, typeOk, keyOk, i) && IsFirstMatch(m, typeOk, keyOk, j)
    ensures i == j
  {
  }

  /** The resolver selects exactly the first match: it succeeds with i if and
      only if i is the lowest matching index, and fails with InvalidArgument if
      and only if no index matches. */
  lemma ResolveIsFirstMatch<V>(m: ParameterMap<V>, typeOk: Ty -> bool, keyOk: nat -> bool, i: nat)
    requires m.WellFormed()
    ensures Resolve(m, typeOk, keyOk) == Success(i) <==> IsFirstMatch(m, typeOk, keyOk, i)
    ensures Resolve(m, typeOk, keyOk) == Failure(InvalidArgument) <==> NoMatch(m, typeOk, keyOk)
  {
  }
}
