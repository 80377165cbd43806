/** The run-time accessors `set`, `get` and `is_set`, addressed by name or by
    run-time index. Each one runs the resolver with its type filter and key
    predicate and then performs the compile-time-index access on the resolved
    slot. Error precedence: the bounds check (index overloads of `set` and
    `get` only), then resolution, then the presence check of `get`. */
module Accessors {
  import opened Wrappers
  import opened Slots
  import opened Resolver

  /** `set(name, value)`: stores into the first slot whose name hash matches
      and whose type is settable from the value's type. */
  function SetByName<V>(tp: Typing<V>, hash: string -> nat, m: ParameterMap<V>, name: string, v: V): (r: Result<ParameterMap<V>, Err>)
    requires m.WellFormed()
    ensures r.Failure? <==> forall j :: 0 <= j < |m.tys| ==> !(m.hashes[j] == hash(name) && tp.convertible(tp.tyOf(v), m.tys[j]))
    ensures r.Failure? ==> r.error == InvalidArgument
    ensures forall i :: IsFirstMatch(m, IsSettableFrom(tp, tp.tyOf(v)), NameMatches(m, hash, name), i) ==>
      r == Success(SetAt(tp, m, i, v))
  {
    assert forall j :: 0 <= j < |m.tys| ==>
      (Matches(m, IsSettableFrom(tp, tp.tyOf(v)), NameMatches(m, hash, name), j)
       <==> m.hashes[j] == hash(name) && tp.convertible(tp.tyOf(v), m.tys[j]));
    var i :- Resolve(m, IsSettableFrom(tp, tp.tyOf(v)), NameMatches(m, hash, name));
    Success(SetAt(tp, m, i, v))
  }

  /** `set(index, value)`: bounds check first, then the slot at `index` must be
      settable from the value's type. */
  function SetByIndex<V>(tp: Typing<V>, m: ParameterMap<V>, index: nat, v: V): (r: Result<ParameterMap<V>, Err>)
    requires m.WellFormed()
    ensures index >= |m.tys| ==> r == Failure(OutOfRange)
    ensures index < |m.tys| && !tp.convertible(tp.tyOf(v), m.tys[index]) ==> r == Failure(InvalidArgument)
    ensures index < |m.tys| && tp.convertible(tp.tyOf(v), m.tys[index]) ==> r == Success(SetAt(tp, m, index, v))
  {
    if index >= |m.tys| then Failure(OutOfRange)
    else
      assert Matches(m, IsSettableFrom(tp, tp.tyOf(v)), IndexIs(index), index)
        <==> tp.convertible(tp.tyOf(v), m.tys[index]);
      var i :- Resolve(m, IsSettableFrom(tp, tp.tyOf(v)), IndexIs(index));
      Success(SetAt(tp, m, i, v))
  }

  /** `get<T>(name)`: the first slot whose name hash matches and whose type is
      exactly `want`; InvalidArgument if there is none (even when the named
      slot is empty), MissingValue if that slot is empty. */
  function GetByName<V>(hash: string -> nat, m: ParameterMap<V>, want: Ty, name: string): (r: Result<V, Err>)
    requires m.WellFormed()
    ensures r == Failure(InvalidArgument) <==> forall j :: 0 <= j < |m.tys| ==> !(m.hashes[j] == hash(name) && m.tys[j] == want)
    ensures forall i :: IsFirstMatch(m, IsGettableAs(want), NameMatches(m, hash, name), i) ==> r == GetAt(m, i)
  {
    assert forall j :: 0 <= j < |m.tys| ==>
      (Matches(m, IsGettableAs(want), NameMatches(m, hash, name), j) <==> m.hashes[j] == hash(name) && m.tys[j] == want);
    var i :- Resolve(m, IsGettableAs(want), NameMatches(m, hash, name));
    GetAt(m, i)
  }

  /** `get<T>(index)`: bounds check, then the slot's type must be exactly
      `want`, then the slot must be occupied. */
  function GetByIndex<V>(m: ParameterMap<V>, want: Ty, index: nat): (r: Result<V, Err>)
    requires m.WellFormed()
    ensures index >= |m.tys| ==> r == Failure(OutOfRange)
    ensures index < |m.tys| && m.tys[index] != want ==> r == Failure(InvalidArgument)
    ensures index < |m.tys| && m.tys[index] == want ==> r == GetAt(m, index)
  {
    if index >= |m.tys| then Failure(OutOfRange)
    else
      assert Matches(m, IsGettableAs(want), IndexIs(index), index) <==> m.tys[index] == want;
      var i :- Resolve(m, IsGettableAs(want), IndexIs(index));
      GetAt(m, i)
  }

  /** `is_set(name)`: occupancy of the first slot whose name hash matches,
      whatever its type. */
  function IsSetByName<V>(hash: string -> nat, m: ParameterMap<V>, name: string): (r: Result<bool, Err>)
    requires m.WellFormed()
    ensures r.Failure? <==> forall j :: 0 <= j < |m.tys| ==> m.hashes[j] != hash(name)
    ensures r.Failure? ==> r.error == InvalidArgument
    ensures forall i: nat :: IsFirstMatch(m, TruePredicate(), NameMatches(m, hash, name), i) ==>
      r == Success(m.slots[i].Some?)
  {
    assert forall j :: 0 <= j < |m.tys| ==>
      (Matches(m, TruePredicate(), NameMatches(m, hash, name), j) <==> m.hashes[j] == hash(name));
    var i :- Resolve(m, TruePredicate(), NameMatches(m, hash, name));
    Success(IsSetAt(m, i))
  }

  /** `is_set(index)` as written: there is no bounds check, so an index >= N
      matches no slot and fails with InvalidArgument. */
  function IsSetByIndex<V>(m: ParameterMap<V>, index: nat): (r: Result<bool, Err>)
    requires m.WellFormed()
    ensures index < |m.tys| ==> r == Success(m.slots[index].Some?)
    ensures index >= |m.tys| ==> r == Failure(InvalidArgument)
  {
    assert index < |m.tys| ==> Matches(m, TruePredicate(), IndexIs(index), index);
    var i :- Resolve(m, TruePredicate(), IndexIs(index));
    Success(IsSetAt(m, i))
  }

  /** `is_set(index)` with the bounds check its documentation promises: an
      index >= N fails with OutOfRange, like `set(index, …)` and `get(index)`. */
  function IsSetByIndexChecked<V>(m: ParameterMap<V>, index: nat): (r: Result<bool, Err>)
    requires m.WellFormed()
    ensures index < |m.tys| ==> r == Success(m.slots[index].Some?)
    ensures index >= |m.tys| ==> r == Failure(OutOfRange)
  {
    if index >= |m.tys| then Failure(OutOfRange)
    else IsSetByIndex(m, index)
  }
}
