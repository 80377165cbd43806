/** Properties of the container across operations: framing of `set`, the
    set/get round trip in every addressing mode, error precedence, occupancy as
    reported by `is_set`, `clear`, and the all-or-nothing `submit`. */
module Properties {
  import opened Wrappers
  import opened Slots
  import opened Resolver
  import opened Accessors
  import opened Dispatch

  /** Slot i is the lowest slot whose name hash equals `h` and whose base type
      passes `typeOk`. */
  ghost predicate FirstNamed<V>(m: ParameterMap<V>, h: nat, typeOk: Ty -> bool, i: nat)
    requires m.WellFormed()
  {
    && i < |m.tys| && m.hashes[i] == h && typeOk(m.tys[i])
    && forall j :: 0 <= j < i ==> !(m.hashes[j] == h && typeOk(m.tys[j]))
  }

  /** No slot before i has both i's name hash and i's base type, so a by-name
      `get` with i's type and name reaches slot i. */
  ghost predicate Unshadowed<V>(m: ParameterMap<V>, i: nat)
    requires m.WellFormed() && i < |m.tys|
  {
    forall j :: 0 <= j < i ==> !(m.hashes[j] == m.hashes[i] && m.tys[j] == m.tys[i])
  }

  /** The by-name key predicate and a type filter select slot i exactly when i
      is the first slot with the name's hash passing that filter. */
  lemma FirstMatchByName<V>(m: ParameterMap<V>, hash: string -> nat, name: string, typeOk: Ty -> bool, i: nat)
    requires m.WellFormed()
    ensures IsFirstMatch(m, typeOk, NameMatches(m, hash, name), i) <==> FirstNamed(m, hash(name), typeOk, i)
  {
    var keyOk := NameMatches(m, hash, name);
    assert forall j :: 0 <= j < |m.tys| ==> (Matches(m, typeOk, keyOk, j) <==> m.hashes[j] == hash(name) && typeOk(m.tys[j]));
  }

  /** `set(name, v)` writes the first slot with the name's hash that is
      settable from v's type. */
  lemma SetByNameLandsOnFirstNamed<V>(tp: Typing<V>, hash: string -> nat, m: ParameterMap<V>, name: string, v: V, i: nat)
    requires m.WellFormed() && FirstNamed(m, hash(name), IsSettableFrom(tp, tp.tyOf(v)), i)
    ensures SetByName(tp, hash, m, name, v) == Success(SetAt(tp, m, i, v))
  {
  }

  /** `get<T>(name)` reads the first slot with the name's hash whose type is
      exactly T. */
  lemma GetByNameReadsFirstNamed<V>(hash: string -> nat, m: ParameterMap<V>, want: Ty, name: string, i: nat)
    requires m.WellFormed() && FirstNamed(m, hash(name), IsGettableAs(want), i)
    ensures GetByName(hash, m, want, name) == GetAt(m, i)
  {
  }

  /** `is_set(name)` reports the first slot with the name's hash, of any type. */
  lemma IsSetByNameReadsFirstNamed<V>(hash: string -> nat, m: ParameterMap<V>, name: string, i: nat)
    requires m.WellFormed() && FirstNamed(m, hash(name), TruePredicate(), i)
    ensures IsSetByName(hash, m, name) == Success(IsSetAt(m, i))
  {
  }

  // ---------------------------------------------------------------------------
  // Resolution: with duplicate names the lowest compatible slot wins
  // ---------------------------------------------------------------------------

  /** When two slots a < b carry the same name hash and both accept the value's
      type, `set(name, v)` succeeds and never writes the later slot b. */
  lemma DuplicateNameLowestWins<V>(tp: Typing<V>, hash: string -> nat, m: ParameterMap<V>, name: string, v: V, a: nat, b: nat)
    requires m.WellFormed() && a < b < |m.tys|
    requires m.hashes[a] == hash(name) && m.hashes[b] == hash(name)
    requires tp.convertible(tp.tyOf(v), m.tys[a]) && tp.convertible(tp.tyOf(v), m.tys[b])
    ensures SetByName(tp, hash, m, name, v).Success?
    ensures SetByName(tp, hash, m, name, v).value.slots[b] == m.slots[b]
  {
    var typeOk := IsSettableFrom(tp, tp.tyOf(v));
    assert Matches(m, typeOk, NameMatches(m, hash, name), a);
    var i := Resolve(m, typeOk, NameMatches(m, hash, name)).value;
    FirstMatchByName(m, hash, name, typeOk, i);
    assert i <= a;
  }

  // ---------------------------------------------------------------------------
  // set: framing and the slot-type invariant
  // ---------------------------------------------------------------------------

  /** A successful `set(name, v)` wrote exactly one slot i: the first slot with
      the name's hash that is settable from v's type. That slot now holds the
      converted value, every other slot is unchanged, names and types are
      unchanged, and the slot-type invariant is kept. */
  lemma SetByNameFrames<V(!new)>(tp: Typing<V>, hash: string -> nat, m: ParameterMap<V>, name: string, v: V) returns (i: nat)
    requires m.WellFormed() && SetByName(tp, hash, m, name, v).Success?
    ensures FirstNamed(m, hash(name), IsSettableFrom(tp, tp.tyOf(v)), i)
    ensures var r := SetByName(tp, hash, m, name, v).value;
      && r.WellFormed() && r.tys == m.tys && r.hashes == m.hashes
      && r.slots[i] == Some(tp.convert(v, m.tys[i]))
      && (forall j :: 0 <= j < |m.slots| && j != i ==> r.slots[j] == m.slots[j])
      && (Sound(tp) && Typed(tp, m) ==> Typed(tp, r))
  {
    var typeOk := IsSettableFrom(tp, tp.tyOf(v));
    i := Resolve(m, typeOk, NameMatches(m, hash, name)).value;
    FirstMatchByName(m, hash, name, typeOk, i);
  }

  /** `set(index, v)` succeeds exactly when the index is in range and the slot
      is settable from v's type; it then writes that slot only and keeps the
      slot-type invariant. */
  lemma SetByIndexFrames<V(!new)>(tp: Typing<V>, m: ParameterMap<V>, index: nat, v: V)
    requires m.WellFormed()
    ensures SetByIndex(tp, m, index, v).Success? <==> index < |m.tys| && tp.convertible(tp.tyOf(v), m.tys[index])
    ensures SetByIndex(tp, m, index, v).Success? ==>
      var r := SetByIndex(tp, m, index, v).value;
      && r.tys == m.tys && r.hashes == m.hashes
      && r.slots[index] == Some(tp.convert(v, m.tys[index]))
      && (forall j :: 0 <= j < |m.slots| && j != index ==> r.slots[j] == m.slots[j])
      && (Sound(tp) && Typed(tp, m) ==> Typed(tp, r))
  {
  }

  /** Every operation keeps the slot-type invariant and the arity N. */
  lemma OperationsPreserveInvariant<V(!new)>(tp: Typing<V>, hash: string -> nat, m: ParameterMap<V>, name: string, index: nat, v: V)
    requires Sound(tp) && Typed(tp, m)
    ensures var r := SetByName(tp, hash, m, name, v); r.Success? ==> Typed(tp, r.value) && Size(r.value) == Size(m)
    ensures var r := SetByIndex(tp, m, index, v); r.Success? ==> Typed(tp, r.value) && Size(r.value) == Size(m)
    ensures Typed(tp, Clear(m)) && Size(Clear(m)) == Size(m)
  {
  }

  /** Writes to two different slots commute. */
  lemma SetAtCommutes<V>(tp: Typing<V>, m: ParameterMap<V>, i: nat, j: nat, v: V, w: V)
    requires m.WellFormed() && i < |m.tys| && j < |m.tys| && i != j
    requires tp.convertible(tp.tyOf(v), m.tys[i]) && tp.convertible(tp.tyOf(w), m.tys[j])
    ensures SetAt(tp, SetAt(tp, m, i, v), j, w) == SetAt(tp, SetAt(tp, m, j, w), i, v)
  {
  }

  // ---------------------------------------------------------------------------
  // get round-trips set, in every mode
  // ---------------------------------------------------------------------------

  /** A stored value x in slot i is returned by `get` with the slot's exact
      base type by compile-time index and by run-time index, and by any name
      hashing to slot i's hash provided no earlier slot shares that hash and
      type. */
  lemma GetInEveryMode<V>(hash: string -> nat, m: ParameterMap<V>, i: nat, name: string, x: V)
    requires m.WellFormed() && i < |m.tys| && m.slots[i] == Some(x)
    ensures GetAt(m, i) == Success(x)
    ensures GetByIndex(m, m.tys[i], i) == Success(x)
    ensures hash(name) == m.hashes[i] && Unshadowed(m, i) ==> GetByName(hash, m, m.tys[i], name) == Success(x)
  {
    if hash(name) == m.hashes[i] && Unshadowed(m, i) {
      GetByNameReadsFirstNamed(hash, m, m.tys[i], name, i);
    }
  }

  /** After `set(name, v)`, the converted value is read back by every `get`
      mode with the resolved slot's exact type, including by the same name;
      when v already has that type, `get` returns v itself. */
  lemma SetByNameThenGet<V(!new)>(tp: Typing<V>, hash: string -> nat, m: ParameterMap<V>, name: string, v: V) returns (i: nat)
    requires m.WellFormed() && SetByName(tp, hash, m, name, v).Success?
    ensures i < |m.tys|
    ensures var r := SetByName(tp, hash, m, name, v).value;
      var x := tp.convert(v, m.tys[i]);
      && GetAt(r, i) == Success(x)
      && GetByIndex(r, m.tys[i], i) == Success(x)
      && GetByName(hash, r, m.tys[i], name) == Success(x)
    ensures Sound(tp) && tp.tyOf(v) == m.tys[i] ==> tp.convert(v, m.tys[i]) == v
  {
    i := SetByNameFrames(tp, hash, m, name, v);
    var r := SetByName(tp, hash, m, name, v).value;
    forall j | 0 <= j < i
      ensures !(r.hashes[j] == r.hashes[i] && r.tys[j] == r.tys[i])
    {
      assert !(m.hashes[j] == hash(name) && IsSettableFrom(tp, tp.tyOf(v))(m.tys[j]));
    }
    GetInEveryMode(hash, r, i, name, tp.convert(v, m.tys[i]));
  }

  /** After `set(index, v)` or `set<index>(v)`, the converted value is read
      back with the slot's exact type by both index modes, and by name when
      the name reaches that slot; when v already has the slot's type, `get`
      returns v itself. */
  lemma SetByIndexThenGet<V(!new)>(tp: Typing<V>, hash: string -> nat, m: ParameterMap<V>, index: nat, v: V, name: string)
    requires m.WellFormed() && SetByIndex(tp, m, index, v).Success?
    ensures index < |m.tys|
    ensures var r := SetByIndex(tp, m, index, v).value;
      var x := tp.convert(v, m.tys[index]);
      && r == SetAt(tp, m, index, v)
      && GetAt(r, index) == Success(x)
      && GetByIndex(r, m.tys[index], index) == Success(x)
      && (hash(name) == m.hashes[index] && Unshadowed(m, index) ==> GetByName(hash, r, m.tys[index], name) == Success(x))
    ensures Sound(tp) && tp.tyOf(v) == m.tys[index] ==> tp.convert(v, m.tys[index]) == v
  {
    var r := SetByIndex(tp, m, index, v).value;
    GetInEveryMode(hash, r, index, name, tp.convert(v, m.tys[index]));
  }

  /** The exact round trip: storing a value of the slot's own base type and
      reading it back, by run-time index or compile-time index, returns that
      very value. */
  lemma SetThenGetReturnsValue<V(!new)>(tp: Typing<V>, m: ParameterMap<V>, i: nat, v: V)
    requires Sound(tp) && m.WellFormed() && i < |m.tys|
    requires tp.tyOf(v) == m.tys[i] && tp.convertible(m.tys[i], m.tys[i])
    ensures SetByIndex(tp, m, i, v).Success?
    ensures GetByIndex(SetByIndex(tp, m, i, v).value, m.tys[i], i) == Success(v)
    ensures GetAt(SetAt(tp, m, i, v), i) == Success(v)
  {
    assert tp.convert(v, tp.tyOf(v)) == v;
  }

  /** Setting a slot twice leaves only the second value: no residue of the
      first. */
  lemma SetAtOverwrites<V>(tp: Typing<V>, m: ParameterMap<V>, i: nat, v: V, w: V)
    requires m.WellFormed() && i < |m.tys|
    requires tp.convertible(tp.tyOf(v), m.tys[i]) && tp.convertible(tp.tyOf(w), m.tys[i])
    ensures SetAt(tp, SetAt(tp, m, i, v), i, w) == SetAt(tp, m, i, w)
  {
  }

  /** Resolution reads only names and types, never stored values: two maps
      that agree on both resolve every by-name lookup to the same slot. */
  lemma ResolveByNameIgnoresValues<V>(m1: ParameterMap<V>, m2: ParameterMap<V>, hash: string -> nat, name: string, typeOk: Ty -> bool)
    requires m1.WellFormed() && m2.WellFormed()
    requires m1.tys == m2.tys && m1.hashes == m2.hashes
    ensures Resolve(m1, typeOk, NameMatches(m1, hash, name)) == Resolve(m2, typeOk, NameMatches(m2, hash, name))
  {
    var r1 := Resolve(m1, typeOk, NameMatches(m1, hash, name));
    var r2 := Resolve(m2, typeOk, NameMatches(m2, hash, name));
    if r1.Success? {
      FirstMatchByName(m1, hash, name, typeOk, r1.value);
      FirstMatchByName(m2, hash, name, typeOk, r1.value);
      ResolveIsFirstMatch(m2, typeOk, NameMatches(m2, hash, name), r1.value);
    } else if r2.Success? {
      FirstMatchByName(m1, hash, name, typeOk, r2.value);
      FirstMatchByName(m2, hash, name, typeOk, r2.value);
      ResolveIsFirstMatch(m1, typeOk, NameMatches(m1, hash, name), r2.value);
    }
  }

  /** `set(name, v)` followed by `set(name, w)` equals `set(name, w)` alone:
      the second write lands on the same slot and replaces the first. */
  lemma SetByNameOverwrites<V>(tp: Typing<V>, hash: string -> nat, m: ParameterMap<V>, name: string, v: V, w: V)
    requires m.WellFormed() && SetByName(tp, hash, m, name, v).Success?
    requires tp.tyOf(w) == tp.tyOf(v)
    ensures SetByName(tp, hash, SetByName(tp, hash, m, name, v).value, name, w) == SetByName(tp, hash, m, name, w)
  {
    var m1 := SetByName(tp, hash, m, name, v).value;
    var typeOk := IsSettableFrom(tp, tp.tyOf(v));
    var i := Resolve(m, typeOk, NameMatches(m, hash, name)).value;
    assert m1 == SetAt(tp, m, i, v);
    ResolveByNameIgnoresValues(m, m1, hash, name, typeOk);
    SetAtOverwrites(tp, m, i, v, w);
  }

  // ---------------------------------------------------------------------------
  // Error precedence of get
  // ---------------------------------------------------------------------------

  /** `get<T>(name)`: a name or type mismatch is reported as InvalidArgument
      even when the slot carrying the name is empty; a resolved but empty slot
      is reported as MissingValue. */
  lemma GetByNameErrorOrder<V>(hash: string -> nat, m: ParameterMap<V>, want: Ty, name: string, i: nat)
    requires m.WellFormed()
    ensures (forall j :: 0 <= j < |m.tys| ==> !(m.hashes[j] == hash(name) && m.tys[j] == want)) ==>
      GetByName(hash, m, want, name) == Failure(InvalidArgument)
    ensures FirstNamed(m, hash(name), IsGettableAs(want), i) && m.slots[i].None? ==>
      GetByName(hash, m, want, name) == Failure(MissingValue)
  {
    FirstMatchByName(m, hash, name, IsGettableAs(want), i);
  }

  /** `get<T>(index)`: out of range beats a type mismatch, which beats an
      empty slot. */
  lemma GetByIndexErrorOrder<V>(m: ParameterMap<V>, want: Ty, index: nat)
    requires m.WellFormed()
    ensures index >= |m.tys| ==> GetByIndex(m, want, index) == Failure(OutOfRange)
    ensures index < |m.tys| && m.tys[index] != want ==> GetByIndex(m, want, index) == Failure(InvalidArgument)
    ensures index < |m.tys| && m.tys[index] == want && m.slots[index].None? ==>
      GetByIndex(m, want, index) == Failure(MissingValue)
  {
  }

  // ---------------------------------------------------------------------------
  // is_set, clear, size
  // ---------------------------------------------------------------------------

  /** `is_set(name)` resolves with the always-true filter: it succeeds for
      every name some slot carries, whatever its type, while `get<T>(name)`
      with a type no such slot has fails with InvalidArgument. */
  lemma IsSetByNameIgnoresType<V>(hash: string -> nat, m: ParameterMap<V>, name: string, want: Ty, i: nat)
    requires m.WellFormed() && i < |m.tys| && m.hashes[i] == hash(name)
    requires forall j :: 0 <= j < |m.tys| && m.hashes[j] == hash(name) ==> m.tys[j] != want
    ensures IsSetByName(hash, m, name).Success?
    ensures GetByName(hash, m, want, name) == Failure(InvalidArgument)
  {
  }

  /** A freshly constructed map reports every slot unset in all three modes. */
  lemma FreshMapIsUnset<V>(hash: string -> nat, tys: seq<Ty>, names: seq<string>, i: nat)
    requires |names| == |tys| && i < |tys|
    ensures var m: ParameterMap<V> := New(hash, tys, names);
      && !IsSetAt(m, i)
      && IsSetByIndex(m, i) == IsSetByIndexChecked(m, i) == Success(false)
      && IsSetByName(hash, m, names[i]) == Success(false)
  {
  }

  /** After `set<i>(v)` slot i is reported set by compile-time index and by
      run-time index, and by any name hashing to slot i's hash when no earlier
      slot shares that hash. */
  lemma IsSetAfterSet<V>(tp: Typing<V>, hash: string -> nat, m: ParameterMap<V>, i: nat, v: V, name: string)
    requires m.WellFormed() && i < |m.tys| && tp.convertible(tp.tyOf(v), m.tys[i])
    ensures var r := SetAt(tp, m, i, v);
      && IsSetAt(r, i)
      && IsSetByIndex(r, i) == IsSetByIndexChecked(r, i) == Success(true)
      && (hash(name) == m.hashes[i] && (forall j :: 0 <= j < i ==> m.hashes[j] != m.hashes[i]) ==>
          IsSetByName(hash, r, name) == Success(true))
  {
  }

  /** After `clear()` no slot is set in any mode, and `get` with the slot's
      type fails with MissingValue in every mode: by compile-time index, by
      run-time index, and by any name that resolves to the slot. */
  lemma ClearEmptiesEverything<V>(hash: string -> nat, m: ParameterMap<V>, i: nat, want: Ty, name: string)
    requires m.WellFormed() && i < |m.tys|
    ensures var c := Clear(m);
      && IsSetByIndex(c, i) == IsSetByIndexChecked(c, i) == Success(false)
      && GetAt(c, i) == Failure(MissingValue)
      && GetByIndex(c, m.tys[i], i) == Failure(MissingValue)
      && (FirstNamed(c, hash(name), IsGettableAs(want), i) ==> GetByName(hash, c, want, name) == Failure(MissingValue))
      && GetByName(hash, c, want, name).Failure?
      && (IsSetByName(hash, c, name).Success? ==> IsSetByName(hash, c, name) == Success(false))
  {
  }

  /** `clear()` twice is `clear()` once, and a cleared map is exactly the map
      as constructed from its names. */
  lemma ClearIdempotentAndFresh<V>(hash: string -> nat, m: ParameterMap<V>, names: seq<string>)
    requires m.WellFormed() && |names| == |m.tys|
    requires forall i :: 0 <= i < |names| ==> m.hashes[i] == hash(names[i])
    ensures Clear(Clear(m)) == Clear(m)
    ensures Clear(m) == New(hash, m.tys, names)
  {
  }

  /** `size()` is N before and after every operation. */
  lemma SizeIsConstant<V>(tp: Typing<V>, hash: string -> nat, m: ParameterMap<V>, name: string, index: nat, v: V)
    requires m.WellFormed()
    ensures var r := SetByName(tp, hash, m, name, v); r.Success? ==> Size(r.value) == Size(m)
    ensures var r := SetByIndex(tp, m, index, v); r.Success? ==> Size(r.value) == Size(m)
    ensures Size(Clear(m)) == Size(m)
  {
  }

  /** `is_set(index)` as written reports an index >= N as InvalidArgument, not
      the OutOfRange its documentation names; the corrected variant agrees with
      it on every valid index and reports OutOfRange beyond. */
  lemma IsSetByIndexOutOfRange<V>(m: ParameterMap<V>, index: nat)
    requires m.WellFormed()
    ensures index >= |m.tys| ==> IsSetByIndex(m, index) == Failure(InvalidArgument)
    ensures index >= |m.tys| ==> IsSetByIndexChecked(m, index) == Failure(OutOfRange)
    ensures index < |m.tys| ==> IsSetByIndexChecked(m, index) == IsSetByIndex(m, index)
  {
  }

  // ---------------------------------------------------------------------------
  // submit
  // ---------------------------------------------------------------------------

  /** With any slot empty, `submit` fails with MissingValue whatever function
      is passed: the function is not consulted, i.e. never called. */
  lemma SubmitIncompleteIgnoresFunction<V, R>(m: ParameterMap<V>, f: seq<V> -> R, g: seq<V> -> R, i: nat)
    requires m.WellFormed() && i < |m.slots| && m.slots[i].None?
    ensures Submit(m, f) == Submit(m, g) == Failure(MissingValue)
  {
  }

  /** With every slot occupied, `submit` returns the function's result on
      exactly the stored values, in slot order. */
  lemma SubmitPassesStoredValues<V, R>(m: ParameterMap<V>, f: seq<V> -> R, args: seq<V>)
    requires m.WellFormed() && |args| == |m.slots|
    requires forall i :: 0 <= i < |args| ==> m.slots[i] == Some(args[i])
    ensures Submit(m, f) == Success(f(args))
  {
    assert Arguments(m) == args;
  }

  /** A `set` between two submits is observed by the second: it sees the
      stored arguments with slot i replaced by the converted value. */
  lemma SubmitObservesSet<V, R>(tp: Typing<V>, m: ParameterMap<V>, f: seq<V> -> R, i: nat, v: V)
    requires m.WellFormed() && AllSet(m) && i < |m.tys| && tp.convertible(tp.tyOf(v), m.tys[i])
    ensures Submit(SetAt(tp, m, i, v), f) == Success(f(Arguments(m)[i := tp.convert(v, m.tys[i])]))
  {
    SubmitPassesStoredValues(SetAt(tp, m, i, v), f, Arguments(m)[i := tp.convert(v, m.tys[i])]);
  }
}
