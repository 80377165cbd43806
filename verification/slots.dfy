/** The slot registry: N typed slots, each with a hashed name and an optional
    stored value, and the accesses by compile-time index that need no
    resolution (`set<INDEX>`, `get<INDEX>`, `is_set<INDEX>`, `clear`, `size`). */
module Slots {
  import opened Wrappers

  /** A parameter's base type: its declared type with reference and
      cv-qualifiers stripped, which is the type a slot stores. */
  datatype Ty = Ty(name: string)

  /** The three run-time error kinds, one per exception type thrown. */
  datatype Err =
    | OutOfRange       // std::out_of_range: a run-time index >= N
    | InvalidArgument  // std::invalid_argument: no slot matches the name/index and type
    | MissingValue     // std::runtime_error: the resolved slot (or some slot, for submit) is empty

  /** What the C++ type system knows about values of the universe V: the base
      type of every value, which base types implicitly convert into which, and
      the conversion itself. All three are left abstract. */
  datatype Typing<!V> = Typing(tyOf: V -> Ty, convertible: (Ty, Ty) -> bool, convert: (V, Ty) -> V)

  /** A conversion the type system allows yields a value of the target type,
      and assigning a value to a slot of its own base type copies it
      unchanged. */
  ghost predicate Sound<V(!new)>(tp: Typing<V>) {
    && (forall v: V, t: Ty :: tp.convertible(tp.tyOf(v), t) ==> tp.tyOf(tp.convert(v, t)) == t)
    && (forall v: V :: tp.convert(v, tp.tyOf(v)) == v)
  }

  /** The container: per slot i its base type, the hash of its name and its
      optional value. The three sequences always have the common length N. */
  datatype ParameterMap<V> = ParameterMap(tys: seq<Ty>, hashes: seq<nat>, slots: seq<Option<V>>) {

    ghost predicate WellFormed() {
      |hashes| == |tys| && |slots| == |tys|
    }
  }

  /** The slot-type invariant: every stored value has its slot's base type. */
  ghost predicate Typed<V>(tp: Typing<V>, m: ParameterMap<V>) {
    && m.WellFormed()
    && forall i :: 0 <= i < |m.slots| && m.slots[i].Some? ==> tp.tyOf(m.slots[i].value) == m.tys[i]
  }

  /** All slots empty. */
  ghost predicate AllEmpty<V>(m: ParameterMap<V>) {
    forall i :: 0 <= i < |m.slots| ==> m.slots[i].None?
  }

  /** The constructor: one name per declared type (the arity check is done by
      the C++ compiler), each name hashed once and stored by position. */
  function New<V>(hash: string -> nat, tys: seq<Ty>, names: seq<string>): (m: ParameterMap<V>)
    requires |names| == |tys|
    ensures m.WellFormed() && m.tys == tys
    ensures forall i :: 0 <= i < |names| ==> m.hashes[i] == hash(names[i])
    ensures AllEmpty(m)
  {
    ParameterMap(tys, seq(|names|, i requires 0 <= i < |names| => hash(names[i])), seq(|tys|, _ => None))
  }

  /** `size()`: the arity N, a constant of the type. */
  function Size<V>(m: ParameterMap<V>): (n: nat)
    requires m.WellFormed()
    ensures n == |m.slots| == |m.hashes|
  {
    |m.tys|
  }

  /** `set<INDEX>(value)`: assigns the value, converted to the slot's base
      type, into slot i; the compiler has checked i < N and convertibility. */
  function SetAt<V>(tp: Typing<V>, m: ParameterMap<V>, i: nat, v: V): (r: ParameterMap<V>)
    requires m.WellFormed() && i < |m.tys|
    requires tp.convertible(tp.tyOf(v), m.tys[i])
    ensures r.WellFormed() && r.tys == m.tys && r.hashes == m.hashes
    ensures r.slots[i] == Some(tp.convert(v, m.tys[i]))
    ensures forall j :: 0 <= j < |m.slots| && j != i ==> r.slots[j] == m.slots[j]
    ensures tp.tyOf(tp.convert(v, m.tys[i])) == m.tys[i] && Typed(tp, m) ==> Typed(tp, r)
  {
    m.(slots := m.slots[i := Some(tp.convert(v, m.tys[i]))])
  }

  /** `get<INDEX>()`: the stored value of slot i, or MissingValue when the
      slot is empty. */
  function GetAt<V>(m: ParameterMap<V>, i: nat): (r: Result<V, Err>)
    requires m.WellFormed() && i < |m.tys|
    ensures r.Success? <==> m.slots[i].Some?
    ensures r.Success? ==> m.slots[i] == Some(r.value)
    ensures r.Failure? ==> r.error == MissingValue
  {
    match m.slots[i]
    case Some(v) => Success(v)
    case None => Failure(MissingValue)
  }

  /** `is_set<INDEX>()`: whether slot i holds a value, i.e. whether `get<INDEX>`
      would succeed. */
  function IsSetAt<V>(m: ParameterMap<V>, i: nat): (b: bool)
    requires m.WellFormed() && i < |m.tys|
    ensures b <==> GetAt(m, i).Success?
  {
    m.slots[i].Some?
  }

  /** `clear()`: empties every slot; names and types stay. */
  function Clear<V>(m: ParameterMap<V>): (r: ParameterMap<V>)
    requires m.WellFormed()
    ensures r.WellFormed() && r.tys == m.tys && r.hashes == m.hashes
    ensures AllEmpty(r)
  {
    m.(slots := seq(|m.slots|, _ => None))
  }
}
