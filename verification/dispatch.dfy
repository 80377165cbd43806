/** `submit`: checks that every slot is occupied, and only then calls the
    function with all N stored values, in slot order. The function is a total
    function of the argument list; an exception it throws is not modelled. */
module Dispatch {
  import opened Wrappers
  import opened Slots

  /** Every slot holds a value. */
  predicate AllSet<V>(m: ParameterMap<V>)
    requires m.WellFormed()
  {
    forall i :: 0 <= i < |m.slots| ==> m.slots[i].Some?
  }

  /** Unwraps a sequence of occupied optionals, keeping their order. */
  function Unwrap<V>(slots: seq<Option<V>>): (vs: seq<V>)
    requires forall i :: 0 <= i < |slots| ==> slots[i].Some?
    ensures |vs| == |slots|
    ensures forall i :: 0 <= i < |vs| ==> slots[i] == Some(vs[i])
  {
    if slots == [] then [] else [slots[0].value] + Unwrap(slots[1..])
  }

  /** `apply_optionals`: the stored values unwrapped, in slot order. */
  function Arguments<V>(m: ParameterMap<V>): (args: seq<V>)
    requires m.WellFormed() && AllSet(m)
    ensures |args| == Size(m)
    ensures forall i :: 0 <= i < |args| ==> m.slots[i] == Some(args[i])
  {
    Unwrap(m.slots)
  }

  /** `submit(function)`: MissingValue if any slot is empty (checked before the
      call), otherwise the function's result on all stored values. The map is
      an input only: it is not modified. */
  function Submit<V, R>(m: ParameterMap<V>, f: seq<V> -> R): (r: Result<R, Err>)
    requires m.WellFormed()
    ensures r.Failure? <==> exists i :: 0 <= i < |m.slots| && m.slots[i].None?
    ensures r.Failure? ==> r.error == MissingValue
    ensures r.Success? ==> AllSet(m) && r.value == f(Arguments(m))
  {
    if !AllSet(m) then Failure(MissingValue)
    else Success(f(Arguments(m)))
  }
}
