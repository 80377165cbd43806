/** The container of the test suite, `ParameterMap<int, bool, const
    std::string&>` named ("myInt", "enabled", "name"), over a small value
    universe with the implicit conversions C++ allows among these types. */
module Scenario {
  import opened Wrappers
  import opened Slots
  import opened Resolver
  import opened Accessors
  import opened Dispatch
  import opened Properties

  datatype Demo = IntV(i: int) | BoolV(b: bool) | StrV(s: string) | CharsV(s: string)

  const IntTy := Ty("int")
  const BoolTy := Ty("bool")
  const StringTy := Ty("std::string")
  const CharsTy := Ty("const char*")

  function TyOfDemo(d: Demo): Ty {
    match d
    case IntV(_) => IntTy
    case BoolV(_) => BoolTy
    case StrV(_) => StringTy
    case CharsV(_) => CharsTy
  }

  /** Implicit conversions among the four types: identity, int <-> bool,
      a string literal to std::string, and a (non-null) pointer to bool. */
  function ConvertibleDemo(from: Ty, to: Ty): bool {
    || from == to
    || (from == IntTy && to == BoolTy)
    || (from == BoolTy && to == IntTy)
    || (from == CharsTy && to == StringTy)
    || (from == CharsTy && to == BoolTy)
  }

  function ConvertDemo(d: Demo, to: Ty): Demo {
    if TyOfDemo(d) == to then d
    else match d
      case IntV(i) => if to == BoolTy then BoolV(i != 0) else d
      case BoolV(b) => if to == IntTy then IntV(if b then 1 else 0) else d
      case CharsV(s) => if to == StringTy then StrV(s) else if to == BoolTy then BoolV(true) else d
      case StrV(_) => d
  }

  const DemoTyping := Typing(TyOfDemo, ConvertibleDemo, ConvertDemo)

  /** The demo conversions yield values of the target type. */
  lemma DemoTypingSound()
    ensures Sound(DemoTyping)
  {
  }

  const Names := ["myInt", "enabled", "name"]
  const Types := [IntTy, BoolTy, StringTy]

  /** The three names hash to distinct values. */
  ghost predicate DistinctHashes(hash: string -> nat) {
    hash("myInt") != hash("enabled") && hash("myInt") != hash("name") && hash("enabled") != hash("name")
  }

  function Fresh(hash: string -> nat): (m: ParameterMap<Demo>)
    ensures m.WellFormed() && |m.tys| == 3
  {
    New(hash, Types, Names)
  }

  /** The state after set("myInt", 3), set("enabled", true) and
      set("name", "Homer Simpson"). */
  function Populated(hash: string -> nat): (m: ParameterMap<Demo>)
    ensures m.WellFormed() && m.tys == Types
    ensures m.slots == [Some(IntV(3)), Some(BoolV(true)), Some(StrV("Homer Simpson"))]
  {
    SetAt(DemoTyping, SetAt(DemoTyping, SetAt(DemoTyping, Fresh(hash), 0, IntV(3)), 1, BoolV(true)), 2, CharsV("Homer Simpson"))
  }

  /** Each by-name `set` of the scenario lands on the slot of that name; the
      string literal is stored converted to std::string. */
  lemma ScenarioSetsByName(hash: string -> nat)
    requires DistinctHashes(hash)
    ensures var m0 := Fresh(hash);
      var m1 := SetAt(DemoTyping, m0, 0, IntV(3));
      var m2 := SetAt(DemoTyping, m1, 1, BoolV(true));
      && SetByName(DemoTyping, hash, m0, "myInt", IntV(3)) == Success(m1)
      && SetByName(DemoTyping, hash, m1, "enabled", BoolV(true)) == Success(m2)
      && SetByName(DemoTyping, hash, m2, "name", CharsV("Homer Simpson")) == Success(Populated(hash))
  {
  }

  /** In the populated state: get<int>("myInt") == 3, get<bool>(1) == true,
      get<std::string>(2) == "Homer Simpson", every slot is set, and submit
      passes the three values in order. */
  lemma ScenarioReads(hash: string -> nat)
    requires DistinctHashes(hash)
    ensures var m := Populated(hash);
      && GetByName(hash, m, IntTy, "myInt") == Success(IntV(3))
      && GetByIndex(m, BoolTy, 1) == Success(BoolV(true))
      && GetByIndex(m, StringTy, 2) == Success(StrV("Homer Simpson"))
      && IsSetByIndex(m, 0) == IsSetByIndex(m, 1) == IsSetByIndex(m, 2) == Success(true)
      && Submit(m, (args: seq<Demo>) => args) == Success([IntV(3), BoolV(true), StrV("Homer Simpson")])
  {
    var m := Populated(hash);
    GetByNameReadsFirstNamed(hash, m, IntTy, "myInt", 0);
    SubmitPassesStoredValues(m, (args: seq<Demo>) => args, [IntV(3), BoolV(true), StrV("Homer Simpson")]);
  }

  /** set("myInt", 6) overwrites slot 0; clear() then empties every slot and
      every get fails with MissingValue. */
  lemma ScenarioOverwriteThenClear(hash: string -> nat)
    requires DistinctHashes(hash)
    ensures var m := Populated(hash);
      && SetByName(DemoTyping, hash, m, "myInt", IntV(6)).Success?
      && var m' := SetByName(DemoTyping, hash, m, "myInt", IntV(6)).value;
      && GetByIndex(m', IntTy, 0) == Success(IntV(6))
      && var c := Clear(m');
      && IsSetByIndex(c, 0) == IsSetByIndex(c, 1) == IsSetByIndex(c, 2) == Success(false)
      && GetByIndex(c, IntTy, 0) == GetByIndex(c, BoolTy, 1) == GetByIndex(c, StringTy, 2) == Failure(MissingValue)
  {
  }

  /** The parameterised set/get test by run-time index: any int, bool and
      std::string set by index into the test container are read back exactly,
      by run-time index and by compile-time index. */
  lemma ScenarioSetGetByIndex(hash: string -> nat, k: int, b: bool, t: string)
    ensures var m0 := Fresh(hash);
      && SetByIndex(DemoTyping, m0, 0, IntV(k)).Success?
      && var m1 := SetByIndex(DemoTyping, m0, 0, IntV(k)).value;
      && SetByIndex(DemoTyping, m1, 1, BoolV(b)).Success?
      && var m2 := SetByIndex(DemoTyping, m1, 1, BoolV(b)).value;
      && SetByIndex(DemoTyping, m2, 2, StrV(t)).Success?
      && var m3 := SetByIndex(DemoTyping, m2, 2, StrV(t)).value;
      && GetByIndex(m3, IntTy, 0) == GetAt(m3, 0) == Success(IntV(k))
      && GetByIndex(m3, BoolTy, 1) == GetAt(m3, 1) == Success(BoolV(b))
      && GetByIndex(m3, StringTy, 2) == GetAt(m3, 2) == Success(StrV(t))
  {
    DemoTypingSound();
    var m0 := Fresh(hash);
    SetThenGetReturnsValue(DemoTyping, m0, 0, IntV(k));
    var m1 := SetByIndex(DemoTyping, m0, 0, IntV(k)).value;
    SetThenGetReturnsValue(DemoTyping, m1, 1, BoolV(b));
    var m2 := SetByIndex(DemoTyping, m1, 1, BoolV(b)).value;
    SetThenGetReturnsValue(DemoTyping, m2, 2, StrV(t));
    var m3 := SetByIndex(DemoTyping, m2, 2, StrV(t)).value;
    assert m3.slots == [Some(IntV(k)), Some(BoolV(b)), Some(StrV(t))];
  }

  /** Duplicate names: with slots ("x": int, "x": std::string), a string
      literal is set into slot 1, since it does not convert to int, but
      is_set("x") inspects slot 0 whatever its type and reports false, and
      get<int>("x") reports MissingValue. */
  lemma IsSetByNameAfterSetByNameCanDisagree(hash: string -> nat)
    ensures var m0: ParameterMap<Demo> := New(hash, [IntTy, StringTy], ["x", "x"]);
      && SetByName(DemoTyping, hash, m0, "x", CharsV("hi")).Success?
      && var m1 := SetByName(DemoTyping, hash, m0, "x", CharsV("hi")).value;
      && m1.slots == [None, Some(StrV("hi"))]
      && IsSetByName(hash, m1, "x") == Success(false)
      && GetByName(hash, m1, IntTy, "x") == Failure(MissingValue)
  {
    var m0: ParameterMap<Demo> := New(hash, [IntTy, StringTy], ["x", "x"]);
    assert !ConvertibleDemo(CharsTy, IntTy) && ConvertibleDemo(CharsTy, StringTy);
    SetByNameLandsOnFirstNamed(DemoTyping, hash, m0, "x", CharsV("hi"), 1);
    var m1 := SetAt(DemoTyping, m0, 1, CharsV("hi"));
    IsSetByNameReadsFirstNamed(hash, m1, "x", 0);
    GetByNameReadsFirstNamed(hash, m1, IntTy, "x", 0);
  }

  /** is_set(3) on the three-slot map fails with InvalidArgument, where set(3, …)
      and get<int>(3) fail with OutOfRange. */
  lemma ScenarioIndexThree(hash: string -> nat)
    ensures IsSetByIndex(Fresh(hash), 3) == Failure(InvalidArgument)
    ensures SetByIndex(DemoTyping, Fresh(hash), 3, IntV(3)) == Failure(OutOfRange)
    ensures GetByIndex(Fresh(hash), IntTy, 3) == Failure(OutOfRange)
  {
  }
}
