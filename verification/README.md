# ParameterMap in Dafny

A model of `qbouts::ParameterMap<PARAMETERS...>`, a fixed-arity container of N typed,
named parameter slots. Each slot has a base type, a name (stored as a hash) and an
optional value. Callers fill slots with `set` and inspect them with `get` and `is_set`,
addressing a slot by name, by run-time index or by compile-time index. `clear` empties
all slots, `size` is N, and `submit` calls a function with all N stored values in slot
order.

The model is functional. The container is the datatype `Slots.ParameterMap<V>`, which
holds three parallel sequences: base types, name hashes and `Option<V>` values. Every
operation is a pure function that returns a new map or a `Result` carrying one of three
error kinds:

- `OutOfRange` stands for `std::out_of_range`.
- `InvalidArgument` stands for `std::invalid_argument`.
- `MissingValue` stands for `std::runtime_error`.

Modules:

- `Wrappers`: the `Option` and `Result` datatypes.
- `Slots`: the registry and the compile-time-index accesses (`set<I>`, `get<I>`,
  `is_set<I>`), plus `clear`, `size` and the constructor.
- `Resolver`: `pass_first_index_matching_predicate_to`, its three type filters
  (`TruePredicate`, `IsSettableFrom`, `IsGettableAs`), `ensure_name_matches`, and the
  key predicate `i == index`. `Scan` walks the indices 0..N-1 the way `static_for` does
  and carries the `found` flag.
- `Accessors`: `set`, `get` and `is_set` by name and by run-time index.
- `Dispatch`: `submit` and `apply_optionals`.
- `Properties`: lemmas that relate the operations to each other.
- `Scenario`: the container used in the test suite, `(int, bool, const std::string&)`
  named `("myInt", "enabled", "name")`, over a small value universe.

The C++ type system and `std::hash` are passed in as parameters:

- `Typing<V>` supplies the base type of every value, the implicit-convertibility
  relation and the conversion itself. `Sound(tp)` says two things. A permitted conversion
  yields a value of the target type. Assigning a value to a slot of its own base type
  copies the value unchanged.
- `hash: string -> nat` is the name hash. The same function is used when the map is
  constructed and on every by-name lookup, so hash collisions behave as in the source.

The compile-time checks of the source become preconditions:

- the arity check on the constructor is `|names| == |tys|`;
- `INDEX < N` and convertibility become preconditions of `SetAt` / `GetAt` / `IsSetAt`.

## Model

| member | source | states |
|---|---|---|
| Slots.New | include/ParameterMap.h:246-250 | the map has one slot per declared type, slot i stores the hash of name i, and every slot starts empty |
| Slots.Size | include/ParameterMap.h:183 | size() is the arity N shared by the type, hash and value sequences |
| Slots.SetAt | include/ParameterMap.h:268-272 | set<I>(v) stores v converted to slot I's type in slot I, leaves all other slots, names and types unchanged, and keeps the slot-type invariant |
| Slots.GetAt | include/ParameterMap.h:299-304 | get<I>() succeeds exactly when slot I is occupied and returns its value; otherwise it fails with MissingValue |
| Slots.IsSetAt | include/ParameterMap.h:306-310 | is_set<I>() is true exactly when get<I>() would succeed |
| Slots.Clear | include/ParameterMap.h:328-331 | clear() leaves every slot empty and keeps names, types and arity |
| Resolver.TruePredicate | include/ParameterMap.h:362-365 | the type filter of is_set accepts every slot type |
| Resolver.IsSettableFrom | include/ParameterMap.h:374-380 | the type filter of set accepts exactly the slot types that v's base type implicitly converts to |
| Resolver.IsGettableAs | include/ParameterMap.h:382-388 | the type filter of get accepts the requested base type T and no other type |
| Resolver.NameMatches | include/ParameterMap.h:411-415 | ensure_name_matches accepts exactly the slots whose stored hash equals hash(name), so it depends on the name only through its hash |
| Resolver.IndexIs | include/ParameterMap.h:264 | the key of the run-time-index overloads (also at lines 291 and 323) accepts the given index and no other |
| Resolver.Scan | include/ParameterMap.h:391-408 | the static_for walk with its found flag ends on the lowest index passing both filters, or reports that no index passes |
| Resolver.Resolve | include/ParameterMap.h:391-408 | the resolver yields the lowest index passing the type filter and the key predicate; if none passes it fails with InvalidArgument |
| Resolver.FirstMatchUnique | include/ParameterMap.h:395-404 | at most one index is the first match, so the action runs on exactly one index |
| Resolver.ResolveIsFirstMatch | include/ParameterMap.h:393-408 | resolution succeeds with i iff i is the first match, and fails with InvalidArgument iff nothing matches |
| Accessors.SetByName | include/ParameterMap.h:252-257 | set(name, v) fails with InvalidArgument iff no slot has the name's hash and a type convertible from v's; otherwise it writes the first such slot |
| Accessors.SetByIndex | include/ParameterMap.h:260-266 | set(index, v) fails with OutOfRange if index >= N, then with InvalidArgument if the slot type is not convertible from v's, and otherwise writes slot index |
| Accessors.GetByName | include/ParameterMap.h:274-284 | get<T>(name) fails with InvalidArgument iff no slot has the name's hash and type exactly T; otherwise it behaves as get<I> on the first such slot |
| Accessors.GetByIndex | include/ParameterMap.h:286-297 | get<T>(index) gives OutOfRange if index >= N, then InvalidArgument if the slot type is not T, and otherwise behaves as get<index> |
| Accessors.IsSetByName | include/ParameterMap.h:312-318 | is_set(name) fails with InvalidArgument iff no slot has the name's hash; otherwise it reports whether the first slot with that hash is occupied, whatever that slot's type |
| Accessors.IsSetByIndex | include/ParameterMap.h:320-326 | is_set(index) reports whether slot index is occupied; with no bounds check, index >= N fails with InvalidArgument |
| Accessors.IsSetByIndexChecked | include/ParameterMap.h:151-157 | the documented is_set(index): OutOfRange for index >= N, and otherwise the same occupancy answer |
| Dispatch.Unwrap | include/ParameterMap.h:422-426 | unwrapping the occupied optionals keeps their number and order |
| Dispatch.Arguments | include/ParameterMap.h:428-433 | the argument list has N entries, and entry i is the value stored in slot i |
| Dispatch.Submit | include/ParameterMap.h:333-343 | submit fails with MissingValue iff some slot is empty; otherwise it returns f applied to the stored values in slot order |
| Properties.FirstMatchByName | include/ParameterMap.h:410-415 | with the name key, the first match is the lowest slot whose stored hash equals hash(name) and whose type passes the filter |
| Properties.SetByNameLandsOnFirstNamed | include/ParameterMap.h:252-257 | set(name, v) equals set<i>(v) for the first slot i with the name's hash whose type is convertible from v's |
| Properties.GetByNameReadsFirstNamed | include/ParameterMap.h:274-284 | get<T>(name) equals get<i>() for the first slot i with the name's hash and type T |
| Properties.IsSetByNameReadsFirstNamed | include/ParameterMap.h:312-318 | is_set(name) equals is_set<i>() for the first slot i with the name's hash, of any type |
| Properties.DuplicateNameLowestWins | include/ParameterMap.h:395-404 | when two compatible slots share a name, set(name, v) succeeds and never writes the later slot |
| Properties.SetByNameFrames | include/ParameterMap.h:252-257 | a successful set(name, v) writes only the resolved slot, with the converted value; all other slots, names and types are unchanged and the slot-type invariant is kept |
| Properties.SetByIndexFrames | include/ParameterMap.h:260-266 | set(index, v) succeeds iff index < N and the slot type is convertible from v's; it then writes only that slot and keeps the invariant |
| Properties.OperationsPreserveInvariant | include/ParameterMap.h:211-214 | every set and clear keeps the slot-type invariant and the arity |
| Properties.SetAtCommutes | include/ParameterMap.h:268-272 | writes to different slots commute |
| Properties.GetInEveryMode | include/ParameterMap.h:274-304 | a stored value is returned by get with the slot's exact type by both index modes, duplicate names or not, and by name when no earlier slot shares that name and type |
| Properties.SetByNameThenGet | tst/ParameterMap_gTest.cpp:269-274 | after set(name, v), get with the resolved slot's type returns the converted v in all three modes, including by the same name; when v already has that type, the result is v itself |
| Properties.SetByIndexThenGet | tst/ParameterMap_gTest.cpp:269-274 | after set(index, v), which equals set<index>(v), both index modes of get return the converted v, and so does get by a name that reaches the slot; when v already has the slot type, the result is v itself |
| Properties.SetThenGetReturnsValue | tst/ParameterMap_gTest.cpp:269-282 | storing a value of the slot's own base type by index and reading it back by run-time or compile-time index returns exactly that value |
| Properties.SetAtOverwrites | tst/ParameterMap_gTest.cpp:275-282 | setting a slot twice is the same as setting it once with the second value |
| Properties.ResolveByNameIgnoresValues | include/ParameterMap.h:391-415 | by-name resolution depends only on names and types, never on stored values |
| Properties.SetByNameOverwrites | tst/ParameterMap_gTest.cpp:136-153 | set(name, v) then set(name, w) equals set(name, w) alone |
| Properties.GetByNameErrorOrder | include/ParameterMap.h:274-284 | get<T>(name) gives InvalidArgument on a name or type mismatch even if the named slot is empty, and MissingValue when the resolved slot is empty |
| Properties.GetByIndexErrorOrder | include/ParameterMap.h:286-297 | get<T>(index) reports OutOfRange first, then a type mismatch, then MissingValue |
| Properties.IsSetByNameIgnoresType | include/ParameterMap.h:312-318 | is_set(name) succeeds for any name some slot carries, even where get<T>(name) fails for a type no slot of that name has |
| Properties.FreshMapIsUnset | tst/ParameterMap_gTest.cpp:91-134 | a freshly constructed map reports every slot unset in all three modes |
| Properties.IsSetAfterSet | tst/ParameterMap_gTest.cpp:106-134 | after set<i>(v), slot i is reported set by both index modes, and by name when no earlier slot shares its hash |
| Properties.ClearEmptiesEverything | tst/ParameterMap_gTest.cpp:284-292 | after clear(), no slot is set, and get with the slot's type fails with MissingValue (runtime_error) by compile-time index, by run-time index and by any name that resolves to the slot |
| Properties.ClearIdempotentAndFresh | tst/ParameterMap_gTest.cpp:313-321 | clear() twice equals clear() once, and a cleared map equals the freshly constructed map |
| Properties.SizeIsConstant | include/ParameterMap.h:183 | size() is the same before and after every operation |
| Properties.IsSetByIndexOutOfRange | include/ParameterMap.h:320-326 | the as-written is_set(index) reports index >= N as InvalidArgument; the checked variant reports OutOfRange and agrees on valid indices |
| Properties.SubmitIncompleteIgnoresFunction | include/ParameterMap.h:337-341 | with any slot empty, submit fails with MissingValue whatever the function, so the function is never called |
| Properties.SubmitPassesStoredValues | tst/ParameterMap_gTest.cpp:163-184 | with every slot set, submit returns f applied to exactly the stored values in slot order |
| Properties.SubmitObservesSet | include/ParameterMap.h:200-201 | a set between two submits is visible to the second one; submit itself leaves the map as it was |
| Scenario.ScenarioSetsByName | tst/ParameterMap_gTest.cpp:25-30 | in the test container, each by-name set lands on its named slot, and the string literal is stored as std::string |
| Scenario.ScenarioReads | tst/ParameterMap_gTest.cpp:80-89 | the populated test container reads back 3, true and "Homer Simpson", reports every slot set, and submits the three values in order |
| Scenario.ScenarioSetGetByIndex | tst/ParameterMap_gTest.cpp:269-274 | in the test container, any int, bool and string set by run-time index are read back exactly, by run-time and compile-time index |
| Scenario.ScenarioOverwriteThenClear | tst/ParameterMap_gTest.cpp:136-153 | set("myInt", 6) overwrites slot 0, and after clear() every slot is unset and every get fails with MissingValue |
| Scenario.IsSetByNameAfterSetByNameCanDisagree | include/ParameterMap.h:312-318 | with duplicate names (int, std::string), a string literal goes into slot 1, yet is_set("x") inspects slot 0 and reports false |
| Scenario.ScenarioIndexThree | tst/ParameterMap_gTest.cpp:46-60 | on three slots, set(3, …) and get<int>(3) fail with OutOfRange but is_set(3) fails with InvalidArgument |

## Findings

| source | as written | input that shows it | evidently intended | confidence | as-written member | corrected member |
|---|---|---|---|---|---|---|
| include/ParameterMap.h:320-326 | `is_set(index)` does not check bounds, so an index >= N matches no slot and throws `std::invalid_argument` | `is_set(3)` on a three-parameter map (Scenario.ScenarioIndexThree) | `std::out_of_range`, as its documentation (include/ParameterMap.h:155) and the `set`/`get` index overloads promise | medium; not executed | Accessors.IsSetByIndex (exhibited by Properties.IsSetByIndexOutOfRange) | Accessors.IsSetByIndexChecked |

The lemmas about `is_set` by index (FreshMapIsUnset, IsSetAfterSet, ClearEmptiesEverything) hold for both
variants. The model follows the code: `Accessors.IsSetByIndex` is the as-written behaviour.

## Left out

- Compile-time machinery (`static_for`, `if constexpr`, `std::integral_constant`, the arity and invocability `requires` clauses) becomes preconditions and ordinary recursion over 0..N-1.
- `std::hash` internals are not modelled. The hash is a parameter `hash`, and `std::hash<std::string>` (at construction) and `std::hash<std::string_view>` (at lookup) are assumed to agree.
- The concrete C++ implicit conversions are not modelled. `Typing` leaves them abstract. `Scenario` fixes one small instance (int, bool, std::string, const char*) for the worked example.
- Reference and cv-qualifiers, copy-vs-move in `submit`, and the lifetime of the reference `get` returns have no counterpart: `get` returns the value itself.
- Exceptions thrown by the function passed to `submit` are not modelled. That function is a total `seq<V> -> R`.
- Dispatch.Submit: accepts any function on the argument list. The compile-time check that the function is invocable with the declared parameter types is not modelled.
- Slots.SetAt: its slot-type invariant ensures holds only when the conversion yields a value of the slot's type. C++ guarantees this by construction. `Properties.OperationsPreserveInvariant` states the unconditional form under `Sound`.
- The usage example program (console output) and the test harness are not modelled. The tests are cited as evidence for the properties.
