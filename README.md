# core::optional — a verified model

This project models `core::optional<valueType>` from `utils/Optional.h`. It is the
hand-rolled nullable container of the mp4parser repository. A flag `_hasValue`
guards an inline union slot `_value`. The slot holds a live value of the held type
exactly when the flag is set.

The model has three modules:

- `Lifecycle` (Lifecycle.dfy) is the abstract state of one container. It holds the
  slot (`Vacant` or `Live(v)`) and tallies of the held type's constructions,
  destructions and in-place assignments in that slot. One function specifies each
  mutating operation: `Born`, `Reset`, `AssignValue`, the four-case `Assign`, and
  `MovedFrom`. Each function preserves `Paired`: the constructions in the slot number
  the destructions plus one for the live value, if any. `Reset` destroys only a live
  value and a construction always goes into a vacant slot. `Lifetime` proves that over
  any sequence of mutations followed by the destructor, constructions equal
  destructions.
- `Core` (Optional.dfy) has the class `Optional<T>`. Its fields are the flag
  `hasValue`, the slot and the ghost tallies. `Valid()` says the flag agrees with the
  slot and the tallies are paired. Constructors, `reset`, the `operator=` overloads,
  `_assign`, `_construct` and the destructor are methods. Each method is proved to
  follow its `Lifecycle` function. `has_value`, `operator bool`, `_check_value`,
  `get` and `get_or` are functions over the fields. So are the free `operator==`
  overloads and the free `has_value`. `make_optional` is a method.
- `Scenarios` (Scenarios.dfy) uses the class the way a client would. It states the
  container's documented behaviour as postconditions proved from Core's
  specifications alone.

Modelling choices:

- The `std::runtime_error` thrown by `_check_value` is the `Fail`/`Err` case of
  `Outcome`/`Result`. Its message is `"Dereferencing optional with no value"`.
- The held type's own operations are parameters. Its `operator==` is `eq`, so the
  operand order of `operator==(const T&, const optional<T>&)` stays visible. Its
  conversion from `U` is `convert`. Its constructor from `InPlace` arguments is
  `make`. The value its move constructor or move assignment leaves in the source is
  `residue`.
- Moves follow the code: a moved-from container keeps its flag. A holding source
  therefore still reports holding, now with the `residue` value. No construction or
  destruction happens in it.
- The converting constructors (`utils/Optional.h:62-78`) do not compile when
  instantiated. Line 67 calls an undeclared `construct`, and both constructors read
  `other._value`, which is private to a different instantiation.
  `Core.Optional.ConvertFrom` and `Core.Optional.ConvertMoveFrom` model the evidently
  intended behaviour: the same as the copy and move constructors, with the value
  passed through `convert`.
- `operator*() &&` and `operator*() const&&` (`utils/Optional.h:198-199`) do not
  compile when used. They `return get();`, and inside a member function `*this` is an
  lvalue. That call therefore picks `get() &` or `get() const&`, whose lvalue
  reference cannot bind to the `valueType&&` or `const valueType&&` return type. The
  model covers only the `&` and `const&` forms of `operator*`, through `Get`.
- Converting assignment (`operator=(const optional<U>&)`) goes through `_assign`. On
  holding/holding it assigns the converted value in place (`_value = other.get()`),
  and the model follows this code. It does not destroy and reconstruct the value.

## Model

| member | source | states |
|---|---|---|
| `Lifecycle.Born` | utils/Optional.h:30-84 | A freshly constructed container holds exactly the given slot. It has one construction when holding and none when empty, no destructions and no assignments, and it is paired. |
| `Lifecycle.Reset` | utils/Optional.h:141-148 | After `reset` the slot is vacant. On an empty container nothing changes. On a holding one there is exactly one more destruction and nothing else changes. Pairing is kept. |
| `Lifecycle.AssignValue` | utils/Optional.h:127-139 | After assigning a bare value the slot holds that value. Into a holding container: one in-place assignment, no construction. Into an empty one: one construction, no assignment. No destruction in either case. Pairing is kept. |
| `Lifecycle.Assign` | utils/Optional.h:228-250 | The four cases of `_assign`. Holding/holding: one in-place assignment. Holding/empty: one destruction. Empty/holding: one construction. Empty/empty: no change. In every case the slot ends equal to the source's, and pairing is kept. |
| `Lifecycle.MovedFrom` | utils/Optional.h:54-60 | A move leaves the source's presence unchanged. A holding source then holds the residue, and its tallies do not change. Pairing is kept. |
| `Lifecycle.Step` | utils/Optional.h:88-148 | Every mutation (reset, null assignment, value assignment, container assignment, being moved from) keeps construction/destruction pairing. |
| `Lifecycle.RunKeepsPaired` | utils/Optional.h:141-250 | Any sequence of mutations keeps pairing. |
| `Lifecycle.Lifetime` | utils/Optional.h:86 | Over a whole lifetime (construction, any mutations, then the destructor's `reset`), constructions equal destructions and the slot ends vacant. |
| `Lifecycle.ResetIdempotent` | utils/Optional.h:141-148 | `reset` twice is `reset` once. |
| `Lifecycle.AssignIsValueOrReset` | utils/Optional.h:228-250 | Container assignment equals value assignment when the source holds, and `reset` when it is empty. |
| `Core.Optional.constructor` | utils/Optional.h:30 | Default construction yields an empty, valid container with no construction. |
| `Core.Optional.FromNull` | utils/Optional.h:32 | Construction from `NullOptional` yields an empty container. |
| `Core.Optional.FromValue` | utils/Optional.h:34-44 | Construction from a value yields a container holding that value, after exactly one construction. |
| `Core.Optional.InPlaceFrom` | utils/Optional.h:80-84 | In-place construction yields a container holding the value built from the arguments, after exactly one construction. |
| `Core.Optional.Copy` | utils/Optional.h:46-52 | The copy constructor takes the source's flag. The new container holds the source's value when the source holds. The source is not modified. |
| `Core.Optional.Move` | utils/Optional.h:54-60 | The move constructor takes the source's flag and value. The source keeps its flag, and when it was holding it now holds the residue. |
| `Core.Optional.ConvertFrom` | utils/Optional.h:62-69 | Intended converting copy: the source's flag, and the converted value when the source holds. |
| `Core.Optional.ConvertMoveFrom` | utils/Optional.h:71-78 | Intended converting move: the converted value. The source keeps its flag and holds the residue. |
| `Core.Optional.Construct` | utils/Optional.h:222-226 | Placement construction into a vacant slot: the slot then holds the value, there is one more construction, and the flag is untouched. |
| `Core.Optional.Reset` | utils/Optional.h:141-148 | The new state is `Lifecycle.Reset` of the old one, and the container is empty. |
| `Core.Optional.Destruct` | utils/Optional.h:86 | The destructor resets. Afterwards constructions equal destructions. |
| `Core.Optional.AssignNull` | utils/Optional.h:88-92 | Assigning `NullOptional` has exactly the effect of `reset`. |
| `Core.Optional.AssignValue` | utils/Optional.h:120-139 | Assigning a bare value follows `Lifecycle.AssignValue`. The container then holds that value. |
| `Core.Optional.Assign` | utils/Optional.h:228-250 | `_assign` (also behind `operator=(const optional<U>&)` at lines 106-111) follows `Lifecycle.Assign` on the converted source. The flag ends equal to the source's, and aliasing of source and target is allowed. |
| `Core.Optional.CopyAssign` | utils/Optional.h:94-98 | Copy assignment follows `Lifecycle.Assign` with the source's own slot. |
| `Core.Optional.MoveAssign` | utils/Optional.h:100-118 | Move assignment (same type with the identity conversion, or converting) follows `Lifecycle.Assign`. The source keeps its flag, and when it was holding it holds the residue. |
| `Core.Optional.HasValue` | utils/Optional.h:150 | `has_value()` is true exactly when the slot holds a live value. |
| `Core.Optional.ToBool` | utils/Optional.h:151 | `operator bool` is true exactly when the slot holds a live value. |
| `Core.Optional.CheckValue` | utils/Optional.h:214-220 | `_check_value` fails exactly when the flag is clear, with the message "Dereferencing optional with no value". |
| `Core.Optional.Get` | utils/Optional.h:153-202 | `get` in its four reference forms (and the `&` and `const&` forms of `operator*`, and `operator->`) returns the held value exactly when the slot is live. Otherwise it fails with the no-value runtime error. |
| `Core.Optional.GetOr` | utils/Optional.h:159-183 | `get_or(d)` never fails. It returns the held value when holding and `d` when empty. |
| `Core.Equals` | utils/Optional.h:253-257 | Two containers are equal exactly when both are empty, or both hold values the held type's equality calls equal. |
| `Core.EqualsNull` | utils/Optional.h:259-263 | `x == NullOptional` exactly when `x` is empty. |
| `Core.NullEquals` | utils/Optional.h:265-269 | `NullOptional == x` exactly when `x` is empty. |
| `Core.EqualsValue` | utils/Optional.h:271-275 | `x == v` exactly when `x` holds `w` with `w == v`. |
| `Core.ValueEquals` | utils/Optional.h:277-281 | `v == x` exactly when `x` holds `w` with `v == w`, the bare value on the left. |
| `Core.HasValueOf` | utils/Optional.h:289-293 | The free `has_value` is true exactly when the container's slot is live. |
| `Core.MakeOptional` | utils/Optional.h:283-287 | `make_optional` yields a fresh container holding the value built from the arguments, after exactly one construction. |
| `Core.EqualsIsEquivalence` | utils/Optional.h:253-257 | Container equality is reflexive, symmetric and transitive whenever the held type's equality is. |
| `Core.MixedEqualityOrder` | utils/Optional.h:271-281 | With a symmetric held-type equality, `x == v` and `v == x` agree. |
| `Core.EqualsValueIsEquals` | utils/Optional.h:253-275 | Comparing with a bare value is the same as comparing with a container holding it. |
| `Core.EqualsNullIsEquals` | utils/Optional.h:253-269 | Comparing with `NullOptional`, in either order, is the same as comparing with an empty container. |
| `Core.GetOrAgreesWithGet` | utils/Optional.h:153-183 | `get_or(d)` is what `get` returns when `get` does not throw, and `d` exactly when it does. |
| `Scenarios.DefaultIsEmpty` | utils/Optional.h:30 | A default container is empty, `get` throws the no-value error, and `get_or(d)` returns `d`. |
| `Scenarios.ValueIsHeld` | utils/Optional.h:41-44 | A container built from `v` holds `v`, and `get` returns `v`. |
| `Scenarios.CopyIsIndependent` | utils/Optional.h:46-52 | Assigning to the original after a copy leaves the copy's value unchanged. |
| `Scenarios.MovedFromStillHolds` | utils/Optional.h:54-60 | The moved-to container holds the value. The moved-from one still reports holding. |
| `Scenarios.MakeMatchesInPlace` | utils/Optional.h:283-287 | `make_optional` and in-place construction with the same arguments compare equal. |
| `Scenarios.EqualityLaws` | utils/Optional.h:253-281 | `optional(5) == optional(5)`, `optional(5) != optional(6)`, empty equals empty, `optional(5) != NullOptional`, `NullOptional ==` empty, `optional(5) == 5`. |
| `Scenarios.HelloThenNull` | utils/Optional.h:88-139 | An empty container assigned "hello" returns "hello". After assigning `NullOptional` it is empty and `get` throws. |
| `Scenarios.AssignMakesEqual` | utils/Optional.h:94-98 | After copy assignment the target compares equal to the source, when the held type's equality is reflexive. |

## Left out

- main.cpp is a demo driver: file I/O, printing and calls into an MP4 parser. The parser is not part of this model.
- utils/TypeTraits.h holds compile-time type aliases and enum macros only. They have no run-time behaviour.
- The `std::enable_if`/`is_same` gating of the value constructor and value assignment (lines 34-40, 120-126) is not modelled. The model has one value path typed by the held type.
- `get` has `&`, `const&`, `&&` and `const&&` overloads (lines 153-194), and the model has one `Get` for all four. They differ only in the reference category they return. `get_or` has only `&` and `const&` overloads (lines 159-183), and the model has one `GetOr` for both. `operator*` has the `&` and `const&` forms the model covers through `Get`. Its `&&` and `const&&` forms (lines 198-199) do not compile, as noted above. `core::forward` and `std::move` (from Move.h) are not part of this model.
- `get`, `get_or`, `operator*` and `operator->` return a reference into the slot, through which a caller can change the held value. The model returns the value, so it has no mutation through that reference.
- `operator->` returns the address of the held value. The model has no addresses; it is covered by `Get`.
- The raw union and placement-new layout (lines 206-212, 225) is modelled abstractly as the `Slot` datatype.
- Exceptions raised by the held type's own constructor, assignment or `==` are foreign operations and are not modelled. With them, a throwing `_construct` in `operator=` would leave the flag clear.
- Core.Optional.MoveAssign: requires the source to be a different object. The value a self-move-assignment leaves is the held type's unspecified behaviour.
- Concurrency: the container has none; it is single-threaded.
