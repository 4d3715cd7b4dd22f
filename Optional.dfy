/** `core::optional<valueType>` from utils/Optional.h: a flag `hasValue`
    guarding an inline slot that holds a live value exactly when the flag is
    set, the operations that move it between "empty" and "holding v", the
    failing accessor and the free equality operators.

    The held type's own operations are parameters where they matter: its
    equality is `eq`, a converting constructor is `convert`, an in-place
    constructor taking arguments is `make`, and what its move leaves in the
    moved-from object is `residue`. */
module Core {
  import opened Lifecycle

  /** The null marker's type and its one value (`NullOptional_t`, `NullOptional`). */
  datatype NullOptionalTag = NullOptional

  /** The tag that selects in-place construction (`InPlace_t`, `InPlace`). */
  datatype InPlaceTag = InPlace

  /** The message of the `std::runtime_error` thrown on access to an empty container. */
  const NoValueMessage: string := "Dereferencing optional with no value"

  /** A check that passes or throws a `std::runtime_error` with message `what`. */
  datatype Outcome = Pass | Fail(what: string)

  /** A value, or the `std::runtime_error` thrown instead of returning it. */
  datatype Result<T> = Ok(value: T) | Err(what: string)

  class Optional<T> {
    var hasValue: bool
    /** The union `{ dummy _dummy; valueType _value; }`. */
    var slot: Slot<T>
    /** Constructions, destructions and in-place assignments of held values. */
    ghost var counts: Counts

    ghost function Snapshot(): Config<T>
      reads this
    {
      Config(slot, counts)
    }

    /** The flag tells whether the slot holds a live value, and the
        constructions in the slot number the destructions plus one for the
        live value, if any. */
    ghost predicate Valid()
      reads this
    {
      (hasValue <==> slot.Live?) && Paired(Snapshot())
    }

    /** `optional()`: empty. */
    constructor ()
      ensures Valid() && Snapshot() == Born(Vacant)
      ensures !hasValue
    {
      hasValue := false;
      slot := Vacant;
      counts := Counts(0, 0, 0);
    }

    /** `optional(NullOptional_t)`: empty. */
    constructor FromNull(n: NullOptionalTag)
      ensures Valid() && Snapshot() == Born(Vacant)
      ensures !hasValue
    {
      hasValue := false;
      slot := Vacant;
      counts := Counts(0, 0, 0);
    }

    /** `optional(T&& t)` for `t` of the held type: holding `v`. */
    constructor FromValue(v: T)
      ensures Valid() && Snapshot() == Born(Live(v))
      ensures hasValue && slot == Live(v)
    {
      hasValue := true;
      slot := Vacant;
      counts := Counts(0, 0, 0);
      new;
      Construct(v);
    }

    /** `optional(InPlace_t, Args&&... args)`: holding the value the held
        type's constructor `make` builds from `args`, built directly in the slot. */
    constructor InPlaceFrom<A>(tag: InPlaceTag, args: A, make: A -> T)
      ensures Valid() && Snapshot() == Born(Live(make(args)))
      ensures hasValue && slot == Live(make(args))
    {
      hasValue := true;
      slot := Vacant;
      counts := Counts(0, 0, 0);
      new;
      Construct(make(args));
    }

    /** `optional(const optional&)`: copies the flag, and the value when there
        is one. */
    constructor Copy(other: Optional<T>)
      requires other.Valid()
      ensures Valid() && Snapshot() == Born(other.slot)
      ensures hasValue == other.hasValue
    {
      hasValue := other.hasValue;
      slot := Vacant;
      counts := Counts(0, 0, 0);
      new;
      if HasValue() {
        Construct(other.slot.value);
      }
    }

    /** `optional(optional&&)`: copies the flag and moves the value out of
        `other`. The flag of `other` is not cleared: a holding `other` still
        holds, now the `residue` the held type's move left in it. */
    constructor Move(other: Optional<T>, residue: T)
      requires other.Valid()
      modifies other
      ensures Valid() && Snapshot() == Born(old(other.slot))
      ensures hasValue == old(other.hasValue)
      ensures other.Valid() && other.Snapshot() == MovedFrom(old(other.Snapshot()), residue)
      ensures other.hasValue == old(other.hasValue)
    {
      hasValue := other.hasValue;
      slot := Vacant;
      counts := Counts(0, 0, 0);
      new;
      if HasValue() {
        Construct(other.slot.value);
        other.slot := Live(residue);
      }
    }

    /** `optional(const optional<U>&)`, as intended: the flag of `other`, and
        its value converted to the held type when there is one. */
    constructor ConvertFrom<U>(other: Optional<U>, convert: U -> T)
      requires other.Valid()
      ensures Valid() && Snapshot() == Born(MapSlot(other.slot, convert))
      ensures hasValue == other.hasValue
    {
      hasValue := other.hasValue;
      slot := Vacant;
      counts := Counts(0, 0, 0);
      new;
      if HasValue() {
        Construct(convert(other.slot.value));
      }
    }

    /** `optional(optional<U>&&)`, as intended: as ConvertFrom, moving the
        value out of `other`, whose flag stays as it was. */
    constructor ConvertMoveFrom<U>(other: Optional<U>, convert: U -> T, residue: U)
      requires other.Valid()
      modifies other
      ensures Valid() && Snapshot() == Born(MapSlot(old(other.slot), convert))
      ensures hasValue == old(other.hasValue)
      ensures other.Valid() && other.Snapshot() == MovedFrom(old(other.Snapshot()), residue)
    {
      hasValue := other.hasValue;
      slot := Vacant;
      counts := Counts(0, 0, 0);
      new;
      if HasValue() {
        Construct(convert(other.slot.value));
        other.slot := Live(residue);
      }
    }

    /** `_construct`: placement-constructs `v` in the vacant slot. The flag is
        left to the caller. */
    method Construct(v: T)
      requires slot.Vacant?
      modifies this
      ensures slot == Live(v) && hasValue == old(hasValue)
      ensures counts == old(counts).(constructions := old(counts).constructions + 1)
    {
      slot := Live(v);
      counts := counts.(constructions := counts.constructions + 1);
    }

    /** `reset`: destroys the held value, if any; the container is then empty. */
    method Reset()
      requires Valid()
      modifies this
      ensures Valid() && Snapshot() == Lifecycle.Reset(old(Snapshot()))
      ensures !hasValue
    {
      if HasValue() {
        slot := Vacant;
        counts := counts.(destructions := counts.destructions + 1);
        hasValue := false;
      }
    }

    /** `~optional`: resets, so that over the container's life the
        constructions in the slot equal the destructions. */
    method Destruct()
      requires Valid()
      modifies this
      ensures Snapshot() == Lifecycle.Reset(old(Snapshot()))
      ensures !hasValue && counts.constructions == counts.destructions
    {
      Reset();
    }

    /** `operator=(NullOptional_t)`: the same as `reset`. */
    method AssignNull(n: NullOptionalTag)
      requires Valid()
      modifies this
      ensures Valid() && Snapshot() == Lifecycle.Reset(old(Snapshot()))
      ensures !hasValue
    {
      Reset();
    }

    /** `operator=(T&&)` for a value of the held type: assigned in place into
        a holding container, constructed into an empty one. */
    method AssignValue(v: T)
      requires Valid()
      modifies this
      ensures Valid() && Snapshot() == Lifecycle.AssignValue(old(Snapshot()), v)
      ensures hasValue && slot == Live(v)
    {
      if HasValue() {
        slot := Live(v);
        counts := counts.(assignments := counts.assignments + 1);
      } else {
        Construct(v);
        hasValue := true;
      }
    }

    /** `_assign` from a container `other` whose values the held type's
        assignment and constructor accept through `convert` (the identity for
        a same-type source). `other` may be this very container. */
    method Assign<U>(other: Optional<U>, convert: U -> T)
      requires Valid() && other.Valid()
      modifies this
      ensures Valid() && Snapshot() == Lifecycle.Assign(old(Snapshot()), MapSlot(old(other.slot), convert))
      ensures hasValue == old(other.hasValue)
    {
      if HasValue() {
        if other.HasValue() {
          slot := Live(convert(other.Get().value));
          counts := counts.(assignments := counts.assignments + 1);
        } else {
          Reset();
        }
      } else {
        if other.HasValue() {
          Construct(convert(other.Get().value));
          hasValue := true;
        }
      }
    }

    /** `operator=(const optional&)`: container assignment from the same type. */
    method CopyAssign(other: Optional<T>)
      requires Valid() && other.Valid()
      modifies this
      ensures Valid() && Snapshot() == Lifecycle.Assign(old(Snapshot()), old(other.slot))
      ensures hasValue == old(other.hasValue)
    {
      ghost var source := other.slot;
      Assign(other, (x: T) => x);
      assert MapSlot(source, (x: T) => x) == source;
    }

    /** `operator=(optional&&)` and `operator=(optional<U>&&)`: `_assign`
        moving the value out of `other` (`convert` is the identity for the
        same-type form). The flag of `other` stays as it was; a holding
        `other` then holds the `residue` of the move. */
    method MoveAssign<U>(other: Optional<U>, convert: U -> T, residue: U)
      requires Valid() && other.Valid()
      requires other as object != this
      modifies this, other
      ensures Valid() && Snapshot() == Lifecycle.Assign(old(Snapshot()), MapSlot(old(other.slot), convert))
      ensures hasValue == old(other.hasValue)
      ensures other.Valid() && other.Snapshot() == MovedFrom(old(other.Snapshot()), residue)
      ensures other.hasValue == old(other.hasValue)
    {
      Assign(other, convert);
      if other.HasValue() {
        other.slot := Live(residue);
      }
    }

    /** `has_value()`: whether the slot holds a live value. */
    function HasValue(): (r: bool)
      reads this
      ensures Valid() ==> (r <==> slot.Live?)
    {
      hasValue
    }

    /** `explicit operator bool()`: the same query as `has_value()`. */
    function ToBool(): (r: bool)
      reads this
      ensures Valid() ==> (r <==> slot.Live?)
    {
      HasValue()
    }

    /** `_check_value`: throws exactly when the flag is clear. */
    function CheckValue(): (r: Outcome)
      reads this
      ensures r.Pass? <==> hasValue
      ensures r.Fail? ==> r.what == NoValueMessage
    {
      if !hasValue then Fail(NoValueMessage) else Pass
    }

    /** `get()` in its four reference forms, and the `&` and `const&` forms
        of `operator*` and `operator->`, which return `get()`: the held
        value, or the runtime error on an empty container. */
    function Get(): (r: Result<T>)
      reads this
      requires Valid()
      ensures r.Ok? <==> slot.Live?
      ensures r.Ok? ==> slot == Live(r.value)
      ensures r.Err? ==> r.what == NoValueMessage
    {
      match CheckValue()
      case Fail(what) => Err(what)
      case Pass => Ok(slot.value)
    }

    /** `get_or(default_value)`: never throws; the held value, or
        `default_value` on an empty container. */
    function GetOr(default: T): (r: T)
      reads this
      requires Valid()
      ensures slot.Live? ==> r == slot.value
      ensures slot.Vacant? ==> r == default
    {
      if !hasValue then default else Get().value
    }
  }

  /** `operator==(const optional<T>&, const optional<T>&)`: equal when both
      are empty, or both hold values the held type's `eq` calls equal. */
  function Equals<T>(eq: (T, T) -> bool, x: Optional<T>, y: Optional<T>): (r: bool)
    reads x, y
    requires x.Valid() && y.Valid()
    ensures r <==> (x.slot.Vacant? && y.slot.Vacant?)
                   || (x.slot.Live? && y.slot.Live? && eq(x.slot.value, y.slot.value))
  {
    if x.HasValue() != y.HasValue() then false
    else if x.HasValue() then eq(x.Get().value, y.Get().value)
    else true
  }

  /** `operator==(const optional<T>&, NullOptional_t)`: equal when empty. */
  function EqualsNull<T>(x: Optional<T>, n: NullOptionalTag): (r: bool)
    reads x
    requires x.Valid()
    ensures r <==> x.slot.Vacant?
  {
    !x.ToBool()
  }

  /** `operator==(NullOptional_t, const optional<T>&)`: equal when empty. */
  function NullEquals<T>(n: NullOptionalTag, x: Optional<T>): (r: bool)
    reads x
    requires x.Valid()
    ensures r <==> x.slot.Vacant?
  {
    !x.ToBool()
  }

  /** `operator==(const optional<T>&, const T&)`: equal when holding a value
      `w` with `eq(w, v)`. */
  function EqualsValue<T>(eq: (T, T) -> bool, x: Optional<T>, v: T): (r: bool)
    reads x
    requires x.Valid()
    ensures r <==> x.slot.Live? && eq(x.slot.value, v)
  {
    if x.HasValue() then eq(x.Get().value, v) else false
  }

  /** `operator==(const T&, const optional<T>&)`: equal when holding a value
      `w` with `eq(v, w)`; the held type's equality is called with the bare
      value on the left. */
  function ValueEquals<T>(eq: (T, T) -> bool, v: T, x: Optional<T>): (r: bool)
    reads x
    requires x.Valid()
    ensures r <==> x.slot.Live? && eq(v, x.slot.value)
  {
    if x.HasValue() then eq(v, x.Get().value) else false
  }

  /** The free `has_value(const optional&)`: the container's own `has_value()`. */
  function HasValueOf<T>(x: Optional<T>): (r: bool)
    reads x
    requires x.Valid()
    ensures r <==> x.slot.Live?
  {
    x.HasValue()
  }

  /** `make_optional<valueType>(args...)`: in-place construction from `args`. */
  method MakeOptional<T, A>(args: A, make: A -> T) returns (o: Optional<T>)
    ensures fresh(o) && o.Valid() && o.Snapshot() == Born(Live(make(args)))
  {
    o := new Optional.InPlaceFrom(InPlace, args, make);
  }

  ghost predicate Symmetric<T(!new)>(eq: (T, T) -> bool) {
    forall a, b :: eq(a, b) == eq(b, a)
  }

  ghost predicate Equivalence<T(!new)>(eq: (T, T) -> bool) {
    && (forall a :: eq(a, a))
    && Symmetric(eq)
    && (forall a, b, c :: eq(a, b) && eq(b, c) ==> eq(a, c))
  }

  /** Container equality is an equivalence whenever the held type's is. */
  lemma EqualsIsEquivalence<T(!new)>(eq: (T, T) -> bool, x: Optional<T>, y: Optional<T>, z: Optional<T>)
    requires x.Valid() && y.Valid() && z.Valid() && Equivalence(eq)
    ensures Equals(eq, x, x)
    ensures Equals(eq, x, y) == Equals(eq, y, x)
    ensures Equals(eq, x, y) && Equals(eq, y, z) ==> Equals(eq, x, z)
  {
  }

  /** With a symmetric held-type equality, the two mixed-operand forms agree. */
  lemma MixedEqualityOrder<T(!new)>(eq: (T, T) -> bool, x: Optional<T>, v: T)
    requires x.Valid() && Symmetric(eq)
    ensures EqualsValue(eq, x, v) == ValueEquals(eq, v, x)
  {
  }

  /** Comparing with a bare value is comparing with a container holding it. */
  lemma EqualsValueIsEquals<T>(eq: (T, T) -> bool, x: Optional<T>, y: Optional<T>, v: T)
    requires x.Valid() && y.Valid() && y.slot == Live(v)
    ensures EqualsValue(eq, x, v) == Equals(eq, x, y)
  {
  }

  /** Comparing with the null marker, in either order, is comparing with an
      empty container. */
  lemma EqualsNullIsEquals<T>(eq: (T, T) -> bool, x: Optional<T>, y: Optional<T>)
    requires x.Valid() && y.Valid() && y.slot == Vacant
    ensures EqualsNull(x, NullOptional) == Equals(eq, x, y)
    ensures NullEquals(NullOptional, x) == Equals(eq, x, y)
  {
  }

  /** `get_or` returns what `get` returns when `get` does not throw, and the
      default exactly when it does. */
  lemma GetOrAgreesWithGet<T>(x: Optional<T>, d: T)
    requires x.Valid()
    ensures x.GetOr(d) == match x.Get() case Ok(w) => w case Err(_) => d
  {
  }
}
