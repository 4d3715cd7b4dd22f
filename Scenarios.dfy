/** Client-side uses of `core::optional` that exercise its promises through
    the specifications of module Core alone. */
module Scenarios {
  import opened Lifecycle
  import opened Core

  /** A default-constructed container is empty: `get` throws and `get_or`
      returns the default. */
  method DefaultIsEmpty<T>(d: T) returns (held: bool, got: Result<T>, fallback: T)
    ensures !held && got == Err(NoValueMessage) && fallback == d
  {
    var o := new Optional<T>();
    held := o.HasValue();
    got := o.Get();
    fallback := o.GetOr(d);
  }

  /** A container built from `v` holds `v`. */
  method ValueIsHeld<T>(v: T) returns (held: bool, got: Result<T>)
    ensures held && got == Ok(v)
  {
    var o := new Optional.FromValue(v);
    held := o.HasValue();
    got := o.Get();
  }

  /** A copy is independent: assigning to the original afterwards leaves the
      copy's value as it was. */
  method CopyIsIndependent<T>(v: T, w: T) returns (copied: Result<T>, original: Result<T>)
    ensures copied == Ok(v) && original == Ok(w)
  {
    var o := new Optional.FromValue(v);
    var c := new Optional.Copy(o);
    o.AssignValue(w);
    copied := c.Get();
    original := o.Get();
  }

  /** After a move, the moved-from container still reports holding. */
  method MovedFromStillHolds<T>(v: T, residue: T) returns (moved: Result<T>, sourceHeld: bool)
    ensures moved == Ok(v) && sourceHeld
  {
    var o := new Optional.FromValue(v);
    var m := new Optional.Move(o, residue);
    moved := m.Get();
    sourceHeld := o.HasValue();
  }

  /** `make_optional` gives the same container as in-place construction with
      the same arguments. */
  method MakeMatchesInPlace<T(==), A>(args: A, make: A -> T) returns (same: bool)
    ensures same
  {
    var made := MakeOptional(args, make);
    var built := new Optional.InPlaceFrom(InPlace, args, make);
    same := Equals((a: T, b: T) => a == b, made, built);
  }

  /** The equality laws on integers: `optional(5) == optional(5)`,
      `optional(5) != optional(6)`, two empty containers are equal,
      `optional(5) != NullOptional`, an empty one equals `NullOptional`, and
      `optional(5) == 5`. */
  method EqualityLaws() returns (fiveFive: bool, fiveSix: bool, emptyEmpty: bool,
                                 fiveNull: bool, emptyNull: bool, fiveBare: bool)
    ensures fiveFive && !fiveSix && emptyEmpty && !fiveNull && emptyNull && fiveBare
  {
    var eq := (a: int, b: int) => a == b;
    var five := new Optional.FromValue(5);
    var otherFive := new Optional.FromValue(5);
    var six := new Optional.FromValue(6);
    var empty := new Optional<int>();
    var otherEmpty := new Optional<int>();
    fiveFive := Equals(eq, five, otherFive);
    fiveSix := Equals(eq, five, six);
    emptyEmpty := Equals(eq, empty, otherEmpty);
    fiveNull := EqualsNull(five, NullOptional);
    emptyNull := NullEquals(NullOptional, empty);
    fiveBare := EqualsValue(eq, five, 5);
  }

  /** Start empty, assign "hello", read it back, assign `NullOptional`: the
      container is empty again and `get` throws. */
  method HelloThenNull() returns (got: Result<string>, heldAfter: bool, gotAfter: Result<string>)
    ensures got == Ok("hello") && !heldAfter && gotAfter == Err(NoValueMessage)
  {
    var o := new Optional<string>();
    o.AssignValue("hello");
    got := o.Get();
    o.AssignNull(NullOptional);
    heldAfter := o.HasValue();
    gotAfter := o.Get();
  }

  /** After container assignment the target compares equal to the source,
      whatever either held before, when the held type's equality is reflexive. */
  method AssignMakesEqual<T>(eq: (T, T) -> bool, target: Optional<T>, source: Optional<T>) returns (equal: bool)
    requires target.Valid() && source.Valid()
    requires forall a :: eq(a, a)
    modifies target
    ensures equal
  {
    target.CopyAssign(source);
    equal := Equals(eq, target, source);
  }
}
