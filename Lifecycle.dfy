/** The abstract state of one `core::optional<T>` (utils/Optional.h) and the
    bookkeeping of the held value's lifetime: how many values of the held type
    were constructed in the container's inline slot, how many were destroyed
    there, and how many times the live one was assigned in place.

    Each mutating member of the container is specified by one function here;
    the class in module Core is proved to follow them. */
module Lifecycle {

  /** What the inline storage holds: nothing live (the union's dummy member)
      or exactly one live value of the held type. */
  datatype Slot<T> = Vacant | Live(value: T)

  /** Tallies of the held type's own operations performed on one slot. */
  datatype Counts = Counts(constructions: nat, destructions: nat, assignments: nat)

  /** A container's slot together with its tallies. */
  datatype Config<T> = Config(slot: Slot<T>, counts: Counts)

  /** The constructions in the slot number the destructions plus one for the
      value that is live now, if any. Since `Reset` destroys only a live value
      and every construction goes into a vacant slot, this count equation is
      what keeps construction and destruction in step. */
  predicate Paired<T>(c: Config<T>) {
    c.counts.constructions == c.counts.destructions + (if c.slot.Live? then 1 else 0)
  }

  /** The slot a converting copy produces: the source's value passed through
      the held type's conversion. */
  function MapSlot<U, T>(s: Slot<U>, convert: U -> T): Slot<T> {
    match s
    case Vacant => Vacant
    case Live(u) => Live(convert(u))
  }

  /** A container right after construction: empty (default or null marker),
      or holding a value built by exactly one construction. */
  function Born<T>(slot: Slot<T>): (c: Config<T>)
    ensures c.slot == slot && Paired(c)
    ensures c.counts.destructions == 0 && c.counts.assignments == 0
  {
    Config(slot, Counts(if slot.Live? then 1 else 0, 0, 0))
  }

  /** `reset`: destroys the live value, if any, and leaves the slot vacant;
      on a vacant slot it changes nothing. */
  function Reset<T>(c: Config<T>): (r: Config<T>)
    ensures r.slot == Vacant
    ensures c.slot.Vacant? ==> r == c
    ensures c.slot.Live? ==> r.counts.destructions == c.counts.destructions + 1
    ensures r.counts.constructions == c.counts.constructions && r.counts.assignments == c.counts.assignments
    ensures Paired(c) ==> Paired(r)
  {
    if c.slot.Live? then
      Config(Vacant, c.counts.(destructions := c.counts.destructions + 1))
    else
      c
  }

  /** Assignment of a bare value: into a live slot it is one in-place
      assignment and no construction; into a vacant one it is one
      construction and no assignment. Either way the slot then holds `v`. */
  function AssignValue<T>(c: Config<T>, v: T): (r: Config<T>)
    ensures r.slot == Live(v)
    ensures r.counts.destructions == c.counts.destructions
    ensures c.slot.Live? ==>
              r.counts.assignments == c.counts.assignments + 1 && r.counts.constructions == c.counts.constructions
    ensures c.slot.Vacant? ==>
              r.counts.constructions == c.counts.constructions + 1 && r.counts.assignments == c.counts.assignments
    ensures Paired(c) ==> Paired(r)
  {
    if c.slot.Live? then
      Config(Live(v), c.counts.(assignments := c.counts.assignments + 1))
    else
      Config(Live(v), c.counts.(constructions := c.counts.constructions + 1))
  }

  /** Container assignment (`_assign`), by the four cases of
      (this holds, source holds). Whatever the case, the slot ends up as the
      source's slot. */
  function Assign<T>(c: Config<T>, source: Slot<T>): (r: Config<T>)
    ensures r.slot == source
    ensures c.slot.Live? && source.Live? ==>
              r.counts == c.counts.(assignments := c.counts.assignments + 1)
    ensures c.slot.Live? && source.Vacant? ==>
              r.counts == c.counts.(destructions := c.counts.destructions + 1)
    ensures c.slot.Vacant? && source.Live? ==>
              r.counts == c.counts.(constructions := c.counts.constructions + 1)
    ensures c.slot.Vacant? && source.Vacant? ==> r == c
    ensures Paired(c) ==> Paired(r)
  {
    if c.slot.Live? then
      if source.Live? then Config(source, c.counts.(assignments := c.counts.assignments + 1))
      else Reset(c)
    else
      if source.Live? then Config(source, c.counts.(constructions := c.counts.constructions + 1))
      else c
  }

  /** What a move out of a container leaves in it: the flag is untouched, so a
      holding container keeps holding, now the value the held type's move
      left behind (`residue`). Nothing is constructed or destroyed in it. */
  function MovedFrom<T>(c: Config<T>, residue: T): (r: Config<T>)
    ensures r.slot.Live? <==> c.slot.Live?
    ensures r.slot.Live? ==> r.slot.value == residue
    ensures r.counts == c.counts
    ensures Paired(c) ==> Paired(r)
  {
    if c.slot.Live? then Config(Live(residue), c.counts) else c
  }

  /** The mutations a container can undergo between its construction and its
      destruction. */
  datatype Op<T> =
    | ResetOp
    | AssignNullOp
    | AssignValueOp(v: T)
    | AssignOp(source: Slot<T>)
    | MovedFromOp(residue: T)

  function Step<T>(c: Config<T>, op: Op<T>): (r: Config<T>)
    ensures Paired(c) ==> Paired(r)
  {
    match op
    case ResetOp => Reset(c)
    case AssignNullOp => Reset(c)
    case AssignValueOp(v) => AssignValue(c, v)
    case AssignOp(source) => Assign(c, source)
    case MovedFromOp(residue) => MovedFrom(c, residue)
  }

  function Run<T>(c: Config<T>, ops: seq<Op<T>>): Config<T>
    decreases |ops|
  {
    if ops == [] then c else Run(Step(c, ops[0]), ops[1..])
  }

  /** Any sequence of mutations keeps the pairing of constructions and
      destructions. */
  lemma {:induction false} RunKeepsPaired<T>(c: Config<T>, ops: seq<Op<T>>)
    requires Paired(c)
    ensures Paired(Run(c, ops))
    decreases |ops|
  {
    if ops != [] {
      RunKeepsPaired(Step(c, ops[0]), ops[1..]);
    }
  }

  /** Over a container's whole lifetime (construction, any mutations, then the
      destructor, which calls `reset`), the slot ends vacant and the
      constructions in it equal the destructions. */
  lemma {:induction false} Lifetime<T>(slot: Slot<T>, ops: seq<Op<T>>)
    ensures var last := Reset(Run(Born(slot), ops));
            last.slot == Vacant && last.counts.constructions == last.counts.destructions
  {
    RunKeepsPaired(Born(slot), ops);
  }

  /** `reset` is idempotent. */
  lemma ResetIdempotent<T>(c: Config<T>)
    ensures Reset(Reset(c)) == Reset(c)
  {
  }

  /** Container assignment is value assignment when the source holds and
      `reset` when it does not: the empty/empty case is `reset` of an empty
      container, which changes nothing. */
  lemma AssignIsValueOrReset<T>(c: Config<T>, source: Slot<T>)
    ensures Assign(c, source) == if source.Live? then AssignValue(c, source.value) else Reset(c)
  {
  }
}
