/**
  Filters over named fields and their combination.

  A filter is either a leaf (`Filter`: one field, one operator, one value) or a
  `CompositeFilter`: a logic (`And`/`Or`) applied to an ordered sequence of
  child filters.  Negating a composite is De Morgan's transform: the logic is
  swapped and every child is negated.  Two composites are equal when their
  logic is the same and their children are pairwise equal, in order.
 */
module CompositeFilters {
  import opened Wrappers

  datatype FilterLogic = And | Or

  datatype FilterOperator =
    | EqualTo | NotEqualTo
    | GreaterThan | GreaterThanOrEqual | LessThan | LessThanOrEqualTo
    | StartsWith | NotStartsWith | EndsWith | NotEndsWith
    | Contains | NotContains
    | IsNull | IsNotNull | IsEmpty | IsNotEmpty

  /** A leaf filter.  A missing field is the "match everything" sentinel; the
      compared value is kept as opaque text. */
  datatype LeafFilter = LeafFilter(field: Option<string>, op: FilterOperator, value: string)

  datatype Filter =
    | Leaf(leaf: LeafFilter)
    | Composite(logic: FilterLogic, filters: seq<Filter>)

  /** A freshly built `CompositeFilter`: logic `And`, no children. */
  function NewComposite(): (r: Filter)
    ensures r.Composite? && r.logic == And && |r.filters| == 0
  {
    Composite(And, [])
  }

  /** The dual logic. */
  function Dual(logic: FilterLogic): (r: FilterLogic)
    ensures r != logic
    ensures r.And? <==> logic.Or?
  {
    match logic
    case And => Or
    case Or => And
  }

  /** `IFilter.Negate`.  The negation of a leaf (operator inversion) is a
      parameter of the model; a composite swaps its logic and negates each
      child, keeping their number and order. */
  function Negate(f: Filter, negateLeaf: LeafFilter -> Filter): Filter
    decreases f
  {
    match f
    case Leaf(l) => negateLeaf(l)
    case Composite(logic, filters) =>
      Composite(Dual(logic), seq(|filters|, i requires 0 <= i < |filters| => Negate(filters[i], negateLeaf)))
  }

  /** The shape of a negated composite: the dual logic, and child `i` is the
      negation of child `i`. */
  lemma NegateComposite(logic: FilterLogic, filters: seq<Filter>, negateLeaf: LeafFilter -> Filter)
    ensures Negate(Composite(logic, filters), negateLeaf).Composite?
    ensures Negate(Composite(logic, filters), negateLeaf).logic == Dual(logic)
    ensures |Negate(Composite(logic, filters), negateLeaf).filters| == |filters|
    ensures forall i :: 0 <= i < |filters| ==>
      Negate(Composite(logic, filters), negateLeaf).filters[i] == Negate(filters[i], negateLeaf)
  {
  }

  /** Negating a composite twice restores its logic, whatever leaf negation does. */
  lemma NegateTwiceRestoresLogic(logic: FilterLogic, filters: seq<Filter>, negateLeaf: LeafFilter -> Filter)
    ensures Negate(Negate(Composite(logic, filters), negateLeaf), negateLeaf).logic == logic
  {
  }

  /** When negating a leaf twice gives the leaf back, negating any filter twice
      gives the filter back. */
  lemma {:induction false} NegateIsInvolution(f: Filter, negateLeaf: LeafFilter -> Filter)
    requires forall l :: Negate(negateLeaf(l), negateLeaf) == Leaf(l)
    ensures Negate(Negate(f, negateLeaf), negateLeaf) == f
    decreases f
  {
    match f
    case Leaf(l) =>
    case Composite(logic, filters) =>
      var g := Negate(f, negateLeaf);
      var h := Negate(g, negateLeaf);
      forall i | 0 <= i < |filters|
        ensures h.filters[i] == filters[i]
      {
        NegateIsInvolution(filters[i], negateLeaf);
      }
      assert h.filters == filters;
  }

  /** The meaning of a filter for one element: a leaf holds as `leafHolds`
      says, `And` holds when every child holds and `Or` when some child holds. */
  predicate Holds(f: Filter, leafHolds: LeafFilter -> bool)
    decreases f
  {
    match f
    case Leaf(l) => leafHolds(l)
    case Composite(And, filters) => forall i :: 0 <= i < |filters| ==> Holds(filters[i], leafHolds)
    case Composite(Or, filters) => exists i :: 0 <= i < |filters| && Holds(filters[i], leafHolds)
  }

  /** De Morgan: when negating a leaf yields a filter that holds exactly when
      the leaf does not, the negation of any filter holds exactly when the
      filter does not. */
  lemma {:induction false} NegateComplements(f: Filter, negateLeaf: LeafFilter -> Filter, leafHolds: LeafFilter -> bool)
    requires forall l :: Holds(negateLeaf(l), leafHolds) == !leafHolds(l)
    ensures Holds(Negate(f, negateLeaf), leafHolds) == !Holds(f, leafHolds)
    decreases f
  {
    match f
    case Leaf(l) =>
    case Composite(logic, filters) =>
      var g := Negate(f, negateLeaf);
      forall i | 0 <= i < |filters|
        ensures Holds(g.filters[i], leafHolds) == !Holds(filters[i], leafHolds)
      {
        NegateComplements(filters[i], negateLeaf, leafHolds);
      }
      if logic == And {
        assert Holds(g, leafHolds) == exists i :: 0 <= i < |filters| && Holds(g.filters[i], leafHolds);
      } else {
        assert Holds(g, leafHolds) == forall i :: 0 <= i < |filters| ==> Holds(g.filters[i], leafHolds);
      }
  }

  /** `Equals(IFilter)` between two non-null filters.  A composite compares its
      logic and then its children with `SequenceEqual`; leaves compare their
      field, operator and value; a leaf never equals a composite. */
  predicate FilterEquals(a: Filter, b: Filter)
    decreases a
  {
    match a
    case Leaf(l) => b.Leaf? && l == b.leaf
    case Composite(logic, filters) =>
      && b.Composite?
      && logic == b.logic
      && |filters| == |b.filters|
      && forall i :: 0 <= i < |filters| ==> FilterEquals(filters[i], b.filters[i])
  }

  /** `CompositeFilter.Equals(object)` / `Equals(IFilter)`: `null`, objects of
      other types and leaf filters are never equal to a composite. */
  predicate CompositeEquals(logic: FilterLogic, filters: seq<Filter>, other: Reference<Filter>)
  {
    other.Ref? && other.value.Composite? && FilterEquals(Composite(logic, filters), other.value)
  }

  /** Filter equality is structural. */
  lemma {:induction false} FilterEqualsIsStructural(a: Filter, b: Filter)
    ensures FilterEquals(a, b) <==> a == b
    decreases a
  {
    match a
    case Leaf(_) =>
    case Composite(logic, filters) =>
      if b.Composite? && |filters| == |b.filters| {
        forall i | 0 <= i < |filters|
          ensures FilterEquals(filters[i], b.filters[i]) <==> filters[i] == b.filters[i]
        {
          FilterEqualsIsStructural(filters[i], b.filters[i]);
        }
        if forall i :: 0 <= i < |filters| ==> filters[i] == b.filters[i] {
          assert filters == b.filters;
        }
      }
  }

  /** Two composites are equal exactly when they have the same logic and the
      same children in the same order. */
  lemma CompositeEqualsIff(logic: FilterLogic, filters: seq<Filter>, logic': FilterLogic, filters': seq<Filter>)
    ensures CompositeEquals(logic, filters, Ref(Composite(logic', filters'))) <==>
      logic == logic' && |filters| == |filters'| && forall i :: 0 <= i < |filters| ==> filters[i] == filters'[i]
  {
    FilterEqualsIsStructural(Composite(logic, filters), Composite(logic', filters'));
  }

  /** `Equals` is reflexive. */
  lemma CompositeEqualsIsReflexive(logic: FilterLogic, filters: seq<Filter>)
    ensures CompositeEquals(logic, filters, Ref(Composite(logic, filters)))
  {
    CompositeEqualsIff(logic, filters, logic, filters);
  }

  /** `Equals` against `null`, an unrelated object or a leaf filter is false. */
  lemma CompositeEqualsRejectsOthers(logic: FilterLogic, filters: seq<Filter>, other: Reference<Filter>)
    requires other.Null? || other.Foreign? || (other.Ref? && other.value.Leaf?)
    ensures !CompositeEquals(logic, filters, other)
  {
  }

  /** Composites with different logic are never equal. */
  lemma DifferentLogicIsNotEqual(filters: seq<Filter>, filters': seq<Filter>)
    ensures !CompositeEquals(And, filters, Ref(Composite(Or, filters')))
    ensures !CompositeEquals(Or, filters, Ref(Composite(And, filters')))
  {
  }

  /** Changing the operator of one leaf child breaks equality. */
  lemma ChangedOperatorBreaksEquality(logic: FilterLogic, filters: seq<Filter>, i: nat, op: FilterOperator)
    requires i < |filters| && filters[i].Leaf? && filters[i].leaf.op != op
    ensures !CompositeEquals(logic, filters, Ref(Composite(logic, filters[i := Leaf(filters[i].leaf.(op := op))])))
  {
    var changed := filters[i := Leaf(filters[i].leaf.(op := op))];
    CompositeEqualsIff(logic, filters, logic, changed);
    assert filters[i] != changed[i];
  }

  /** Negation respects equality: equal composites have equal negations. */
  lemma NegateRespectsEquals(logic: FilterLogic, filters: seq<Filter>, other: Filter, negateLeaf: LeafFilter -> Filter)
    requires CompositeEquals(logic, filters, Ref(other))
    ensures CompositeEquals(Dual(logic), Negate(Composite(logic, filters), negateLeaf).filters, Ref(Negate(other, negateLeaf)))
  {
    FilterEqualsIsStructural(Composite(logic, filters), other);
    var n := Negate(other, negateLeaf);
    FilterEqualsIsStructural(n, n);
  }

  /** The hash arithmetic of the runtime, left abstract: the hash of a logic
      and of a leaf, the `HashCode` accumulator (start value, `Add`,
      `ToHashCode`), the hash of a pair, and the identity hash the runtime gives
      a collection object. */
  datatype FilterHashing = FilterHashing(
    logic: FilterLogic -> int,
    leaf: LeafFilter -> int,
    start: int,
    add: (int, int) -> int,
    finish: int -> int,
    pair: (int, int) -> int,
    identity: nat -> int)

  /** `HashCode.Add` applied to each hash in turn. */
  function AddAll(h: FilterHashing, acc: int, hashes: seq<int>): int
    decreases |hashes|
  {
    if |hashes| == 0 then acc else AddAll(h, h.add(acc, hashes[0]), hashes[1..])
  }

  /** `GetHashCode` of the current frameworks: a `HashCode` fed the logic and
      then every child, in order. */
  function ContentHash(h: FilterHashing, f: Filter): int
    decreases f
  {
    match f
    case Leaf(l) => h.leaf(l)
    case Composite(logic, filters) =>
      h.finish(AddAll(h, h.add(h.start, h.logic(logic)),
        seq(|filters|, i requires 0 <= i < |filters| => ContentHash(h, filters[i]))))
  }

  /** Equal filters have the same content hash, whatever the hash arithmetic. */
  lemma {:induction false} EqualFiltersHashEqually(h: FilterHashing, a: Filter, b: Filter)
    requires FilterEquals(a, b)
    ensures ContentHash(h, a) == ContentHash(h, b)
    decreases a
  {
    match a
    case Leaf(_) =>
    case Composite(logic, filters) =>
      forall i | 0 <= i < |filters|
        ensures ContentHash(h, filters[i]) == ContentHash(h, b.filters[i])
      {
        EqualFiltersHashEqually(h, filters[i], b.filters[i]);
      }
      var hs := seq(|filters|, i requires 0 <= i < |filters| => ContentHash(h, filters[i]));
      var hs' := seq(|b.filters|, i requires 0 <= i < |b.filters| => ContentHash(h, b.filters[i]));
      assert hs == hs';
  }

  /** A composite as an object of the netstandard builds: its logic, its
      children, and the identity of the collection object holding them (each
      `Negate` call, for one, holds its children in a new `Select` iterator). */
  datatype CompositeObject = CompositeObject(logic: FilterLogic, filters: seq<Filter>, collection: nat)

  /** `Equals(CompositeFilter)` between two composite objects: the collection
      objects play no part. */
  predicate ObjectEquals(a: CompositeObject, b: CompositeObject)
  {
    CompositeEquals(a.logic, a.filters, Ref(Composite(b.logic, b.filters)))
  }

  /** `GetHashCode` of the netstandard builds: the hash of the pair of the logic
      and the collection object, which hashes by identity. */
  function TupleHash(h: FilterHashing, c: CompositeObject): int
  {
    h.pair(h.logic(c.logic), h.identity(c.collection))
  }

  /** Hash arithmetic that tells collection objects apart: distinct
      collections get distinct identity hashes, and the pair hash depends on
      its second component.  The runtime's identity hashes are of this kind
      for all but a vanishing share of object pairs. */
  ghost predicate SeparatesCollections(h: FilterHashing)
  {
    && (forall c1: nat, c2: nat :: h.identity(c1) == h.identity(c2) ==> c1 == c2)
    && (forall x, y1, y2 :: h.pair(x, y1) == h.pair(x, y2) ==> y1 == y2)
  }

  /** The netstandard hash disagrees with `Equals`: two composites with the same
      logic and children, held in two distinct collection objects, are equal
      yet hash differently. */
  lemma TupleHashBreaksEquals(h: FilterHashing, logic: FilterLogic, filters: seq<Filter>, c1: nat, c2: nat)
    requires SeparatesCollections(h)
    requires c1 != c2
    ensures ObjectEquals(CompositeObject(logic, filters, c1), CompositeObject(logic, filters, c2))
    ensures TupleHash(h, CompositeObject(logic, filters, c1)) != TupleHash(h, CompositeObject(logic, filters, c2))
  {
    CompositeEqualsIsReflexive(logic, filters);
    var x := h.logic(logic);
    assert h.identity(c1) != h.identity(c2);
    assert h.pair(x, h.identity(c1)) != h.pair(x, h.identity(c2));
  }

  /** One such hash arithmetic: the identity hash is the object number and the
      pair hash is its second component. */
  function SampleHashing(): (h: FilterHashing)
    ensures SeparatesCollections(h)
  {
    FilterHashing(l => 0, l => 0, 0, (a, b) => a, x => x, (x, y) => y, n => n)
  }

  /** A concrete instance: the same children in collections `0` and `1`, for
      instance the arrays of two separate `new IFilter[]` expressions. */
  lemma TupleHashBreaksEqualsExample(logic: FilterLogic, filters: seq<Filter>)
    ensures var h := SampleHashing();
      && ObjectEquals(CompositeObject(logic, filters, 0), CompositeObject(logic, filters, 1))
      && TupleHash(h, CompositeObject(logic, filters, 0)) != TupleHash(h, CompositeObject(logic, filters, 1))
  {
    TupleHashBreaksEquals(SampleHashing(), logic, filters, 0, 1);
  }

  /** The content hash agrees with `Equals` between composite objects, whatever
      collections hold their children. */
  lemma ContentHashRespectsEquals(h: FilterHashing, a: CompositeObject, b: CompositeObject)
    requires ObjectEquals(a, b)
    ensures ContentHash(h, Composite(a.logic, a.filters)) == ContentHash(h, Composite(b.logic, b.filters))
  {
    EqualFiltersHashEqually(h, Composite(a.logic, a.filters), Composite(b.logic, b.filters));
  }
}
