/**
  The filter-expression syntax tree: the value-level language a filter's literal
  is parsed into (wildcards, lists, substring matches, negation, disjunction).

  Every node is immutable.  `Equals` is structural and total, the hash is
  consistent with it, and `IsEquivalentTo` is a coarser relation: it defaults to
  `Equals` and is overridden by `Or` (operands in either order) and `OneOf`
  (values compared as sets).
 */
module Syntax {
  import opened Wrappers

  /** The node kinds of the language.  Only `Or` and `Not` have their classes in
      this model; the other kinds are leaves compared field by field. */
  datatype FilterExpression =
    | Constant(text: string)
    | Asterisk
    | Contains(text: string)
    | StartsWith(text: string)
    | EndsWith(text: string)
    | Date(text: string)
    | DateTime(text: string)
    | OneOf(values: seq<FilterExpression>)
    | Not(inner: FilterExpression)
    | Or(left: FilterExpression, right: FilterExpression)

  /** The virtual `Equals(object)` of a node, called on `a` with the non-null
      node `b`.  `Or` compares its operands position by position, `Not` compares
      the wrapped expressions, `OneOf` compares its values in order, and every
      other kind compares its fields. */
  predicate ExpressionEquals(a: FilterExpression, b: FilterExpression)
    decreases a
  {
    match a
    case Or(l, r) => b.Or? && ExpressionEquals(l, b.left) && ExpressionEquals(r, b.right)
    case Not(e) => b.Not? && ExpressionEquals(e, b.inner)
    case OneOf(vs) =>
      && b.OneOf?
      && |vs| == |b.values|
      && forall i :: 0 <= i < |vs| ==> ExpressionEquals(vs[i], b.values[i])
    case _ => a == b
  }

  /** `Equals(object)` against any argument: `null` and objects that are not
      filter expressions are never equal to a node. */
  predicate Equals(a: FilterExpression, other: Reference<FilterExpression>)
  {
    other.Ref? && ExpressionEquals(a, other.value)
  }

  /** Structural equality: `Equals` holds exactly when the two trees are the same value. */
  lemma {:induction false} EqualsIsStructural(a: FilterExpression, b: FilterExpression)
    ensures ExpressionEquals(a, b) <==> a == b
    decreases a
  {
    match a
    case Or(l, r) =>
      if b.Or? {
        EqualsIsStructural(l, b.left);
        EqualsIsStructural(r, b.right);
      }
    case Not(e) =>
      if b.Not? {
        EqualsIsStructural(e, b.inner);
      }
    case OneOf(vs) =>
      if b.OneOf? && |vs| == |b.values| {
        forall i | 0 <= i < |vs|
          ensures ExpressionEquals(vs[i], b.values[i]) <==> vs[i] == b.values[i]
        {
          EqualsIsStructural(vs[i], b.values[i]);
        }
        if forall i :: 0 <= i < |vs| ==> vs[i] == b.values[i] {
          assert vs == b.values;
        }
      }
    case _ =>
  }

  /** `Equals` is reflexive, symmetric and transitive. */
  lemma EqualsIsEquivalenceRelation(a: FilterExpression, b: FilterExpression, c: FilterExpression)
    ensures ExpressionEquals(a, a)
    ensures ExpressionEquals(a, b) <==> ExpressionEquals(b, a)
    ensures ExpressionEquals(a, b) && ExpressionEquals(b, c) ==> ExpressionEquals(a, c)
  {
    EqualsIsStructural(a, a);
    EqualsIsStructural(a, b);
    EqualsIsStructural(b, a);
    EqualsIsStructural(b, c);
    EqualsIsStructural(a, c);
  }

  /** The hash arithmetic of the runtime, left abstract: how two hashes are
      combined into one and what each leaf kind hashes to. */
  datatype HashScheme = HashScheme(combine: (int, int) -> int, leaf: FilterExpression -> int)

  /** `GetHashCode`: `Or` combines the hashes of its operands, `Not` reuses the
      hash of the wrapped expression, and leaves hash by the scheme. */
  function Hash(h: HashScheme, e: FilterExpression): int
  {
    match e
    case Or(l, r) => h.combine(Hash(h, l), Hash(h, r))
    case Not(inner) => Hash(h, inner)
    case _ => h.leaf(e)
  }

  /** Nodes that are `Equals` have the same hash, whatever the hash arithmetic. */
  lemma {:induction false} EqualsImpliesSameHash(h: HashScheme, a: FilterExpression, b: FilterExpression)
    requires ExpressionEquals(a, b)
    ensures Hash(h, a) == Hash(h, b)
    decreases a
  {
    match a
    case Or(l, r) =>
      EqualsImpliesSameHash(h, l, b.left);
      EqualsImpliesSameHash(h, r, b.right);
    case Not(e) =>
      EqualsImpliesSameHash(h, e, b.inner);
    case OneOf(_) =>
      EqualsIsStructural(a, b);
    case _ =>
  }

  /** The distinct values of a `OneOf` list. */
  function DistinctValues(vs: seq<FilterExpression>): set<FilterExpression>
  {
    set v | v in vs
  }

  /** `IsEquivalentTo` against a non-null node.

      For `Or` the operands may appear in either order; against a node that is
      not an `Or`, the degenerate `Or(x, x)` is equivalent to `x`.  For `OneOf`
      the values are compared as sets of distinct values (a `OneOf` whose values
      all equal `x` is equivalent to `x`).  Every other kind falls back on `Equals`. */
  predicate Equivalent(e: FilterExpression, other: FilterExpression)
  {
    match e
    case Or(l, r) =>
      if other.Or? then
        || (ExpressionEquals(other.right, r) && ExpressionEquals(other.left, l))
        || (ExpressionEquals(other.left, r) && ExpressionEquals(other.right, l))
      else
        ExpressionEquals(l, r) && ExpressionEquals(l, other)
    case OneOf(vs) =>
      if other.OneOf? then
        DistinctValues(vs) == DistinctValues(other.values)
      else
        DistinctValues(vs) == {other}
    case _ => ExpressionEquals(e, other)
  }

  /** `IsEquivalentTo(FilterExpression)`: a `null` argument is never equivalent. */
  predicate IsEquivalentTo(e: FilterExpression, other: Option<FilterExpression>)
  {
    other.Some? && Equivalent(e, other.value)
  }

  /** `Equals` implies `IsEquivalentTo`, for every kind of node. */
  lemma EqualsImpliesEquivalent(a: FilterExpression, b: FilterExpression)
    requires ExpressionEquals(a, b)
    ensures IsEquivalentTo(a, Some(b))
  {
    EqualsIsStructural(a, b);
    assert a == b;
    match a
    case Or(l, r) =>
      EqualsIsStructural(l, l);
      EqualsIsStructural(r, r);
    case _ =>
  }

  /** `IsEquivalentTo` is not symmetric: `Or(x, x)` is equivalent to a leaf `x`,
      but `x` is not equivalent to `Or(x, x)`. */
  lemma EquivalenceIsNotSymmetric(x: FilterExpression)
    requires !x.Or? && !x.OneOf?
    ensures IsEquivalentTo(Or(x, x), Some(x))
    ensures !IsEquivalentTo(x, Some(Or(x, x)))
  {
    EqualsIsStructural(x, x);
    EqualsIsStructural(x, Or(x, x));
  }
}
