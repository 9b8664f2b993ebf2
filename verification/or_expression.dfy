/**
  `OrExpression`: the disjunction of two filter expressions.  Its `Equals` is
  positional, while `IsEquivalentTo` accepts the operands in either order and
  treats the degenerate `Or(x, x)` as equivalent to `x` itself.
 */
module OrExpressions {
  import opened Wrappers
  import opened Syntax

  /** The constructor: `left` is checked first, then `right`; a `null` operand
      throws an `ArgumentNullException` naming it. */
  function NewOr(left: Option<FilterExpression>, right: Option<FilterExpression>): (r: Result<FilterExpression, ArgumentError>)
    ensures r.Success? <==> left.Some? && right.Some?
    ensures r.Success? ==> r.value.Or? && r.value.left == left.value && r.value.right == right.value
    ensures left.None? ==> r == Failure(ArgumentNull("left"))
    ensures left.Some? && right.None? ==> r == Failure(ArgumentNull("right"))
  {
    if left.None? then Failure(ArgumentNull("left"))
    else if right.None? then Failure(ArgumentNull("right"))
    else Success(Or(left.value, right.value))
  }

  /** `Equals` is positional: the left operands and the right operands must be equal. */
  lemma EqualsIsPositional(a: FilterExpression, b: FilterExpression, c: FilterExpression, d: FilterExpression)
    ensures Equals(Or(a, b), Ref(Or(c, d))) <==> a == c && b == d
  {
    EqualsIsStructural(a, c);
    EqualsIsStructural(b, d);
  }

  /** Swapping the operands of a disjunction of distinct operands breaks `Equals`. */
  lemma SwappedOperandsAreNotEqual(a: FilterExpression, b: FilterExpression)
    requires a != b
    ensures !Equals(Or(a, b), Ref(Or(b, a)))
  {
    EqualsIsPositional(a, b, b, a);
  }

  /** `Equals` against `null`, against an object that is not a filter
      expression, or against a filter expression that is not an `Or`, is false. */
  lemma EqualsRejectsOtherObjects(a: FilterExpression, b: FilterExpression, other: Reference<FilterExpression>)
    requires other.Null? || other.Foreign? || (other.Ref? && !other.value.Or?)
    ensures !Equals(Or(a, b), other)
  {
  }

  /** Between two disjunctions, `IsEquivalentTo` holds exactly when they have the
      same operands, in the same or in the swapped order. */
  lemma EquivalentIffSameOperands(a: FilterExpression, b: FilterExpression, c: FilterExpression, d: FilterExpression)
    ensures IsEquivalentTo(Or(a, b), Some(Or(c, d))) <==> (a == c && b == d) || (a == d && b == c)
  {
    EqualsIsStructural(d, b);
    EqualsIsStructural(c, a);
    EqualsIsStructural(c, b);
    EqualsIsStructural(d, a);
  }

  /** `IsEquivalentTo` is commutative: `Or(a, b)` is equivalent to `Or(b, a)`. */
  lemma EquivalenceIsCommutative(a: FilterExpression, b: FilterExpression)
    ensures IsEquivalentTo(Or(a, b), Some(Or(b, a)))
    ensures IsEquivalentTo(Or(b, a), Some(Or(a, b)))
  {
    EquivalentIffSameOperands(a, b, b, a);
    EquivalentIffSameOperands(b, a, a, b);
  }

  /** Between two disjunctions, `IsEquivalentTo` is symmetric. */
  lemma EquivalenceBetweenDisjunctionsIsSymmetric(a: FilterExpression, b: FilterExpression, c: FilterExpression, d: FilterExpression)
    ensures IsEquivalentTo(Or(a, b), Some(Or(c, d))) <==> IsEquivalentTo(Or(c, d), Some(Or(a, b)))
  {
    EquivalentIffSameOperands(a, b, c, d);
    EquivalentIffSameOperands(c, d, a, b);
  }

  /** For two disjunctions, `Equals` implies `IsEquivalentTo`; the converse
      fails as soon as the operands differ. */
  lemma EqualsImpliesEquivalence(a: FilterExpression, b: FilterExpression, c: FilterExpression, d: FilterExpression)
    ensures Equals(Or(a, b), Ref(Or(c, d))) ==> IsEquivalentTo(Or(a, b), Some(Or(c, d)))
    ensures a != b ==> IsEquivalentTo(Or(a, b), Some(Or(b, a))) && !Equals(Or(a, b), Ref(Or(b, a)))
  {
    EqualsIsPositional(a, b, c, d);
    EquivalentIffSameOperands(a, b, c, d);
    if a != b {
      EquivalenceIsCommutative(a, b);
      SwappedOperandsAreNotEqual(a, b);
    }
  }

  /** Against a node that is not a disjunction, `Or(l, r)` is equivalent exactly
      when both operands equal that node: the degenerate `Or(x, x)` is
      equivalent to `x`. */
  lemma EquivalentToNonDisjunction(l: FilterExpression, r: FilterExpression, other: FilterExpression)
    requires !other.Or?
    ensures IsEquivalentTo(Or(l, r), Some(other)) <==> l == r && l == other
  {
    EqualsIsStructural(l, r);
    EqualsIsStructural(l, other);
  }

  /** A `null` argument is never equivalent. */
  lemma NotEquivalentToNull(l: FilterExpression, r: FilterExpression)
    ensures !IsEquivalentTo(Or(l, r), None)
  {
  }

  /** Equal disjunctions hash equally: the hash depends only on the two operands. */
  lemma EqualDisjunctionsHashEqually(h: HashScheme, a: FilterExpression, b: FilterExpression, c: FilterExpression, d: FilterExpression)
    requires Equals(Or(a, b), Ref(Or(c, d)))
    ensures Hash(h, Or(a, b)) == Hash(h, Or(c, d))
  {
    EqualsImpliesSameHash(h, Or(a, b), Or(c, d));
  }
}
