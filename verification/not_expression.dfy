/**
  `NotExpression`: the negation of a wrapped filter expression.  It stores the
  wrapped expression unchanged, is equal to another negation exactly when the
  wrapped expressions are equal, and hashes as the wrapped expression does.
 */
module NotExpressions {
  import opened Wrappers
  import opened Syntax

  /** The constructor: a `null` inner expression throws an `ArgumentNullException`
      naming `innerExpression`; otherwise the expression is stored as given. */
  function NewNot(innerExpression: Option<FilterExpression>): (r: Result<FilterExpression, ArgumentError>)
    ensures r.Success? <==> innerExpression.Some?
    ensures r.Success? ==> r.value.Not? && r.value.inner == innerExpression.value
    ensures innerExpression.None? ==> r == Failure(ArgumentNull("innerExpression"))
  {
    if innerExpression.None? then Failure(ArgumentNull("innerExpression"))
    else Success(Not(innerExpression.value))
  }

  /** `Not(a)` equals `Not(b)` exactly when `a` equals `b`. */
  lemma EqualsIffInnerEquals(a: FilterExpression, b: FilterExpression)
    ensures Equals(Not(a), Ref(Not(b))) <==> Equals(a, Ref(b))
    ensures Equals(Not(a), Ref(Not(b))) <==> a == b
  {
    EqualsIsStructural(a, b);
  }

  /** `Equals` against `null`, against an object that is not a filter
      expression, or against a filter expression that is not a negation, is false. */
  lemma EqualsRejectsOtherObjects(e: FilterExpression, other: Reference<FilterExpression>)
    requires other.Null? || other.Foreign? || (other.Ref? && !other.value.Not?)
    ensures !Equals(Not(e), other)
  {
  }

  /** A negation is never equal to the expression it wraps, although both have
      the same hash. */
  lemma NegationCollidesWithInner(h: HashScheme, e: FilterExpression)
    ensures Hash(h, Not(e)) == Hash(h, e)
    ensures !Equals(Not(e), Ref(e))
  {
    EqualsIsStructural(Not(e), e);
  }

  /** Equal negations hash equally, and each hashes like its wrapped expression. */
  lemma EqualNegationsHashEqually(h: HashScheme, a: FilterExpression, b: FilterExpression)
    requires Equals(Not(a), Ref(Not(b)))
    ensures Hash(h, Not(a)) == Hash(h, Not(b))
    ensures Hash(h, a) == Hash(h, b)
    ensures Hash(h, Not(a)) == Hash(h, a)
  {
    EqualsImpliesSameHash(h, a, b);
  }

  /** `IsEquivalentTo` of a negation is its `Equals`: negations are equivalent
      exactly when their wrapped expressions are the same. */
  lemma EquivalentIffEqual(a: FilterExpression, b: FilterExpression)
    ensures IsEquivalentTo(Not(a), Some(Not(b))) <==> a == b
  {
    EqualsIsStructural(a, b);
  }
}
