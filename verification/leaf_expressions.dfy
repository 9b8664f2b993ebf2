/**
  Leaf expressions whose classes are outside this model but whose behaviour the
  unit tests pin down: the `ContainsExpression` constructor and the
  order- and duplicate-insensitive equivalence of `OneOfExpression`.
 */
module LeafExpressions {
  import opened Wrappers
  import opened Syntax

  /** The `ContainsExpression` constructor as the tests describe it: `null`
      throws `ArgumentNullException`, the empty string throws
      `ArgumentOutOfRangeException`, and any other text, whitespace included, is kept. */
  function NewContains(value: Option<string>): (r: Result<FilterExpression, ArgumentError>)
    ensures value.None? ==> r.Failure? && r.error.ArgumentNull?
    ensures value == Some("") ==> r.Failure? && r.error.ArgumentOutOfRange?
    ensures value.Some? && value.value != "" ==> r == Success(Contains(value.value))
  {
    match value
    case None => Failure(ArgumentNull("value"))
    case Some(text) =>
      if text == "" then Failure(ArgumentOutOfRange("value"))
      else Success(Contains(text))
  }

  /** Whitespace-only text is accepted. */
  lemma WhitespaceOnlyContainsIsAccepted()
    ensures NewContains(Some("  ")) == Success(Contains("  "))
  {
  }

  /** The `OneOfExpression` constructor: a `null` array throws
      `ArgumentNullException`; the values are kept in declaration order. */
  function NewOneOf(values: Option<seq<FilterExpression>>): (r: Result<FilterExpression, ArgumentError>)
    ensures r.Success? <==> values.Some?
    ensures values.None? ==> r.Failure? && r.error.ArgumentNull?
    ensures r.Success? ==> r.value.OneOf? && r.value.values == values.value
  {
    match values
    case None => Failure(ArgumentNull("values"))
    case Some(vs) => Success(OneOf(vs))
  }

  /** `Equals` between lists is order-sensitive: two lists are equal exactly
      when they hold the same values in the same order. */
  lemma OneOfEqualsIsOrdered(vs: seq<FilterExpression>, ws: seq<FilterExpression>)
    ensures Equals(OneOf(vs), Ref(OneOf(ws))) <==> vs == ws
  {
    EqualsIsStructural(OneOf(vs), OneOf(ws));
  }

  /** `IsEquivalentTo` between lists ignores order and duplicates: it holds
      exactly when every value of each list occurs in the other. */
  lemma OneOfEquivalenceIgnoresOrderAndDuplicates(vs: seq<FilterExpression>, ws: seq<FilterExpression>)
    ensures IsEquivalentTo(OneOf(vs), Some(OneOf(ws))) <==>
      (forall v :: v in vs <==> v in ws)
  {
    if forall v :: v in vs <==> v in ws {
      assert DistinctValues(vs) == DistinctValues(ws);
    } else {
      var v :| !(v in vs <==> v in ws);
      assert v in DistinctValues(vs) <==> v in vs;
      assert v in DistinctValues(ws) <==> v in ws;
    }
  }

  /** `OneOf(a, b)` is not `Equals` to `OneOf(b, a)` but is equivalent to it,
      and `OneOf(a, a, b)` is equivalent to `OneOf(a, b)`. */
  lemma OneOfExamples(a: FilterExpression, b: FilterExpression)
    requires a != b
    ensures !Equals(OneOf([a, b]), Ref(OneOf([b, a])))
    ensures IsEquivalentTo(OneOf([a, b]), Some(OneOf([b, a])))
    ensures IsEquivalentTo(OneOf([a, a, b]), Some(OneOf([a, b])))
    ensures !IsEquivalentTo(OneOf([a]), Some(OneOf([a, b])))
  {
    OneOfEqualsIsOrdered([a, b], [b, a]);
    OneOfEquivalenceIgnoresOrderAndDuplicates([a, b], [b, a]);
    OneOfEquivalenceIgnoresOrderAndDuplicates([a, a, b], [a, b]);
    OneOfEquivalenceIgnoresOrderAndDuplicates([a], [a, b]);
    assert b in [a, b] && b !in [a];
  }

  /** A list repeating one value (at least once) is equivalent to that value. */
  lemma RepeatedValueIsEquivalentToIt(e: FilterExpression, n: nat)
    requires n > 0 && !e.OneOf?
    ensures IsEquivalentTo(OneOf(seq(n, _ => e)), Some(e))
  {
    var vs := seq(n, _ => e);
    assert vs[0] == e;
    assert DistinctValues(vs) == {e};
  }
}
