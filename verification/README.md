# DataFilters core in Dafny

A model of three pieces of the DataFilters library, with proofs about them:

- **The filter-expression syntax tree** (module `Syntax`, with `OrExpressions`,
  `NotExpressions` and `LeafExpressions`). `OrExpression` and `NotExpression`
  are immutable nodes whose constructors reject `null`. Their `Equals` is
  structural and positional, and their hash is consistent with `Equals`.
  `IsEquivalentTo` is coarser:
  - `Or` accepts its operands in either order;
  - against a node that is not an `Or`, the degenerate `Or(x, x)` is
    equivalent to `x`;
  - `OneOf` compares its values as sets.

  The other node kinds have no class in this model. They are leaves that
  compare field by field.
- **Composite filters** (module `CompositeFilters`). A filter is a leaf or a
  `CompositeFilter`: a logic (`And`/`Or`) over an ordered sequence of child
  filters. `Negate` is De Morgan's transform. `Equals` compares the logic and
  then the children in order. A fresh composite has logic `And` and no
  children.
- **Sort-string validation** (modules `Text`, `SortPattern` and
  `SortValidation`).
  - `SortValidator.Pattern` is modelled as a recognizer of the language the
    regular expression denotes, with the field-name pattern as a parameter.
    `SortPattern.KeyList` is an independent, piece-by-piece reference
    definition of that language. `SortPattern.MatchIffKeyList` proves the two
    agree whenever field names cannot contain a comma.
  - The `WithMessage` builder is modelled step by step:
    1. split the input on `,`;
    2. keep the pieces that fail the case-insensitive match;
    3. quote the kept pieces and join them with `", "`;
    4. choose singular or plural wording.

    A decoder, `SortValidation.ReadReport`, reads the offending pieces back
    out of a message. `SortValidation.MessageRoundTrip` proves the message
    names exactly the failing pieces, in input order.

Modelling choices:

- C# `null` is `Option.None`. An argument of type `object` is a `Reference`:
  `Null`, a node (`Ref`), or an object of an unrelated type (`Foreign`). A
  thrown `ArgumentNullException` or `ArgumentOutOfRangeException` is a
  `Result.Failure` that carries the parameter name.
- Hash arithmetic (`HashCode.Combine`, tuple hashes, `HashCode.Add`) is a
  parameter, `Syntax.HashScheme` or `CompositeFilters.FilterHashing`. The
  consistency lemmas (`Syntax.EqualsImpliesSameHash`,
  `CompositeFilters.EqualFiltersHashEqually`,
  `CompositeFilters.ContentHashRespectsEquals`) hold for every choice of
  arithmetic. `CompositeFilters.TupleHashBreaksEquals` holds for arithmetic
  that tells collection objects apart (`SeparatesCollections`), and
  `CompositeFilters.TupleHashBreaksEqualsExample` for one such choice.
- Negating a leaf `Filter` is a parameter, `negateLeaf`, because the leaf
  class is not part of this model. The De Morgan lemma states its
  requirement on `negateLeaf`: negating a leaf must give a filter that holds
  exactly when the leaf does not. `CompositeFilters.Holds` is the model's
  meaning of a filter for one element:
  - a leaf holds as `leafHolds` says;
  - `And` holds when every child does, and `Or` when some child does.
- The field-name pattern (`Constants.ValidFieldNamePattern`) is not part of
  this model. `SortValidation.FieldSyntax` carries three things:
  - its text;
  - the texts it matches case-sensitively (what FluentValidation's
    `Matches(Pattern)` uses);
  - the texts it matches with `RegexOptions.IgnoreCase` (what the per-piece
    `_sortRegex` uses).
- The regular expression follows .NET semantics where they matter:
  - `$` also matches just before a final newline;
  - `\s` and `\w` are modelled as their ASCII members.

Two observations the proofs make precise:

- A rejected sort string always has at least one offending piece when
  ignoring case changes nothing about the field-name pattern
  (`SortValidation.RejectionNamesAnOffender`). The validator checks the whole
  string case-sensitively but the pieces case-insensitively. So when
  ignoring case does matter, a rejected string can produce a message that
  names no piece (`SortValidation.RejectionWithoutOffenders`). With a field
  pattern `Name` that also matches `name` when case is ignored, the input
  `name` is such a string (`SortValidation.RejectionWithoutOffendersExample`).
- The message checks each piece on its own. A piece can be fine in context
  yet fail alone. For example, `"Name "` out of `"Name , Age"` is reported
  only when the whole string is rejected for some other reason.
  `SortPattern.MatchIffKeyList` shows what the whole string needs: every
  piece a whitespace-padded key.

## Model

| member | source | states |
|---|---|---|
| OrExpressions.NewOr | src/DataFilters/Grammar/Syntax/OrExpression.cs:27-31 | construction succeeds exactly when both operands are present and keeps them as `Left` and `Right`; a missing `left` fails with `ArgumentNullException("left")` first, a missing `right` with `ArgumentNullException("right")` |
| OrExpressions.EqualsIsPositional | src/DataFilters/Grammar/Syntax/OrExpression.cs:34 | `Or(a, b)` equals `Or(c, d)` exactly when `a` equals `c` and `b` equals `d` |
| OrExpressions.SwappedOperandsAreNotEqual | src/DataFilters/Grammar/Syntax/OrExpression.cs:34 | with distinct operands, `Or(a, b)` does not equal `Or(b, a)` |
| OrExpressions.EqualsRejectsOtherObjects | src/DataFilters/Grammar/Syntax/OrExpression.cs:34-37 | `Equals(object)` is false against `null`, an object of another type, or a node that is not an `Or` |
| OrExpressions.EquivalentIffSameOperands | src/DataFilters/Grammar/Syntax/OrExpression.cs:58-62 | between two `Or` nodes, `IsEquivalentTo` holds exactly when they have the same operands in either order |
| OrExpressions.EquivalenceIsCommutative | src/DataFilters/Grammar/Syntax/OrExpression.cs:60-61 | `Or(a, b)` is equivalent to `Or(b, a)` and back, for all `a`, `b` |
| OrExpressions.EquivalenceBetweenDisjunctionsIsSymmetric | src/DataFilters/Grammar/Syntax/OrExpression.cs:58-62 | between two `Or` nodes, equivalence holds in one direction exactly when it holds in the other |
| OrExpressions.EqualsImpliesEquivalence | src/DataFilters/Grammar/Syntax/OrExpression.cs:34-61 | equal `Or` nodes are equivalent; with distinct operands, `Or(a, b)` and `Or(b, a)` are equivalent but not equal |
| OrExpressions.EquivalentToNonDisjunction | src/DataFilters/Grammar/Syntax/OrExpression.cs:63-66 | against a node that is not an `Or`, `Or(l, r)` is equivalent exactly when `l` equals `r` and `l` equals that node |
| OrExpressions.NotEquivalentToNull | src/DataFilters/Grammar/Syntax/OrExpression.cs:54-69 | an `Or` node is never equivalent to `null` |
| OrExpressions.EqualDisjunctionsHashEqually | src/DataFilters/Grammar/Syntax/OrExpression.cs:40-44 | equal `Or` nodes have the same hash, whatever the combining arithmetic |
| NotExpressions.NewNot | src/DataFilters/Grammar/Syntax/NotExpression.cs:13-20 | construction succeeds exactly when the inner expression is present, and exposes it unchanged; a missing one fails with `ArgumentNullException("innerExpression")` |
| NotExpressions.EqualsIffInnerEquals | src/DataFilters/Grammar/Syntax/NotExpression.cs:22 | `Not(a)` equals `Not(b)` exactly when `a` equals `b` |
| NotExpressions.EqualsRejectsOtherObjects | src/DataFilters/Grammar/Syntax/NotExpression.cs:22-24 | `Equals(object)` is false against `null`, an object of another type, or a node that is not a `Not` |
| NotExpressions.EqualNegationsHashEqually | src/DataFilters/Grammar/Syntax/NotExpression.cs:26 | equal `Not` nodes have the same hash, so do their wrapped expressions, and each `Not` hashes like its wrapped expression |
| NotExpressions.NegationCollidesWithInner | src/DataFilters/Grammar/Syntax/NotExpression.cs:22-26 | `Not(e)` hashes like `e` but is never equal to `e` |
| NotExpressions.EquivalentIffEqual | src/DataFilters/Grammar/Syntax/NotExpression.cs:8-26 | `Not` does not override `IsEquivalentTo`, so two `Not` nodes are equivalent exactly when they are equal |
| Syntax.ExpressionEquals | src/DataFilters/Grammar/Syntax/OrExpression.cs:34-37 | `Equals` between two nodes, dispatched on the receiver's kind: an `Or` compares operands positionally, a `Not` its inner expression, a `OneOf` its values in order; `Syntax.EqualsIsStructural` proves it is value equality |
| Syntax.Equals | src/DataFilters/Grammar/Syntax/NotExpression.cs:22-24 | `Equals(object)`: false for `null` and for an object that is not a filter expression, otherwise `Syntax.ExpressionEquals` |
| Syntax.Hash | src/DataFilters/Grammar/Syntax/OrExpression.cs:40-44 | `GetHashCode`: an `Or` combines its operands' hashes, a `Not` takes its inner expression's hash, other kinds use the leaf hash; `Syntax.EqualsImpliesSameHash` proves it agrees with `Equals` |
| Syntax.Equivalent | src/DataFilters/Grammar/Syntax/OrExpression.cs:54-69 | `IsEquivalentTo` against a node: an `Or` accepts the same operands in either order, or, against a node that is not an `Or`, two equal operands equal to that node; a `OneOf` compares its distinct values as sets, or against a node that is not a list requires every value to equal that node (test-derived); every other kind falls back on `Equals` |
| Syntax.IsEquivalentTo | src/DataFilters/Grammar/Syntax/OrExpression.cs:54-69 | `IsEquivalentTo` with a possibly `null` argument: `null` is never equivalent; `Syntax.EqualsImpliesEquivalent` proves it is implied by `Equals` |
| Syntax.EqualsIsStructural | src/DataFilters/Grammar/Syntax/OrExpression.cs:34-37 | `Equals`, dispatched through every node kind, holds exactly when the two trees are the same value |
| Syntax.EqualsIsEquivalenceRelation | src/DataFilters/Grammar/Syntax/NotExpression.cs:22-24 | `Equals` is reflexive, symmetric and transitive |
| Syntax.EqualsImpliesSameHash | src/DataFilters/Grammar/Syntax/OrExpression.cs:40-44 | equal nodes of any kind have the same hash, whatever the hash arithmetic |
| Syntax.EqualsImpliesEquivalent | src/DataFilters/Grammar/Syntax/OrExpression.cs:54-69 | `Equals` implies `IsEquivalentTo`, for every kind of node |
| Syntax.EquivalenceIsNotSymmetric | src/DataFilters/Grammar/Syntax/OrExpression.cs:63-66 | `Or(x, x)` is equivalent to a leaf `x`, but `x` is not equivalent to `Or(x, x)` |
| LeafExpressions.NewContains | test/DataFilters.UnitTests/Grammar/Syntax/ContainsExpressionTests.cs:18-38 | (test-derived) `null` fails with `ArgumentNullException`, the empty string with `ArgumentOutOfRangeException`, any other text is kept |
| LeafExpressions.WhitespaceOnlyContainsIsAccepted | test/DataFilters.UnitTests/Grammar/Syntax/ContainsExpressionTests.cs:40-51 | (test-derived) whitespace-only text is accepted |
| LeafExpressions.NewOneOf | test/DataFilters.UnitTests/Grammar/Syntax/OneOfExpressionTests.cs:36-45 | (test-derived) construction succeeds exactly when the values are present, and keeps them in order |
| LeafExpressions.OneOfEqualsIsOrdered | test/DataFilters.UnitTests/Grammar/Syntax/OneOfExpressionTests.cs:47-75 | (test-derived) two lists are equal exactly when they hold the same values in the same order |
| LeafExpressions.OneOfEquivalenceIgnoresOrderAndDuplicates | test/DataFilters.UnitTests/Grammar/Syntax/OneOfExpressionTests.cs:103-146 | (test-derived) two lists are equivalent exactly when every value of each occurs in the other |
| LeafExpressions.OneOfExamples | test/DataFilters.UnitTests/Grammar/Syntax/OneOfExpressionTests.cs:103-146 | (test-derived) `OneOf(a, b)` is not equal to `OneOf(b, a)` but is equivalent; `OneOf(a, a, b)` is equivalent to `OneOf(a, b)`; `OneOf(a)` is not equivalent to `OneOf(a, b)` |
| LeafExpressions.RepeatedValueIsEquivalentToIt | test/DataFilters.UnitTests/Grammar/Syntax/OneOfExpressionTests.cs:161-187 | (test-derived) a list repeating one value n > 0 times is equivalent to that value |
| CompositeFilters.NewComposite | src/DataFilters/CompositeFilter.cs:47-54 | a fresh composite has logic `And` and no children |
| CompositeFilters.Dual | src/DataFilters/CompositeFilter.cs:64-66 | the negated logic differs from the original: `And` becomes `Or` and `Or` becomes `And` |
| CompositeFilters.Negate | src/DataFilters/CompositeFilter.cs:60-74 | De Morgan's transform: a composite becomes one with the dual logic over its children's negations, in order; a leaf is negated by the leaf negation; `CompositeFilters.NegateComplements` and `CompositeFilters.NegateIsInvolution` are its partners |
| CompositeFilters.NegateComposite | src/DataFilters/CompositeFilter.cs:60-74 | the negation is a composite with the dual logic, the same number of children, and child `i` the negation of child `i` |
| CompositeFilters.NegateTwiceRestoresLogic | src/DataFilters/CompositeFilter.cs:64-66 | negating twice restores the logic, whatever leaf negation does |
| CompositeFilters.NegateIsInvolution | src/DataFilters/CompositeFilter.cs:60-74 | when negating a leaf twice gives it back, negating any filter twice gives it back |
| CompositeFilters.NegateComplements | src/DataFilters/CompositeFilter.cs:60-74 | De Morgan: when a negated leaf holds exactly where the leaf does not, a negated filter holds exactly where the filter does not |
| CompositeFilters.FilterEquals | src/DataFilters/CompositeFilter.cs:91-95 | equality between two filters: two composites need the same logic and `SequenceEqual` children; `CompositeFilters.FilterEqualsIsStructural` proves it is value equality |
| CompositeFilters.CompositeEquals | src/DataFilters/CompositeFilter.cs:91-95 | `Equals(object)` on a composite: false for `null`, unrelated objects and leaf filters, otherwise `CompositeFilters.FilterEquals` |
| CompositeFilters.FilterEqualsIsStructural | src/DataFilters/CompositeFilter.cs:91-95 | filter equality (logic, then children by `SequenceEqual`) holds exactly when the two filters are the same value |
| CompositeFilters.CompositeEqualsIff | src/DataFilters/CompositeFilter.cs:95 | two composites are equal exactly when their logic is the same and their children are equal pairwise, in order |
| CompositeFilters.CompositeEqualsIsReflexive | test/DataFilters.UnitTests/CompositeFilterTests.cs:276-291 | a composite equals itself |
| CompositeFilters.CompositeEqualsRejectsOthers | src/DataFilters/CompositeFilter.cs:91-95 | a composite never equals `null`, an object of another type, or a leaf filter |
| CompositeFilters.DifferentLogicIsNotEqual | src/DataFilters/CompositeFilter.cs:95 | composites with different logic are never equal |
| CompositeFilters.ChangedOperatorBreaksEquality | test/DataFilters.UnitTests/CompositeFilterTests.cs:213-258 | changing the operator of one leaf child breaks equality |
| CompositeFilters.NegateRespectsEquals | src/DataFilters/CompositeFilter.cs:60-95 | equal composites have equal negations |
| CompositeFilters.ContentHash | src/DataFilters/CompositeFilter.cs:79-88 | `GetHashCode` of the current frameworks: a `HashCode` fed the logic and then each child's hash, in order; `CompositeFilters.EqualFiltersHashEqually` proves it agrees with `Equals` |
| CompositeFilters.EqualFiltersHashEqually | src/DataFilters/CompositeFilter.cs:79-88 | equal filters have the same content hash (logic, then each child in order), whatever the hash arithmetic |
| CompositeFilters.ContentHashRespectsEquals | src/DataFilters/CompositeFilter.cs:79-95 | the content hash agrees with `Equals`, whatever collection objects hold the children |
| CompositeFilters.TupleHash | src/DataFilters/CompositeFilter.cs:76-77 | the netstandard hash: a pair hash of the logic's hash and the collection object's identity hash; the children's contents take no part |
| CompositeFilters.TupleHashBreaksEquals | src/DataFilters/CompositeFilter.cs:76-77 | when distinct collection objects get distinct identity hashes and the pair hash depends on its second component, two composites with the same logic and children in distinct collections are `Equals` yet hash differently |
| CompositeFilters.TupleHashBreaksEqualsExample | src/DataFilters/CompositeFilter.cs:76-77 | with identity hashes that number the objects, the same children held in collections `0` and `1` give two `Equals` composites with different hashes |
| Text.Split | src/DataFilters/SortValidator.cs:16-22 | splitting on `,` gives at least one piece; no piece holds a comma; joining the pieces with `,` gives the input back, whitespace included |
| Text.SplitJoin | src/DataFilters/SortValidator.cs:16-22 | splitting inverts joining, for one or more comma-free pieces |
| SortValidation.Pattern | src/DataFilters/SortValidator.cs:14 | the text of the sort pattern, with the field-name pattern spliced in at both places |
| SortPattern.IsMatch | src/DataFilters/SortValidator.cs:14 | the language of the sort pattern: optional leading whitespace and an optionally signed key, then any number of further optionally signed keys, each after a comma with whitespace around it and followed by optional whitespace, then optionally one final newline; `SortPattern.MatchIffKeyList` relates it to a piece-by-piece definition |
| SortPattern.PieceMatch | src/DataFilters/SortValidator.cs:14 | a text without a comma matches the pattern exactly when it is one optionally signed key with leading whitespace, optionally followed by one newline |
| SortPattern.PiecesMatchImpliesMatch | src/DataFilters/SortValidator.cs:14-23 | when every piece matches the pattern on its own, the whole string matches it |
| SortPattern.MatchIffKeyList | src/DataFilters/SortValidator.cs:14-19 | when field names hold no comma, the pattern accepts a string exactly when it is one key (optionally followed by a newline), or two or more pieces each of which is a key padded with whitespace |
| SortPattern.MatchIsKeyList | src/DataFilters/SortValidator.cs:14 | when field names hold no comma, a string the pattern accepts is a key list |
| SortPattern.KeyListMatches | src/DataFilters/SortValidator.cs:14 | the pattern accepts every key list |
| SortValidation.Incorrect | src/DataFilters/SortValidator.cs:22-23 | the `Where` filter over the split pieces; `SortValidation.IncorrectPositions` and `SortValidation.IncorrectMembers` state what it keeps |
| SortValidation.IncorrectPositions | src/DataFilters/SortValidator.cs:22-23 | the reported pieces sit at increasing positions of the input, each pointing at its piece, and a position is among them exactly when its piece fails |
| SortValidation.IncorrectMembers | src/DataFilters/SortValidator.cs:22-23 | a text is reported exactly when it is one of the pieces and fails the test |
| SortValidation.IncorrectIsEmptyIff | src/DataFilters/SortValidator.cs:23 | no piece is reported exactly when every piece matches |
| SortValidation.IncorrectAreInputPieces | src/DataFilters/SortValidator.cs:22-23 | every reported piece is a piece of the input |
| SortValidation.RejectionNamesAnOffender | src/DataFilters/SortValidator.cs:15-23 | with a case-neutral field pattern, a rejected string always has at least one offending piece |
| SortValidation.RejectionWithoutOffenders | src/DataFilters/SortValidator.cs:15-28 | when the whole string fails the case-sensitive match but every piece passes the case-insensitive one, the message lists nothing, in the plural |
| SortValidation.RejectionWithoutOffendersExample | src/DataFilters/SortValidator.cs:15-28 | with a field pattern `Name` that matches `name` only when case is ignored, the input `name` is rejected and its message lists no piece, in the plural |
| SortValidation.Report | src/DataFilters/SortValidator.cs:24-28 | the offending pieces quoted, joined with `", "`, between singular or plural wording; `SortValidation.ReadReportOfReport` inverts it |
| SortValidation.Message | src/DataFilters/SortValidator.cs:20-28 | the `WithMessage` text: the report of the pieces of the input that fail the case-insensitive match; `SortValidation.MessageRoundTrip` inverts it |
| SortValidation.Validate | src/DataFilters/SortValidator.cs:18-28 | every key list is accepted; when field names cannot hold a comma, a string is accepted exactly when it is a key list (its body returns `SortValidation.Message` on rejection) |
| SortValidation.ReportWording | src/DataFilters/SortValidator.cs:27-28 | one offender reads `Sort expression "x" does not match "<pattern>".`; any other number starts `Sort expressions ` and ends ` do not match "<pattern>".` |
| SortValidation.ReadReportOfReport | src/DataFilters/SortValidator.cs:24-28 | reading the comma-free pieces back out of a report gives them all, in order, and the wording agrees with their number |
| SortValidation.MessageRoundTrip | src/DataFilters/SortValidator.cs:20-28 | the message names exactly the pieces that fail the case-insensitive match, in input order, each quoted, joined with `", "` |

## Left out

- JSON: the schema, `ToJson`, `ToString`, `Jsonify` and the property-name constants (src/DataFilters/CompositeFilter.cs:20-41, 56-58). They are serialization adapters.
- Exact hash values: `HashCode.Combine`, tuple hashes and `HashCode` are parameters. Only their consistency with `Equals` is proved.
- The predicate compiler (`ToExpression`), `Sort`/`MultiSort` and ordering. They are not part of this model.
- The leaf `Filter` class and its operator inversion. Leaf negation is a parameter of `Negate`, and leaf equality is structural.
- `CompositeFilters.Negate`: the lazy `Select` (materialised only in DEBUG builds) is modelled as the sequence it yields when it is built. In release builds it stays a live view of the receiver's collection, so a later change to that collection changes what the negation yields; DEBUG builds copy it. The model does not distinguish the two builds.
- Mutation and aliasing of composites: `Logic` and `Filters` have public setters (src/DataFilters/CompositeFilter.cs:47, 54), and `Filters` may be any mutable collection shared with other objects. The model treats a composite as an immutable value.
- A `null` `Filters` collection: `Negate` (`Select`) throws `ArgumentNullException`, and so does `Equals` (`SequenceEqual`) once the logic matches; the current-framework hash throws `NullReferenceException` from its `foreach`, while the netstandard tuple hash throws nothing. Also `null` children: negating one throws `NullReferenceException`, and `SequenceEqual` counts two `null` children as equal. Children are never `null` in the model.
- The default `FilterExpression.IsEquivalentTo` and the leaf node classes. They are not part of this model: leaves compare field by field, and the default equivalence is `Equals`.
- `Syntax.Equivalent` for a `OneOf` against a node that is not a list: the unit tests fix only the case where every value is that node. The model generalises this: a non-empty list is equivalent exactly when all its values equal the node.
- `Not` unwrapping when negated: that lives in classes outside this model.
- The `StartsWith`/`EndsWith` constructor rules, which are not part of this model.
- `LeafExpressions.NewContains`: the error kinds follow the unit tests (`ArgumentNullException` for `null`), not a generic invalid-argument error.
- The contents of `Constants.ValidFieldNamePattern`. It is a parameter, matched case-sensitively and case-insensitively.
- `SortPattern.MatchIffKeyList` assumes field names never contain a comma. Without that assumption only the direction `SortPattern.KeyListMatches` is proved.
- Unicode for `\s` and `\w`: only their ASCII members are modelled.
- The regular expression's one-second timeout, and FluentValidation's rule plumbing.
- `SortValidation.Message`: FluentValidation passes the text returned to `WithMessage` through its placeholder formatter, so a piece such as `{PropertyName}` may not appear word for word in the final error. The model stops at the text the builder returns, and `SortValidation.MessageRoundTrip` speaks of that text.
- A `null` sort string: FluentValidation does not hand one to the rule.
- `CamelCaseEnumTypeConverter`, `SnakeCasePropertyNameResolutionStrategy`, and the build scripts. They are a thin serialization wrapper, a delegating strategy, and tooling.

## Findings

| source | as written | input that shows it | evidently intended | confidence | as-written member | corrected member |
|---|---|---|---|---|---|---|
| src/DataFilters/CompositeFilter.cs:76-77 | the netstandard builds hash the pair `(Logic, Filters)`, and `Filters` is a collection object that hashes by identity | two composites with the same logic and children held in different collections, such as two results of `Negate()` on one composite, each holding a new `Select` iterator: they are `Equals` but hash apart | hash the children by content, as the other builds do (lines 79-88), so equal composites hash equally | medium, not executed | CompositeFilters.TupleHashBreaksEquals | CompositeFilters.ContentHashRespectsEquals |
