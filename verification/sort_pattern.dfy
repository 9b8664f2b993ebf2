/**
  The sort-expression grammar of `SortValidator.Pattern`,

      ^\s*(-|\+)?((F)\w*)+(\s*,\s*((-|\+)?((F)\w*)+)\s*)*$

  as a recognizer.  `F` is the field-name pattern, which is not part of this
  model: it is a parameter, a predicate telling which texts it matches.  The
  recognizer follows the pattern group by group; a regular expression without
  back-references matches exactly the texts of its language, so backtracking
  plays no part.  As in .NET, `$` also matches just before a final newline.
 */
module SortPattern {
  import opened Text

  /** `-` or `+`. */
  predicate IsSign(c: char)
  {
    c == '-' || c == '+'
  }

  /** `(F)\w*`: one field-name match followed by word characters. */
  predicate FieldToken(field: string -> bool, t: string)
  {
    exists j :: 0 <= j <= |t| && field(t[..j]) && AllWordChars(t[j..])
  }

  /** `((F)\w*)+`: one or more field tokens. */
  predicate FieldTokens(field: string -> bool, t: string)
    decreases |t|
  {
    || FieldToken(field, t)
    || exists i :: 0 < i < |t| && FieldToken(field, t[..i]) && FieldTokens(field, t[i..])
  }

  /** `(-|\+)?((F)\w*)+`: an optionally signed field. */
  predicate SignedField(field: string -> bool, t: string)
  {
    || FieldTokens(field, t)
    || (|t| > 0 && IsSign(t[0]) && FieldTokens(field, t[1..]))
  }

  /** `\s*(-|\+)?((F)\w*)+`: the first sort key. */
  predicate LeadingKey(field: string -> bool, t: string)
  {
    exists a :: 0 <= a <= |t| && AllWhiteSpace(t[..a]) && SignedField(field, t[a..])
  }

  /** `\s*,\s*((-|\+)?((F)\w*)+)\s*`: one further sort key with its comma. */
  predicate NextKey(field: string -> bool, t: string)
  {
    exists c, a, b ::
      && 0 <= c < a <= b <= |t|
      && AllWhiteSpace(t[..c])
      && t[c] == ','
      && AllWhiteSpace(t[c + 1..a])
      && SignedField(field, t[a..b])
      && AllWhiteSpace(t[b..])
  }

  /** `(\s*,\s*((-|\+)?((F)\w*)+)\s*)*`: any number of further sort keys. */
  predicate NextKeys(field: string -> bool, t: string)
    decreases |t|
  {
    || t == []
    || exists i :: 0 < i <= |t| && NextKey(field, t[..i]) && NextKeys(field, t[i..])
  }

  /** The pattern between `^` and `$`. */
  predicate SortExpression(field: string -> bool, s: string)
  {
    exists i :: 0 <= i <= |s| && LeadingKey(field, s[..i]) && NextKeys(field, s[i..])
  }

  /** `Regex.IsMatch(s)` for the anchored pattern: `$` matches at the end of
      the input or just before a final newline. */
  predicate IsMatch(field: string -> bool, s: string)
  {
    || SortExpression(field, s)
    || (|s| > 0 && s[|s| - 1] == '\n' && SortExpression(field, s[..|s| - 1]))
  }

  /** A sort key as it appears between two commas: white space, an optionally
      signed field, white space. */
  predicate PaddedKey(field: string -> bool, p: string)
  {
    exists b :: 0 <= b <= |p| && LeadingKey(field, p[..b]) && AllWhiteSpace(p[b..])
  }

  /** Every further sort key holds a comma. */
  lemma NextKeyHasComma(field: string -> bool, t: string)
    requires NextKey(field, t)
    ensures ',' in t
  {
    var c, a, b :| 0 <= c < a <= b <= |t| && t[c] == ',';
  }

  /** Without a comma there are no further sort keys. */
  lemma NextKeysWithoutComma(field: string -> bool, t: string)
    requires ',' !in t && NextKeys(field, t)
    ensures t == []
  {
    if t != [] {
      var i :| 0 < i <= |t| && NextKey(field, t[..i]) && NextKeys(field, t[i..]);
      NextKeyHasComma(field, t[..i]);
      assert false;
    }
  }

  /** A piece without a comma matches exactly when it is the leading key, or
      the leading key followed by one newline. */
  lemma PieceMatch(field: string -> bool, p: string)
    requires ',' !in p
    ensures IsMatch(field, p) <==>
      LeadingKey(field, p) || (|p| > 0 && p[|p| - 1] == '\n' && LeadingKey(field, p[..|p| - 1]))
  {
    forall x | ',' !in x
      ensures SortExpression(field, x) <==> LeadingKey(field, x)
    {
      if SortExpression(field, x) {
        var i :| 0 <= i <= |x| && LeadingKey(field, x[..i]) && NextKeys(field, x[i..]);
        assert ',' !in x[i..];
        NextKeysWithoutComma(field, x[i..]);
        assert x[..i] == x;
      }
      if LeadingKey(field, x) {
        assert x[..|x|] == x && x[|x|..] == [];
      }
    }
    if |p| > 0 {
      assert ',' !in p[..|p| - 1];
    }
  }

  /** A piece that matches on its own is a padded key. */
  lemma MatchingPieceIsPadded(field: string -> bool, p: string)
    requires ',' !in p && IsMatch(field, p)
    ensures PaddedKey(field, p)
  {
    PieceMatch(field, p);
    if LeadingKey(field, p) {
      assert p[..|p|] == p;
    } else {
      var b := |p| - 1;
      assert p[..b] == p[..|p| - 1];
      assert p[b..] == "\n";
    }
  }

  /** Builds one further sort key from its parts. */
  lemma NextKeyOf(field: string -> bool, w: string, q: string, a: nat, b: nat)
    requires AllWhiteSpace(w)
    requires a <= b <= |q|
    requires AllWhiteSpace(q[..a]) && SignedField(field, q[a..b]) && AllWhiteSpace(q[b..])
    ensures NextKey(field, w + [','] + q)
  {
    var t := w + [','] + q;
    var c := |w|;
    assert t[..c] == w;
    assert t[c] == ',';
    assert t[c + 1..c + 1 + a] == q[..a];
    assert t[c + 1 + a..c + 1 + b] == q[a..b];
    assert t[c + 1 + b..] == q[b..];
  }

  /** A further sort key followed by further sort keys. */
  lemma NextKeysCons(field: string -> bool, x: string, y: string)
    requires NextKey(field, x) && NextKeys(field, y)
    ensures NextKeys(field, x + y)
  {
    var t := x + y;
    NextKeyHasComma(field, x);
    assert t[..|x|] == x && t[|x|..] == y;
  }

  /** One further sort key alone. */
  lemma NextKeysSingle(field: string -> bool, x: string)
    requires NextKey(field, x)
    ensures NextKeys(field, x)
  {
    NextKeysCons(field, x, []);
    assert x + [] == x;
  }

  /** A leading key followed by further sort keys is a sort expression. */
  lemma SortExpressionOf(field: string -> bool, x: string, y: string)
    requires LeadingKey(field, x) && NextKeys(field, y)
    ensures SortExpression(field, x + y)
  {
    var t := x + y;
    assert t[..|x|] == x && t[|x|..] == y;
  }

  /** Regrouping a comma-separated text around a piece cut in two. */
  lemma Regroup(w: string, q: string, b: nat, rest: string)
    requires b <= |q|
    ensures w + [','] + (q + [','] + rest) == (w + [','] + q[..b]) + (q[b..] + [','] + rest)
  {
    assert q == q[..b] + q[b..];
  }

  /** Cutting the first piece of a comma-separated text in two. */
  lemma Cut(p: string, b: nat, rest: string)
    requires b <= |p|
    ensures p + [','] + rest == p[..b] + (p[b..] + [','] + rest)
  {
    assert p == p[..b] + p[b..];
  }

  /** White space, a comma and padded keys separated by commas form further
      sort keys. */
  lemma {:induction false} NextKeysOfPieces(field: string -> bool, w: string, qs: seq<string>)
    requires AllWhiteSpace(w)
    requires |qs| >= 1
    requires forall k :: 0 <= k < |qs| ==> PaddedKey(field, qs[k])
    ensures NextKeys(field, w + [','] + Join(qs, [',']))
    decreases |qs|
  {
    var q := qs[0];
    var b :| 0 <= b <= |q| && LeadingKey(field, q[..b]) && AllWhiteSpace(q[b..]);
    var a :| 0 <= a <= |q[..b]| && AllWhiteSpace(q[..b][..a]) && SignedField(field, q[..b][a..]);
    assert q[..b][..a] == q[..a];
    assert q[..b][a..] == q[a..b];
    if |qs| == 1 {
      NextKeyOf(field, w, q, a, b);
      NextKeysSingle(field, w + [','] + q);
    } else {
      var rest := Join(qs[1..], [',']);
      var q' := q[..b];
      assert q'[..a] == q[..a] && q'[a..b] == q[a..b] && q'[b..] == [];
      NextKeyOf(field, w, q', a, b);
      NextKeysOfPieces(field, q[b..], qs[1..]);
      NextKeysCons(field, w + [','] + q', q[b..] + [','] + rest);
      assert Join(qs, [',']) == q + [','] + rest;
      Regroup(w, q, b, rest);
    }
  }

  /** Two or more comma-separated padded keys form a sort expression. */
  lemma PaddedPiecesMatch(field: string -> bool, s: string)
    requires |Split(s, ',')| >= 2
    requires forall k :: 0 <= k < |Split(s, ',')| ==> PaddedKey(field, Split(s, ',')[k])
    ensures SortExpression(field, s)
  {
    var ps := Split(s, ',');
    var p := ps[0];
    var b :| 0 <= b <= |p| && LeadingKey(field, p[..b]) && AllWhiteSpace(p[b..]);
    NextKeysOfPieces(field, p[b..], ps[1..]);
    var rest := Join(ps[1..], [',']);
    SortExpressionOf(field, p[..b], p[b..] + [','] + rest);
    assert s == p + [','] + rest;
    Cut(p, b, rest);
  }

  /** When every comma-separated piece of a text matches the pattern on its
      own, the whole text matches it. */
  lemma PiecesMatchImpliesMatch(field: string -> bool, s: string)
    ensures (forall k :: 0 <= k < |Split(s, ',')| ==> IsMatch(field, Split(s, ',')[k])) ==> IsMatch(field, s)
  {
    var ps := Split(s, ',');
    if forall k :: 0 <= k < |ps| ==> IsMatch(field, ps[k]) {
      if |ps| == 1 {
        assert s == ps[0];
      } else {
        forall k | 0 <= k < |ps|
          ensures PaddedKey(field, ps[k])
        {
          MatchingPieceIsPadded(field, ps[k]);
        }
        PaddedPiecesMatch(field, s);
      }
    }
  }

  /** The field-name pattern matches no text holding a comma. */
  ghost predicate FieldsWithoutComma(field: string -> bool)
  {
    forall t :: field(t) ==> ',' !in t
  }

  lemma WhiteSpaceWithoutComma(w: string)
    requires AllWhiteSpace(w)
    ensures ',' !in w
  {
  }

  lemma WordCharsWithoutComma(w: string)
    requires AllWordChars(w)
    ensures ',' !in w
  {
  }

  /** Field tokens hold no comma when field names hold none. */
  lemma {:induction false} FieldTokensWithoutComma(field: string -> bool, t: string)
    requires FieldsWithoutComma(field) && FieldTokens(field, t)
    ensures ',' !in t
    decreases |t|
  {
    if FieldToken(field, t) {
      var j :| 0 <= j <= |t| && field(t[..j]) && AllWordChars(t[j..]);
      WordCharsWithoutComma(t[j..]);
      assert t == t[..j] + t[j..];
    } else {
      var i :| 0 < i < |t| && FieldToken(field, t[..i]) && FieldTokens(field, t[i..]);
      FieldTokensWithoutComma(field, t[..i]);
      FieldTokensWithoutComma(field, t[i..]);
      assert t == t[..i] + t[i..];
    }
  }

  /** The leading key holds no comma when field names hold none. */
  lemma LeadingKeyWithoutComma(field: string -> bool, t: string)
    requires FieldsWithoutComma(field) && LeadingKey(field, t)
    ensures ',' !in t
  {
    var a :| 0 <= a <= |t| && AllWhiteSpace(t[..a]) && SignedField(field, t[a..]);
    WhiteSpaceWithoutComma(t[..a]);
    var f := t[a..];
    if FieldTokens(field, f) {
      FieldTokensWithoutComma(field, f);
    } else {
      FieldTokensWithoutComma(field, f[1..]);
      assert f == [f[0]] + f[1..];
    }
    assert t == t[..a] + f;
  }

  /** A leading key is a padded key with no trailing white space. */
  lemma LeadingKeyIsPadded(field: string -> bool, t: string)
    requires LeadingKey(field, t)
    ensures PaddedKey(field, t)
  {
    assert t[..|t|] == t;
  }

  /** Trailing white space keeps a key padded. */
  lemma PaddedKeyExtend(field: string -> bool, p: string, w: string)
    requires PaddedKey(field, p) && AllWhiteSpace(w)
    ensures PaddedKey(field, p + w)
  {
    var b :| 0 <= b <= |p| && LeadingKey(field, p[..b]) && AllWhiteSpace(p[b..]);
    var t := p + w;
    assert t[..b] == p[..b];
    assert t[b..] == p[b..] + w;
  }

  /** A padded key from its parts. */
  lemma PaddedKeyOf(field: string -> bool, q: string, a: nat, b: nat)
    requires a <= b <= |q|
    requires AllWhiteSpace(q[..a]) && SignedField(field, q[a..b]) && AllWhiteSpace(q[b..])
    ensures PaddedKey(field, q)
  {
    assert q[..b][..a] == q[..a];
    assert q[..b][a..] == q[a..b];
  }

  /** A padded key holds no comma when field names hold none. */
  lemma PaddedKeyWithoutComma(field: string -> bool, p: string)
    requires FieldsWithoutComma(field) && PaddedKey(field, p)
    ensures ',' !in p
  {
    var b :| 0 <= b <= |p| && LeadingKey(field, p[..b]) && AllWhiteSpace(p[b..]);
    LeadingKeyWithoutComma(field, p[..b]);
    WhiteSpaceWithoutComma(p[b..]);
    assert p == p[..b] + p[b..];
  }

  /** What follows the comma of a further sort key is a padded key without a
      comma. */
  lemma AfterComma(field: string -> bool, t: string, c: nat, a: nat, b: nat)
    requires FieldsWithoutComma(field)
    requires c < a <= b <= |t|
    requires AllWhiteSpace(t[c + 1..a]) && SignedField(field, t[a..b]) && AllWhiteSpace(t[b..])
    ensures PaddedKey(field, t[c + 1..]) && ',' !in t[c + 1..]
  {
    var q := t[c + 1..];
    var a', b' := a - (c + 1), b - (c + 1);
    assert q[..a'] == t[c + 1..a];
    assert q[a'..b'] == t[a..b];
    assert q[b'..] == t[b..];
    PaddedKeyOf(field, q, a', b');
    PaddedKeyWithoutComma(field, q);
  }

  /** A further sort key is white space, a comma and a padded key without a
      comma; the result is the position of the comma. */
  lemma NextKeyParts(field: string -> bool, t: string) returns (c: nat)
    requires FieldsWithoutComma(field) && NextKey(field, t)
    ensures c < |t| && t[c] == ','
    ensures AllWhiteSpace(t[..c]) && ',' !in t[..c]
    ensures PaddedKey(field, t[c + 1..]) && ',' !in t[c + 1..]
  {
    var a, b;
    c, a, b :| && 0 <= c < a <= b <= |t|
               && AllWhiteSpace(t[..c])
               && t[c] == ','
               && AllWhiteSpace(t[c + 1..a])
               && SignedField(field, t[a..b])
               && AllWhiteSpace(t[b..]);
    AfterComma(field, t, c, a, b);
  }

  /** The first further sort key of a non-empty sequence of them. */
  lemma NextKeysFirst(field: string -> bool, y: string) returns (item: string, rest: string)
    requires NextKeys(field, y) && y != []
    ensures y == item + rest
    ensures NextKey(field, item) && NextKeys(field, rest) && |rest| < |y|
  {
    var i :| 0 < i <= |y| && NextKey(field, y[..i]) && NextKeys(field, y[i..]);
    item, rest := y[..i], y[i..];
    assert y == item + rest;
  }

  /** Cutting a text at a comma inside its first part. */
  lemma CutAtComma(item: string, c: nat, rest: string)
    requires c < |item| && item[c] == ','
    ensures item + rest == item[..c] + [','] + (item[c + 1..] + rest)
  {
    assert item == item[..c] + [','] + item[c + 1..];
  }

  /** The first further sort key split off: white space, a comma, a padded key,
      and the further sort keys after it. */
  lemma NextKeysHead(field: string -> bool, y: string) returns (w: string, q: string, rest: string)
    requires FieldsWithoutComma(field) && NextKeys(field, y) && y != []
    ensures y == w + [','] + (q + rest)
    ensures AllWhiteSpace(w) && ',' !in w
    ensures PaddedKey(field, q) && ',' !in q
    ensures NextKeys(field, rest) && |rest| < |y|
  {
    var item;
    item, rest := NextKeysFirst(field, y);
    var c := NextKeyParts(field, item);
    w, q := item[..c], item[c + 1..];
    CutAtComma(item, c, rest);
  }

  /** The pieces of white space, a comma and a separator-free key followed by
      more text. */
  lemma SplitOfKeyParts(w: string, q: string, rest: string)
    requires ',' !in w && ',' !in q
    ensures Split(w + [','] + (q + rest), ',') ==
      [w, q + Split(rest, ',')[0]] + Split(rest, ',')[1..]
  {
    SplitAfterPiece(w, ',', q + rest);
    SplitAfterPrefix(q, ',', rest);
  }

  /** The pieces of further sort keys: white space before the first comma, then
      at least one padded key. */
  lemma {:induction false} NextKeysPieces(field: string -> bool, y: string)
    requires FieldsWithoutComma(field) && NextKeys(field, y) && y != []
    ensures |Split(y, ',')| >= 2
    ensures AllWhiteSpace(Split(y, ',')[0])
    ensures forall k :: 1 <= k < |Split(y, ',')| ==> PaddedKey(field, Split(y, ',')[k])
    decreases |y|
  {
    var w, q, rest := NextKeysHead(field, y);
    SplitOfKeyParts(w, q, rest);
    var r := Split(rest, ',');
    if rest == [] {
      assert q + r[0] == q;
    } else {
      NextKeysPieces(field, rest);
      PaddedKeyExtend(field, q, r[0]);
    }
  }

  /** The pieces of a leading key followed by a non-empty sequence of further
      keys: two or more padded keys. */
  lemma LeadThenNextKeysPieces(field: string -> bool, lead: string, y: string)
    requires FieldsWithoutComma(field) && LeadingKey(field, lead)
    requires NextKeys(field, y) && y != []
    ensures |Split(lead + y, ',')| >= 2
    ensures forall k :: 0 <= k < |Split(lead + y, ',')| ==> PaddedKey(field, Split(lead + y, ',')[k])
  {
    LeadingKeyWithoutComma(field, lead);
    NextKeysPieces(field, y);
    SplitAfterPrefix(lead, ',', y);
    var r := Split(y, ',');
    LeadingKeyIsPadded(field, lead);
    PaddedKeyExtend(field, lead, r[0]);
  }

  /** A sort expression split into its leading key and further keys. */
  lemma SortExpressionParts(field: string -> bool, x: string) returns (lead: string, y: string)
    requires SortExpression(field, x)
    ensures x == lead + y && LeadingKey(field, lead) && NextKeys(field, y)
  {
    var i :| 0 <= i <= |x| && LeadingKey(field, x[..i]) && NextKeys(field, x[i..]);
    lead, y := x[..i], x[i..];
    assert x == lead + y;
  }

  /** A leading key alone is one piece. */
  lemma LeadingKeyPieces(field: string -> bool, x: string)
    requires FieldsWithoutComma(field) && LeadingKey(field, x)
    ensures Split(x, ',') == [x]
  {
    LeadingKeyWithoutComma(field, x);
    SplitWithoutSeparator(x, ',');
  }

  /** The pieces of a sort expression: one leading key, or two or more padded
      keys. */
  lemma SortExpressionPieces(field: string -> bool, x: string)
    requires FieldsWithoutComma(field) && SortExpression(field, x)
    ensures || (Split(x, ',') == [x] && LeadingKey(field, x))
            || (&& |Split(x, ',')| >= 2
                && forall k :: 0 <= k < |Split(x, ',')| ==> PaddedKey(field, Split(x, ',')[k]))
  {
    var lead, y := SortExpressionParts(field, x);
    if y == [] {
      assert x == lead;
      LeadingKeyPieces(field, x);
    } else {
      LeadThenNextKeysPieces(field, lead, y);
    }
  }

  /** The sort-expression language read piece by piece: a text is one sort key,
      possibly followed by a newline, or two or more comma-separated pieces each
      of which is a sort key padded with white space. */
  predicate KeyList(field: string -> bool, s: string)
  {
    var ps := Split(s, ',');
    if |ps| == 1 then
      || LeadingKey(field, s)
      || (|s| > 0 && s[|s| - 1] == '\n' && LeadingKey(field, s[..|s| - 1]))
    else
      forall k :: 0 <= k < |ps| ==> PaddedKey(field, ps[k])
  }

  /** A key list matches the pattern. */
  lemma KeyListMatches(field: string -> bool, s: string)
    requires KeyList(field, s)
    ensures IsMatch(field, s)
  {
    var ps := Split(s, ',');
    if |ps| == 1 {
      assert s == ps[0];
      PieceMatch(field, s);
    } else {
      PaddedPiecesMatch(field, s);
    }
  }

  /** When field names hold no comma, a text the pattern matches is a key
      list. */
  lemma MatchIsKeyList(field: string -> bool, s: string)
    requires FieldsWithoutComma(field) && IsMatch(field, s)
    ensures KeyList(field, s)
  {
    if SortExpression(field, s) {
      SortExpressionPieces(field, s);
    } else {
      var x := s[..|s| - 1];
      assert s == x + ['\n'];
      SortExpressionPieces(field, x);
      SplitExtendLast(x, ',', '\n');
      var xs := Split(x, ',');
      if |xs| == 1 {
        assert Split(s, ',') == [s];
      } else {
        PaddedKeyExtend(field, xs[|xs| - 1], "\n");
      }
    }
  }

  /** When field names hold no comma, the pattern matches exactly the key
      lists. */
  lemma MatchIffKeyList(field: string -> bool, s: string)
    requires FieldsWithoutComma(field)
    ensures IsMatch(field, s) <==> KeyList(field, s)
  {
    if IsMatch(field, s) {
      MatchIsKeyList(field, s);
    }
    if KeyList(field, s) {
      KeyListMatches(field, s);
    }
  }
}
