/**
  `SortValidator`: accepts a sort string when it matches the sort pattern, and
  otherwise fails with a message naming every comma-separated piece that does
  not match the pattern on its own.

  The whole string is checked with a case-sensitive match, the pieces with a
  case-insensitive one.  The field-name pattern is not part of this model, so a
  `FieldSyntax` carries its text together with the texts it matches in each of
  the two modes.
 */
module SortValidation {
  import opened Wrappers
  import opened Text
  import opened SortPattern

  /** The field-name pattern: its text, the texts it matches case-sensitively,
      and the texts it matches when case is ignored. */
  datatype FieldSyntax = FieldSyntax(text: string, exact: string -> bool, ignoringCase: string -> bool)

  /** A field-name pattern for which ignoring case changes nothing. */
  ghost predicate CaseNeutral(fs: FieldSyntax)
  {
    fs.ignoringCase == fs.exact
  }

  /** The text of `SortValidator.Pattern`, built around the field-name pattern. */
  function Pattern(fieldPattern: string): string
  {
    @"^\s*(-|\+)?((" + fieldPattern + @")\w*)+(\s*,\s*((-|\+)?((" + fieldPattern + @")\w*)+)\s*)*$"
  }

  /** The per-piece test of the message builder: the pattern, matched with
      the given field-name semantics. */
  function PieceMatcher(field: string -> bool): string -> bool
  {
    p => IsMatch(field, p)
  }

  /** The pieces that fail the test, in input order (`Where`). */
  function Incorrect(matches: string -> bool, pieces: seq<string>): seq<string>
    decreases |pieces|
  {
    if |pieces| == 0 then []
    else
      var last := pieces[|pieces| - 1];
      Incorrect(matches, pieces[..|pieces| - 1]) + (if matches(last) then [] else [last])
  }

  /** The bookkeeping of one more piece: appending its position, when the
      piece fails, keeps the positions increasing, pointing at the reported
      pieces, and leaves every earlier membership as it was. */
  lemma ExtendPositions(pieces: seq<string>, bad: seq<string>, positions: seq<nat>, i: nat, add: bool)
    requires i < |pieces| && |positions| == |bad|
    requires forall k :: 0 <= k < |positions| ==> positions[k] < i && pieces[positions[k]] == bad[k]
    requires forall k, l :: 0 <= k < l < |positions| ==> positions[k] < positions[l]
    ensures var positions', bad' := positions + (if add then [i] else []), bad + (if add then [pieces[i]] else []);
      && |positions'| == |bad'|
      && (forall k :: 0 <= k < |positions'| ==> positions'[k] < i + 1 && pieces[positions'[k]] == bad'[k])
      && (forall k, l :: 0 <= k < l < |positions'| ==> positions'[k] < positions'[l])
      && (forall j :: 0 <= j < i ==> (j in positions' <==> j in positions))
      && (i in positions' <==> add)
  {
  }

  /** No piece is reported exactly when every piece matches. */
  lemma {:induction false} IncorrectIsEmptyIff(matches: string -> bool, pieces: seq<string>)
    ensures Incorrect(matches, pieces) == [] <==> forall i :: 0 <= i < |pieces| ==> matches(pieces[i])
    decreases |pieces|
  {
    if |pieces| > 0 {
      var init := pieces[..|pieces| - 1];
      IncorrectIsEmptyIff(matches, init);
      assert forall i :: 0 <= i < |init| ==> init[i] == pieces[i];
    }
  }

  /** Every reported piece comes from the input. */
  lemma {:induction false} IncorrectAreInputPieces(matches: string -> bool, pieces: seq<string>)
    ensures forall k :: 0 <= k < |Incorrect(matches, pieces)| ==> Incorrect(matches, pieces)[k] in pieces
    decreases |pieces|
  {
    if |pieces| > 0 {
      var init := pieces[..|pieces| - 1];
      IncorrectAreInputPieces(matches, init);
      assert forall x :: x in init ==> x in pieces;
    }
  }

  /** `Incorrect` keeps exactly the failing pieces, in input order: the
      positions of the reported pieces increase, each points at its piece, and
      a position is among them exactly when its piece fails. */
  lemma {:induction false} IncorrectPositions(matches: string -> bool, pieces: seq<string>) returns (positions: seq<nat>)
    ensures |positions| == |Incorrect(matches, pieces)|
    ensures forall k :: 0 <= k < |positions| ==>
      positions[k] < |pieces| && pieces[positions[k]] == Incorrect(matches, pieces)[k]
    ensures forall k, l :: 0 <= k < l < |positions| ==> positions[k] < positions[l]
    ensures forall i :: 0 <= i < |pieces| ==> (i in positions <==> !matches(pieces[i]))
    decreases |pieces|
  {
    if |pieces| == 0 {
      positions := [];
    } else {
      var n := |pieces| - 1;
      var init := pieces[..n];
      var earlier := IncorrectPositions(matches, init);
      assert forall j :: 0 <= j < n ==> init[j] == pieces[j];
      var fails := !matches(pieces[n]);
      ExtendPositions(pieces, Incorrect(matches, init), earlier, n, fails);
      positions := earlier + (if fails then [n] else []);
    }
  }

  /** A text is reported exactly when it is one of the pieces and fails. */
  lemma IncorrectMembers(matches: string -> bool, pieces: seq<string>, x: string)
    ensures x in Incorrect(matches, pieces) <==> x in pieces && !matches(x)
  {
    var bad := Incorrect(matches, pieces);
    var positions := IncorrectPositions(matches, pieces);
    if x in bad {
      var k :| 0 <= k < |bad| && bad[k] == x;
      assert pieces[positions[k]] == x && positions[k] in positions;
    }
    if x in pieces && !matches(x) {
      var i :| 0 <= i < |pieces| && pieces[i] == x;
      assert i in positions;
      var k :| 0 <= k < |positions| && positions[k] == i;
      assert bad[k] == x;
    }
  }

  /** `"x"`: a piece between double quotes. */
  function Quote(piece: string): string
  {
    "\"" + piece + "\""
  }

  function QuoteAll(pieces: seq<string>): (r: seq<string>)
    ensures |r| == |pieces|
  {
    seq(|pieces|, i requires 0 <= i < |pieces| => Quote(pieces[i]))
  }

  /** The start of the message for `n` offending pieces. */
  function Opening(n: nat): string
  {
    if n == 1 then "Sort expression " else "Sort expressions "
  }

  /** The end of the message for `n` offending pieces. */
  function Closing(n: nat, pattern: string): string
  {
    (if n == 1 then " does not match \"" else " do not match \"") + pattern + "\"."
  }

  /** The report built from the offending pieces: quoted, joined with `", "`,
      between a singular or plural opening and closing. */
  function Report(bad: seq<string>, pattern: string): string
  {
    Opening(|bad|) + Join(QuoteAll(bad), ", ") + Closing(|bad|, pattern)
  }

  /** The message of `WithMessage`: the input is split on `,` and the pieces
      that fail the case-insensitive match are reported. */
  function Message(fs: FieldSyntax, s: string): string
  {
    Report(Incorrect(PieceMatcher(fs.ignoringCase), Split(s, ',')), Pattern(fs.text))
  }

  datatype Validation = Valid | Invalid(message: string)

  /** The validator: the whole input must match the pattern case-sensitively;
      otherwise the message lists the offending pieces.  Every list of
      comma-separated keys is accepted, and when field names cannot hold a
      comma nothing else is. */
  function Validate(fs: FieldSyntax, s: string): (r: Validation)
    ensures KeyList(fs.exact, s) ==> r.Valid?
    ensures FieldsWithoutComma(fs.exact) ==> (r.Valid? <==> KeyList(fs.exact, s))
  {
    assert KeyList(fs.exact, s) ==> IsMatch(fs.exact, s) by {
      if KeyList(fs.exact, s) {
        KeyListMatches(fs.exact, s);
      }
    }
    assert FieldsWithoutComma(fs.exact) ==> (IsMatch(fs.exact, s) <==> KeyList(fs.exact, s)) by {
      if FieldsWithoutComma(fs.exact) {
        MatchIffKeyList(fs.exact, s);
      }
    }
    if IsMatch(fs.exact, s) then Valid else Invalid(Message(fs, s))
  }

  /** With a case-neutral field pattern, a rejected input always has at least
      one offending piece to report. */
  lemma RejectionNamesAnOffender(fs: FieldSyntax, s: string)
    requires CaseNeutral(fs)
    requires !IsMatch(fs.exact, s)
    ensures |Incorrect(PieceMatcher(fs.ignoringCase), Split(s, ','))| >= 1
  {
    IncorrectIsEmptyIff(PieceMatcher(fs.ignoringCase), Split(s, ','));
    PiecesMatchImpliesMatch(fs.exact, s);
  }

  /** When ignoring case does change what the field-name pattern matches, a
      rejected input may have no offending piece: the message then lists
      nothing and uses the plural wording. */
  lemma RejectionWithoutOffenders(fs: FieldSyntax, s: string)
    requires !IsMatch(fs.exact, s)
    requires forall k :: 0 <= k < |Split(s, ',')| ==> IsMatch(fs.ignoringCase, Split(s, ',')[k])
    ensures Validate(fs, s).message == "Sort expressions  do not match \"" + Pattern(fs.text) + "\"."
  {
    var ps := Split(s, ',');
    assert forall k :: 0 <= k < |ps| ==> PieceMatcher(fs.ignoringCase)(ps[k]);
    IncorrectIsEmptyIff(PieceMatcher(fs.ignoringCase), ps);
    EmptyReport(Pattern(fs.text));
  }

  /** A field-name pattern that matches `Name`, and also `name` when case is
      ignored. */
  function NameSyntax(): FieldSyntax
  {
    FieldSyntax("Name", t => t == "Name", t => t == "Name" || t == "name")
  }

  /** A field token of a text that starts with `n` never matches `Name`. */
  lemma NoNameTokenAfterLowercase(t: string)
    requires |t| > 0 && t[0] == 'n'
    ensures !FieldToken(NameSyntax().exact, t)
  {
  }

  /** Ignoring case, the sort pattern over `Name` accepts `name`. */
  lemma NameMatchesIgnoringCase()
    ensures IsMatch(NameSyntax().ignoringCase, "name")
  {
    var field, s := NameSyntax().ignoringCase, "name";
    assert FieldToken(field, s) by {
      assert s[..4] == "name" && s[4..] == [];
    }
    assert LeadingKey(field, s[..4]) by {
      assert s[..4] == s && s[..0] == [] && s[0..] == s;
    }
    assert NextKeys(field, s[4..]) by {
      assert s[4..] == [];
    }
  }

  /** Matching case, `name` holds no field token sequence for `Name`. */
  lemma NoNameTokens()
    ensures !FieldTokens(NameSyntax().exact, "name")
  {
    var s := "name";
    NoNameTokenAfterLowercase(s);
    forall i | 0 < i < |s|
      ensures !FieldToken(NameSyntax().exact, s[..i])
    {
      NoNameTokenAfterLowercase(s[..i]);
    }
  }

  /** Matching case, `name` is not a leading sort key for `Name`. */
  lemma NoLeadingNameKey()
    ensures !LeadingKey(NameSyntax().exact, "name")
  {
    var s := "name";
    NoNameTokens();
    forall a | 0 < a <= |s|
      ensures !AllWhiteSpace(s[..a])
    {
      assert s[..a][0] == 'n';
    }
    assert s[0..] == s;
  }

  /** Matching case, the sort pattern over `Name` rejects `name`. */
  lemma NameFailsMatchingCase()
    ensures !IsMatch(NameSyntax().exact, "name")
  {
    NoLeadingNameKey();
    PieceMatch(NameSyntax().exact, "name");
  }

  /** The input `name` shows that a rejected input can name no piece: the
      case-sensitive match fails, the only piece passes the case-insensitive
      one, and the message lists nothing. */
  lemma RejectionWithoutOffendersExample()
    ensures Validate(NameSyntax(), "name").Invalid?
    ensures Validate(NameSyntax(), "name").message ==
      "Sort expressions  do not match \"" + Pattern("Name") + "\"."
  {
    SplitWithoutSeparator("name", ',');
    NameMatchesIgnoringCase();
    NameFailsMatchingCase();
    RejectionWithoutOffenders(NameSyntax(), "name");
  }

  /** The report of no pieces. */
  lemma EmptyReport(pattern: string)
    ensures Report([], pattern) == "Sort expressions  do not match \"" + pattern + "\"."
  {
    assert QuoteAll([]) == [];
  }

  /** The wording of a report: singular for exactly one piece, plural
      otherwise, ending with the pattern in double quotes and a period. */
  lemma ReportWording(bad: seq<string>, pattern: string)
    ensures |bad| == 1 ==>
      Report(bad, pattern) == "Sort expression \"" + bad[0] + "\" does not match \"" + pattern + "\"."
    ensures |bad| != 1 ==> IsPrefix("Sort expressions ", Report(bad, pattern))
    ensures |bad| != 1 ==> IsSuffix(" do not match \"" + pattern + "\".", Report(bad, pattern))
  {
    var middle := Join(QuoteAll(bad), ", ");
    if |bad| == 1 {
      assert middle == Quote(bad[0]);
    } else {
      FramedConcat(Opening(|bad|), middle, Closing(|bad|, pattern));
    }
  }

  /** The text between the double quotes of a quoted piece. */
  function Unquote(q: string): Option<string>
  {
    if |q| >= 2 && q[0] == '"' && q[|q| - 1] == '"' then Some(q[1..|q| - 1]) else None
  }

  /** Reads the pieces after the first: each is a space and a quoted piece. */
  function ReadLaterPieces(items: seq<string>): Option<seq<string>>
    decreases |items|
  {
    if |items| == 0 then Some([])
    else if |items[0]| > 0 && items[0][0] == ' ' then
      match (Unquote(items[0][1..]), ReadLaterPieces(items[1..]))
      case (Some(x), Some(xs)) => Some([x] + xs)
      case _ => None
    else None
  }

  /** Reads a list of quoted pieces joined with `", "`; the empty text is the
      empty list. */
  function ReadList(t: string): Option<seq<string>>
  {
    if t == "" then Some([])
    else
      var items := Split(t, ',');
      match (Unquote(items[0]), ReadLaterPieces(items[1..]))
      case (Some(x), Some(xs)) => Some([x] + xs)
      case _ => None
  }

  /** Reads the offending pieces back out of a report, checking that the
      wording agrees with their number. */
  function ReadReport(message: string, pattern: string): Option<seq<string>>
  {
    var one, many := Opening(1), Opening(0);
    if IsPrefix(one, message) && IsSuffix(Closing(1, pattern), message) && |one| + |Closing(1, pattern)| <= |message| then
      match ReadList(message[|one|..|message| - |Closing(1, pattern)|])
      case Some(xs) => if |xs| == 1 then Some(xs) else None
      case None => None
    else if IsPrefix(many, message) && IsSuffix(Closing(0, pattern), message) && |many| + |Closing(0, pattern)| <= |message| then
      match ReadList(message[|many|..|message| - |Closing(0, pattern)|])
      case Some(xs) => if |xs| != 1 then Some(xs) else None
      case None => None
    else None
  }

  /** The later pieces as they appear in the joined list, after the comma. */
  function Spaced(pieces: seq<string>): (r: seq<string>)
    ensures |r| == |pieces|
  {
    seq(|pieces|, i requires 0 <= i < |pieces| => " " + Quote(pieces[i]))
  }

  /** Joining quoted pieces with `", "` is joining them with `,` once every
      piece after the first carries its leading space. */
  lemma {:induction false} JoinWithSpace(pieces: seq<string>)
    requires |pieces| >= 1
    ensures " " + Join(QuoteAll(pieces), ", ") == Join(Spaced(pieces), ",")
    decreases |pieces|
  {
    if |pieces| > 1 {
      JoinWithSpace(pieces[1..]);
      assert QuoteAll(pieces)[1..] == QuoteAll(pieces[1..]);
      assert Spaced(pieces)[1..] == Spaced(pieces[1..]);
    }
  }

  /** Reading the later pieces inverts spacing and quoting them. */
  lemma {:induction false} ReadLaterPiecesOfSpaced(pieces: seq<string>)
    ensures ReadLaterPieces(Spaced(pieces)) == Some(pieces)
    decreases |pieces|
  {
    if |pieces| > 0 {
      ReadLaterPiecesOfSpaced(pieces[1..]);
      assert Spaced(pieces)[1..] == Spaced(pieces[1..]);
      assert Spaced(pieces)[0][1..] == Quote(pieces[0]);
      assert [pieces[0]] + pieces[1..] == pieces;
    }
  }

  /** The items of a joined list of quoted pieces, as `,` separates them. */
  function ListItems(pieces: seq<string>): seq<string>
    requires |pieces| > 0
  {
    [Quote(pieces[0])] + Spaced(pieces[1..])
  }

  /** A list joined with `", "` is its items joined with `,`. */
  lemma ListItemsJoin(pieces: seq<string>)
    requires |pieces| > 0
    ensures Join(QuoteAll(pieces), ", ") == Join(ListItems(pieces), ",")
  {
    var items := ListItems(pieces);
    if |pieces| > 1 {
      JoinWithSpace(pieces[1..]);
      assert QuoteAll(pieces)[1..] == QuoteAll(pieces[1..]);
      assert items[1..] == Spaced(pieces[1..]);
    }
  }

  /** The items hold no comma when the pieces hold none. */
  lemma ListItemsWithoutComma(pieces: seq<string>)
    requires |pieces| > 0
    requires forall k :: 0 <= k < |pieces| ==> ',' !in pieces[k]
    ensures forall k :: 0 <= k < |ListItems(pieces)| ==> ',' !in ListItems(pieces)[k]
  {
    var items := ListItems(pieces);
    forall k | 0 <= k < |items|
      ensures ',' !in items[k]
    {
      if k > 0 {
        assert items[k] == " " + Quote(pieces[1..][k - 1]);
      }
    }
  }

  /** Reading the list inverts quoting and joining, for pieces without commas. */
  lemma ReadListOfJoin(pieces: seq<string>)
    requires forall k :: 0 <= k < |pieces| ==> ',' !in pieces[k]
    ensures ReadList(Join(QuoteAll(pieces), ", ")) == Some(pieces)
  {
    if |pieces| > 0 {
      var items := ListItems(pieces);
      ListItemsJoin(pieces);
      ListItemsWithoutComma(pieces);
      SplitJoin(items, ',');
      assert Join(items, ",")[0] == '"';
      ReadLaterPiecesOfSpaced(pieces[1..]);
      assert items[1..] == Spaced(pieces[1..]);
      assert [pieces[0]] + pieces[1..] == pieces;
    }
  }

  /** Reading a report gives back exactly the reported pieces, for pieces
      without commas. */
  lemma ReadReportOfReport(bad: seq<string>, pattern: string)
    requires forall k :: 0 <= k < |bad| ==> ',' !in bad[k]
    ensures ReadReport(Report(bad, pattern), pattern) == Some(bad)
  {
    var middle := Join(QuoteAll(bad), ", ");
    var m := Report(bad, pattern);
    FramedConcat(Opening(|bad|), middle, Closing(|bad|, pattern));
    ReadListOfJoin(bad);
    if |bad| != 1 {
      assert m[15] == 's';
      assert !IsPrefix(Opening(1), m);
    }
  }

  /** The message names exactly the offending pieces: reading it back gives
      them, in input order. */
  lemma MessageRoundTrip(fs: FieldSyntax, s: string)
    ensures ReadReport(Message(fs, s), Pattern(fs.text)) == Some(Incorrect(PieceMatcher(fs.ignoringCase), Split(s, ',')))
  {
    var ps := Split(s, ',');
    var bad := Incorrect(PieceMatcher(fs.ignoringCase), ps);
    IncorrectAreInputPieces(PieceMatcher(fs.ignoringCase), ps);
    forall k | 0 <= k < |bad|
      ensures ',' !in bad[k]
    {
      var j :| 0 <= j < |ps| && ps[j] == bad[k];
    }
    ReadReportOfReport(bad, Pattern(fs.text));
  }
}
