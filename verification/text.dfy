/**
  Text helpers of the runtime the sort validator relies on: the regular
  expression character classes `\s` and `\w`, `string.Split` on one separator
  character and `string.Join`.
 */
module Text {

  /** `\s`: white space. */
  predicate IsWhiteSpace(c: char)
  {
    c == ' ' || c == '\t' || c == '\n' || c == '\r' || c == '\U{000B}' || c == '\U{000C}'
  }

  /** `\w`: a word character (letter, digit or underscore). */
  predicate IsWordChar(c: char)
  {
    ('a' <= c <= 'z') || ('A' <= c <= 'Z') || ('0' <= c <= '9') || c == '_'
  }

  predicate AllWhiteSpace(s: string)
  {
    forall i :: 0 <= i < |s| ==> IsWhiteSpace(s[i])
  }

  predicate AllWordChars(s: string)
  {
    forall i :: 0 <= i < |s| ==> IsWordChar(s[i])
  }

  predicate IsPrefix(prefix: string, s: string)
  {
    |prefix| <= |s| && s[..|prefix|] == prefix
  }

  predicate IsSuffix(suffix: string, s: string)
  {
    |suffix| <= |s| && s[|s| - |suffix|..] == suffix
  }

  /** A text framed by a prefix and a suffix, and what lies between them. */
  lemma FramedConcat(prefix: string, middle: string, suffix: string)
    ensures IsPrefix(prefix, prefix + middle + suffix)
    ensures IsSuffix(suffix, prefix + middle + suffix)
    ensures (prefix + middle + suffix)[|prefix|..|prefix| + |middle|] == middle
  {
    var s := prefix + middle + suffix;
    assert s[..|prefix|] == prefix;
    assert s[|s| - |suffix|..] == suffix;
    assert s[|prefix|..|prefix| + |middle|] == middle;
  }

  /** `string.Join(separator, pieces)`: the pieces with the separator between
      consecutive ones; no pieces give the empty string. */
  function Join(pieces: seq<string>, separator: string): string
    decreases |pieces|
  {
    if |pieces| == 0 then ""
    else if |pieces| == 1 then pieces[0]
    else pieces[0] + separator + Join(pieces[1..], separator)
  }

  /** `string.Split(separator)`: the text between consecutive separators, empty
      pieces included.  Splitting never loses or adds a character: joining the
      pieces back with the separator gives the input. */
  function Split(s: string, separator: char): (pieces: seq<string>)
    ensures |pieces| >= 1
    ensures forall i :: 0 <= i < |pieces| ==> separator !in pieces[i]
    ensures Join(pieces, [separator]) == s
    decreases |s|
  {
    if |s| == 0 then [""]
    else
      var rest := Split(s[1..], separator);
      if s[0] == separator then
        [""] + rest
      else
        var pieces := [[s[0]] + rest[0]] + rest[1..];
        assert Join(pieces, [separator]) == [s[0]] + Join(rest, [separator]) by {
          if |rest| > 1 {
            assert pieces[1..] == rest[1..];
          }
        }
        pieces
  }

  /** A text without the separator is one piece. */
  lemma {:induction false} SplitWithoutSeparator(s: string, separator: char)
    requires separator !in s
    ensures Split(s, separator) == [s]
    decreases |s|
  {
    if |s| > 0 {
      SplitWithoutSeparator(s[1..], separator);
      assert [s[0]] + s[1..] == s;
    }
  }

  /** Splitting a text that starts with a separator-free piece and a separator. */
  lemma {:induction false} SplitAfterPiece(piece: string, separator: char, rest: string)
    requires separator !in piece
    ensures Split(piece + [separator] + rest, separator) == [piece] + Split(rest, separator)
    decreases |piece|
  {
    var s := piece + [separator] + rest;
    if |piece| == 0 {
      assert s[0] == separator && s[1..] == rest;
    } else {
      assert s[1..] == piece[1..] + [separator] + rest;
      SplitAfterPiece(piece[1..], separator, rest);
      assert [s[0]] + piece[1..] == piece;
    }
  }

  /** Splitting inverts joining, for at least one piece none of which contains
      the separator. */
  lemma {:induction false} SplitJoin(pieces: seq<string>, separator: char)
    requires |pieces| >= 1
    requires forall i :: 0 <= i < |pieces| ==> separator !in pieces[i]
    ensures Split(Join(pieces, [separator]), separator) == pieces
    decreases |pieces|
  {
    if |pieces| == 1 {
      SplitWithoutSeparator(pieces[0], separator);
    } else {
      SplitJoin(pieces[1..], separator);
      SplitAfterPiece(pieces[0], separator, Join(pieces[1..], [separator]));
      assert [pieces[0]] + pieces[1..] == pieces;
    }
  }

  /** Splitting a text that starts with a separator-free prefix: the prefix
      joins the first piece of the rest. */
  lemma {:induction false} SplitAfterPrefix(prefix: string, separator: char, rest: string)
    requires separator !in prefix
    ensures Split(prefix + rest, separator) ==
      [prefix + Split(rest, separator)[0]] + Split(rest, separator)[1..]
    decreases |prefix|
  {
    if |prefix| > 0 {
      var s := prefix + rest;
      assert s[1..] == prefix[1..] + rest;
      SplitAfterPrefix(prefix[1..], separator, rest);
      assert [s[0]] + (prefix[1..] + Split(rest, separator)[0]) == prefix + Split(rest, separator)[0];
    } else {
      var pieces := Split(rest, separator);
      assert prefix == [];
      assert prefix + rest == rest;
      assert prefix + pieces[0] == pieces[0];
      assert [pieces[0]] + pieces[1..] == pieces;
    }
  }

  /** Appending a character other than the separator extends the last piece. */
  lemma {:induction false} SplitExtendLast(s: string, separator: char, c: char)
    requires c != separator
    ensures var pieces := Split(s, separator);
      Split(s + [c], separator) == pieces[..|pieces| - 1] + [pieces[|pieces| - 1] + [c]]
    decreases |s|
  {
    var pieces := Split(s, separator);
    var t := s + [c];
    if |s| == 0 {
      assert t[1..] == [];
    } else {
      assert t[1..] == s[1..] + [c];
      SplitExtendLast(s[1..], separator, c);
      var rest := Split(s[1..], separator);
      if s[0] == separator {
        assert pieces == [""] + rest;
        assert pieces[..|pieces| - 1] == [""] + rest[..|rest| - 1];
      } else if |rest| == 1 {
        assert pieces == [[s[0]] + rest[0]];
      } else {
        assert pieces == [[s[0]] + rest[0]] + rest[1..];
        assert pieces[..|pieces| - 1] == [[s[0]] + rest[0]] + rest[1..|rest| - 1];
      }
    }
  }
}
