/**
  Standard SQL character-string literals: text between single quotes, where a
  single quote inside the text is written twice. PostgreSQL reads literals this
  way when `standard_conforming_strings` is on, its default.
*/
module SqlLiteral {
  import opened Wrappers
  import opened Chars

  /** PostgreSQL's white space characters. */
  predicate IsSpace(c: char) {
    c == ' ' || c == '\t' || c == '\n' || c == '\r' || c == FormFeed || c == VerticalTab
  }

  /**
    True when `s` starts with white space or a `--` comment. PostgreSQL joins a
    literal to a following one when only such separators, holding a newline,
    come between them; the readers here do not, so they are only applied where
    what follows a literal does not start this way.
  */
  predicate StartsSeparator(s: string) {
    |s| > 0 && (IsSpace(s[0]) || (|s| >= 2 && s[0] == '-' && s[1] == '-'))
  }

  /** The text with every single quote written twice. */
  function Double(s: string): string {
    if s == [] then []
    else (if s[0] == '\'' then "''" else [s[0]]) + Double(s[1..])
  }

  /** A literal that reads back as exactly `s`. */
  function QuoteLiteral(s: string): string {
    "'" + Double(s) + "'"
  }

  /** Reads a literal body up to its closing quote; returns the text and what follows. */
  function ReadLiteralBody(s: string): (r: Option<(string, string)>)
    ensures r.Some? ==> |r.value.1| < |s|
    decreases |s|
  {
    if |s| == 0 then None
    else if s[0] == '\'' then
      if |s| >= 2 && s[1] == '\'' then
        match ReadLiteralBody(s[2..])
        case None => None
        case Some((t, rest)) => Some(("'" + t, rest))
      else Some(("", s[1..]))
    else
      match ReadLiteralBody(s[1..])
      case None => None
      case Some((t, rest)) => Some(([s[0]] + t, rest))
  }

  /** Reads one literal at the start of `s`. */
  function ReadLiteral(s: string): (r: Option<(string, string)>)
    ensures r.Some? ==> |r.value.1| < |s|
  {
    if |s| > 0 && s[0] == '\'' then ReadLiteralBody(s[1..]) else None
  }

  /** The number of single quotes in `s`. */
  function QuoteCount(s: string): (n: nat)
    ensures n == 0 <==> '\'' !in s
  {
    if s == [] then 0
    else (if s[0] == '\'' then 1 else 0) + QuoteCount(s[1..])
  }

  lemma {:induction false} DoubleRoundTrip(s: string, rest: string)
    requires rest == [] || rest[0] != '\''
    ensures ReadLiteralBody(Double(s) + "'" + rest) == Some((s, rest))
  {
    if s == [] {
      assert Double(s) + "'" + rest == "'" + rest;
    } else {
      var tail := Double(s[1..]) + "'" + rest;
      DoubleRoundTrip(s[1..], rest);
      if s[0] == '\'' {
        assert Double(s) + "'" + rest == "''" + tail;
        assert ("''" + tail)[2..] == tail;
      } else {
        assert Double(s) + "'" + rest == [s[0]] + tail;
        assert ([s[0]] + tail)[1..] == tail;
      }
      assert [s[0]] + s[1..] == s;
    }
  }

  /** A quoted literal reads back as the text it was made from, whatever it holds. */
  lemma QuoteLiteralRoundTrip(s: string, rest: string)
    requires rest == [] || rest[0] != '\''
    ensures ReadLiteral(QuoteLiteral(s) + rest) == Some((s, rest))
  {
    assert (QuoteLiteral(s) + rest)[1..] == Double(s) + "'" + rest;
    DoubleRoundTrip(s, rest);
  }

  /** Doubling adds one character per quote, so it leaves the text alone exactly when there is none. */
  lemma {:induction false} DoubleLength(s: string)
    ensures |Double(s)| == |s| + QuoteCount(s)
    ensures Double(s) == s <==> '\'' !in s
  {
    if s != [] {
      DoubleLength(s[1..]);
      assert s == [s[0]] + s[1..];
    }
  }

  lemma {:induction false} DoubleAppend(a: string, b: string)
    ensures Double(a + b) == Double(a) + Double(b)
  {
    if a != [] {
      DoubleAppend(a[1..], b);
      assert (a + b)[0] == a[0] && (a + b)[1..] == a[1..] + b;
    } else {
      assert a + b == b;
    }
  }
}
