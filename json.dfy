/**
  The JSON text that `json.dumps` produces for a parameter dict whose keys and
  values are strings, with Python's defaults: separators ", " and ": ", and
  `ensure_ascii`, so every character outside printable ASCII, and every quote
  and backslash, is written as an escape. A reader of that text is the partner
  the serialiser is proved against.
*/
module Json {
  import opened Wrappers
  import opened Chars

  /** A parameter dict: string keys to string values, in insertion order. */
  type Params = seq<(string, string)>

  predicate Printable(c: char) {
    ' ' <= c <= '~'
  }

  predicate AllPrintable(s: string) {
    forall i :: 0 <= i < |s| ==> Printable(s[i])
  }


  // ---------------------------------------------------------------- writing

  /** Lower-case hexadecimal digit, as in the `\uXXXX` escapes Python writes. */
  function HexDigit(d: nat): (c: char)
    requires d < 16
    ensures Printable(c)
    ensures '0' <= c <= '9' || 'a' <= c <= 'f'
  {
    if d < 10 then ('0' as int + d) as char else ('a' as int + d - 10) as char
  }

  function Hex4(n: nat): (s: string)
    requires n < 0x10000
    ensures |s| == 4
  {
    [HexDigit(n / 0x1000), HexDigit(n / 0x100 % 0x10), HexDigit(n / 0x10 % 0x10), HexDigit(n % 0x10)]
  }

  function UnicodeEscape(n: nat): string
    requires n < 0x10000
  {
    "\\u" + Hex4(n)
  }

  /** How one character of a string is written between the double quotes. */
  function EscapeChar(c: char): string {
    if c == '"' then "\\\""
    else if c == '\\' then "\\\\"
    else if c == '\n' then "\\n"
    else if c == '\r' then "\\r"
    else if c == '\t' then "\\t"
    else if c == Backspace then "\\b"
    else if c == FormFeed then "\\f"
    else if Printable(c) then [c]
    else if c as int < 0x10000 then UnicodeEscape(c as int)
    else
      // a character outside the basic plane becomes a UTF-16 surrogate pair
      var v := c as int - 0x10000;
      UnicodeEscape(0xD800 + v / 0x400) + UnicodeEscape(0xDC00 + v % 0x400)
  }

  function Escape(s: string): string {
    if s == [] then [] else EscapeChar(s[0]) + Escape(s[1..])
  }

  function Quote(s: string): string {
    "\"" + Escape(s) + "\""
  }

  function Member(kv: (string, string)): string {
    Quote(kv.0) + ": " + Quote(kv.1)
  }

  /** True when no key or value of `p` holds the character `q`. */
  predicate Avoids(p: Params, q: char) {
    forall i :: 0 <= i < |p| ==> q !in p[i].0 && q !in p[i].1
  }

  /**
    A character the writer copies as it is, and that none of its escapes and
    none of its punctuation contains: the single quote and `%` are two.
  */
  predicate Inert(q: char) {
    && Printable(q)
    && q !in "\"\\{}:, unrt"
    && !('0' <= q <= '9')
    && !('a' <= q <= 'f')
  }

  function Members(p: Params): string {
    if |p| == 0 then ""
    else if |p| == 1 then Member(p[0])
    else Member(p[0]) + ", " + Members(p[1..])
  }

  /** `json.dumps(p)` for a dict of strings. */
  function Dumps(p: Params): string {
    "{" + Members(p) + "}"
  }

  // ---------------------------------------------------------------- reading

  function HexValue(c: char): Option<nat> {
    if '0' <= c <= '9' then Some(c as int - '0' as int)
    else if 'a' <= c <= 'f' then Some(c as int - 'a' as int + 10)
    else if 'A' <= c <= 'F' then Some(c as int - 'A' as int + 10)
    else None
  }

  /** Reads four hexadecimal digits; returns their value and the text after them. */
  function ReadHex4(s: string): (r: Option<(nat, string)>)
    ensures r.Some? ==> |s| >= 4 && r.value.0 < 0x10000 && r.value.1 == s[4..]
  {
    if |s| < 4 then None
    else
      match (HexValue(s[0]), HexValue(s[1]), HexValue(s[2]), HexValue(s[3]))
      case (Some(a), Some(b), Some(c), Some(d)) =>
        if a < 16 && b < 16 && c < 16 && d < 16
        then Some((a * 0x1000 + b * 0x100 + c * 0x10 + d, s[4..]))
        else None
      case _ => None
  }

  /** Reads what follows `\u`: one code unit, or a surrogate pair written as two escapes. */
  function ReadUnicode(s: string): (r: Option<(char, string)>)
    ensures r.Some? ==> |r.value.1| < |s|
  {
    match ReadHex4(s)
    case None => None
    case Some((n, rest)) =>
      if 0xD800 <= n < 0xDC00 then
        if |rest| >= 2 && rest[0] == '\\' && rest[1] == 'u' then
          match ReadHex4(rest[2..])
          case Some((m, rest2)) =>
            if 0xDC00 <= m < 0xE000
            then Some(((0x10000 + (n - 0xD800) * 0x400 + (m - 0xDC00)) as char, rest2))
            else None
          case None => None
        else None
      else if 0xDC00 <= n < 0xE000 then None
      else Some((n as char, rest))
  }

  /** Reads what follows a backslash inside a string. */
  function ReadEscape(s: string): (r: Option<(char, string)>)
    ensures r.Some? ==> |r.value.1| < |s|
  {
    if |s| == 0 then None
    else if s[0] == '"' then Some(('"', s[1..]))
    else if s[0] == '\\' then Some(('\\', s[1..]))
    else if s[0] == '/' then Some(('/', s[1..]))
    else if s[0] == 'b' then Some((Backspace, s[1..]))
    else if s[0] == 'f' then Some((FormFeed, s[1..]))
    else if s[0] == 'n' then Some(('\n', s[1..]))
    else if s[0] == 'r' then Some(('\r', s[1..]))
    else if s[0] == 't' then Some(('\t', s[1..]))
    else if s[0] == 'u' then ReadUnicode(s[1..])
    else None
  }

  /** Reads one character of a string body; fails on the closing quote and on control characters. */
  function ReadChar(s: string): (r: Option<(char, string)>)
    ensures r.Some? ==> |r.value.1| < |s|
  {
    if |s| == 0 || s[0] == '"' || s[0] < ' ' then None
    else if s[0] == '\\' then ReadEscape(s[1..])
    else Some((s[0], s[1..]))
  }

  /** Reads a string body up to and including its closing quote. */
  function ReadStringBody(s: string): (r: Option<(string, string)>)
    ensures r.Some? ==> |r.value.1| < |s|
    decreases |s|
  {
    if |s| == 0 then None
    else if s[0] == '"' then Some(("", s[1..]))
    else
      match ReadChar(s)
      case None => None
      case Some((c, rest)) =>
        match ReadStringBody(rest)
        case None => None
        case Some((t, rest2)) => Some(([c] + t, rest2))
  }

  function ReadQuoted(s: string): (r: Option<(string, string)>)
    ensures r.Some? ==> |r.value.1| < |s|
  {
    if |s| > 0 && s[0] == '"' then ReadStringBody(s[1..]) else None
  }

  /** Reads one `"key": "value"` member. */
  function ReadMember(s: string): (r: Option<((string, string), string)>)
    ensures r.Some? ==> |r.value.1| < |s|
  {
    match ReadQuoted(s)
    case None => None
    case Some((k, r1)) =>
      if |r1| < 2 || r1[..2] != ": " then None
      else
        match ReadQuoted(r1[2..])
        case None => None
        case Some((v, r2)) => Some(((k, v), r2))
  }

  /** Reads the members of a non-empty object and its closing brace. */
  function ReadMembers(s: string): Option<(Params, string)>
    decreases |s|
  {
    match ReadMember(s)
    case None => None
    case Some((kv, r)) =>
      if |r| >= 1 && r[0] == '}' then Some(([kv], r[1..]))
      else if |r| >= 2 && r[..2] == ", " then
        match ReadMembers(r[2..])
        case None => None
        case Some((ps, r3)) => Some(([kv] + ps, r3))
      else None
  }

  /** Reads the whole text as one object in the layout `Dumps` writes. */
  function Loads(s: string): Option<Params> {
    if s == "{}" then Some([])
    else if |s| > 0 && s[0] == '{' then
      match ReadMembers(s[1..])
      case Some((p, rest)) => if rest == "" then Some(p) else None
      case None => None
    else None
  }

  // ---------------------------------------------------------------- round trips

  lemma HexDigitValue(d: nat)
    requires d < 16
    ensures HexValue(HexDigit(d)) == Some(d)
  {
  }

  lemma HexPlaces(n: nat)
    requires n < 0x10000
    ensures n / 0x1000 * 0x1000 + n / 0x100 % 0x10 * 0x100 + n / 0x10 % 0x10 * 0x10 + n % 0x10 == n
  {
    var q1 := n / 0x10;
    var q2 := q1 / 0x10;
    var q3 := q2 / 0x10;
    assert n == q1 * 0x10 + n % 0x10;
    assert q1 == q2 * 0x10 + q1 % 0x10;
    assert q2 == q3 * 0x10 + q2 % 0x10;
    assert q2 == n / 0x100;
    assert q3 == n / 0x1000;
  }

  lemma Hex4RoundTrip(n: nat, rest: string)
    requires n < 0x10000
    ensures ReadHex4(Hex4(n) + rest) == Some((n, rest))
  {
    var s := Hex4(n) + rest;
    var a, b, c, d := n / 0x1000, n / 0x100 % 0x10, n / 0x10 % 0x10, n % 0x10;
    HexDigitValue(a);
    HexDigitValue(b);
    HexDigitValue(c);
    HexDigitValue(d);
    assert s[0] == HexDigit(a) && s[1] == HexDigit(b) && s[2] == HexDigit(c) && s[3] == HexDigit(d);
    assert s[4..] == rest;
    HexPlaces(n);
  }

  lemma ShortEscapeRoundTrip(c: char, rest: string)
    requires c == '"' || c == '\\' || c == '\n' || c == '\r' || c == '\t' || c == Backspace || c == FormFeed
    ensures ReadChar(EscapeChar(c) + rest) == Some((c, rest))
  {
    var s := EscapeChar(c) + rest;
    assert |EscapeChar(c)| == 2 && EscapeChar(c)[0] == '\\';
    assert s[0] == '\\' && s[1..][1..] == rest;
  }

  lemma BasicPlaneRoundTrip(n: nat, rest: string)
    requires n < 0x10000 && !(0xD800 <= n < 0xE000)
    ensures ReadChar(UnicodeEscape(n) + rest) == Some((n as char, rest))
  {
    var s := UnicodeEscape(n) + rest;
    assert s == "\\u" + (Hex4(n) + rest);
    assert s[1..][1..] == Hex4(n) + rest;
    Hex4RoundTrip(n, rest);
  }

  lemma ReadUnicodePair(hi: nat, lo: nat, rest: string)
    requires 0xD800 <= hi < 0xDC00 && 0xDC00 <= lo < 0xE000
    ensures ReadUnicode(Hex4(hi) + ("\\u" + (Hex4(lo) + rest)))
         == Some(((0x10000 + (hi - 0xD800) * 0x400 + (lo - 0xDC00)) as char, rest))
  {
    var tail := "\\u" + (Hex4(lo) + rest);
    Hex4RoundTrip(hi, tail);
    assert tail[2..] == Hex4(lo) + rest;
    Hex4RoundTrip(lo, rest);
  }

  lemma SurrogatePairRoundTrip(v: nat, rest: string)
    requires v < 0x100000
    ensures ReadChar(UnicodeEscape(0xD800 + v / 0x400) + UnicodeEscape(0xDC00 + v % 0x400) + rest)
         == Some(((0x10000 + v) as char, rest))
  {
    var hi, lo := 0xD800 + v / 0x400, 0xDC00 + v % 0x400;
    UnicodePairShape(hi, lo, rest);
    ReadCharUnicode(Hex4(hi) + ("\\u" + (Hex4(lo) + rest)));
    ReadUnicodePair(hi, lo, rest);
    SurrogateSum(v);
  }

  lemma UnicodePairShape(hi: nat, lo: nat, rest: string)
    requires hi < 0x10000 && lo < 0x10000
    ensures UnicodeEscape(hi) + UnicodeEscape(lo) + rest == "\\u" + (Hex4(hi) + ("\\u" + (Hex4(lo) + rest)))
  {
  }

  lemma ReadCharUnicode(after: string)
    ensures ReadChar("\\u" + after) == ReadUnicode(after)
  {
    var s := "\\u" + after;
    assert s[0] == '\\' && s[1..][0] == 'u' && s[1..][1..] == after;
  }

  lemma SurrogateSum(v: nat)
    requires v < 0x100000
    ensures (0xD800 + v / 0x400 - 0xD800) * 0x400 + (0xDC00 + v % 0x400 - 0xDC00) == v
  {
  }

  lemma PrintableRoundTrip(c: char, rest: string)
    requires Printable(c) && c != '"' && c != '\\'
    ensures ReadChar(EscapeChar(c) + rest) == Some((c, rest))
  {
    assert EscapeChar(c) == [c];
    assert ([c] + rest)[0] == c && ([c] + rest)[1..] == rest;
  }

  /** Reading back one written character, whatever text follows it. */
  lemma EscapeCharRoundTrip(c: char, rest: string)
    ensures ReadChar(EscapeChar(c) + rest) == Some((c, rest))
  {
    if c == '"' || c == '\\' || c == '\n' || c == '\r' || c == '\t' || c == Backspace || c == FormFeed {
      ShortEscapeRoundTrip(c, rest);
    } else if Printable(c) {
      PrintableRoundTrip(c, rest);
    } else if c as int < 0x10000 {
      assert EscapeChar(c) == UnicodeEscape(c as int);
      BasicPlaneRoundTrip(c as int, rest);
    } else {
      var v := c as int - 0x10000;
      assert EscapeChar(c) == UnicodeEscape(0xD800 + v / 0x400) + UnicodeEscape(0xDC00 + v % 0x400);
      SurrogatePairRoundTrip(v, rest);
    }
  }

  /** One character read, then the rest of the string body. */
  lemma StringBodyStep(s: string, c: char, rest: string)
    requires ReadChar(s) == Some((c, rest))
    ensures ReadStringBody(s)
         == match ReadStringBody(rest)
            case None => None
            case Some((t, r2)) => Some(([c] + t, r2))
  {
  }

  lemma {:induction false} EscapeRoundTrip(s: string, rest: string)
    ensures ReadStringBody(Escape(s) + "\"" + rest) == Some((s, rest))
  {
    if s == [] {
      assert Escape(s) + "\"" + rest == "\"" + rest;
    } else {
      var tail := Escape(s[1..]) + "\"" + rest;
      assert Escape(s) + "\"" + rest == EscapeChar(s[0]) + tail;
      EscapeCharRoundTrip(s[0], tail);
      StringBodyStep(EscapeChar(s[0]) + tail, s[0], tail);
      EscapeRoundTrip(s[1..], rest);
      assert [s[0]] + s[1..] == s;
    }
  }

  lemma QuoteRoundTrip(s: string, rest: string)
    ensures ReadQuoted(Quote(s) + rest) == Some((s, rest))
  {
    assert (Quote(s) + rest)[1..] == Escape(s) + "\"" + rest;
    EscapeRoundTrip(s, rest);
  }

  lemma MemberRoundTrip(kv: (string, string), rest: string)
    ensures ReadMember(Member(kv) + rest) == Some((kv, rest))
  {
    var tail := ": " + Quote(kv.1) + rest;
    assert Member(kv) + rest == Quote(kv.0) + tail;
    QuoteRoundTrip(kv.0, tail);
    assert tail[..2] == ": " && tail[2..] == Quote(kv.1) + rest;
    QuoteRoundTrip(kv.1, rest);
  }

  lemma LastMemberRoundTrip(kv: (string, string), rest: string)
    ensures ReadMembers(Member(kv) + "}" + rest) == Some(([kv], rest))
  {
    var tail := "}" + rest;
    assert Member(kv) + "}" + rest == Member(kv) + tail;
    MemberRoundTrip(kv, tail);
    assert tail[0] == '}' && tail[1..] == rest;
  }

  lemma NextMemberRoundTrip(kv: (string, string), more: string)
    ensures ReadMembers(Member(kv) + ", " + more)
         == match ReadMembers(more)
            case None => None
            case Some((ps, r3)) => Some(([kv] + ps, r3))
  {
    var tail := ", " + more;
    assert Member(kv) + ", " + more == Member(kv) + tail;
    MemberRoundTrip(kv, tail);
    assert tail[0] != '}' && tail[..2] == ", " && tail[2..] == more;
  }

  lemma {:induction false} MembersRoundTrip(p: Params, rest: string)
    requires |p| > 0
    ensures ReadMembers(Members(p) + "}" + rest) == Some((p, rest))
  {
    if |p| == 1 {
      LastMemberRoundTrip(p[0], rest);
      assert [p[0]] == p;
    } else {
      var more := Members(p[1..]) + "}" + rest;
      assert Members(p) + "}" + rest == Member(p[0]) + ", " + more;
      NextMemberRoundTrip(p[0], more);
      MembersRoundTrip(p[1..], rest);
      assert [p[0]] + p[1..] == p;
    }
  }

  lemma MembersStartWithQuote(p: Params)
    requires |p| > 0
    ensures |Members(p)| > 0 && Members(p)[0] == '"'
  {
    assert Member(p[0]) == "\"" + (Escape(p[0].0) + "\"" + ": " + Quote(p[0].1));
    if |p| > 1 {
      assert Members(p) == Member(p[0]) + (", " + Members(p[1..]));
    }
  }

  /** Escaping works character by character, so it distributes over concatenation. */
  lemma {:induction false} EscapeAppend(a: string, b: string)
    ensures Escape(a + b) == Escape(a) + Escape(b)
  {
    if a != [] {
      EscapeAppend(a[1..], b);
      assert (a + b)[0] == a[0] && (a + b)[1..] == a[1..] + b;
    } else {
      assert a + b == b;
    }
  }

  /** The text of a one-member dict, with its key and value escaped. */
  lemma DumpsOneMember(k: string, v: string)
    ensures Dumps([(k, v)]) == "{\"" + Escape(k) + "\": \"" + Escape(v) + "\"}"
  {
  }

  /** What `json.dumps` writes, the reader reads back unchanged. */
  lemma LoadsDumps(p: Params)
    ensures Loads(Dumps(p)) == Some(p)
  {
    if |p| > 0 {
      var m := Members(p);
      MembersRoundTrip(p, "");
      MembersStartWithQuote(p);
      assert Dumps(p) == "{" + (m + "}");
      assert Dumps(p)[1] == m[0];
      assert Dumps(p)[1..] == m + "}" + "";
    }
  }

  /** An empty dict is written `{}`, and only an empty dict is. */
  lemma DumpsEmpty(p: Params)
    ensures Dumps(p) == "{}" <==> p == []
  {
    if p != [] {
      LoadsDumps(p);
    }
  }

  lemma UnicodeEscapeInert(n: nat, q: char)
    requires n < 0x10000 && Inert(q)
    ensures q !in UnicodeEscape(n)
  {
    var h := Hex4(n);
    assert UnicodeEscape(n) == ['\\', 'u', h[0], h[1], h[2], h[3]];
  }

  /** One written character holds an inert character exactly when it is that character. */
  lemma EscapeCharInert(c: char, q: char)
    requires Inert(q)
    ensures q in EscapeChar(c) <==> c == q
  {
    if c == '"' || c == '\\' || c == '\n' || c == '\r' || c == '\t' || c == Backspace || c == FormFeed {
    } else if Printable(c) {
    } else if c as int < 0x10000 {
      UnicodeEscapeInert(c as int, q);
    } else {
      var v := c as int - 0x10000;
      UnicodeEscapeInert(0xD800 + v / 0x400, q);
      UnicodeEscapeInert(0xDC00 + v % 0x400, q);
    }
  }

  lemma {:induction false} EscapeInert(s: string, q: char)
    requires Inert(q)
    ensures q in Escape(s) <==> q in s
  {
    if s != [] {
      EscapeInert(s[1..], q);
      EscapeCharInert(s[0], q);
      assert s == [s[0]] + s[1..];
    }
  }

  lemma MemberInert(kv: (string, string), q: char)
    requires Inert(q)
    ensures q in Member(kv) <==> q in kv.0 || q in kv.1
  {
    EscapeInert(kv.0, q);
    EscapeInert(kv.1, q);
  }

  lemma {:induction false} MembersInert(p: Params, q: char)
    requires Inert(q)
    ensures q !in Members(p) <==> Avoids(p, q)
  {
    if |p| == 1 {
      MemberInert(p[0], q);
    } else if |p| > 1 {
      MemberInert(p[0], q);
      MembersInert(p[1..], q);
      assert Avoids(p, q) <==> Avoids([p[0]], q) && Avoids(p[1..], q) by {
        assert [p[0]][0] == p[0];
        if Avoids([p[0]], q) && Avoids(p[1..], q) {
          forall i | 0 <= i < |p| ensures q !in p[i].0 && q !in p[i].1 {
            if i > 0 { assert p[i] == p[1..][i - 1]; }
          }
        }
      }
    }
  }

  /**
    The written object holds an inert character (such as a single quote or
    `%`) exactly when some key or value does: the writer neither adds nor
    removes one.
  */
  lemma DumpsInert(p: Params, q: char)
    requires Inert(q)
    ensures q !in Dumps(p) <==> Avoids(p, q)
  {
    MembersInert(p, q);
  }

  lemma UnicodeEscapePrintable(n: nat)
    requires n < 0x10000
    ensures AllPrintable(UnicodeEscape(n))
  {
    var h := Hex4(n);
    assert UnicodeEscape(n) == ['\\', 'u', h[0], h[1], h[2], h[3]];
  }

  lemma EscapeCharPrintable(c: char)
    ensures AllPrintable(EscapeChar(c))
  {
    if c == '"' || c == '\\' || c == '\n' || c == '\r' || c == '\t' || c == Backspace || c == FormFeed {
    } else if Printable(c) {
    } else if c as int < 0x10000 {
      UnicodeEscapePrintable(c as int);
    } else {
      var v := c as int - 0x10000;
      UnicodeEscapePrintable(0xD800 + v / 0x400);
      UnicodeEscapePrintable(0xDC00 + v % 0x400);
      PrintableConcat(UnicodeEscape(0xD800 + v / 0x400), UnicodeEscape(0xDC00 + v % 0x400));
    }
  }

  lemma PrintableConcat(a: string, b: string)
    requires AllPrintable(a) && AllPrintable(b)
    ensures AllPrintable(a + b)
  {
    forall i | 0 <= i < |a + b| ensures Printable((a + b)[i]) {
      if i >= |a| { assert (a + b)[i] == b[i - |a|]; }
    }
  }

  lemma {:induction false} EscapePrintable(s: string)
    ensures AllPrintable(Escape(s))
  {
    if s != [] {
      EscapePrintable(s[1..]);
      EscapeCharPrintable(s[0]);
      PrintableConcat(EscapeChar(s[0]), Escape(s[1..]));
    }
  }

  lemma QuotePrintable(s: string)
    ensures AllPrintable(Quote(s))
  {
    EscapePrintable(s);
    PrintableConcat("\"", Escape(s));
    PrintableConcat("\"" + Escape(s), "\"");
  }

  lemma MemberPrintable(kv: (string, string))
    ensures AllPrintable(Member(kv))
  {
    QuotePrintable(kv.0);
    QuotePrintable(kv.1);
    PrintableConcat(Quote(kv.0), ": ");
    PrintableConcat(Quote(kv.0) + ": ", Quote(kv.1));
  }

  lemma {:induction false} MembersPrintable(p: Params)
    ensures AllPrintable(Members(p))
  {
    if |p| > 0 {
      MemberPrintable(p[0]);
    }
    if |p| > 1 {
      MembersPrintable(p[1..]);
      PrintableConcat(Member(p[0]), ", ");
      PrintableConcat(Member(p[0]) + ", ", Members(p[1..]));
    }
  }

  /** With `ensure_ascii`, the written text is printable ASCII only. */
  lemma DumpsPrintable(p: Params)
    ensures AllPrintable(Dumps(p))
  {
    MembersPrintable(p);
    PrintableConcat("{", Members(p));
    PrintableConcat("{" + Members(p), "}");
  }
}
