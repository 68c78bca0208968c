/**
  The `GenerateEmbedding` query expression: a call of the database function
  `pgml.embed` with a transformer name, one input expression and the
  JSON-encoded parameters, and the SQL text it compiles to.
*/
module EmbedFunc {
  import opened Wrappers
  import opened Json
  import opened SqlLiteral
  import opened Driver
  import opened Chars

  const Function: string := "pgml.embed"

  /** A value held by a model attribute, as far as the embedding rule needs to tell values apart. */
  datatype Attr =
    | Text(text: string)
    | Integer(number: int)
    | Null
    | Pending(node: GenerateEmbedding)  // an unevaluated embedding expression

  /**
    `GenerateEmbedding(Value(input), transformer, parameters)`. The transformer is
    optional because the field declaring it defaults it to None; the parameters
    default to the empty dict.
  */
  datatype GenerateEmbedding = GenerateEmbedding(input: Attr, transformer: Option<string>, parameters: Params := [])

  /** How `%s` formats the transformer: None prints as `None`. */
  function TransformerText(t: Option<string>): string {
    match t
    case None => "None"
    case Some(s) => s
  }

  /**
    The SQL text of the node as the template writes it: the transformer and the
    JSON are placed between single quotes as they are. `compiled` is the SQL the
    compiler produced for the input expression.
  */
  function AsSql(node: GenerateEmbedding, compiled: string): string {
    Function + "('" + TransformerText(node.transformer) + "', " + compiled + ", '" + Dumps(node.parameters) + "')"
  }

  /** The SQL text with both literals quoted, so that each reads back as written. */
  function AsSqlQuoted(node: GenerateEmbedding, compiled: string): string {
    Function + "(" + QuoteLiteral(TransformerText(node.transformer)) + ", " + compiled + ", "
      + QuoteLiteral(Dumps(node.parameters)) + ")"
  }

  /**
    How the database reads an embed call, as the server receives it, whose
    input the driver wrote as `compiled`: the transformer literal, then the
    input, then the parameter literal decoded as `jsonb`. A string constant
    cannot hold the NUL character, and `jsonb` refuses its escape `\u0000`.
  */
  function ReadEmbedCall(sql: string, compiled: string): Option<(string, Params)> {
    var head := Function + "(";
    if |sql| < |head| || sql[..|head|] != head then None
    else
      match ReadLiteral(sql[|head|..])
      case None => None
      case Some((t, r1)) =>
        var mid := ", " + compiled + ", ";
        if |r1| < |mid| || r1[..|mid|] != mid then None
        else
          match ReadLiteral(r1[|mid|..])
          case None => None
          case Some((j, r2)) =>
            if r2 != ")" then None
            else
              match Loads(j)
              case None => None
              case Some(p) => if Nul !in t && Avoids(p, Nul) then Some((t, p)) else None
  }

  lemma ReadEmbedCallOf(t: string, compiled: string, j: string)
    ensures ReadEmbedCall(Function + "(" + QuoteLiteral(t) + ", " + compiled + ", " + QuoteLiteral(j) + ")", compiled)
         == match Loads(j) case None => None case Some(p) => if Nul !in t && Avoids(p, Nul) then Some((t, p)) else None
  {
    var head := Function + "(";
    var mid := ", " + compiled + ", ";
    var sql := Function + "(" + QuoteLiteral(t) + ", " + compiled + ", " + QuoteLiteral(j) + ")";
    var r1 := mid + (QuoteLiteral(j) + ")");
    assert sql == head + (QuoteLiteral(t) + r1);
    assert sql[..|head|] == head && sql[|head|..] == QuoteLiteral(t) + r1;
    QuoteLiteralRoundTrip(t, r1);
    assert r1[..|mid|] == mid && r1[|mid|..] == QuoteLiteral(j) + ")";
    QuoteLiteralRoundTrip(j, ")");
  }

  /**
    The quoted fragment reads back as the node's transformer and parameters,
    whatever they hold, unless the transformer or a parameter holds the NUL
    character.
  */
  lemma AsSqlQuotedRoundTrip(node: GenerateEmbedding, compiled: string)
    ensures ReadEmbedCall(AsSqlQuoted(node, compiled), compiled)
         == if Nul !in TransformerText(node.transformer) && Avoids(node.parameters, Nul) then Some((TransformerText(node.transformer), node.parameters)) else None
  {
    ReadEmbedCallOf(TransformerText(node.transformer), compiled, Dumps(node.parameters));
    LoadsDumps(node.parameters);
  }

  lemma AsSqlLengths(node: GenerateEmbedding, compiled: string)
    ensures |AsSqlQuoted(node, compiled)|
         == |AsSql(node, compiled)| + QuoteCount(TransformerText(node.transformer)) + QuoteCount(Dumps(node.parameters))
  {
    DoubleLength(TransformerText(node.transformer));
    DoubleLength(Dumps(node.parameters));
  }

  lemma AsSqlQuotedOfQuoteFree(node: GenerateEmbedding, compiled: string)
    requires Double(TransformerText(node.transformer)) == TransformerText(node.transformer)
    requires Double(Dumps(node.parameters)) == Dumps(node.parameters)
    ensures AsSql(node, compiled) == AsSqlQuoted(node, compiled)
  {
    var t, j := TransformerText(node.transformer), Dumps(node.parameters);
    calc {
      AsSqlQuoted(node, compiled);
      Function + "(" + ("'" + t + "'") + ", " + compiled + ", " + ("'" + j + "'") + ")";
      Function + "('" + t + "', " + compiled + ", '" + j + "')";
    }
  }

  /**
    The fragment as written equals the quoted one exactly when neither the
    transformer nor any parameter key or value holds a single quote.
  */
  lemma AsSqlAgreesIffQuoteFree(node: GenerateEmbedding, compiled: string)
    ensures AsSql(node, compiled) == AsSqlQuoted(node, compiled)
        <==> '\'' !in TransformerText(node.transformer) && Avoids(node.parameters, '\'')
  {
    var t, j := TransformerText(node.transformer), Dumps(node.parameters);
    DoubleLength(t);
    DoubleLength(j);
    DumpsInert(node.parameters, '\'');
    if '\'' !in t && Avoids(node.parameters, '\'') {
      AsSqlQuotedOfQuoteFree(node, compiled);
    } else {
      AsSqlLengths(node, compiled);
    }
  }

  /** When no quote is involved, the fragment as written reads back correctly. */
  lemma AsSqlRoundTripWhenQuoteFree(node: GenerateEmbedding, compiled: string)
    requires '\'' !in TransformerText(node.transformer) && Avoids(node.parameters, '\'')
    ensures ReadEmbedCall(AsSql(node, compiled), compiled)
         == if Nul !in TransformerText(node.transformer) && Avoids(node.parameters, Nul) then Some((TransformerText(node.transformer), node.parameters)) else None
  {
    AsSqlAgreesIffQuoteFree(node, compiled);
    AsSqlQuotedRoundTrip(node, compiled);
  }

  /** A call whose first literal is not followed by `, ` does not read back. */
  lemma EmbedCallNeedsSeparator(x: string, compiled: string, t: string, r1: string)
    requires ReadLiteral(x) == Some((t, r1))
    requires r1 == [] || r1[0] != ','
    ensures ReadEmbedCall(Function + "(" + x, compiled) == None
  {
    var head := Function + "(";
    assert (head + x)[..|head|] == head && (head + x)[|head|..] == x;
    var mid := ", " + compiled + ", ";
    if |r1| >= |mid| {
      assert r1[..|mid|][0] != mid[0];
    }
  }

  lemma AsSqlSplitAtQuote(a: string, b: string, input: Attr, parameters: Params, compiled: string)
    ensures AsSql(GenerateEmbedding(input, Some(a + "'" + b), parameters), compiled)
         == Function + "(" + ("'" + a + "'" + (b + "', " + compiled + ", '" + Dumps(parameters) + "')"))
  {
  }

  /**
    A transformer name holding a quote ends its literal early: the rest of the
    name is read as the start of the next argument, and the call does not read back.
  */
  lemma AsSqlMisreadsQuotedTransformer(a: string, b: string, input: Attr, parameters: Params, compiled: string)
    requires '\'' !in a && |b| > 0 && b[0] != '\'' && b[0] != ',' && !StartsSeparator(b)
    ensures ReadEmbedCall(AsSql(GenerateEmbedding(input, Some(a + "'" + b), parameters), compiled), compiled) == None
  {
    var rest := b + "', " + compiled + ", '" + Dumps(parameters) + "')";
    var x := "'" + a + "'" + rest;
    AsSqlSplitAtQuote(a, b, input, parameters, compiled);
    DoubleLength(a);
    assert rest[0] == b[0];
    DoubleRoundTrip(a, rest);
    assert x[1..] == Double(a) + "'" + rest;
    EmbedCallNeedsSeparator(x, compiled, a, rest);
  }

  /** True when JSON writes every character of `s` as it is. */
  predicate Plain(s: string) {
    forall i :: 0 <= i < |s| ==> Printable(s[i]) && s[i] != '"' && s[i] != '\\'
  }

  lemma {:induction false} EscapePlain(s: string)
    requires Plain(s)
    ensures Escape(s) == s
  {
    if s != [] {
      EscapePlain(s[1..]);
      assert s == [s[0]] + s[1..];
    }
  }

  lemma PlainAround(a: string, c: char, b: string)
    requires Plain(a) && Plain(b) && Printable(c) && c != '"' && c != '\\'
    ensures Plain(a + [c] + b)
  {
    var s := a + [c] + b;
    forall i | 0 <= i < |s| ensures Printable(s[i]) && s[i] != '"' && s[i] != '\\' {
      if i < |a| {
        assert s[i] == a[i];
      } else if i > |a| {
        assert s[i] == b[i - |a| - 1];
      }
    }
  }

  lemma DumpsPlainMember(k: string, v: string)
    requires Plain(k) && Plain(v)
    ensures Dumps([(k, v)]) == "{\"" + k + "\": \"" + v + "\"}"
  {
    EscapePlain(k);
    EscapePlain(v);
  }

  lemma AsSqlOfDoubled(node: GenerateEmbedding, compiled: string, t: string, shown: string)
    requires TransformerText(node.transformer) == t && Double(t) == t
    requires Dumps(node.parameters) == Double(shown)
    ensures AsSql(node, compiled) == Function + "(" + QuoteLiteral(t) + ", " + compiled + ", " + QuoteLiteral(shown) + ")"
  {
  }

  /** Doubling single quotes commutes with JSON escaping, which copies `'` as it is. */
  lemma {:induction false} EscapeDouble(v: string)
    ensures Escape(Double(v)) == Double(Escape(v))
  {
    if v != [] {
      var h := if v[0] == '\'' then "''" else [v[0]];
      EscapeDouble(v[1..]);
      assert Double(v) == h + Double(v[1..]);
      EscapeAppend(h, Double(v[1..]));
      assert v == [v[0]] + v[1..];
      EscapeAppend([v[0]], v[1..]);
      DoubleAppend(EscapeChar(v[0]), Escape(v[1..]));
      assert Escape([v[0]]) == EscapeChar(v[0]);
      if v[0] == '\'' {
        assert EscapeChar('\'') == "'";
        assert Escape(h) == "''";
      } else {
        EscapeCharInert(v[0], '\'');
        DoubleLength(EscapeChar(v[0]));
        assert Escape(h) == EscapeChar(v[0]);
      }
    }
  }

  /** Doubling the quotes of a one-member dict's text doubles those of its value alone. */
  lemma DoubleDumpsMember(k: string, v: string)
    requires '\'' !in k
    ensures Double(Dumps([(k, v)])) == Dumps([(k, Double(v))])
  {
    var ek, ev := Escape(k), Escape(v);
    DumpsOneMember(k, v);
    DumpsOneMember(k, Double(v));
    EscapeDouble(v);
    EscapeInert(k, '\'');
    var front := "{\"" + ek + "\": \"";
    DoubleAppend(front + ev, "\"}");
    DoubleAppend(front, ev);
    DoubleAppend("{\"" + ek, "\": \"");
    DoubleAppend("{\"", ek);
    DoubleLength("{\"");
    DoubleLength(ek);
    DoubleLength("\": \"");
    DoubleLength("\"}");
    assert Double(front) == front;
  }

  lemma AvoidsOne(k: string, v: string, q: char)
    ensures Avoids([(k, v)], q) <==> q !in k && q !in v
  {
    assert [(k, v)][0] == (k, v);
  }

  /**
    A parameter value whose single quotes are all doubled reaches the
    database with every doubled quote halved: the call reads back without
    error, with the value the doubling was made from.
  */
  lemma AsSqlHalvesDoubledQuotes(t: string, k: string, v: string, input: Attr, compiled: string)
    requires '\'' !in t && '\'' !in k
    ensures ReadEmbedCall(AsSql(GenerateEmbedding(input, Some(t), [(k, Double(v))]), compiled), compiled)
         == if Nul in t || Nul in k || Nul in v then None else Some((t, [(k, v)]))
    ensures '\'' in v ==> [(k, v)] != [(k, Double(v))]
  {
    AvoidsOne(k, v, Nul);
    var node := GenerateEmbedding(input, Some(t), [(k, Double(v))]);
    var shown := Dumps([(k, v)]);
    DoubleDumpsMember(k, v);
    DoubleLength(t);
    AsSqlOfDoubled(node, compiled, t, shown);
    ReadEmbedCallOf(t, compiled, shown);
    LoadsDumps([(k, v)]);
    DoubleLength(v);
  }

  /** A call whose second literal is not followed by exactly `)` does not read back. */
  lemma EmbedCallNeedsClose(t: string, compiled: string, x: string, j: string, r2: string)
    requires ReadLiteral(x) == Some((j, r2)) && r2 != ")"
    ensures ReadEmbedCall(Function + "(" + QuoteLiteral(t) + ", " + compiled + ", " + x, compiled) == None
  {
    var head := Function + "(";
    var mid := ", " + compiled + ", ";
    var r1 := mid + x;
    var sql := Function + "(" + QuoteLiteral(t) + ", " + compiled + ", " + x;
    assert sql == head + (QuoteLiteral(t) + r1);
    assert sql[..|head|] == head && sql[|head|..] == QuoteLiteral(t) + r1;
    QuoteLiteralRoundTrip(t, r1);
    assert r1[..|mid|] == mid && r1[|mid|..] == x;
  }

  /** The fragment of a node whose transformer needs no doubling, with its second literal still open. */
  lemma AsSqlWithPlainTransformer(node: GenerateEmbedding, compiled: string)
    requires Double(TransformerText(node.transformer)) == TransformerText(node.transformer)
    ensures AsSql(node, compiled)
         == Function + "(" + QuoteLiteral(TransformerText(node.transformer)) + ", " + compiled + ", "
            + ("'" + Dumps(node.parameters) + "')")
  {
  }

  lemma SecondLiteralSplit(k: string, a: string, b: string)
    ensures "'" + ("{\"" + k + "\": \"" + (a + "'" + b) + "\"}") + "')"
         == "'" + ("{\"" + k + "\": \"" + a) + "'" + (b + "\"}')")
  {
  }

  lemma EscapeAroundQuote(a: string, b: string)
    ensures Escape(a + "'" + b) == Escape(a) + "'" + Escape(b)
  {
    EscapeAppend(a + "'", b);
    EscapeAppend(a, "'");
    assert Escape("'") == "'";
  }

  lemma AsSqlSplitAtParameterQuote(t: string, k: string, a: string, b: string, input: Attr, compiled: string)
    requires Double(t) == t
    ensures AsSql(GenerateEmbedding(input, Some(t), [(k, a + "'" + b)]), compiled)
         == Function + "(" + QuoteLiteral(t) + ", " + compiled + ", "
            + ("'" + ("{\"" + Escape(k) + "\": \"" + Escape(a)) + "'" + (Escape(b) + "\"}')"))
  {
    DumpsOneMember(k, a + "'" + b);
    EscapeAroundQuote(a, b);
    AsSqlWithPlainTransformer(GenerateEmbedding(input, Some(t), [(k, a + "'" + b)]), compiled);
    SecondLiteralSplit(Escape(k), Escape(a), Escape(b));
  }

  /** The escaped form of a text that does not start with `'` does not start with `'` either. */
  lemma EscapeHeadNotQuote(b: string)
    requires b != [] && b[0] != '\''
    ensures Escape(b) != [] && Escape(b)[0] != '\''
  {
    EscapeCharRoundTrip(b[0], []);
    assert EscapeChar(b[0]) + [] == EscapeChar(b[0]);
    EscapeCharInert(b[0], '\'');
    assert Escape(b) == EscapeChar(b[0]) + Escape(b[1..]);
    assert Escape(b)[0] == EscapeChar(b[0])[0];
  }

  /**
    A parameter value holding a single quote that is not doubled ends the
    JSON literal early, and the call does not read back.
  */
  lemma AsSqlMisreadsQuotedParameter(t: string, k: string, a: string, b: string, input: Attr, compiled: string)
    requires '\'' !in t && '\'' !in k && '\'' !in a
    requires b == [] || b[0] != '\''
    ensures ReadEmbedCall(AsSql(GenerateEmbedding(input, Some(t), [(k, a + "'" + b)]), compiled), compiled) == None
  {
    DoubleLength(t);
    AsSqlSplitAtParameterQuote(t, k, a, b, input, compiled);
    EscapeInert(k, '\'');
    EscapeInert(a, '\'');
    var front := "{\"" + Escape(k) + "\": \"" + Escape(a);
    var r2 := Escape(b) + "\"}')";
    assert '\'' !in front;
    if b != [] {
      EscapeHeadNotQuote(b);
    }
    assert r2[0] != '\'';
    UnquotedLiteral(front, r2);
    EmbedCallNeedsClose(t, compiled, "'" + front + "'" + r2, front, r2);
  }

  /** Text without a single quote, between quotes, reads back as itself. */
  lemma UnquotedLiteral(s: string, rest: string)
    requires '\'' !in s && (rest == [] || rest[0] != '\'')
    ensures ReadLiteral("'" + s + "'" + rest) == Some((s, rest))
  {
    DoubleLength(s);
    DoubleRoundTrip(s, rest);
    assert ("'" + s + "'" + rest)[1..] == s + "'" + rest;
  }

  // ---------------------------------------------------------------- the driver

  /**
    With the input's `Value` compiled to the placeholder `%s`, text without `%`
    reaches the server as written, with the input's literal in place.
  */
  lemma AsSqlThroughDriver(node: GenerateEmbedding, lit: string)
    requires '%' !in TransformerText(node.transformer) && Avoids(node.parameters, '%')
    ensures Interpolate(AsSql(node, "%s"), [lit]) == Some(AsSql(node, lit))
  {
    var t, j := TransformerText(node.transformer), Dumps(node.parameters);
    DumpsInert(node.parameters, '%');
    var x := Function + "('" + t + "', ";
    var y := ", '" + j + "')";
    AsSqlAroundInput(node, "%s");
    AsSqlAroundInput(node, lit);
    InterpolateVerbatim(y, [], []);
    assert y + [] == y;
    assert [lit] == [lit] + [];
    InterpolatePlaceholder(lit, y, []);
    InterpolateVerbatim(x, "%s" + y, [lit]);
  }

  lemma AsSqlAroundInput(node: GenerateEmbedding, compiled: string)
    ensures AsSql(node, compiled)
         == (Function + "('" + TransformerText(node.transformer) + "', ") + (compiled + (", '" + Dumps(node.parameters) + "')"))
  {
  }

  lemma PercentPlaceholderSplit(b: string, j: string)
    requires b != [] && b[0] == 's'
    ensures "%" + (b + "', %s, '" + j + "')") == "%s" + ((b[1..] + "', ") + ("%" + ("s, '" + j + "')")))
  {
    assert b == "s" + b[1..];
  }

  lemma AsSqlSplitAtTransformerPercent(a: string, b: string, input: Attr, parameters: Params)
    ensures AsSql(GenerateEmbedding(input, Some(a + "%" + b), parameters), "%s")
         == (Function + "('" + a) + ("%" + (b + "', %s, '" + Dumps(parameters) + "')"))
  {
  }

  /**
    A transformer name holding one `%` makes the driver raise: the `%` either
    starts no placeholder, or takes the input's parameter and leaves the
    input's own placeholder without one.
  */
  lemma AsSqlStrayPercentInTransformer(a: string, b: string, input: Attr, parameters: Params, lit: string)
    requires '%' !in a && '%' !in b
    ensures Interpolate(AsSql(GenerateEmbedding(input, Some(a + "%" + b), parameters), "%s"), [lit]) == None
  {
    var x := Function + "('" + a;
    var r := b + "', %s, '" + Dumps(parameters) + "')";
    AsSqlSplitAtTransformerPercent(a, b, input, parameters);
    InterpolateVerbatim(x, "%" + r, [lit]);
    if b != [] && b[0] == 's' {
      var r' := b[1..] + "', ";
      var after := "s, '" + Dumps(parameters) + "')";
      PercentPlaceholderSplit(b, Dumps(parameters));
      assert [lit] == [lit] + [];
      InterpolatePlaceholder(lit, r' + ("%" + after), []);
      assert '%' !in r' by {
        assert forall i :: 0 <= i < |b[1..]| ==> b[1..][i] == b[i + 1];
      }
      InterpolateVerbatim(r', "%" + after, []);
      InterpolateStray(after, []);
    } else {
      InterpolateStray(r, [lit]);
    }
  }

  lemma AsSqlSplitAtParameterPercent(t: string, k: string, a: string, b: string, input: Attr)
    requires Plain(k) && Plain(a + "%" + b)
    ensures AsSql(GenerateEmbedding(input, Some(t), [(k, a + "%" + b)]), "%s")
         == (Function + "('" + t + "', ") + ("%s" + ((", '{\"" + k + "\": \"" + a) + ("%" + (b + "\"}')"))))
  {
    DumpsPlainMember(k, a + "%" + b);
  }

  /**
    A parameter value holding one `%` makes the driver raise: the input's
    placeholder has taken the only parameter, so the `%` has none.
  */
  lemma AsSqlStrayPercentInParameter(t: string, k: string, a: string, b: string, input: Attr, lit: string)
    requires '%' !in t && '%' !in k && '%' !in a && '%' !in b && Plain(k) && Plain(a) && Plain(b)
    ensures Interpolate(AsSql(GenerateEmbedding(input, Some(t), [(k, a + "%" + b)]), "%s"), [lit]) == None
  {
    PlainAround(a, '%', b);
    AsSqlSplitAtParameterPercent(t, k, a, b, input);
    var x := Function + "('" + t + "', ";
    var y := ", '{\"" + k + "\": \"" + a;
    var r := b + "\"}')";
    assert r[0] != '%';
    InterpolateStray(r, []);
    InterpolateVerbatim(y, "%" + r, []);
    assert [lit] == [lit] + [];
    InterpolatePlaceholder(lit, y + ("%" + r), []);
    InterpolateVerbatim(x, "%s" + (y + ("%" + r)), [lit]);
  }

  lemma TransformerShape(u: string, input: Attr, parameters: Params, compiled: string)
    ensures AsSql(GenerateEmbedding(input, Some(u), parameters), compiled)
         == (Function + "('") + (u + ("', " + (compiled + (", '" + Dumps(parameters) + "')"))))
  {
  }

  lemma DriverHalvesTransformer(head: string, t: string, y: string, lit: string)
    requires '%' !in head && '%' !in y
    ensures Interpolate(head + (DoublePercent(t) + ("', " + ("%s" + y))), [lit]) == Some(head + (t + ("', " + (lit + y))))
  {
    InterpolateVerbatim(y, [], []);
    assert y + [] == y;
    assert [lit] == [lit] + [];
    InterpolatePlaceholder(lit, y, []);
    InterpolateVerbatim("', ", "%s" + y, [lit]);
    InterpolateDoubled(t, "', " + ("%s" + y), [lit]);
    InterpolateVerbatim(head, DoublePercent(t) + ("', " + ("%s" + y)), [lit]);
  }

  /**
    A transformer name written with its `%` signs doubled passes the driver
    with each pair halved: `a%%b` reaches the server as `a%b`.
  */
  lemma AsSqlHalvesDoubledPercentInTransformer(t: string, input: Attr, parameters: Params, lit: string)
    requires Avoids(parameters, '%')
    ensures Interpolate(AsSql(GenerateEmbedding(input, Some(DoublePercent(t)), parameters), "%s"), [lit])
         == Some(AsSql(GenerateEmbedding(input, Some(t), parameters), lit))
    ensures '%' in t ==> DoublePercent(t) != t
  {
    TransformerThroughDriver(t, input, parameters, lit);
    DoublePercentLength(t);
  }

  lemma TransformerThroughDriver(t: string, input: Attr, parameters: Params, lit: string)
    requires Avoids(parameters, '%')
    ensures Interpolate(AsSql(GenerateEmbedding(input, Some(DoublePercent(t)), parameters), "%s"), [lit])
         == Some(AsSql(GenerateEmbedding(input, Some(t), parameters), lit))
  {
    DumpsInert(parameters, '%');
    var y := ", '" + Dumps(parameters) + "')";
    TransformerShape(DoublePercent(t), input, parameters, "%s");
    TransformerShape(t, input, parameters, lit);
    DriverHalvesTransformer(Function + "('", t, y, lit);
  }

  lemma {:induction false} DoublePercentPlain(s: string)
    requires Plain(s)
    ensures Plain(DoublePercent(s))
  {
    if s != [] {
      DoublePercentPlain(s[1..]);
      var d := DoublePercent(s[1..]);
      var h := if s[0] == '%' then "%%" else [s[0]];
      assert DoublePercent(s) == h + d;
      forall i | 0 <= i < |h + d| ensures Printable((h + d)[i]) && (h + d)[i] != '"' && (h + d)[i] != '\\' {
        if i >= |h| { assert (h + d)[i] == d[i - |h|]; }
      }
    }
  }

  lemma ParameterShape(t: string, k: string, w: string, input: Attr, compiled: string)
    requires Plain(k) && Plain(w)
    ensures AsSql(GenerateEmbedding(input, Some(t), [(k, w)]), compiled)
         == (Function + "('" + t + "', ") + (compiled + (", '{\"" + k + "\": \"" + (w + "\"}')")))
  {
    DumpsPlainMember(k, w);
  }

  lemma DriverHalvesParameter(x: string, m: string, v: string, z: string, lit: string)
    requires '%' !in x && '%' !in m && '%' !in z
    ensures Interpolate(x + ("%s" + (m + (DoublePercent(v) + z))), [lit]) == Some(x + (lit + (m + (v + z))))
  {
    InterpolateVerbatim(z, [], []);
    assert z + [] == z;
    InterpolateDoubled(v, z, []);
    InterpolateVerbatim(m, DoublePercent(v) + z, []);
    assert [lit] == [lit] + [];
    InterpolatePlaceholder(lit, m + (DoublePercent(v) + z), []);
    InterpolateVerbatim(x, "%s" + (m + (DoublePercent(v) + z)), [lit]);
  }

  /**
    A parameter value written with its `%` signs doubled passes the driver
    with each pair halved: `{"prompt": "100%%"}` reaches the server as
    `{"prompt": "100%"}`.
  */
  lemma AsSqlHalvesDoubledPercentInParameter(t: string, k: string, v: string, input: Attr, lit: string)
    requires '%' !in t && '%' !in k && Plain(k) && Plain(v)
    ensures Interpolate(AsSql(GenerateEmbedding(input, Some(t), [(k, DoublePercent(v))]), "%s"), [lit])
         == Some(AsSql(GenerateEmbedding(input, Some(t), [(k, v)]), lit))
    ensures '%' in v ==> [(k, v)] != [(k, DoublePercent(v))]
  {
    ParameterThroughDriver(t, k, v, input, lit);
    DoublePercentLength(v);
  }

  lemma ParameterThroughDriver(t: string, k: string, v: string, input: Attr, lit: string)
    requires '%' !in t && '%' !in k && Plain(k) && Plain(v)
    ensures Interpolate(AsSql(GenerateEmbedding(input, Some(t), [(k, DoublePercent(v))]), "%s"), [lit])
         == Some(AsSql(GenerateEmbedding(input, Some(t), [(k, v)]), lit))
  {
    DoublePercentPlain(v);
    ParameterShape(t, k, DoublePercent(v), input, "%s");
    ParameterShape(t, k, v, input, lit);
    DriverHalvesParameter(Function + "('" + t + "', ", ", '{\"" + k + "\": \"", v, "\"}')", lit);
  }

  /**
    The rendering the template evidently intends: each literal has its single
    quotes doubled for the server and then its `%` signs doubled for the driver.
  */
  function AsSqlEscaped(node: GenerateEmbedding, compiled: string): string {
    Function + "(" + DoublePercent(QuoteLiteral(TransformerText(node.transformer))) + ", " + compiled + ", "
      + DoublePercent(QuoteLiteral(Dumps(node.parameters))) + ")"
  }

  /**
    The escaped rendering reaches the server as the quoted call with the
    input's literal in place, and the server reads back the node's transformer
    and parameters, whatever they hold, unless the transformer or a parameter
    holds NUL.
  */
  lemma AsSqlEscapedRoundTrip(node: GenerateEmbedding, lit: string)
    ensures Interpolate(AsSqlEscaped(node, "%s"), [lit]) == Some(AsSqlQuoted(node, lit))
    ensures ReadEmbedCall(AsSqlQuoted(node, lit), lit)
         == if Nul !in TransformerText(node.transformer) && Avoids(node.parameters, Nul) then Some((TransformerText(node.transformer), node.parameters)) else None
  {
    var qt := QuoteLiteral(TransformerText(node.transformer));
    var qj := QuoteLiteral(Dumps(node.parameters));
    var r5 := DoublePercent(qj) + ")";
    var r4 := ", " + r5;
    var r3 := "%s" + r4;
    var r2 := ", " + r3;
    var r1 := DoublePercent(qt) + r2;
    var head := Function + "(";
    EscapedShape(node, "%s");
    QuotedShape(node, lit);
    InterpolateVerbatim(")", [], []);
    assert ")" + [] == ")";
    InterpolateDoubled(qj, ")", []);
    InterpolateVerbatim(", ", r5, []);
    assert [lit] == [lit] + [];
    InterpolatePlaceholder(lit, r4, []);
    InterpolateVerbatim(", ", r3, [lit]);
    InterpolateDoubled(qt, r2, [lit]);
    InterpolateVerbatim(head, r1, [lit]);
    AsSqlQuotedRoundTrip(node, lit);
  }

  lemma EscapedShape(node: GenerateEmbedding, compiled: string)
    ensures AsSqlEscaped(node, compiled)
         == (Function + "(") + (DoublePercent(QuoteLiteral(TransformerText(node.transformer)))
            + (", " + (compiled + (", " + (DoublePercent(QuoteLiteral(Dumps(node.parameters))) + ")")))))
  {
  }

  lemma QuotedShape(node: GenerateEmbedding, compiled: string)
    ensures AsSqlQuoted(node, compiled)
         == (Function + "(") + (QuoteLiteral(TransformerText(node.transformer))
            + (", " + (compiled + (", " + (QuoteLiteral(Dumps(node.parameters)) + ")")))))
  {
  }

  /** Without parameters the JSON argument is the empty object. */
  lemma DefaultParametersRenderEmpty(input: Attr, transformer: Option<string>, compiled: string)
    ensures GenerateEmbedding(input, transformer).parameters == []
    ensures AsSql(GenerateEmbedding(input, transformer), compiled)
         == Function + "('" + TransformerText(transformer) + "', " + compiled + ", '{}')"
  {
    assert Dumps([]) == "{}";
  }
}
