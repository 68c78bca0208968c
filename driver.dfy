/**
  The database driver's formatting of a statement that carries positional
  query parameters (psycopg's `format` parameter style). `%s` takes the next
  parameter's literal, `%%` stands for one `%`, and every other use of `%`
  raises. The call also raises when parameters are left over.
*/
module Driver {
  import opened Wrappers

  /** `a` in front of a formatted text; an error stays an error. */
  function Prepend(a: string, r: Option<string>): (o: Option<string>)
    ensures o.Some? <==> r.Some?
    ensures o.Some? ==> o.value == a + r.value
  {
    match r
    case None => None
    case Some(t) => Some(a + t)
  }

  /** The statement as sent to the server, with each `%s` replaced by the matching literal in `args`. */
  function Interpolate(sql: string, args: seq<string>): Option<string>
    decreases |sql|
  {
    if sql == [] then
      if args == [] then Some([]) else None
    else if sql[0] != '%' then Prepend([sql[0]], Interpolate(sql[1..], args))
    else if |sql| >= 2 && sql[1] == '%' then Prepend("%", Interpolate(sql[2..], args))
    else if |sql| >= 2 && sql[1] == 's' && args != [] then Prepend(args[0], Interpolate(sql[2..], args[1..]))
    else None
  }

  /** The text with every `%` written twice, so that the driver passes it on unchanged. */
  function DoublePercent(s: string): string {
    if s == [] then []
    else (if s[0] == '%' then "%%" else [s[0]]) + DoublePercent(s[1..])
  }

  lemma PrependPrepend(a: string, b: string, r: Option<string>)
    ensures Prepend(a, Prepend(b, r)) == Prepend(a + b, r)
  {
    if r.Some? {
      assert a + (b + r.value) == (a + b) + r.value;
    }
  }

  lemma PrependEmpty(r: Option<string>)
    ensures Prepend([], r) == r
  {
    if r.Some? {
      assert [] + r.value == r.value;
    }
  }

  /** Text without `%` passes through the driver unchanged. */
  lemma {:induction false} InterpolateVerbatim(a: string, r: string, args: seq<string>)
    requires '%' !in a
    ensures Interpolate(a + r, args) == Prepend(a, Interpolate(r, args))
  {
    if a == [] {
      assert a + r == r;
      PrependEmpty(Interpolate(r, args));
    } else {
      InterpolateVerbatim(a[1..], r, args);
      assert (a + r)[0] == a[0] && (a + r)[1..] == a[1..] + r;
      PrependPrepend([a[0]], a[1..], Interpolate(r, args));
      assert [a[0]] + a[1..] == a;
    }
  }

  /** Doubled `%` signs come out of the driver as the text they were made from. */
  lemma {:induction false} InterpolateDoubled(a: string, r: string, args: seq<string>)
    ensures Interpolate(DoublePercent(a) + r, args) == Prepend(a, Interpolate(r, args))
  {
    if a == [] {
      assert DoublePercent(a) + r == r;
      PrependEmpty(Interpolate(r, args));
    } else {
      var tail := DoublePercent(a[1..]) + r;
      InterpolateDoubled(a[1..], r, args);
      if a[0] == '%' {
        assert DoublePercent(a) + r == "%%" + tail;
        assert ("%%" + tail)[2..] == tail;
        PrependPrepend("%", a[1..], Interpolate(r, args));
      } else {
        assert DoublePercent(a) + r == [a[0]] + tail;
        assert ([a[0]] + tail)[1..] == tail;
        PrependPrepend([a[0]], a[1..], Interpolate(r, args));
      }
      assert [a[0]] + a[1..] == a;
    }
  }

  /** The placeholder takes the next parameter's literal. */
  lemma InterpolatePlaceholder(x: string, r: string, args: seq<string>)
    ensures Interpolate("%s" + r, [x] + args) == Prepend(x, Interpolate(r, args))
  {
    assert ("%s" + r)[2..] == r;
    assert ([x] + args)[1..] == args;
  }

  /** A `%` that is neither `%%` nor a placeholder with a parameter left makes the driver raise. */
  lemma InterpolateStray(r: string, args: seq<string>)
    requires r == [] || r[0] != '%'
    requires r == [] || r[0] != 's' || args == []
    ensures Interpolate("%" + r, args) == None
  {
    assert ("%" + r)[0] == '%';
    assert |r| > 0 ==> ("%" + r)[1] == r[0];
  }

  /** Doubling leaves a text alone exactly when it has no `%`, and otherwise makes it longer. */
  lemma {:induction false} DoublePercentLength(s: string)
    ensures '%' !in s ==> DoublePercent(s) == s
    ensures '%' in s ==> |DoublePercent(s)| > |s|
    ensures |DoublePercent(s)| >= |s|
  {
    if s != [] {
      DoublePercentLength(s[1..]);
      assert s == [s[0]] + s[1..];
    }
  }

  /** Without parameters, the driver undoes the doubling of `%`. */
  lemma DoublePercentRoundTrip(s: string)
    ensures Interpolate(DoublePercent(s), []) == Some(s)
  {
    InterpolateDoubled(s, [], []);
    assert DoublePercent(s) + [] == DoublePercent(s);
    assert s + [] == s;
  }
}
