/** Quoting of a single CSV field (`csvEscape`) and an RFC 4180 reader for one
    field that undoes it. */
module CsvField {
  import opened Wrappers

  /** A field is quoted when it holds a double quote, a comma, LF or CR
      (rules 6 and 7 of section 2 of RFC 4180). */
  predicate NeedsQuoting(s: string) {
    '"' in s || ',' in s || '\n' in s || '\r' in s
  }

  /** `s` with every double quote replaced by two double quotes. */
  function DoubleQuotes(s: string): string {
    if s == [] then []
    else if s[0] == '"' then "\"\"" + DoubleQuotes(s[1..])
    else [s[0]] + DoubleQuotes(s[1..])
  }

  /** Doubling leaves a text without double quotes unchanged. */
  lemma {:induction false} DoubleQuotesNoQuote(s: string)
    requires '"' !in s
    ensures DoubleQuotes(s) == s
    decreases |s|
  {
    if s != [] {
      assert s[0] in s;
      assert '"' !in s[1..] by {
        forall c | c in s[1..] ensures c in s { }
      }
      DoubleQuotesNoQuote(s[1..]);
      assert [s[0]] + s[1..] == s;
    }
  }

  /** `csvEscape(field)`: `None` is a null or undefined field. */
  function Escape(field: Option<string>): (r: string)
    ensures field.None? ==> r == ""
    ensures field.Some? && !NeedsQuoting(field.value) ==> r == field.value
    ensures field.Some? && NeedsQuoting(field.value) ==>
              |r| >= 2 && r[0] == '"' && r[|r| - 1] == '"'
    ensures |r| > 0 && r[0] == '"' <==> field.Some? && NeedsQuoting(field.value)
  {
    var s := field.GetOr("");
    if NeedsQuoting(s) then "\"" + DoubleQuotes(s) + "\"" else s
  }

  /** Reads the body of a quoted field, `t` being the text after the opening
      quote: `""` stands for one quote and a lone `"` closes the field. Gives
      the unescaped body and the text after the closing quote. */
  function ParseQuoted(t: string): (r: Option<(string, string)>)
    ensures r.Some? ==> |r.value.1| < |t|
    decreases |t|
  {
    if t == [] then None
    else if t[0] == '"' then
      if |t| >= 2 && t[1] == '"' then
        match ParseQuoted(t[2..])
        case None => None
        case Some((body, rest)) => Some(("\"" + body, rest))
      else Some(([], t[1..]))
    else
      match ParseQuoted(t[1..])
      case None => None
      case Some((body, rest)) => Some(([t[0]] + body, rest))
  }

  /** Reads an unquoted field: everything up to the next comma or the end,
      refusing a double quote, CR or LF on the way. */
  function TakeUnquoted(t: string): (r: Option<(string, string)>)
    ensures r.Some? ==> |r.value.1| <= |t|
    ensures r.Some? ==> r.value.1 == [] || r.value.1[0] == ','
  {
    if t == [] || t[0] == ',' then Some(([], t))
    else if t[0] == '"' || t[0] == '\r' || t[0] == '\n' then None
    else
      match TakeUnquoted(t[1..])
      case None => None
      case Some((f, rest)) => Some(([t[0]] + f, rest))
  }

  /** Reads one field at the start of `line`, giving its value and the rest of
      the line, which is empty or starts with the separating comma. */
  function ParseField(line: string): (r: Option<(string, string)>)
    ensures r.Some? ==> |r.value.1| <= |line|
    ensures r.Some? ==> r.value.1 == [] || r.value.1[0] == ','
  {
    if line != [] && line[0] == '"' then
      match ParseQuoted(line[1..])
      case None => None
      case Some((f, rest)) => if rest == [] || rest[0] == ',' then Some((f, rest)) else None
    else TakeUnquoted(line)
  }

  /** Reading a doubled body back undoes the doubling, as long as the closing
      quote is not followed by another quote. */
  lemma {:induction false} ParseQuotedDoubled(s: string, rest: string)
    requires rest == [] || rest[0] != '"'
    ensures ParseQuoted(DoubleQuotes(s) + "\"" + rest) == Some((s, rest))
    decreases |s|
  {
    if s == [] {
      var t := "\"" + rest;
      assert DoubleQuotes(s) + "\"" + rest == t;
      assert t[1..] == rest;
    } else {
      ParseQuotedDoubled(s[1..], rest);
      ParseQuotedStep(s, rest);
    }
  }

  /** One step of ParseQuotedDoubled: a leading character of the body. */
  lemma ParseQuotedStep(s: string, rest: string)
    requires s != []
    requires ParseQuoted(DoubleQuotes(s[1..]) + "\"" + rest) == Some((s[1..], rest))
    ensures ParseQuoted(DoubleQuotes(s) + "\"" + rest) == Some((s, rest))
  {
    if s[0] == '"' {
      ParseQuotedQuoteStep(s, rest);
    } else {
      ParseQuotedPlainStep(s, rest);
    }
  }

  lemma ParseQuotedQuoteStep(s: string, rest: string)
    requires s != [] && s[0] == '"'
    requires ParseQuoted(DoubleQuotes(s[1..]) + "\"" + rest) == Some((s[1..], rest))
    ensures ParseQuoted(DoubleQuotes(s) + "\"" + rest) == Some((s, rest))
  {
    var d := DoubleQuotes(s[1..]);
    var tail := d + "\"" + rest;
    assert DoubleQuotes(s) == "\"\"" + d;
    assert DoubleQuotes(s) + "\"" + rest == "\"\"" + tail;
    ParseQuotedEscapedQuote(tail, s[1..], rest);
    assert "\"" + s[1..] == s;
  }

  lemma ParseQuotedPlainStep(s: string, rest: string)
    requires s != [] && s[0] != '"'
    requires ParseQuoted(DoubleQuotes(s[1..]) + "\"" + rest) == Some((s[1..], rest))
    ensures ParseQuoted(DoubleQuotes(s) + "\"" + rest) == Some((s, rest))
  {
    var d := DoubleQuotes(s[1..]);
    var tail := d + "\"" + rest;
    assert DoubleQuotes(s) == [s[0]] + d;
    assert DoubleQuotes(s) + "\"" + rest == [s[0]] + tail;
    ParseQuotedPlainChar(s[0], tail, s[1..], rest);
    assert [s[0]] + s[1..] == s;
  }

  lemma ParseQuotedEscapedQuote(tail: string, body: string, rest: string)
    requires ParseQuoted(tail) == Some((body, rest))
    ensures ParseQuoted("\"\"" + tail) == Some(("\"" + body, rest))
  {
    var t := "\"\"" + tail;
    assert t[0] == '"' && t[1] == '"';
    assert t[2..] == tail;
  }

  lemma ParseQuotedPlainChar(c: char, tail: string, body: string, rest: string)
    requires c != '"'
    requires ParseQuoted(tail) == Some((body, rest))
    ensures ParseQuoted([c] + tail) == Some(([c] + body, rest))
  {
    var t := [c] + tail;
    assert t[0] == c;
    assert t[1..] == tail;
  }

  /** A field that needs no quoting is read back verbatim up to the comma. */
  lemma {:induction false} TakeUnquotedPlain(s: string, rest: string)
    requires !NeedsQuoting(s)
    requires rest == [] || rest[0] == ','
    ensures TakeUnquoted(s + rest) == Some((s, rest))
    decreases |s|
  {
    if s != [] {
      assert s[0] in s;
      assert !NeedsQuoting(s[1..]) by {
        forall c | c in s[1..] ensures c in s { }
      }
      TakeUnquotedPlain(s[1..], rest);
      assert (s + rest)[1..] == s[1..] + rest;
      assert [s[0]] + s[1..] == s;
    } else {
      assert s + rest == rest;
    }
  }

  /** Escaping round-trips: reading the escaped field back gives the
      original text and stops exactly at the following comma or line end. */
  lemma EscapeRoundTrip(s: string, rest: string)
    requires rest == [] || rest[0] == ','
    ensures ParseField(Escape(Some(s)) + rest) == Some((s, rest))
  {
    if NeedsQuoting(s) {
      QuotedRoundTrip(s, rest);
    } else {
      PlainRoundTrip(s, rest);
    }
  }

  lemma QuotedRoundTrip(s: string, rest: string)
    requires NeedsQuoting(s)
    requires rest == [] || rest[0] == ','
    ensures ParseField(Escape(Some(s)) + rest) == Some((s, rest))
  {
    ParseQuotedDoubled(s, rest);
    EscapedQuotedShape(s, rest);
    QuotedFieldAt(DoubleQuotes(s) + "\"" + rest, s, rest);
  }

  /** A quoted field followed by `rest` is a quote and then the body. */
  lemma EscapedQuotedShape(s: string, rest: string)
    requires NeedsQuoting(s)
    ensures Escape(Some(s)) + rest == "\"" + (DoubleQuotes(s) + "\"" + rest)
  {
    var d := DoubleQuotes(s);
    assert Escape(Some(s)) == "\"" + d + "\"";
  }

  /** A line starting with a quote is read as a quoted field. */
  lemma QuotedFieldAt(body: string, s: string, rest: string)
    requires ParseQuoted(body) == Some((s, rest))
    requires rest == [] || rest[0] == ','
    ensures ParseField("\"" + body) == Some((s, rest))
  {
    var line := "\"" + body;
    assert line[0] == '"' && line[1..] == body;
  }

  lemma PlainRoundTrip(s: string, rest: string)
    requires !NeedsQuoting(s)
    requires rest == [] || rest[0] == ','
    ensures ParseField(Escape(Some(s)) + rest) == Some((s, rest))
  {
    assert Escape(Some(s)) == s;
    assert s != [] ==> s[0] in s;
    TakeUnquotedPlain(s, rest);
    assert s + rest == [] || (s + rest)[0] != '"' by {
      if s == [] { assert s + rest == rest; }
      else { assert (s + rest)[0] == s[0]; }
    }
  }
}
