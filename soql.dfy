/**
 * SoQL string literals: the escaping applied to every user token, the
 * quoted `IN (...)` list the compiler renders, and a reader for that list
 * which shows that what was rendered reads back as exactly the user's
 * tokens, with the list closed where the renderer closed it.
 */
module Soql {
  import opened Text

  /** `soql_escape`: every single quote doubled. */
  function Escape(v: string): (r: string)
    ensures |r| == |v| + Count(v, '\'')
    ensures '\'' !in v ==> r == v
    ensures QuotesPaired(r)
  {
    if v == [] then []
    else
      var head := if v[0] == '\'' then "''" else [v[0]];
      var r := head + Escape(v[1..]);
      assert r[|head|..] == Escape(v[1..]);
      r
  }

  /** Every single quote in `s` is the first of an adjacent pair `''`. */
  predicate QuotesPaired(s: string)
    decreases |s|
  {
    if s == [] then true
    else if s[0] == '\'' then |s| >= 2 && s[1] == '\'' && QuotesPaired(s[2..])
    else QuotesPaired(s[1..])
  }

  /** The inverse of `Escape`: each `''` collapsed to one quote. */
  function Unescape(s: string): string
    decreases |s|
  {
    if s == [] then []
    else if |s| >= 2 && s[0] == '\'' && s[1] == '\'' then "'" + Unescape(s[2..])
    else [s[0]] + Unescape(s[1..])
  }

  lemma {:induction false} UnescapeEscape(v: string)
    ensures Unescape(Escape(v)) == v
  {
    if v != [] {
      UnescapeEscape(v[1..]);
      var e := Escape(v[1..]);
      if v[0] == '\'' {
        assert Escape(v) == "''" + e;
        assert ("''" + e)[2..] == e;
      } else {
        assert Escape(v) == [v[0]] + e;
        assert ([v[0]] + e)[1..] == e;
      }
      assert v == [v[0]] + v[1..];
    }
  }

  /** Escaping is onto the strings whose quotes are all paired. */
  lemma {:induction false} EscapeUnescape(s: string)
    requires QuotesPaired(s)
    ensures Escape(Unescape(s)) == s
  {
    if s != [] {
      if s[0] == '\'' {
        EscapeUnescape(s[2..]);
        assert Unescape(s) == "'" + Unescape(s[2..]);
        assert ("'" + Unescape(s[2..]))[1..] == Unescape(s[2..]);
        assert s == "''" + s[2..];
      } else {
        EscapeUnescape(s[1..]);
        assert Unescape(s) == [s[0]] + Unescape(s[1..]);
        assert ([s[0]] + Unescape(s[1..]))[1..] == Unescape(s[1..]);
        assert s == [s[0]] + s[1..];
      }
    }
  }

  /** Escaping leaves a value unchanged exactly when it holds no quote. */
  lemma EscapeIdentity(v: string)
    ensures Escape(v) == v <==> '\'' !in v
  {
    CountZero(v, '\'');
  }

  // ---------------------------------------------------------------------------
  // Rendering

  /** An already escaped token between single quotes. */
  function Quoted(e: string): (r: string)
    ensures |r| == |e| + 2
    ensures r[0] == '\'' && r[|r| - 1] == '\''
    ensures r[1..|r| - 1] == e
  {
    var r := "'" + e + "'";
    assert r[1..|r| - 1] == e;
    r
  }

  /** The quoted tokens, separated by a comma and a space. */
  function InList(escaped: seq<string>): string
  {
    Join(", ", MapSeq(Quoted, escaped))
  }

  /** `<field> IN (<list>)`: the field, the keyword, and the list in parentheses. */
  function InClause(field: string, escaped: seq<string>): (r: string)
    ensures StartsWith(r, field + " IN (")
    ensures r[|r| - 1] == ')'
    ensures r[|field| + 5..|r| - 1] == InList(escaped)
  {
    var open := field + " IN (";
    var r := open + InList(escaped) + ")";
    assert r[..|open|] == open;
    assert r[|open|..|r| - 1] == InList(escaped);
    r
  }

  // ---------------------------------------------------------------------------
  // Reading a rendered list back

  /** Reads the body of a string literal whose opening quote has been
      consumed: `''` stands for one quote and a lone `'` closes the literal.
      Gives the literal's value and the text after the closing quote, or
      `None` if the literal is never closed. */
  function ReadLiteral(s: string): (r: Option<(string, string)>)
    ensures r.Some? ==> |r.value.1| < |s|
    decreases |s|
  {
    if s == [] then None
    else if s[0] == '\'' then
      if |s| >= 2 && s[1] == '\'' then
        match ReadLiteral(s[2..])
        case None => None
        case Some((v, rest)) => Some(("'" + v, rest))
      else Some(("", s[1..]))
    else
      match ReadLiteral(s[1..])
      case None => None
      case Some((v, rest)) => Some(([s[0]] + v, rest))
  }

  /** Reads `'a', 'b', ...`: quoted literals separated by `, `. */
  function ReadLiterals(s: string): (r: Option<(seq<string>, string)>)
    ensures r.Some? ==> |r.value.0| >= 1 && |r.value.1| < |s|
    decreases |s|
  {
    if s == [] || s[0] != '\'' then None
    else
      match ReadLiteral(s[1..])
      case None => None
      case Some((v, rest)) =>
        if |rest| >= 2 && rest[..2] == ", " then
          match ReadLiterals(rest[2..])
          case None => None
          case Some((vs, tail)) => Some(([v] + vs, tail))
        else Some(([v], rest))
  }

  /** Reads `<field> IN (<literals>)` at the start of `s`. */
  function ReadInClause(field: string, s: string): Option<(seq<string>, string)>
  {
    var open := field + " IN (";
    if !StartsWith(s, open) then None
    else
      match ReadLiterals(s[|open|..])
      case None => None
      case Some((vs, rest)) =>
        if rest != [] && rest[0] == ')' then Some((vs, rest[1..])) else None
  }

  lemma ReadLiteralPair(inner: string, v: string, rest: string)
    requires ReadLiteral(inner) == Some((v, rest))
    ensures ReadLiteral("''" + inner) == Some(("'" + v, rest))
  {
    assert ("''" + inner)[2..] == inner;
  }

  lemma ReadLiteralPlain(c: char, inner: string, v: string, rest: string)
    requires c != '\''
    requires ReadLiteral(inner) == Some((v, rest))
    ensures ReadLiteral([c] + inner) == Some(([c] + v, rest))
  {
    assert ([c] + inner)[1..] == inner;
  }

  lemma EscapeHead(v: string, tail: string)
    requires v != []
    ensures Escape(v) + "'" + tail
         == (if v[0] == '\'' then "''" else [v[0]]) + (Escape(v[1..]) + "'" + tail)
  {
    var h := if v[0] == '\'' then "''" else [v[0]];
    var e := Escape(v[1..]);
    assert Escape(v) == h + e;
    ConcatAssoc(h, e, "'");
    ConcatAssoc(h, e + "'", tail);
  }

  /** An escaped value followed by a quote is a closed literal holding exactly
      that value, as long as the next character is not itself a quote. */
  lemma {:induction false} ReadEscaped(v: string, tail: string)
    requires tail == [] || tail[0] != '\''
    ensures ReadLiteral(Escape(v) + "'" + tail) == Some((v, tail))
  {
    if v == [] {
      var s := Escape(v) + "'" + tail;
      assert s[1..] == tail by { assert s == "'" + tail; }
    } else {
      ReadEscaped(v[1..], tail);
      EscapeHead(v, tail);
      if v[0] == '\'' {
        ReadLiteralPair(Escape(v[1..]) + "'" + tail, v[1..], tail);
      } else {
        ReadLiteralPlain(v[0], Escape(v[1..]) + "'" + tail, v[1..], tail);
      }
      assert v == [v[0]] + v[1..];
    }
  }

  /** A one-token list is that token quoted; a longer list is the first token
      quoted, a comma and a space, and the list of the rest. */
  lemma InListCons(es: seq<string>)
    requires |es| >= 1
    ensures |es| == 1 ==> InList(es) == Quoted(es[0])
    ensures |es| >= 2 ==> InList(es) == Quoted(es[0]) + ", " + InList(es[1..])
  {
    var qs := MapSeq(Quoted, es);
    assert MapSeq(Quoted, es[1..]) == qs[1..];
  }

  lemma ReadLiteralsLast(x: string, v: string, rest: string)
    requires ReadLiteral(x) == Some((v, rest))
    requires rest == [] || rest[0] != ','
    ensures ReadLiterals("'" + x) == Some(([v], rest))
  {
    assert ("'" + x)[1..] == x;
    assert |rest| >= 2 ==> rest[..2][0] == rest[0];
  }

  lemma ReadLiteralsNext(x: string, v: string, after: string, vs: seq<string>, tail: string)
    requires ReadLiteral(x) == Some((v, ", " + after))
    requires ReadLiterals(after) == Some((vs, tail))
    ensures ReadLiterals("'" + x) == Some(([v] + vs, tail))
  {
    assert ("'" + x)[1..] == x;
    assert (", " + after)[..2] == ", ";
    assert (", " + after)[2..] == after;
  }

  lemma QuotedTail(e: string, tail: string)
    ensures Quoted(e) + tail == "'" + (e + "'" + tail)
  {
    ConcatAssoc("'", e, "'");
    ConcatAssoc("'", e + "'", tail);
  }

  lemma ReadRenderedOne(t: string, tail: string)
    requires tail == [] || (tail[0] != '\'' && tail[0] != ',')
    ensures ReadLiterals(InList(MapSeq(Escape, [t])) + tail) == Some(([t], tail))
  {
    var e := Escape(t);
    var es := MapSeq(Escape, [t]);
    assert es == [e];
    InListCons(es);
    QuotedTail(e, tail);
    ReadEscaped(t, tail);
    ReadLiteralsLast(e + "'" + tail, t, tail);
  }

  lemma QuotedShape(e: string, more: string, tail: string)
    ensures Quoted(e) + ", " + more + tail == "'" + (e + "'" + (", " + (more + tail)))
  {
  }

  lemma ReadRenderedMore(ts: seq<string>, tail: string)
    requires |ts| >= 2
    requires ReadLiterals(InList(MapSeq(Escape, ts[1..])) + tail) == Some((ts[1..], tail))
    ensures ReadLiterals(InList(MapSeq(Escape, ts)) + tail) == Some((ts, tail))
  {
    var es := MapSeq(Escape, ts);
    MapSeqTail(Escape, ts);
    InListCons(es);
    var more := InList(es[1..]);
    QuotedShape(Escape(ts[0]), more, tail);
    ReadEscaped(ts[0], ", " + (more + tail));
    ReadLiteralsNext(Escape(ts[0]) + "'" + (", " + (more + tail)), ts[0], more + tail, ts[1..], tail);
    assert ts == [ts[0]] + ts[1..];
  }

  /** The rendered list of escaped tokens reads back as the tokens themselves. */
  lemma {:induction false} ReadRendered(ts: seq<string>, tail: string)
    requires |ts| >= 1
    requires tail == [] || (tail[0] != '\'' && tail[0] != ',')
    ensures ReadLiterals(InList(MapSeq(Escape, ts)) + tail) == Some((ts, tail))
  {
    if |ts| == 1 {
      ReadRenderedOne(ts[0], tail);
      assert ts == [ts[0]];
    } else {
      ReadRendered(ts[1..], tail);
      ReadRenderedMore(ts, tail);
    }
  }

  lemma ClauseShape(open: string, body: string, tail: string)
    ensures open + body + ")" + tail == open + (body + (")" + tail))
    ensures StartsWith(open + body + ")" + tail, open)
    ensures (open + body + ")" + tail)[|open|..] == body + (")" + tail)
  {
    assert (open + (body + (")" + tail)))[..|open|] == open;
  }

  lemma ReadInClauseOf(field: string, s: string, vs: seq<string>, tail: string)
    requires StartsWith(s, field + " IN (")
    requires ReadLiterals(s[|field + " IN ("|..]) == Some((vs, ")" + tail))
    ensures ReadInClause(field, s) == Some((vs, tail))
  {
    assert (")" + tail)[1..] == tail;
  }

  /** No user token can break out of its literal: a rendered `IN` clause reads
      back as exactly the tokens it was built from, and ends where the
      renderer closed it, whatever text follows. */
  lemma ClauseRoundTrip(field: string, ts: seq<string>, tail: string)
    requires |ts| >= 1
    ensures ReadInClause(field, InClause(field, MapSeq(Escape, ts)) + tail) == Some((ts, tail))
  {
    var open := field + " IN (";
    var body := InList(MapSeq(Escape, ts));
    ReadRendered(ts, ")" + tail);
    ClauseShape(open, body, tail);
    ReadInClauseOf(field, open + body + ")" + tail, ts, tail);
  }
}
