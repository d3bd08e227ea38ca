/** The custom "LIMIT" clause builder registered with the ORM: it writes
    `LIMIT n`, `OFFSET m` (only for m > 0), or both separated by one space,
    into the statement builder. */
module LimitClause {
  import opened Base
  import opened Decimal
  import opened Text

  /** The clause's expression: a clause.Limit (Limit is a nullable int), or any other expression. */
  datatype Expression = Limit(limit: Option<int>, offset: int) | OtherExpression

  /** The statement builder: text written so far. */
  class Builder {
    var text: string

    constructor ()
      ensures text == ""
    {
      text := "";
    }

    method WriteString(s: string)
      modifies this
      ensures text == old(text) + s
    {
      text := text + s;
    }

    method WriteByte(c: char)
      modifies this
      ensures text == old(text) + [c]
    {
      text := text + [c];
    }
  }

  /** The parts the clause consists of, in order. */
  function Parts(e: Expression): seq<string>
  {
    match e
    case OtherExpression => []
    case Limit(l, o) =>
      (if l.Some? then ["LIMIT " + Itoa(l.value)] else [])
      + (if o > 0 then ["OFFSET " + Itoa(o)] else [])
  }

  /** The parts joined by single spaces. */
  function JoinSpace(parts: seq<string>): string
  {
    if parts == [] then ""
    else if |parts| == 1 then parts[0]
    else parts[0] + " " + JoinSpace(parts[1..])
  }

  /** What the clause builder appends for an expression. */
  function Rendered(e: Expression): string
  {
    JoinSpace(Parts(e))
  }

  lemma RenderedCases(e: Expression)
    requires e.Limit?
    ensures e.limit.Some? && e.offset > 0 ==>
              Rendered(e) == "LIMIT " + Itoa(e.limit.value) + " " + "OFFSET " + Itoa(e.offset)
    ensures e.limit.Some? && e.offset <= 0 ==> Rendered(e) == "LIMIT " + Itoa(e.limit.value)
    ensures e.limit.None? && e.offset > 0 ==> Rendered(e) == "OFFSET " + Itoa(e.offset)
    ensures e.limit.None? && e.offset <= 0 ==> Rendered(e) == ""
  {
    if e.limit.Some? && e.offset > 0 {
      var p := ["LIMIT " + Itoa(e.limit.value), "OFFSET " + Itoa(e.offset)];
      assert Parts(e) == p;
      assert p[1..] == ["OFFSET " + Itoa(e.offset)];
      assert JoinSpace(p[1..]) == "OFFSET " + Itoa(e.offset);
    }
  }

  /** The closure registered under "LIMIT". */
  method BuildLimit(e: Expression, builder: Builder)
    modifies builder
    ensures builder.text == old(builder.text) + Rendered(e)
  {
    if !e.Limit? {
      return;
    }
    ghost var start := builder.text;
    var wrote := false;
    if e.limit.Some? {
      builder.WriteString("LIMIT ");
      builder.WriteString(Itoa(e.limit.value));
      wrote := true;
    }
    if e.offset > 0 {
      if wrote {
        builder.WriteByte(' ');
      }
      builder.WriteString("OFFSET ");
      builder.WriteString(Itoa(e.offset));
    }
    WrittenIsRendered(e, start, builder.text);
  }

  /** The text BuildLimit appends, case by case, is the rendered clause. */
  lemma WrittenIsRendered(e: Expression, start: string, text: string)
    requires e.Limit?
    requires e.limit.Some? && e.offset > 0 ==>
               text == start + "LIMIT " + Itoa(e.limit.value) + [' '] + "OFFSET " + Itoa(e.offset)
    requires e.limit.Some? && e.offset <= 0 ==> text == start + "LIMIT " + Itoa(e.limit.value)
    requires e.limit.None? && e.offset > 0 ==> text == start + "OFFSET " + Itoa(e.offset)
    requires e.limit.None? && e.offset <= 0 ==> text == start
    ensures text == start + Rendered(e)
  {
    RenderedCases(e);
  }

  /** The words of a rendered clause: keyword and number for each part, in
      order, each non-empty; so the text has no leading, trailing or doubled
      space, and one space between the two parts exactly when both are present. */
  lemma RenderedWords(e: Expression)
    ensures e.OtherExpression? ==> Rendered(e) == ""
    ensures e.Limit? && e.limit.None? && e.offset <= 0 ==> Rendered(e) == ""
    ensures e.Limit? && e.limit.Some? && e.offset > 0 ==>
              Words(Rendered(e)) == ["LIMIT", Itoa(e.limit.value), "OFFSET", Itoa(e.offset)]
    ensures e.Limit? && e.limit.Some? && e.offset <= 0 ==>
              Words(Rendered(e)) == ["LIMIT", Itoa(e.limit.value)]
    ensures e.Limit? && e.limit.None? && e.offset > 0 ==>
              Words(Rendered(e)) == ["OFFSET", Itoa(e.offset)]
  {
    if e.Limit? {
      if e.limit.Some? && e.offset > 0 {
        WordsOfBoth(e);
      } else if e.limit.Some? {
        WordsOfLimit(e);
      } else if e.offset > 0 {
        WordsOfOffset(e);
      } else {
        RenderedCases(e);
      }
    }
  }

  lemma WordsOfBoth(e: Expression)
    requires e.Limit? && e.limit.Some? && e.offset > 0
    ensures Words(Rendered(e)) == ["LIMIT", Itoa(e.limit.value), "OFFSET", Itoa(e.offset)]
  {
    var n, m := Itoa(e.limit.value), Itoa(e.offset);
    assert Rendered(e) == "LIMIT " + n + " " + "OFFSET " + m by {
      RenderedCases(e);
    }
    BothShape(n, m);
    NumberHasNoSpace(e.limit.value);
    NumberHasNoSpace(e.offset);
    BothWords(n, m);
  }

  lemma BothShape(n: string, m: string)
    ensures "LIMIT " + n + " " + "OFFSET " + m == "LIMIT" + " " + (n + " " + ("OFFSET" + " " + m))
  {
  }

  lemma WordsOfLimit(e: Expression)
    requires e.Limit? && e.limit.Some? && e.offset <= 0
    ensures Words(Rendered(e)) == ["LIMIT", Itoa(e.limit.value)]
  {
    RenderedCases(e);
    var n := Itoa(e.limit.value);
    NumberHasNoSpace(e.limit.value);
    OneWord("LIMIT", n);
    assert "LIMIT " + n == "LIMIT" + " " + n;
  }

  lemma WordsOfOffset(e: Expression)
    requires e.Limit? && e.limit.None? && e.offset > 0
    ensures Words(Rendered(e)) == ["OFFSET", Itoa(e.offset)]
  {
    RenderedCases(e);
    var m := Itoa(e.offset);
    NumberHasNoSpace(e.offset);
    OneWord("OFFSET", m);
    assert "OFFSET " + m == "OFFSET" + " " + m;
  }

  lemma OneWord(keyword: string, n: string)
    requires ' ' !in keyword && ' ' !in n
    ensures Words(keyword + " " + n) == [keyword, n]
  {
    WordsAfterWord(keyword, n);
    WordsOfWord(n);
  }

  lemma BothWords(n: string, m: string)
    requires ' ' !in n && ' ' !in m
    ensures Words("LIMIT" + " " + (n + " " + ("OFFSET" + " " + m))) == ["LIMIT", n, "OFFSET", m]
  {
    assert ' ' !in "LIMIT" && ' ' !in "OFFSET";
    FourWords("LIMIT", n, "OFFSET", m);
  }

  /** Four space-free words joined by single spaces split back into those four. */
  lemma FourWords(a: string, b: string, c: string, d: string)
    requires ' ' !in a && ' ' !in b && ' ' !in c && ' ' !in d
    ensures Words(a + " " + (b + " " + (c + " " + d))) == [a, b, c, d]
  {
    var tail := c + " " + d;
    assert Words(tail) == [c, d] by {
      OneWord(c, d);
    }
    var mid := b + " " + tail;
    assert Words(mid) == [b, c, d] by {
      WordsAfterWord(b, tail);
    }
    WordsAfterWord(a, mid);
  }

  lemma NumberHasNoSpace(n: int)
    ensures ' ' !in Itoa(n)
  {
    var s := Itoa(n);
    forall i | 0 <= i < |s| ensures s[i] != ' ' {
    }
  }

  /** Reads a rendered clause back: the effective limit and offset. */
  function ParseClause(s: string): Option<Expression>
  {
    var w := Words(s);
    if s == "" then Some(Limit(None, 0))
    else if |w| == 4 && w[0] == "LIMIT" && w[2] == "OFFSET" && Atoi(w[1]).Some? && Atoi(w[3]).Some? then
      Some(Limit(Some(Atoi(w[1]).value), Atoi(w[3]).value))
    else if |w| == 2 && w[0] == "LIMIT" && Atoi(w[1]).Some? then Some(Limit(Some(Atoi(w[1]).value), 0))
    else if |w| == 2 && w[0] == "OFFSET" && Atoi(w[1]).Some? then Some(Limit(None, Atoi(w[1]).value))
    else None
  }

  /** What the clause means: a non-Limit expression and a non-positive offset mean "no offset". */
  function Effective(e: Expression): Expression
  {
    match e
    case OtherExpression => Limit(None, 0)
    case Limit(l, o) => Limit(l, if o > 0 then o else 0)
  }

  /** The rendered clause determines the effective limit and offset: reading it
      back gives them, for every 64-bit limit and offset. */
  lemma RenderRoundTrip(e: Expression)
    requires e.Limit? ==> MinInt64 <= e.offset <= MaxInt64
    requires e.Limit? && e.limit.Some? ==> MinInt64 <= e.limit.value <= MaxInt64
    ensures ParseClause(Rendered(e)) == Some(Effective(e))
  {
    RenderedWords(e);
    if e.Limit? {
      if e.limit.Some? { AtoiItoa(e.limit.value); assert Rendered(e) != ""; }
      if e.offset > 0 { AtoiItoa(e.offset); assert Rendered(e) != ""; }
    }
  }
}
