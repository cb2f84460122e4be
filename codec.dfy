/**
 * The reader and the writer of the polynomial file (`readFromFile` and
 * `writeToFile` of `impl Poly for Polynomial`), over text in memory.
 *
 * A coefficient is kept as the pair of literals the file holds for it; the
 * reader returns them in file order, and the writer prints each with
 * `Show`.
 */
module Codec {
  import opened Wrappers
  import opened Literals
  import opened Grammar
  import opened Snippet

  /** Why the reader rejects a text. */
  datatype ReadError =
    | SyntaxError(snippet: string)
    | InvalidFormat
    | NegativeDegree
    | CountMismatch(actual: nat, declared: nat)

  /** The words the two parse-failure messages begin with. */
  const ParsingFailed := "Parsing failed"

  /**
   * The message the source returns for each error. The two parse failures
   * are the messages that begin "Parsing failed".
   */
  function Message(e: ReadError): (m: string)
    ensures |m| > |ParsingFailed|
    ensures e.SyntaxError? || e.InvalidFormat? <==> m[..|ParsingFailed|] == ParsingFailed
  {
    match e
    case SyntaxError(s) => ParsingFailed + (". Invalid syntax '" + (s + "' in file."))
    case InvalidFormat => ParsingFailed + ", invalid format."
    case NegativeDegree =>
      var m := "Polynomial degree cannot be negative.";
      assert m[1] == 'o' && m[..|ParsingFailed|][1] == m[1];
      m
    case CountMismatch(actual, declared) =>
      var pre := "Incorrect number of coefficients, ";
      var m := pre + (NatDigits(actual) + (" instead of " + (NatDigits(declared) + ".")));
      assert pre[0] == 'I' && m[..|ParsingFailed|][0] == m[0] == pre[0];
      m
  }

  /** Different errors have different messages: the message says which error occurred. */
  lemma MessageInjective(e1: ReadError, e2: ReadError)
    ensures Message(e1) == Message(e2) <==> e1 == e2
  {
    if Message(e1) == Message(e2) {
      MessageTag(e1);
      MessageTag(e2);
      match e1
      case SyntaxError(s1) => SyntaxMessages(s1, e2.snippet);
      case CountMismatch(a1, d1) => CountMessages(a1, d1, e2.actual, e2.declared);
      case _ =>
    }
  }

  /**
   * The character after "Parsing failed" tells the two parse failures apart,
   * and the first character the other two.
   */
  lemma MessageTag(e: ReadError)
    ensures e.SyntaxError? ==> Message(e)[|ParsingFailed|] == '.'
    ensures e.InvalidFormat? ==> Message(e)[|ParsingFailed|] == ','
    ensures e.NegativeDegree? ==> Message(e)[0] == 'P'
    ensures e.CountMismatch? ==> Message(e)[0] == 'I'
  {
    match e
    case SyntaxError(x) =>
      var rest := ". Invalid syntax '" + (x + "' in file.");
      assert Message(e) == ParsingFailed + rest && rest[0] == '.';
    case InvalidFormat =>
      var rest := ", invalid format.";
      assert Message(e) == ParsingFailed + rest && rest[0] == ',';
    case NegativeDegree =>
    case CountMismatch(actual, declared) =>
      var pre := "Incorrect number of coefficients, ";
      assert pre[0] == 'I';
  }

  lemma SyntaxMessages(s1: string, s2: string)
    requires Message(SyntaxError(s1)) == Message(SyntaxError(s2))
    ensures s1 == s2
  {
    var pre, post := ParsingFailed + ". Invalid syntax '", "' in file.";
    var m1, m2 := pre + (s1 + post), pre + (s2 + post);
    assert Message(SyntaxError(s1)) == m1 && Message(SyntaxError(s2)) == m2;
    Middle(pre, s1, post);
    Middle(pre, s2, post);
  }

  /** The middle of a concatenation of three. */
  lemma Middle(pre: string, x: string, post: string)
    ensures (pre + (x + post))[|pre|..|pre| + |x|] == x
  {
    var m := pre + (x + post);
    assert forall i :: 0 <= i < |x| ==> m[|pre| + i] == x[i];
  }

  lemma CountMessages(a1: nat, d1: nat, a2: nat, d2: nat)
    requires Message(CountMismatch(a1, d1)) == Message(CountMismatch(a2, d2))
    ensures a1 == a2 && d1 == d2
  {
    var m1, m2 := Message(CountMismatch(a1, d1)), Message(CountMismatch(a2, d2));
    var pre, mid := "Incorrect number of coefficients, ", " instead of ";
    var u1, u2 := mid + (NatDigits(d1) + "."), mid + (NatDigits(d2) + ".");
    assert m1[|pre|..] == NatDigits(a1) + u1 && m2[|pre|..] == NatDigits(a2) + u2;
    DigitsThen(NatDigits(a1), NatDigits(a2), u1, u2);
    assert u1[|mid|..] == NatDigits(d1) + "." && u2[|mid|..] == NatDigits(d2) + ".";
    DigitsThen(NatDigits(d1), NatDigits(d2), ".", ".");
  }

  /** A run of digits is told apart from what follows it when that does not start with a digit. */
  lemma DigitsThen(a: string, b: string, u: string, v: string)
    requires AllDigits(a) && AllDigits(b)
    requires |u| > 0 && !IsDigit(u[0]) && |v| > 0 && !IsDigit(v[0])
    requires a + u == b + v
    ensures a == b && u == v
  {
    SpanOfRun(a, u, IsDigit);
    SpanOfRun(b, v, IsDigit);
    assert a == (a + u)[..|a|] && b == (b + v)[..|b|];
    assert u == (a + u)[|a|..] && v == (b + v)[|b|..];
  }

  /** Unicode White_Space, what `str::trim` removes. */
  predicate IsWhitespace(c: char) {
    || ('\U{9}' <= c <= '\U{D}') || c == ' ' || c == '\U{85}' || c == '\U{A0}' || c == '\U{1680}'
    || ('\U{2000}' <= c <= '\U{200A}') || c == '\U{2028}' || c == '\U{2029}' || c == '\U{202F}'
    || c == '\U{205F}' || c == '\U{3000}'
  }

  /** The text is empty once trimmed. */
  predicate AllWhitespace(s: string) {
    forall i :: 0 <= i < |s| ==> IsWhitespace(s[i])
  }

  function Coefficients(lines: seq<Line>): (p: seq<ComplexLiteral>)
    ensures |p| == |lines|
    ensures forall i :: 0 <= i < |lines| ==> p[i] == ComplexLiteral(lines[i].re, lines[i].im)
  {
    seq(|lines|, i requires 0 <= i < |lines| => ComplexLiteral(lines[i].re, lines[i].im))
  }

  /**
   * The checks after a grammar match, in the source's order: a negative
   * declared count first, then a count that differs from the number of
   * coefficients read.
   */
  function Validate(declared: int, p: seq<ComplexLiteral>): (r: Result<seq<ComplexLiteral>, ReadError>)
    ensures r.Ok? <==> declared == |p|
    ensures r.Ok? ==> r.value == p
    ensures r.Err? ==> (r.error == NegativeDegree <==> declared < 0)
    ensures r.Err? && declared >= 0 ==> r.error == CountMismatch(|p|, declared)
  {
    if declared < 0 then Err(NegativeDegree)
    else if declared != |p| then Err(CountMismatch(|p|, declared))
    else Ok(p)
  }

  /**
   * `readFromFile` after the file is read: the grammar, then the leftover
   * check, then `Validate`. Every syntax error quotes `GetMinErr` of a
   * suffix of the text: the unmatched leftover or the position of the
   * grammar's error.
   */
  function ReadFromText(text: string): (r: Result<seq<ComplexLiteral>, ReadError>)
    ensures r.Err? && r.error.SyntaxError? ==>
      exists u :: IsSuffix(u, text) && r.error.snippet == GetMinErr(u)
  {
    match PolyFile(text)
    case Incomplete => Err(InvalidFormat)
    case Error(at) => Err(SyntaxError(GetMinErr(at)))
    case Done(extra, b) =>
      if !AllWhitespace(extra) then
        SuffixOfConcat(Render(b), extra);
        Err(SyntaxError(GetMinErr(extra)))
      else
        Validate(DeclaredDegree(b.degree), Coefficients(b.lines))
  }

  /** An item starts with line breaks and then the sign or first digit of its real part. */
  lemma ItemStart(s: string)
    ensures Item(s).Done? ==> var k := Item(s).value.newlines;
      && k < |s|
      && (forall i :: 0 <= i < k ==> s[i] == '\n')
      && (s[k] == '-' || IsDigit(s[k]))
  {
    if Item(s).Done? {
      var l, rest := Item(s).value, Item(s).rest;
      var after := "," + (l.blanks + (Show(l.im) + rest));
      RenderLineThen(l, rest);
      ShowStart(l.re, after);
      assert s == Repeat('\n', l.newlines) + (Show(l.re) + after);
    }
  }

  /** A whitespace tail neither extends a literal nor starts an item. */
  lemma WhitespaceTail(d: Decimal, tail: string)
    requires AllWhitespace(tail)
    ensures Boundary(d, tail)
    ensures !Item(tail).Done?
  {
    ItemStart(tail);
    var r := Item(tail);
    assert r.Done? ==> !IsWhitespace(tail[r.value.newlines]);
  }

  /**
   * Every well-formed file, followed by whitespace, is read as its
   * coefficients and then validated.
   */
  lemma ReadRendered(b: Body, tail: string)
    requires WellFormedBody(b) && AllWhitespace(tail)
    ensures ReadFromText(Render(b) + tail) == Validate(DeclaredDegree(b.degree), Coefficients(b.lines))
  {
    if |b.lines| == 0 && |tail| > 0 && tail[0] == '\n' {
      var b', tail' := AbsorbNewlines(b, tail);
      ReadSeparated(b', tail');
    } else {
      ReadSeparated(b, tail);
    }
  }

  /** The line breaks that start the tail of a file without coefficient lines join those after the count. */
  lemma AbsorbNewlines(b: Body, tail: string) returns (b': Body, tail': string)
    requires WellFormedBody(b) && AllWhitespace(tail) && |b.lines| == 0
    ensures WellFormedBody(b') && b'.degree == b.degree && b'.lines == []
    ensures AllWhitespace(tail') && (|tail'| == 0 || tail'[0] != '\n')
    ensures Render(b) + tail == Render(b') + tail'
  {
    var k := Span(tail, IsNewline);
    b', tail' := Body(b.degree, b.newlines + k, []), tail[k..];
    NewlinesThen(tail, k);
    RepeatAdd('\n', b.newlines, k);
    RenderThen(b, tail);
    RenderThen(b', tail');
    assert AllWhitespace(tail') by {
      assert forall i :: 0 <= i < |tail| - k ==> tail'[i] == tail[k + i];
    }
  }

  /** ReadRendered when the tail does not continue the line breaks of a file without coefficient lines. */
  lemma ReadSeparated(b: Body, tail: string)
    requires WellFormedBody(b) && AllWhitespace(tail)
    requires |b.lines| == 0 ==> |tail| == 0 || tail[0] != '\n'
    ensures ReadFromText(Render(b) + tail) == Validate(DeclaredDegree(b.degree), Coefficients(b.lines))
  {
    WhitespaceTail(if |b.lines| > 0 then b.lines[|b.lines| - 1].im else b.degree, tail);
    PolyFileOfRender(b, tail);
  }

  /** The text holds a well-formed file and then only whitespace. */
  ghost predicate HoldsFile(text: string, b: Body, tail: string) {
    WellFormedBody(b) && AllWhitespace(tail) && text == Render(b) + tail
  }

  /**
   * The converse of ReadRendered: a text is accepted, or rejected for its
   * count, only when it is a well-formed file followed by whitespace, and
   * then the outcome is that of `Validate`.
   */
  lemma ReadAccepted(text: string)
    requires var r := ReadFromText(text); r.Ok? || r.error.NegativeDegree? || r.error.CountMismatch?
    ensures exists b, tail ::
      (HoldsFile(text, b, tail) && ReadFromText(text) == Validate(DeclaredDegree(b.degree), Coefficients(b.lines)))
  {
    var b, tail := PolyFile(text).value, PolyFile(text).rest;
    assert HoldsFile(text, b, tail);
  }

  /** One coefficient line of the writer: `{re},{im}` and a line break. */
  function FormatLine(c: ComplexLiteral): string {
    Show(c.re) + ("," + (Show(c.im) + "\n"))
  }

  function FormatLines(p: seq<ComplexLiteral>): string
    decreases |p|
  {
    if |p| == 0 then "" else FormatLine(p[0]) + FormatLines(p[1..])
  }

  lemma {:induction false} FormatLinesSnoc(p: seq<ComplexLiteral>, c: ComplexLiteral)
    ensures FormatLines(p + [c]) == FormatLines(p) + FormatLine(c)
    decreases |p|
  {
    if |p| == 0 {
      assert p + [c] == [c];
      assert [c][1..] == [];
    } else {
      assert (p + [c])[0] == p[0] && (p + [c])[1..] == p[1..] + [c];
      FormatLinesSnoc(p[1..], c);
    }
  }

  /** The writer's text: the count, a line break, and one line per coefficient. */
  function FormatFile(p: seq<ComplexLiteral>): string {
    NatDigits(|p|) + "\n" + FormatLines(p)
  }

  /** `writeToFile` without the file: the count line, then each coefficient in index order. */
  method WriteToText(p: seq<ComplexLiteral>) returns (text: string)
    ensures text == FormatFile(p)
    ensures AllWellFormed(p) && |p| <= I64Max ==> ReadFromText(text) == Ok(p)
  {
    var header := NatDigits(|p|) + "\n";
    text := header;
    for i := 0 to |p|
      invariant text == header + FormatLines(p[..i])
    {
      FormatLinesSnoc(p[..i], p[i]);
      assert p[..i + 1] == p[..i] + [p[i]];
      Assoc(header, FormatLines(p[..i]), FormatLine(p[i]));
      text := text + FormatLine(p[i]);
    }
    assert p[..|p|] == p;
    if AllWellFormed(p) && |p| <= I64Max {
      RoundTrip(p);
    }
  }

  lemma Assoc(a: string, b: string, c: string)
    ensures (a + b) + c == a + (b + c)
  {
  }

  predicate AllWellFormed(p: seq<ComplexLiteral>) {
    forall i :: 0 <= i < |p| ==> WellFormed(p[i].re) && WellFormed(p[i].im)
  }

  /** The writer's lines as the grammar reads them: every line after the first starts with a line break. */
  function WriterLine(c: ComplexLiteral, newlines: nat): Line {
    Line(newlines, c.re, "", c.im)
  }

  function LaterLines(q: seq<ComplexLiteral>): (ls: seq<Line>)
    ensures |ls| == |q| && forall i :: 0 <= i < |q| ==> ls[i] == WriterLine(q[i], 1)
  {
    seq(|q|, i requires 0 <= i < |q| => WriterLine(q[i], 1))
  }

  function WriterLines(p: seq<ComplexLiteral>): seq<Line> {
    if |p| == 0 then [] else [WriterLine(p[0], 0)] + LaterLines(p[1..])
  }

  function WriterBody(n: nat, p: seq<ComplexLiteral>): Body {
    Body(NatLiteral(n), 1, WriterLines(p))
  }

  lemma FormatLineThen(c: ComplexLiteral, rest: string)
    ensures FormatLine(c) + rest == Show(c.re) + ("," + (Show(c.im) + ("\n" + rest)))
  {
  }

  /** A writer line read back: its line breaks, then the text the writer printed for it. */
  lemma WriterLineThen(c: ComplexLiteral, newlines: nat, rest: string)
    ensures RenderLine(WriterLine(c, newlines)) + ("\n" + rest)
      == Repeat('\n', newlines) + (FormatLine(c) + rest)
  {
    var l := WriterLine(c, newlines);
    RenderLineThen(l, "\n" + rest);
    FormatLineThen(c, rest);
    assert l.blanks + (Show(c.im) + ("\n" + rest)) == Show(c.im) + ("\n" + rest);
  }

  lemma {:induction false} LaterLinesRender(q: seq<ComplexLiteral>)
    ensures RenderLines(LaterLines(q)) + "\n" == "\n" + FormatLines(q)
    decreases |q|
  {
    if |q| > 0 {
      var l := WriterLine(q[0], 1);
      var more := LaterLines(q[1..]);
      assert LaterLines(q) == [l] + more;
      calc {
        RenderLines(LaterLines(q)) + "\n";
        { RenderLinesCons(l, more, "\n"); }
        RenderLine(l) + (RenderLines(more) + "\n");
        { LaterLinesRender(q[1..]); }
        RenderLine(l) + ("\n" + FormatLines(q[1..]));
        { WriterLineThen(q[0], 1, FormatLines(q[1..])); }
        Repeat('\n', 1) + (FormatLine(q[0]) + FormatLines(q[1..]));
        { assert Repeat('\n', 1) == "\n"; }
        "\n" + FormatLines(q);
      }
    } else {
      assert LaterLines(q) == [];
    }
  }

  /**
   * The writer's layout in the grammar's terms: the count literal, one line
   * break, the coefficient lines, and a final line break when there is at
   * least one coefficient.
   */
  lemma WriterLayout(n: nat, p: seq<ComplexLiteral>)
    ensures NatDigits(n) + "\n" + FormatLines(p)
      == Render(WriterBody(n, p)) + (if |p| > 0 then "\n" else "")
  {
    var b := WriterBody(n, p);
    var tail := if |p| > 0 then "\n" else "";
    assert Show(b.degree) == NatDigits(n);
    assert Repeat('\n', 1) == "\n";
    RenderThen(b, tail);
    Assoc(NatDigits(n), "\n", FormatLines(p));
    if |p| > 0 {
      var first := WriterLine(p[0], 0);
      calc {
        RenderLines(b.lines) + tail;
        { RenderLinesCons(first, LaterLines(p[1..]), "\n"); }
        RenderLine(first) + (RenderLines(LaterLines(p[1..])) + "\n");
        { LaterLinesRender(p[1..]); }
        RenderLine(first) + ("\n" + FormatLines(p[1..]));
        { WriterLineThen(p[0], 0, FormatLines(p[1..])); }
        Repeat('\n', 0) + (FormatLine(p[0]) + FormatLines(p[1..]));
        { assert Repeat('\n', 0) == ""; }
        FormatLines(p);
      }
    }
  }

  lemma WriterLinesAt(p: seq<ComplexLiteral>)
    ensures |WriterLines(p)| == |p|
    ensures forall i :: 0 <= i < |p| ==> WriterLines(p)[i] == WriterLine(p[i], if i == 0 then 0 else 1)
  {
    if |p| > 0 {
      var ls := WriterLines(p);
      assert forall i :: 1 <= i < |p| ==> ls[i] == LaterLines(p[1..])[i - 1];
    }
  }

  lemma WriterBodyWellFormed(n: nat, p: seq<ComplexLiteral>)
    requires AllWellFormed(p)
    ensures WellFormedBody(WriterBody(n, p))
    ensures Coefficients(WriterBody(n, p).lines) == p
  {
    WriterLinesWellFormed(p);
    WriterCoefficients(p);
  }

  lemma WriterLinesWellFormed(p: seq<ComplexLiteral>)
    requires AllWellFormed(p)
    ensures WellFormedLines(WriterLines(p))
    ensures |p| > 0 ==> WriterLines(p)[0].newlines == 0
  {
    WriterLinesAt(p);
    var ls := WriterLines(p);
    forall i | 0 <= i < |ls| ensures WellFormedLine(ls[i]) {
      assert ls[i].re == p[i].re && ls[i].im == p[i].im && ls[i].blanks == "";
    }
    forall i | 0 < i < |ls| ensures Separated(ls[i]) {
      assert ls[i].newlines == 1;
    }
  }

  lemma WriterCoefficients(p: seq<ComplexLiteral>)
    ensures Coefficients(WriterLines(p)) == p
  {
    WriterLinesAt(p);
    var ls := WriterLines(p);
    forall i | 0 <= i < |p| ensures Coefficients(ls)[i] == p[i] {
      assert ls[i] == WriterLine(p[i], if i == 0 then 0 else 1);
    }
  }

  /** What the writer emits, the reader reads back, whatever count it declares. */
  lemma ReadWritten(n: nat, p: seq<ComplexLiteral>)
    requires AllWellFormed(p)
    ensures ReadFromText(NatDigits(n) + "\n" + FormatLines(p))
      == Validate(if n <= I64Max then n else I64Max, p)
  {
    var b, tail := WriterBody(n, p), if |p| > 0 then "\n" else "";
    WriterLayout(n, p);
    WriterBodyWellFormed(n, p);
    ReadRendered(b, tail);
    assert DeclaredDegree(b.degree) == if n <= I64Max then n else I64Max;
  }

  /** Reading what the writer wrote gives back the same coefficients. */
  lemma RoundTrip(p: seq<ComplexLiteral>)
    requires AllWellFormed(p) && |p| <= I64Max
    ensures ReadFromText(FormatFile(p)) == Ok(p)
  {
    ReadWritten(|p|, p);
  }

  /** A file whose count line disagrees with its lines: the count error names both numbers. */
  lemma CountMismatchReported(n: nat, p: seq<ComplexLiteral>)
    requires AllWellFormed(p) && n <= I64Max && n != |p|
    ensures ReadFromText(NatDigits(n) + "\n" + FormatLines(p)) == Err(CountMismatch(|p|, n))
  {
    ReadWritten(n, p);
  }

  /** The message of the source's test with four lines under a count of three. */
  lemma FourInsteadOfThree()
    ensures Message(CountMismatch(4, 3)) == "Incorrect number of coefficients, 4 instead of 3."
  {
  }

  /** A count of zero and no lines is the empty polynomial. */
  lemma ZeroDegree()
    ensures ReadFromText("0\n") == Ok([])
  {
    var b := Body(Decimal(false, "0", None), 1, []);
    assert Render(b) == "0\n";
    ReadRendered(b, "");
    assert Render(b) + "" == "0\n";
  }

  /** A negative count is rejected once the grammar has matched. */
  lemma NegativeCount(tail: string)
    requires AllWhitespace(tail)
    ensures ReadFromText("-1\n" + tail) == Err(NegativeDegree)
  {
    var b := Body(Decimal(true, "1", None), 1, []);
    assert Render(b) == "-1\n";
    ReadRendered(b, tail);
  }

  /**
   * A count that is not a number: the text after an optional minus sign does
   * not start with a digit, and the snippet quotes it from there.
   */
  lemma ReadBadCount(text: string)
    requires var t := if |text| > 0 && text[0] == '-' then text[1..] else text;
      |t| > 0 && !IsDigit(t[0])
    ensures var t := if |text| > 0 && text[0] == '-' then text[1..] else text;
      ReadFromText(text) == Err(SyntaxError(GetMinErr(t)))
  {
  }

  /** A count that is not followed by a line break: the snippet quotes what follows the count. */
  lemma ReadNoLineBreak(d: Decimal, rest: string)
    requires WellFormed(d) && Boundary(d, rest)
    requires |rest| > 0 && rest[0] != '\n'
    ensures ReadFromText(Show(d) + rest) == Err(SyntaxError(GetMinErr(rest)))
  {
    FpOfShow(d, rest);
  }

  /**
   * Text left over after a complete match that is not all whitespace is a
   * syntax error quoting the leftover. The requirements say that `extra` is
   * what the grammar leaves: it does not extend the last literal, continue
   * the line breaks after the count, or start another item.
   */
  lemma ReadLeftover(b: Body, extra: string)
    requires WellFormedBody(b) && !AllWhitespace(extra)
    requires |b.lines| > 0 ==> Boundary(b.lines[|b.lines| - 1].im, extra)
    requires |b.lines| == 0 ==> |extra| == 0 || extra[0] != '\n'
    requires !Item(extra).Done?
    ensures ReadFromText(Render(b) + extra) == Err(SyntaxError(GetMinErr(extra)))
  {
    PolyFileOfRender(b, extra);
  }

  /** Junk where the first coefficient should be: the snippet is the junk. */
  lemma JunkAfterCount()
    ensures ReadFromText("3\njunk\n") == Err(SyntaxError("junk"))
  {
    var b := Body(Decimal(false, "3", None), 1, []);
    var extra := "junk\n";
    assert Render(b) + extra == "3\njunk\n";
    assert extra[0] == 'j';
    ItemStart(extra);
    ReadLeftover(b, extra);
    JunkSnippet("");
    assert "junk\n" + "" == extra;
  }

  /** Junk in place of the count: the grammar fails at the start and quotes the junk. */
  lemma JunkCount(rest: string)
    ensures ReadFromText("junk\n" + rest) == Err(SyntaxError("junk"))
  {
    JunkSnippet(rest);
  }
}
