/**
 * The grammar of the polynomial file (`fractional`, `fp` and `polyfile`,
 * written with nom 1.x macros in src/poly.rs). Each parser is a function
 * from the remaining input to one of nom's three outcomes:
 *
 *   Done(rest, value)  the parser matched and `rest` is what it left,
 *   Error(at)          a Position error at the suffix `at` of the input,
 *   Incomplete         the input ended before the parser could decide.
 *
 * The combinators behave as nom 1.x defines them: `digit` and `tag!` report
 * Incomplete on empty input; `opt!`, `alt!` and `chain!` pass Incomplete
 * on; `complete!` turns Incomplete into an error at its own input;
 * `many0!` stops at the first item that fails and keeps the input from
 * before it; `many1!` fails with an error when the first item does.
 *
 * Parsers return parse trees that record the layout (how many newlines,
 * which blanks), so that each parser is shown to be the inverse of a
 * rendering function: soundness (what was matched renders back to the
 * consumed text) and completeness (rendered text parses back).
 */
module Grammar {
  import opened Wrappers
  import opened Literals

  datatype Parsed<T> = Done(rest: string, value: T) | Error(at: string) | Incomplete

  predicate IsSuffix(t: string, s: string) {
    |t| <= |s| && t == s[|s| - |t|..]
  }

  predicate IsNewline(c: char) {
    c == '\n'
  }

  /** The blanks allowed after the comma of an item: spaces and tabs. */
  predicate IsBlank(c: char) {
    c == ' ' || c == '\t'
  }

  predicate AllBlank(s: string) {
    forall i :: 0 <= i < |s| ==> IsBlank(s[i])
  }

  /** nom's `digit`: one or more ASCII digits, as many as there are. */
  function Digit(s: string): (r: Parsed<string>)
    ensures r.Incomplete? <==> |s| == 0
    ensures r.Error? <==> |s| > 0 && !IsDigit(s[0])
    ensures r.Error? ==> r.at == s
    ensures r.Done? ==> |r.value| > 0 && AllDigits(r.value) && s == r.value + r.rest
    ensures r.Done? ==> |r.rest| == 0 || !IsDigit(r.rest[0])
  {
    if |s| == 0 then Incomplete
    else if !IsDigit(s[0]) then Error(s)
    else
      var k := Span(s, IsDigit);
      assert s == s[..k] + s[k..];
      Done(s[k..], s[..k])
  }

  /**
   * `fractional`: a period followed by digits, inside `complete!`, so it
   * never reports Incomplete.
   */
  function Fractional(s: string): (r: Parsed<string>)
    ensures !r.Incomplete?
    ensures r.Done? <==> |s| >= 2 && s[0] == '.' && IsDigit(s[1])
    ensures r.Done? ==> |r.value| > 0 && AllDigits(r.value) && s == "." + r.value + r.rest
    ensures r.Done? ==> |r.rest| == 0 || !IsDigit(r.rest[0])
  {
    if |s| == 0 then Error(s)
    else if s[0] != '.' then Error(s)
    else match Digit(s[1..])
      case Done(rest, v) => Done(rest, v)
      case Error(at) => Error(at)
      case Incomplete => Error(s)
  }

  /**
   * What may follow a literal that `fp` has read to its end: no further
   * digit, and, when the literal has no fraction, no period that starts one.
   */
  predicate Boundary(d: Decimal, rest: string) {
    && (|rest| == 0 || !IsDigit(rest[0]))
    && (d.fraction.None? ==> !(|rest| >= 2 && rest[0] == '.' && IsDigit(rest[1])))
  }

  /** `fp` after its optional sign: `digit`, then `opt!(fractional)`. */
  function Unsigned(negative: bool, t: string): (r: Parsed<Decimal>)
    ensures r.Incomplete? <==> |t| == 0
    ensures r.Error? ==> r.at == t && |t| > 0 && !IsDigit(t[0])
    ensures r.Done? ==> WellFormed(r.value) && r.value.negative == negative
    ensures r.Done? ==> t == r.value.whole + (FractionText(r.value.fraction) + r.rest)
    ensures r.Done? ==> Boundary(r.value, r.rest)
  {
    match Digit(t)
    case Incomplete => Incomplete
    case Error(at) => Error(at)
    case Done(r1, whole) =>
      match Fractional(r1)
      case Done(r2, f) => Done(r2, Decimal(negative, whole, Some(f)))
      case _ => Done(r1, Decimal(negative, whole, None))
  }

  /** `digit` reads back a run of digits that is not followed by another digit. */
  lemma DigitOfRun(digits: string, rest: string)
    requires |digits| > 0 && AllDigits(digits)
    requires |rest| == 0 || !IsDigit(rest[0])
    ensures Digit(digits + rest) == Done(rest, digits)
  {
    var t := digits + rest;
    SpanOfRun(digits, rest, IsDigit);
    assert t[..|digits|] == digits && t[|digits|..] == rest;
  }

  lemma FractionalOfText(f: string, rest: string)
    requires |f| > 0 && AllDigits(f)
    requires |rest| == 0 || !IsDigit(rest[0])
    ensures Fractional("." + (f + rest)) == Done(rest, f)
  {
    assert ("." + (f + rest))[1..] == f + rest;
    DigitOfRun(f, rest);
  }

  lemma UnsignedOfShow(d: Decimal, rest: string)
    requires WellFormed(d) && Boundary(d, rest)
    ensures Unsigned(d.negative, d.whole + (FractionText(d.fraction) + rest)) == Done(rest, d)
  {
    var tail := FractionText(d.fraction) + rest;
    DigitOfRun(d.whole, tail);
    match d.fraction
    case Some(f) =>
      assert tail == "." + (f + rest);
      FractionalOfText(f, rest);
    case None =>
  }

  /** `fp`: `opt!(tag!("-"))`, `digit`, `opt!(fractional)`. */
  function Fp(s: string): (r: Parsed<Decimal>)
    ensures r.Incomplete? <==> s == "" || s == "-"
    ensures r.Error? ==> IsSuffix(r.at, s)
    ensures r.Error? ==> |s| > 0 && r.at == (if s[0] == '-' then s[1..] else s) && |r.at| > 0 && !IsDigit(r.at[0])
    ensures r.Done? ==> WellFormed(r.value) && s == Show(r.value) + r.rest && Boundary(r.value, r.rest)
  {
    if |s| == 0 then Incomplete
    else
      var negative := s[0] == '-';
      var t := if negative then s[1..] else s;
      assert s == SignText(negative) + t;
      var r := Unsigned(negative, t);
      if r.Done? then
        ShowThen(r.value, r.rest);
        r
      else r
  }

  /** `fp` reads back every well-formed literal, whatever follows it within the boundary. */
  lemma FpOfShow(d: Decimal, rest: string)
    requires WellFormed(d) && Boundary(d, rest)
    ensures Fp(Show(d) + rest) == Done(rest, d)
  {
    var s := Show(d) + rest;
    var t := d.whole + (FractionText(d.fraction) + rest);
    ShowThen(d, rest);
    if d.negative {
      assert s == "-" + t;
      assert s[0] == '-' && s[1..] == t;
    } else {
      assert s == t;
      assert s[0] == d.whole[0];
    }
    UnsignedOfShow(d, rest);
  }

  /** The first character of a well-formed literal is its sign or its first digit. */
  lemma ShowStart(d: Decimal, rest: string)
    requires WellFormed(d)
    ensures |Show(d) + rest| > 0
    ensures (Show(d) + rest)[0] == (if d.negative then '-' else d.whole[0])
  {
    ShowThen(d, rest);
  }

  /**
   * One coefficient line as `polyfile` reads it: `newlines` line breaks,
   * the real part, a comma, the blanks after it, the imaginary part.
   */
  datatype Line = Line(newlines: nat, re: Decimal, blanks: string, im: Decimal)

  predicate WellFormedLine(l: Line) {
    WellFormed(l.re) && WellFormed(l.im) && AllBlank(l.blanks)
  }

  function RenderLine(l: Line): string {
    Repeat('\n', l.newlines) + (Show(l.re) + ("," + (l.blanks + Show(l.im))))
  }

  lemma RenderLineThen(l: Line, rest: string)
    ensures RenderLine(l) + rest
      == Repeat('\n', l.newlines) + (Show(l.re) + ("," + (l.blanks + (Show(l.im) + rest))))
  {
  }

  /** The real part of an item and the comma after it. */
  function RePart(s: string): (r: Parsed<Decimal>)
    ensures r.Done? ==> WellFormed(r.value) && s == Show(r.value) + ("," + r.rest)
  {
    match Fp(s)
    case Incomplete => Incomplete
    case Error(at) => Error(at)
    case Done(s2, re) =>
      if |s2| == 0 then Incomplete
      else if s2[0] != ',' then Error(s2)
      else
        CommaThen(s2);
        Done(s2[1..], re)
  }

  lemma CommaThen(s: string)
    requires |s| > 0 && s[0] == ','
    ensures s == "," + s[1..]
  {
  }

  lemma RePartOfShow(d: Decimal, rest: string)
    requires WellFormed(d)
    ensures RePart(Show(d) + ("," + rest)) == Done(rest, d)
  {
    FpOfShow(d, "," + rest);
    assert ("," + rest)[1..] == rest;
  }

  /** The blanks after the comma of an item, and the imaginary part. */
  function ImPart(s: string): (r: Parsed<(string, Decimal)>)
    ensures r.Done? ==> AllBlank(r.value.0) && WellFormed(r.value.1)
    ensures r.Done? ==> s == r.value.0 + (Show(r.value.1) + r.rest) && Boundary(r.value.1, r.rest)
  {
    var b := Span(s, IsBlank);
    assert s == s[..b] + s[b..];
    match Fp(s[b..])
    case Incomplete => Incomplete
    case Error(at) => Error(at)
    case Done(rest, im) => Done(rest, (s[..b], im))
  }

  lemma ImPartOfShow(blanks: string, d: Decimal, rest: string)
    requires AllBlank(blanks) && WellFormed(d) && Boundary(d, rest)
    ensures ImPart(blanks + (Show(d) + rest)) == Done(rest, (blanks, d))
  {
    var s := blanks + (Show(d) + rest);
    ShowStart(d, rest);
    SpanOfRun(blanks, Show(d) + rest, IsBlank);
    assert s[..|blanks|] == blanks && s[|blanks|..] == Show(d) + rest;
    FpOfShow(d, rest);
  }

  lemma SuffixOfConcat(a: string, b: string)
    ensures IsSuffix(b, a + b)
  {
    assert (a + b)[|a|..] == b;
  }

  /** A run of line breaks followed by the rest of the text. */
  lemma NewlinesThen(s: string, n: nat)
    requires n <= |s| && forall i :: 0 <= i < n ==> s[i] == '\n'
    ensures s == Repeat('\n', n) + s[n..]
  {
    assert s[..n] == Repeat('\n', n);
    assert s == s[..n] + s[n..];
  }

  /** An item after its leading line breaks: real part, comma, blanks, imaginary part. */
  function Pair(s: string): (r: Parsed<(Decimal, string, Decimal)>)
    ensures r.Done? ==> WellFormed(r.value.0) && AllBlank(r.value.1) && WellFormed(r.value.2)
    ensures r.Done? ==> s == Show(r.value.0) + ("," + (r.value.1 + (Show(r.value.2) + r.rest)))
    ensures r.Done? ==> Boundary(r.value.2, r.rest)
  {
    match RePart(s)
    case Incomplete => Incomplete
    case Error(at) => Error(at)
    case Done(s3, re) =>
      match ImPart(s3)
      case Incomplete => Incomplete
      case Error(at) => Error(at)
      case Done(rest, v) => Done(rest, (re, v.0, v.1))
  }

  /**
   * The coefficient item of `polyfile`: `many0!(tag!("\n"))`, `fp`, a comma,
   * `many0!` of blanks, `fp`, all inside `complete!`, which turns
   * Incomplete into an error at the item's start.
   */
  function Item(s: string): (r: Parsed<Line>)
    ensures !r.Incomplete?
    ensures r.Done? ==> WellFormedLine(r.value) && s == RenderLine(r.value) + r.rest
    ensures r.Done? ==> Boundary(r.value.im, r.rest)
  {
    var n := Span(s, IsNewline);
    NewlinesThen(s, n);
    match Pair(s[n..])
    case Incomplete => Error(s)
    case Error(at) => Error(at)
    case Done(rest, v) =>
      var l := Line(n, v.0, v.1, v.2);
      RenderLineThen(l, rest);
      Done(rest, l)
  }

  lemma ItemOfRender(l: Line, rest: string)
    requires WellFormedLine(l) && Boundary(l.im, rest)
    ensures Item(RenderLine(l) + rest) == Done(rest, l)
  {
    var s3 := l.blanks + (Show(l.im) + rest);
    var s1 := Show(l.re) + ("," + s3);
    RenderLineThen(l, rest);
    ShowStart(l.re, "," + s3);
    SpanOfRun(Repeat('\n', l.newlines), s1, IsNewline);
    assert (Repeat('\n', l.newlines) + s1)[l.newlines..] == s1;
    RePartOfShow(l.re, s3);
    ImPartOfShow(l.blanks, l.im, rest);
  }

  /** A consumed item is never empty, so `many0!` makes progress. */
  lemma RenderLineNonEmpty(l: Line)
    requires WellFormedLine(l)
    ensures |RenderLine(l)| > 0
  {
    ShowStart(l.re, "," + (l.blanks + Show(l.im)));
  }

  /**
   * A line after the first must be set apart from the imaginary part before
   * it: by a line break, or by the minus sign of its real part (`fp` stops
   * at a `-`, so `1,2-3,4` holds two items).
   */
  predicate Separated(l: Line) {
    l.newlines >= 1 || l.re.negative
  }

  predicate WellFormedLines(ls: seq<Line>) {
    && (forall i :: 0 <= i < |ls| ==> WellFormedLine(ls[i]))
    && (forall i :: 0 < i < |ls| ==> Separated(ls[i]))
  }

  function RenderLines(ls: seq<Line>): string
    decreases |ls|
  {
    if |ls| == 0 then "" else RenderLine(ls[0]) + RenderLines(ls[1..])
  }

  /** How rendered lines start: a line break, a minus sign, or a digit. */
  lemma RenderLinesStart(ls: seq<Line>, rest: string)
    requires |ls| > 0 && WellFormedLine(ls[0])
    ensures var s := RenderLines(ls) + rest;
      && |s| > 0
      && (ls[0].newlines > 0 ==> s[0] == '\n')
      && (ls[0].newlines == 0 ==> s[0] == (if ls[0].re.negative then '-' else ls[0].re.whole[0]))
  {
    var l := ls[0];
    var s1 := "," + (l.blanks + (Show(l.im) + (RenderLines(ls[1..]) + rest)));
    ShowStart(l.re, s1);
    RenderLineThen(l, RenderLines(ls[1..]) + rest);
    assert RenderLines(ls) + rest == RenderLine(l) + (RenderLines(ls[1..]) + rest);
  }

  /** After an item, the next item is separated from it. */
  lemma NextSeparated(l: Line, ls: seq<Line>, extra: string)
    requires WellFormedLine(l) && |ls| > 0 && WellFormedLine(ls[0])
    requires Boundary(l.im, RenderLines(ls) + extra)
    ensures Separated(ls[0])
  {
    RenderLinesStart(ls, extra);
  }

  lemma RenderLinesCons(l: Line, ls: seq<Line>, tail: string)
    ensures RenderLines([l] + ls) + tail == RenderLine(l) + (RenderLines(ls) + tail)
  {
    assert ([l] + ls)[0] == l && ([l] + ls)[1..] == ls;
  }

  lemma WellFormedCons(l: Line, ls: seq<Line>)
    requires WellFormedLine(l) && WellFormedLines(ls)
    requires |ls| > 0 ==> Separated(ls[0])
    ensures WellFormedLines([l] + ls)
  {
    var all := [l] + ls;
    assert forall i :: 0 < i < |all| ==> all[i] == ls[i - 1];
  }

  /** `many0!` over the item parser: every item it can read, and what is left. */
  function Items(s: string): (r: (seq<Line>, string))
    ensures s == RenderLines(r.0) + r.1
    ensures WellFormedLines(r.0)
    ensures !Item(r.1).Done?
    decreases |s|
  {
    match Item(s)
    case Done(rest, l) =>
      RenderLineNonEmpty(l);
      var r := Items(rest);
      if |r.0| > 0 then
        NextSeparated(l, r.0, r.1);
        WellFormedCons(l, r.0);
        RenderLinesCons(l, r.0, r.1);
        ([l] + r.0, r.1)
      else
        WellFormedCons(l, r.0);
        RenderLinesCons(l, r.0, r.1);
        ([l] + r.0, r.1)
    case _ => ([], s)
  }

  /** `many0!` reads back every run of separated lines, up to a tail where no item starts. */
  lemma {:induction false} ItemsOfRender(ls: seq<Line>, tail: string)
    requires WellFormedLines(ls)
    requires |ls| > 0 ==> Boundary(ls[|ls| - 1].im, tail)
    requires !Item(tail).Done?
    ensures Items(RenderLines(ls) + tail) == (ls, tail)
    decreases |ls|
  {
    if |ls| > 0 {
      var l, more := ls[0], ls[1..];
      assert ls == [l] + more;
      RenderLinesCons(l, more, tail);
      NextLines(ls, tail);
      ItemOfRender(l, RenderLines(more) + tail);
      ItemsOfRender(more, tail);
      assert Items(RenderLine(l) + (RenderLines(more) + tail)) == ([l] + more, tail);
    } else {
      assert RenderLines(ls) + tail == tail;
    }
  }

  /** What ItemsOfRender needs of the lines after the first. */
  lemma NextLines(ls: seq<Line>, tail: string)
    requires |ls| > 0 && WellFormedLines(ls) && Boundary(ls[|ls| - 1].im, tail)
    ensures WellFormedLines(ls[1..])
    ensures Boundary(ls[0].im, RenderLines(ls[1..]) + tail)
    ensures |ls| > 1 ==> Boundary(ls[1..][|ls| - 2].im, tail)
  {
    var more := ls[1..];
    assert WellFormedLines(more) by {
      assert forall i :: 0 <= i < |more| ==> more[i] == ls[i + 1];
    }
    if |more| > 0 {
      RenderLinesStart(more, tail);
      assert more[0] == ls[1];
      assert more[|more| - 1] == ls[|ls| - 1];
    } else {
      assert RenderLines(more) + tail == tail;
    }
  }

  /**
   * A parsed file: the declared count, the line breaks after it, and the
   * coefficient lines.
   */
  datatype Body = Body(degree: Decimal, newlines: nat, lines: seq<Line>)

  predicate WellFormedBody(b: Body) {
    && WellFormed(b.degree)
    && b.newlines >= 1
    && WellFormedLines(b.lines)
    && (|b.lines| > 0 ==> b.lines[0].newlines == 0)
  }

  function Render(b: Body): string {
    Show(b.degree) + (Repeat('\n', b.newlines) + RenderLines(b.lines))
  }

  lemma RenderThen(b: Body, rest: string)
    ensures Render(b) + rest == Show(b.degree) + (Repeat('\n', b.newlines) + (RenderLines(b.lines) + rest))
  {
  }

  /** The line breaks after the count and the items after them: `many1!` then `many0!`. */
  function Rows(s: string): (r: Parsed<(nat, seq<Line>)>)
    ensures r.Error? ==> r.at == s
    ensures r.Done? ==> r.value.0 >= 1 && WellFormedLines(r.value.1)
    ensures r.Done? ==> |r.value.1| > 0 ==> r.value.1[0].newlines == 0
    ensures r.Done? ==> s == Repeat('\n', r.value.0) + (RenderLines(r.value.1) + r.rest)
    ensures r.Done? ==> !Item(r.rest).Done?
  {
    if |s| == 0 then Incomplete
    else if s[0] != '\n' then Error(s)
    else
      var k := Span(s, IsNewline);
      NewlinesThen(s, k);
      var r := Items(s[k..]);
      if |r.0| > 0 then
        RenderLinesStart(r.0, r.1);
        assert s[k..][0] == s[k];
        Done(r.1, (k, r.0))
      else
        Done(r.1, (k, r.0))
  }

  /**
   * `polyfile`: `fp`, `many1!(tag!("\n"))`, then `many0!` of items. On a
   * match the result keeps the unmatched rest, which the reader inspects.
   */
  function PolyFile(s: string): (r: Parsed<Body>)
    ensures r.Error? ==> IsSuffix(r.at, s)
    ensures r.Error? ==>
      || (Fp(s).Error? && r.at == Fp(s).at)
      || (Fp(s).Done? && r.at == Fp(s).rest && |r.at| > 0 && r.at[0] != '\n')
    ensures r.Done? ==> WellFormedBody(r.value) && s == Render(r.value) + r.rest
    ensures r.Done? ==> !Item(r.rest).Done?
  {
    match Fp(s)
    case Incomplete => Incomplete
    case Error(at) => Error(at)
    case Done(r1, degree) =>
      match Rows(r1)
      case Incomplete => Incomplete
      case Error(at) =>
        SuffixOfConcat(Show(degree), r1);
        Error(at)
      case Done(extra, v) =>
        var b := Body(degree, v.0, v.1);
        RenderThen(b, extra);
        Done(extra, b)
  }

  /** The count line and its line breaks read back as `many1!` reads them. */
  lemma RowsOfRender(n: nat, ls: seq<Line>, tail: string)
    requires n >= 1 && WellFormedLines(ls)
    requires |ls| > 0 ==> ls[0].newlines == 0 && Boundary(ls[|ls| - 1].im, tail)
    requires |ls| == 0 ==> |tail| == 0 || tail[0] != '\n'
    requires !Item(tail).Done?
    ensures Rows(Repeat('\n', n) + (RenderLines(ls) + tail)) == Done(tail, (n, ls))
  {
    var after := RenderLines(ls) + tail;
    if |ls| > 0 {
      RenderLinesStart(ls, tail);
    } else {
      assert after == tail;
    }
    SpanOfRun(Repeat('\n', n), after, IsNewline);
    assert (Repeat('\n', n) + after)[n..] == after;
    ItemsOfRender(ls, tail);
  }

  /** `polyfile` reads back every well-formed body, up to a tail where no item starts. */
  lemma PolyFileOfRender(b: Body, tail: string)
    requires WellFormedBody(b)
    requires |b.lines| > 0 ==> Boundary(b.lines[|b.lines| - 1].im, tail)
    requires |b.lines| == 0 ==> |tail| == 0 || tail[0] != '\n'
    requires !Item(tail).Done?
    ensures PolyFile(Render(b) + tail) == Done(tail, b)
  {
    var r1 := Repeat('\n', b.newlines) + (RenderLines(b.lines) + tail);
    RenderThen(b, tail);
    assert r1[0] == '\n';
    FpOfShow(b.degree, r1);
    assert Fp(Render(b) + tail) == Done(r1, b.degree);
    RowsOfRender(b.newlines, b.lines, tail);
    assert Rows(r1) == Done(tail, (b.newlines, b.lines));
    assert Body(b.degree, b.newlines, b.lines) == b;
  }
}
