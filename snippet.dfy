/**
 * `get_min_err`: the excerpt of unmatched input that a syntax error
 * message quotes. The source works on the UTF-8 bytes of the text: it cuts
 * the first min(7, len) bytes, takes the first line of the cut, and quotes
 * that line, unless it is shorter than 3 bytes, in which case it quotes the
 * whole cut.
 *
 * Text here is a sequence of Unicode scalar values; byte counts are those of
 * its UTF-8 encoding. The source decodes its byte cut with
 * `from_utf8(..).unwrap()`, which panics when the cut ends inside a
 * multi-byte character. `GetMinErrAsWritten` models that (None is the
 * panic); `GetMinErr` cuts at the last character boundary within the
 * budget instead, and is what the reader uses.
 */
module Snippet {
  import opened Wrappers
  import opened Literals

  /** The most bytes of unmatched input a snippet shows. */
  const MaxBytes: nat := 7

  /** A first line shorter than this many bytes is not quoted on its own. */
  const MinLineBytes: nat := 3

  /** The number of bytes of the UTF-8 encoding of c. */
  function Utf8Width(c: char): (w: nat)
    ensures 1 <= w <= 4
    ensures w == 1 <==> (c as int) < 0x80
  {
    if (c as int) < 0x80 then 1
    else if (c as int) < 0x800 then 2
    else if (c as int) < 0x1_0000 then 3
    else 4
  }

  /** The number of bytes of the UTF-8 encoding of s. */
  function ByteLen(s: string): (n: nat)
    ensures n >= |s|
    decreases |s|
  {
    if |s| == 0 then 0 else Utf8Width(s[0]) + ByteLen(s[1..])
  }

  predicate IsAscii(s: string) {
    forall i :: 0 <= i < |s| ==> (s[i] as int) < 0x80
  }

  lemma {:induction false} AsciiByteLen(s: string)
    requires IsAscii(s)
    ensures ByteLen(s) == |s|
    decreases |s|
  {
    if |s| > 0 {
      assert IsAscii(s[1..]) by {
        assert forall i :: 0 <= i < |s| - 1 ==> s[1..][i] == s[i + 1];
      }
      AsciiByteLen(s[1..]);
    }
  }

  /** Taking one more character of a prefix adds that character's bytes. */
  lemma {:induction false} ByteLenPrefix(s: string, k: nat)
    requires k < |s|
    ensures ByteLen(s[..k + 1]) == ByteLen(s[..k]) + Utf8Width(s[k])
    decreases k
  {
    if k > 0 {
      assert s[..k + 1][1..] == s[1..][..k];
      assert s[..k][1..] == s[1..][..k - 1];
      ByteLenPrefix(s[1..], k - 1);
    }
  }

  /**
   * The number of characters of s that fit in `budget` bytes: the longest
   * prefix whose encoding is within the budget.
   */
  function FitChars(s: string, budget: nat): (k: nat)
    ensures k <= |s|
    ensures ByteLen(s[..k]) <= budget
    ensures k < |s| ==> ByteLen(s[..k + 1]) > budget
    decreases |s|
  {
    if |s| == 0 || Utf8Width(s[0]) > budget then
      assert s[..0] == [];
      if |s| > 0 then
        assert s[..1][1..] == [];
        0
      else 0
    else
      var w := Utf8Width(s[0]);
      var k' := FitChars(s[1..], budget - w);
      assert s[..k' + 1][1..] == s[1..][..k'];
      if k' < |s| - 1 then
        assert s[..k' + 2][1..] == s[1..][..k' + 1];
        k' + 1
      else k' + 1
  }

  predicate NotNewline(c: char) {
    c != '\n'
  }

  /** The first line of s: everything before its first line break. */
  function FirstLine(s: string): (line: string)
    ensures |line| <= |s| && line == s[..|line|]
    ensures forall i :: 0 <= i < |line| ==> line[i] != '\n'
    ensures |line| < |s| ==> s[|line|] == '\n'
  {
    s[..Span(s, NotNewline)]
  }

  /** What the source quotes of a cut: its first line, or all of it when that line is under 3 bytes. */
  function Quote(cut: string): string {
    var line := FirstLine(cut);
    if ByteLen(line) < MinLineBytes then cut else line
  }

  /**
   * `get_min_err`, cutting at the last character boundary within 7 bytes.
   * The snippet is a prefix of the input within 7 bytes; it ends where the
   * budget ends or at a line break after a first line of 3 bytes or more,
   * and it holds a line break only when its first line is under 3 bytes.
   */
  function GetMinErr(pos: string): (r: string)
    ensures |r| <= |pos| && r == pos[..|r|]
    ensures ByteLen(r) <= MaxBytes
    ensures |r| < |pos| ==>
      || ByteLen(pos[..|r| + 1]) > MaxBytes
      || (pos[|r|] == '\n' && (forall i :: 0 <= i < |r| ==> r[i] != '\n') && ByteLen(r) >= MinLineBytes)
    ensures (forall i :: 0 <= i < |r| ==> r[i] != '\n') || ByteLen(FirstLine(r)) < MinLineBytes
  {
    var cut := pos[..FitChars(pos, MaxBytes)];
    ByteLenMonotone(cut, |FirstLine(cut)|);
    Quote(cut)
  }

  /** A prefix never has more bytes than the whole. */
  lemma {:induction false} ByteLenMonotone(s: string, k: nat)
    requires k <= |s|
    ensures ByteLen(s[..k]) <= ByteLen(s)
    decreases |s| - k
  {
    if k < |s| {
      ByteLenPrefix(s, k);
      ByteLenMonotone(s, k + 1);
      if k + 1 == |s| {
        assert s[..k + 1] == s;
      }
    } else {
      assert s[..k] == s;
    }
  }

  /**
   * `get_min_err` as written: the byte cut is decoded with
   * `from_utf8(..).unwrap()`, which succeeds exactly when the cut falls on
   * a character boundary; None stands for the panic otherwise.
   */
  function GetMinErrAsWritten(pos: string): (r: Option<string>)
    ensures r.Some? ==> r.value == GetMinErr(pos)
    ensures r.None? ==> ByteLen(pos) > MaxBytes
  {
    var len := if ByteLen(pos) > MaxBytes then MaxBytes else ByteLen(pos);
    var k := FitChars(pos, MaxBytes);
    FitsWhole(pos, MaxBytes);
    if ByteLen(pos[..k]) == len then Some(Quote(pos[..k])) else None
  }

  /** Every character of a prefix that fits the budget is counted by FitChars. */
  lemma {:induction false} FitCharsAtLeast(s: string, budget: nat, j: nat)
    requires j <= |s| && ByteLen(s[..j]) <= budget
    ensures FitChars(s, budget) >= j
    decreases j
  {
    if j > 0 {
      assert s[..j][0] == s[0] && s[..j][1..] == s[1..][..j - 1];
      FitCharsAtLeast(s[1..], budget - Utf8Width(s[0]), j - 1);
    }
  }

  /** Text within the budget fits whole. */
  lemma FitsWhole(s: string, budget: nat)
    ensures ByteLen(s) <= budget ==> FitChars(s, budget) == |s| && s[..|s|] == s
  {
    assert s[..|s|] == s;
    if ByteLen(s) <= budget {
      FitCharsAtLeast(s, budget, |s|);
    }
  }

  /** On ASCII input every byte is a character boundary, so the source never panics. */
  lemma AsciiNeverPanics(pos: string)
    requires IsAscii(pos)
    ensures GetMinErrAsWritten(pos).Some?
    ensures |GetMinErr(pos)| <= MaxBytes
  {
    var k := FitChars(pos, MaxBytes);
    assert IsAscii(pos[..k]) by {
      assert forall i :: 0 <= i < k ==> pos[..k][i] == pos[i];
    }
    AsciiByteLen(pos[..k]);
    AsciiByteLen(pos);
    if k < |pos| {
      assert IsAscii(pos[..k + 1]) by {
        assert forall i :: 0 <= i < k + 1 ==> pos[..k + 1][i] == pos[i];
      }
      AsciiByteLen(pos[..k + 1]);
    }
    var r := GetMinErr(pos);
    assert IsAscii(r) by {
      assert forall i :: 0 <= i < |r| ==> r[i] == pos[i];
    }
    AsciiByteLen(r);
  }

  /**
   * The counterexample: six ASCII letters and then 'é', two bytes in UTF-8.
   * Byte 7 is the first half of 'é', so the source panics; the corrected
   * snippet stops before 'é'.
   */
  lemma CutInsideCharacter()
    ensures GetMinErrAsWritten("abcdefé").None?
    ensures GetMinErr("abcdefé") == "abcdef"
  {
    AsWrittenPanics("abcdefé");
    CorrectedStops("abcdefé");
  }

  lemma AsWrittenPanics(pos: string)
    requires pos == "abcdefé"
    ensures GetMinErrAsWritten(pos).None?
  {
    SixFit(pos);
  }

  lemma CorrectedStops(pos: string)
    requires pos == "abcdefé"
    ensures GetMinErr(pos) == "abcdef"
  {
    SixFit(pos);
    var cut := pos[..6];
    assert cut == "abcdef";
    assert FirstLine(cut) == cut by {
      SpanOfRun(cut, [], NotNewline);
      assert cut + [] == cut;
    }
  }

  /** Of "abcdefé", six characters fit in 7 bytes, and the whole takes 8. */
  lemma SixFit(pos: string)
    requires pos == "abcdefé"
    ensures FitChars(pos, MaxBytes) == 6 && ByteLen(pos[..6]) == 6 && ByteLen(pos) == 8
  {
    assert IsAscii(pos[..6]);
    AsciiByteLen(pos[..6]);
    ByteLenPrefix(pos, 6);
    assert pos[..7] == pos;
    FitCharsAtLeast(pos, MaxBytes, 6);
  }

  /** A first line under 3 bytes: the whole 7-byte cut is quoted, line breaks included. */
  lemma ShortFirstLine(pos: string)
    requires pos == "ab\ncd\nefg"
    ensures GetMinErr(pos) == "ab\ncd\ne"
  {
    var cut := pos[..7];
    assert IsAscii(pos);
    AsciiByteLen(pos[..7]);
    AsciiByteLen(pos[..8]);
    FitCharsAtLeast(pos, MaxBytes, 7);
    assert cut == "ab" + "\ncd\ne";
    SpanOfRun("ab", "\ncd\ne", NotNewline);
    AsciiByteLen("ab");
  }

  /** The snippet the source's tests expect for a line of junk: the junk, without its line break. */
  lemma JunkSnippet(rest: string)
    ensures GetMinErr("junk\n" + rest) == "junk"
  {
    var pos := "junk\n" + rest;
    var k := FitChars(pos, MaxBytes);
    var cut := pos[..k];
    assert IsAscii(pos[..5]);
    AsciiByteLen(pos[..5]);
    FitCharsAtLeast(pos, MaxBytes, 5);
    assert cut == "junk" + ("\n" + cut[5..]);
    SpanOfRun("junk", "\n" + cut[5..], NotNewline);
    assert FirstLine(cut) == "junk";
    assert IsAscii("junk");
    AsciiByteLen("junk");
  }
}
