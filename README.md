# Polynomial file codec and evaluators (csc_5400 `poly.rs`), in Dafny

This project models the core of `src/poly.rs` from the csc_5400 polynomial
evaluation program. A polynomial is the sequence of its complex
coefficients, with coefficient `i` belonging to `x^i`. The model covers
two parts.

- The polynomial text file.
  - The grammar (`fp`, `fractional`, `polyfile`) reads a count line, then
    one `re,im` line per coefficient.
  - The reader (`readFromFile`) runs the grammar. It then rejects leftover
    text that is not whitespace, a negative count, and a count that differs
    from the number of lines, in that order. Syntax errors quote a short
    snippet (`get_min_err`).
  - The writer (`writeToFile`) prints the count and then each coefficient.
- Evaluation.
  - Three single-point evaluators: naive, Horner and improved naive. Each
    returns the value and a count of multiplications.
  - The recursive radix-2 FFT, which evaluates at the n-th roots of unity,
    and `rootsOfUnity`.

Modules, one file each:

- `ComplexArith` (`complex.dfy`): exact complex numbers over `real`, with the
  field laws the proofs use.
- `Evaluation` (`eval.dfy`): the value `Eval(p, x)` of a polynomial and the
  three evaluators, each proved to compute it with its own count.
- `Fft` (`fft.dfy`): `RootsOfUnity` and `EvaluateAtFft`. The combine step
  fills an `array` in place. The twiddle `rootOfUnity(n, k)` is a function
  parameter. Values are proved for any such function that satisfies the two
  halving laws of the roots of unity (`IsRootFamily`).
- `Wrappers` and `Literals` (`literals.dfy`): `Option`/`Result`, and decimal
  literals (sign, whole digits, optional fraction digits) with their exact
  value.
- `Grammar` (`grammar.dfy`): the nom combinators with their nom 1.x
  semantics, returning a parse tree that keeps the layout (line breaks,
  blanks) so that parsing can be stated as the inverse of rendering.
- `Snippet` (`snippet.dfy`): `get_min_err`, counting UTF-8 bytes.
- `Codec` (`codec.dfy`): the reader over text in memory, the writer
  producing text, and the round trip between them.

Coefficients in the codec are the literals written in the file
(`ComplexLiteral`), not binary floating point. The reader returns them in
file order and the writer prints each with `Show`. The evaluators work on
exact `Complex` values.

## Model

| member | source | states |
|---|---|---|
| Evaluation.EvalCons | src/poly.rs:298-312 | Horner's identity: the value of `[c] + q` at x is c + x·(value of q at x), the step each Horner iteration relies on |
| Evaluation.EvaluateAtNaive | src/poly.rs:282-296 | returns the value of p at x and a count of n(n+1)/2 for n coefficients (term i costs i + 1) |
| Evaluation.EvaluateAtHorner | src/poly.rs:298-312 | folding from the highest coefficient down (`sum * x + coeff`) gives the same value as the naive sum, with a count of n |
| Evaluation.EvaluateAtNaiveImproved | src/poly.rs:314-330 | with a running power of x gives the same value, with a count of 2n |
| Evaluation.EvaluateAtPoints | src/poly.rs:519-586 | evaluating at every point with any of the three evaluators gives the same values, the value of p at each point, and a total count of points × per-point cost; for 4 coefficients at 4 points the totals are 40, 16 and 32 |
| Fft.RootsOfUnity | src/poly.rs:95-107 | returns exactly n twiddles, entry k being `rootOfUnity(n, k)` |
| Fft.Split | src/poly.rs:348-364 | even holds the coefficients at even indices and odd those at odd indices, in order, with sizes ⌈n/2⌉ and ⌊n/2⌋ |
| Fft.EvalSplit | src/poly.rs:348-370 | the identity behind the recursion: p(x) = even(x²) + x·odd(x²) for every x |
| Fft.ButterflyCorrect | src/poly.rs:376-386 | under the halving laws, butterfly k yields the values of p at twiddles k and k + n/2 from the halves' values at twiddle k of size n/2 |
| Fft.FftCountPowerOfTwo | src/poly.rs:366-380 | the FFT's count for n = 2^m coefficients is (n/2)·m |
| Fft.FftCountClosedForm | src/poly.rs:366-380 | the same count law, for every m with 2^m = n |
| Fft.CombinedValues | src/poly.rs:372-390 | the combined answer of length n holds the value of p at every twiddle of size n |
| Fft.Butterflies | src/poly.rs:372-388 | fills an n-slot array in place: slot k gets e[k] + w·d[k] and slot k + n/2 gets e[k] − w·d[k]; every slot is written exactly once; one multiplication per butterfly |
| Fft.EvaluateAtFft | src/poly.rs:332-392 | returns \|p\| values; entry j is the value of p at twiddle j of size \|p\| when the twiddles obey the halving laws; sizes 0 and 1 cost 0; for 2^m coefficients the count is (n/2)·m (4 for 4 coefficients); every output slot is written exactly once |
| Literals.DeclaredDegreeTruncates | src/poly.rs:66 | `deg as i64` truncates the count literal toward zero inside the i64 range and saturates outside it |
| Literals.NatDigits | src/poly.rs:257 | the digits `{}` prints for a count: non-empty, decimal, without a leading zero, and denoting exactly that count |
| Literals.NatLiteral | src/poly.rs:257 | the printed count is a well-formed literal whose declared degree is the count itself, saturated at the i64 maximum |
| Grammar.Digit | src/poly.rs:36 | nom's `digit`: Incomplete exactly on empty input; an error at the input exactly when it does not start with a digit; otherwise the longest digit prefix |
| Grammar.Fractional | src/poly.rs:22-26 | never Incomplete (`complete!`); matches exactly when the text starts with `.` and a digit, and then takes the longest digit run after the point |
| Grammar.Unsigned | src/poly.rs:36-37 | the digits and optional fraction after the sign: an error exactly at a non-empty input that does not start with a digit; a well-formed literal that the text spells out, ending where no digit or fraction could continue it |
| Grammar.Fp | src/poly.rs:34-46 | Incomplete exactly on "" and "-"; an error is at the text after the optional minus sign, which then does not start with a digit; a match is a well-formed literal that the text spells out, and the match is maximal |
| Grammar.FpOfShow | src/poly.rs:34-46 | completeness: the text of any well-formed literal, followed by text that cannot extend it, parses back to that literal |
| Grammar.RePart | src/poly.rs:59-60 | the real part and the comma after it, spelled out by the text |
| Grammar.ImPart | src/poly.rs:61-62 | the spaces and tabs after the comma, and then a maximal imaginary literal |
| Grammar.Pair | src/poly.rs:59-62 | `re,` blanks `im`, spelled out by the text, with the imaginary literal maximal |
| Grammar.Item | src/poly.rs:57-63 | never Incomplete (`complete!`); a match is a well-formed coefficient line that the text renders exactly |
| Grammar.ItemOfRender | src/poly.rs:57-63 | completeness: a rendered line, followed by text that cannot extend its imaginary literal, parses back to that line |
| Grammar.Items | src/poly.rs:57-64 | `many0!`: the matched lines render the consumed text, are well formed and separated, and no further item could start in what is left |
| Grammar.ItemsOfRender | src/poly.rs:57-64 | completeness: rendered separated lines, followed by a tail where no item starts, parse back to those lines and that tail |
| Grammar.Rows | src/poly.rs:56-64 | `many1!` line breaks and then the items: at least one line break, an error at the input otherwise, the first item without leading breaks, all of it rendering the consumed text |
| Grammar.RowsOfRender | src/poly.rs:56-64 | completeness of the line breaks and items after the count |
| Grammar.PolyFile | src/poly.rs:53-67 | an error is either the count literal's error, or at the non-empty text right after the count when it does not start with a line break; a match is a well-formed file body that the consumed text renders, and no further item starts in the leftover |
| Grammar.PolyFileOfRender | src/poly.rs:53-67 | completeness: every well-formed body, followed by a tail that neither extends it nor starts an item, parses back to that body and that tail |
| Snippet.FitChars | src/poly.rs:71 | the longest prefix whose UTF-8 encoding is within the byte budget |
| Snippet.FirstLine | src/poly.rs:73-74 | the prefix before the first line break: it has no line break, and a line break follows it unless it is the whole text |
| Snippet.GetMinErr | src/poly.rs:70-82 | the snippet is a prefix of the input of at most 7 bytes; it stops where the budget ends, or at the first line break when the line before it has 3 bytes or more; it holds a line break only when its first line is under 3 bytes |
| Snippet.ShortFirstLine | src/poly.rs:73-80 | a first line under 3 bytes: "ab\ncd\nefg" is quoted as the whole cut "ab\ncd\ne" |
| Snippet.GetMinErrAsWritten | src/poly.rs:70-82 | the code as written: when it returns, it agrees with GetMinErr; it panics only on inputs longer than 7 bytes |
| Snippet.AsciiNeverPanics | src/poly.rs:71-72 | on ASCII text the byte cut always falls on a character boundary, and the snippet has at most 7 characters |
| Snippet.CutInsideCharacter | src/poly.rs:71-72 | on "abcdefé" the 7-byte cut splits 'é' and the source panics; the corrected snippet is "abcdef" |
| Snippet.JunkSnippet | src/poly.rs:73-81 | a line "junk" and a line break is quoted as "junk", whatever follows |
| Codec.Validate | src/poly.rs:173-180 | accepts exactly when the declared count equals the number of coefficients, and returns them unchanged; otherwise a negative count is reported first, then the mismatch with both numbers |
| Codec.Message | src/poly.rs:159-177 | the messages of the source, word for word; exactly the two parse failures begin "Parsing failed" |
| Codec.MessageInjective | src/poly.rs:159-177 | different errors have different messages, so a message names its error and its numbers or snippet |
| Codec.ReadFromText | src/poly.rs:142-182 | every syntax error quotes GetMinErr of a suffix of the text; which suffix is stated by ReadBadCount, ReadNoLineBreak and ReadLeftover |
| Codec.ReadBadCount | src/poly.rs:150-166 | a count that does not start with a digit after its optional minus sign is a syntax error quoting the text from there |
| Codec.ReadNoLineBreak | src/poly.rs:150-166 | a count followed by text that is not a line break is a syntax error quoting what follows the count |
| Codec.ItemStart | src/poly.rs:57-59 | an item begins with its leading line breaks and then a minus sign or a digit |
| Codec.WhitespaceTail | src/poly.rs:156-158 | trailing whitespace neither extends the last literal nor starts an item |
| Codec.ReadRendered | src/poly.rs:150-180 | every well-formed file followed by any whitespace is read as its coefficients, in order, and then validated |
| Codec.ReadAccepted | src/poly.rs:150-180 | conversely, a text accepted, or rejected only for its count, is a well-formed file followed by whitespace, and the outcome is that file's validation |
| Codec.ReadLeftover | src/poly.rs:154-160 | leftover after a complete match that is not all whitespace is a syntax error quoting GetMinErr of the leftover |
| Codec.FormatLinesSnoc | src/poly.rs:266-276 | appending a coefficient appends exactly its line `re,im` and a line break |
| Codec.WriteToText | src/poly.rs:248-280 | writes the count line and then one line per coefficient in index order; reading that text gives back exactly the coefficients |
| Codec.LaterLinesRender | src/poly.rs:266-268 | the lines after the first read as items that each start with one line break |
| Codec.WriterLayout | src/poly.rs:257-268 | the writer's text is the rendering of a file body: its count, one line break, and its lines |
| Codec.WriterBodyWellFormed | src/poly.rs:257-268 | that body is well formed and its coefficients are the written ones |
| Codec.ReadWritten | src/poly.rs:257-268 | a writer-layout text with any count n reads as the validation of min(n, i64 max) against the written coefficients |
| Codec.RoundTrip | src/poly.rs:142-182 | reading what the writer wrote gives back the same coefficients |
| Codec.CountMismatchReported | src/poly.rs:175-177 | a count line that disagrees with the lines is reported with both numbers |
| Codec.FourInsteadOfThree | src/poly.rs:487-493 | the count error message for four lines under a count of three |
| Codec.ZeroDegree | src/poly.rs:463-469 | "0" and a line break read as the empty polynomial |
| Codec.NegativeCount | src/poly.rs:173-174 | "-1" and a line break, then any whitespace, is rejected for its negative count |
| Codec.JunkAfterCount | src/poly.rs:479-485 | junk where the first coefficient should be is quoted as the snippet "junk" |
| Codec.JunkCount | src/poly.rs:471-477 | junk in place of the count is quoted as the snippet "junk" |

## Left out

- File I/O: opening, reading, creating and writing files, and their error messages. The reader starts from the text, and the writer returns the text it would write. Partial writes by `BufWriter` are not modelled.
- The debug `println!` before the count error.
- `random` (randomness) and `print` (formatting with five decimals), and `src/main.rs` (the command-line driver). None of them is part of this model.
- Floating point. Coefficients in the codec stay exact decimal literals. The evaluators use exact complex arithmetic over `real`. IEEE rounding, `powf`, and the sine and cosine in `rootOfUnity` are not modelled. The twiddle function is a parameter, and values are proved under the halving laws that the exact roots of unity satisfy.
- Literals.DeclaredDegreeTruncates: the count literal is converted to `f64` before `as i64`. The rounding of counts with more than 15 significant digits is not modelled; the exact value is truncated.
- Codec.WriteToText: prints each coefficient with `Show` of its literal. Rust's shortest round-trip `Display` of an `f64` is not modelled, so a written value is the literal that was read.
- Evaluation.EvaluateAtNaive, Evaluation.EvaluateAtHorner, Evaluation.EvaluateAtNaiveImproved, Fft.EvaluateAtFft: counts are natural numbers; `usize` overflow is not modelled.
- Fft.EvaluateAtFft: requires a coefficient count that is 0 or a power of two. The source sizes its answer with an unsafe `set_len`. For an odd count above 1, the last slot is never written, so it returns uninitialised memory. This precondition replaces that undefined behaviour.
- Fft.Butterflies: returns the filled array as a sequence, and a ghost multiset of the slots written, in place of the source's `Vec` with unsafe length.
- Fft.RootsOfUnity: takes `n` as a natural number. For a negative `i32`, the source's `with_capacity(n as usize)` asks for an impossible capacity; that case is not modelled.
- nom's error kinds: every grammar error carries its position. Only a position error is quoted; `Incomplete` becomes "Parsing failed, invalid format.". The source's catch-all for non-position errors cannot be reached by this grammar, so it has no case.
- Grammar.RePart, Grammar.ImPart, Grammar.Pair, Grammar.Item: the position inside an item where it failed is not stated, because `many0!` discards it.
- The test data files (`data/*.txt`) are not modelled; the concrete read examples are built from the messages and totals the tests expect.

## Findings

| source | as written | input that shows it | evidently intended | confidence | as-written member | corrected member |
|---|---|---|---|---|---|---|
| src/poly.rs:71-72 | cuts the leftover at 7 bytes and decodes the cut with `from_utf8(..).unwrap()`, which panics when byte 7 falls inside a multi-byte character | a syntax error whose unmatched text is "abcdefé" ('é' takes bytes 7 and 8) | quote the longest prefix of whole characters within 7 bytes ("abcdef") | not executed | Snippet.GetMinErrAsWritten, Snippet.CutInsideCharacter | Snippet.GetMinErr |
