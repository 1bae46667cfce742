# generate_furigana: a verified model of the annotation core

`gf` annotates Japanese text with furigana. It runs the Juman++
morphological analyzer over the input and reads the analyzer's
line-oriented output. For every token line it diffs the surface form
against its reading, character by character, and turns the diff into
HTML ruby markup, `<ruby><rb>base<rt>reading</ruby>`. It then wraps every
literal occurrence of an optional highlight string in `<b>…</b>`.

This project models that text transformation in Dafny. It has five
modules, one per concern of `src/main.rs`:

- `Results` (`results.dfy`): the two ways the program aborts, as error
  values. A removed diff span is the last segment, so the reading after
  it is read out of bounds. Or a token line has no reading field. The
  module also holds the sequencing helpers `Prepend` and `Then`.
- `Text` (`text.dfy`): the behaviour of the standard-library calls the
  processor relies on. `Lines` splits the analyzer output into lines.
  `Split` splits a line on a single space, keeping empty fields.
- `Furigana` (`furigana.dfy`): `generate_furigana`. The method
  `GenerateFurigana` is the source's indexed loop with one-segment
  lookahead. It is proved equal to `Render`, a recursive definition read
  from the front of the diff. `Contribution` and `Emitted` describe
  what each index adds.
- `Highlighting` (`highlight.dfy`): the `replace_all` of the escaped
  highlight string. It is a leftmost, non-overlapping literal scan that
  resumes after each match.
- `Parser` (`parser.dfy`): `parse_jumanpp_output`. The method
  `ParseJumanppOutput` is the source's loop over lines with its early
  `break`. It is proved equal to `ParsedOutput`, built from `Markup` (the
  lines up to the first `EOS`) and `LineMarkup` (one token line).

The character diff library and the kanji classifier are code this model
cannot see. Both are parameters. `GenerateFurigana` takes the diff
segments (`Same`, `Rem`, `Add`) as input. `ParseJumanppOutput` takes
`diff: (string, string) -> seq<Segment>` and `isKanji: char -> bool`.
The general properties hold for every diff function and every classifier.
The one example lemma about a concrete analyzer line,
`KanaLinePassesThrough`, is the exception: its preconditions state what
it assumes of the classifier and of the diff of that line.

The model follows what the code does, including these behaviours that a
reader might not expect:

- Token lines are split on a single space, not on whitespace. Two
  adjacent spaces give an empty reading field.
- The highlight pass is not idempotent. A second pass wraps the bold text
  again (`HighlightNotIdempotent`).
- A kana-only token line still goes through the ruby emitter before the
  kanji test. If its diff ends with a removed span, the whole run fails
  and the surface form is not emitted (`LineMarkup`).
- The two out-of-bounds panics (`diffs[i + 1]` after a final removed
  span, and `v[1]` on a line without a space) abort the program. Here
  they are the errors `UnpairedRemoval` and `MissingReading`. The
  abort discards all output, and so does an error result.

## Model

| member | source | states |
|---|---|---|
| Furigana.GenerateFurigana | src/main.rs:46-62 | The indexed loop with lookahead returns exactly `Render(diffs)`: the markup when the last segment is not a removed span, otherwise the out-of-bounds failure for that final span. |
| Furigana.Render | src/main.rs:50-60 | The markup of a diff fails exactly when the last segment is a removed span (the read of `diffs[i + 1]` past the end), and the failure names that span. |
| Furigana.RenderFrom | src/main.rs:50-60 | From index `i` on, the markup fails exactly when a final removed span lies ahead. |
| Furigana.Annotation | src/main.rs:51-56 | A removed span followed by an added or a common span gives the same ruby markup, with that span's text as the reading. It gives nothing exactly when the next span is removed too. |
| Furigana.Contribution | src/main.rs:51-58 | One loop step at index `i`: only a common span or a removed span followed by a non-removed one emits text. A common span emits itself, and a paired removal emits its ruby markup. |
| Furigana.RenderIsConcatenation | src/main.rs:47-61 | The output is the in-order concatenation of what each segment contributes, looking one segment ahead. |
| Furigana.RenderAfterPrefix | src/main.rs:47-60 | After the first `i` segments, the output is their emitted text followed by the markup of the rest. |
| Furigana.RenderCons | src/main.rs:50-59 | Read from the front: a common span is copied; an added span yields nothing; a removed span is annotated with the next segment, which is still processed on its own; a removed span at the end fails. |
| Furigana.RenderConcat | src/main.rs:50-59 | Markup is compositional. For a diff split anywhere except right after a removed span, it is the first part's markup followed by the second part's, and the first failure wins. |
| Furigana.RemovedThenAdded | src/main.rs:51-53 | Anywhere in a diff, `Rem(k)` followed by `Add(f)` emits exactly `<ruby><rb>k<rt>f</ruby>`, and the `Add` adds nothing. |
| Furigana.RemovedThenCommon | src/main.rs:54-58 | Anywhere in a diff, `Rem(k)` followed by `Same(f)` emits `<ruby><rb>k<rt>f</ruby>` and then `f` again, so `f` appears twice. |
| Furigana.RemovedThenRemoved | src/main.rs:51-56 | A `Rem` followed by another `Rem` emits nothing: deleting it leaves the markup unchanged. |
| Furigana.AddedAloneEmitsNothing | src/main.rs:51-59 | An `Add` that does not follow a `Rem` never contributes text: deleting it leaves the markup unchanged. |
| Furigana.NoRemovalGivesSurface | src/main.rs:57-58 | A diff without removed spans produces no ruby. Its markup is the surface form rebuilt from the common spans. |
| Furigana.AllCommon | src/main.rs:57-58 | A diff of common spans only renders as the concatenation of their texts, which is both the surface form and the reading. |
| Furigana.Taberu | src/main.rs:46-61 | The diff of surface 食べる against reading たべる renders as `<ruby><rb>食<rt>た</ruby>べる`. |
| Highlighting.Highlight | src/main.rs:116-118 | The highlight pass never shortens the text. Where `h` occurs, the output gains at least one pair of tags and still contains `h`. |
| Highlighting.HighlightFrom | src/main.rs:118 | The literal scan from a position never shortens the rest of the text. |
| Highlighting.HighlightLeftmost | src/main.rs:115-118 | The leftmost occurrence of `h` becomes `<b>h</b>`, the text before it is copied unchanged, and the scan resumes right after the match, so matches never overlap. |
| Highlighting.LeftmostFrom | src/main.rs:118 | From any position, the first match at or after it decides the result in the same way. |
| Highlighting.HighlightNoMatch | src/main.rs:118 | If `h` does not occur, the text is returned unchanged. |
| Highlighting.HighlightChangesIffOccurs | src/main.rs:118 | The pass changes the text exactly when `h` occurs in it. |
| Highlighting.MatchFrom | src/main.rs:118 | When `h` occurs, the output grows by at least one pair of tags and still contains `h`. |
| Highlighting.HighlightNotIdempotent | src/main.rs:118 | Applying the pass to its own output wraps the matches again, so the pass is not idempotent. |
| Parser.ParseJumanppOutput | src/main.rs:90-123 | The loop over lines returns exactly `ParsedOutput`: the markup of the lines before the first `EOS`, highlighted when the highlight string is non-empty. With an empty highlight string the markup is returned unchanged. |
| Parser.ParsedOutput | src/main.rs:90-122 | A failure of the line markup is the result, unchanged. Otherwise the result is never shorter than the markup, and equals it exactly when the highlight string is empty or does not occur in it. |
| Parser.Markup | src/main.rs:93-113 | A failure of the line loop is the failure of one token line (not `@`-prefixed) that comes before the first `EOS` line. |
| Parser.IsMeta | src/main.rs:91-96 | The `^@` test: a line is metadata exactly when `@` is a prefix of it. |
| Parser.KanjiCount | src/main.rs:99-103 | The kanji count is positive exactly when some character of the surface form is a kanji. |
| Parser.LineMarkup | src/main.rs:97-111 | A line without a space fails for lack of a reading. Otherwise a failing ruby emission fails the line even without kanji. A surface form with kanji yields its ruby markup; one without yields field 0 verbatim. |
| Parser.MarkupAppend | src/main.rs:93-112 | Lines before the first `EOS` contribute in line order. The markup of two runs of lines is the first's followed by the second's, and the first failure wins. |
| Parser.StopsAtEos | src/main.rs:93-95 | No line at or after the first line equal to `EOS` contributes anything. |
| Parser.MetaLineIgnored | src/main.rs:91-96 | A line starting with `@` contributes nothing: removing it leaves the result unchanged. |
| Parser.TokenLineInOrder | src/main.rs:96-111 | A token line before the first `EOS` contributes its own markup, between that of the lines before it and that of the lines after it. |
| Parser.KanaLinePassesThrough | src/main.rs:97-111 | The kana-only line `です です` yields `です` unchanged whenever its diff does not end in a removed span. |
| Text.Split | src/main.rs:97 | Splitting on a space always yields at least one field. |
| Text.JoinSplit | src/main.rs:97 | Joining the fields with a space gives back the line. |
| Text.SplitJoin | src/main.rs:97 | Splitting fields joined with a space, none containing a space, gives back the fields. |
| Text.SplitFieldsSeparatorFree | src/main.rs:97 | No field contains a space. |
| Text.SplitHasSecondField | src/main.rs:97-105 | A line has a second field (`v[1]` exists) exactly when it contains a space. |
| Text.Lines | src/main.rs:93 | Only the empty text has no lines. |
| Text.LinesRoundTrip | src/main.rs:93 | For text without carriage returns, the lines joined by line feeds give back the text, up to one final line feed. |

## Left out

- `main` and the command-line definitions (src/main.rs:8-44) only read two arguments and print the result.
- `get_jumanpp_output` (src/main.rs:64-88) is process I/O: spawning the analyzer, piping, UTF-8 decoding, and a panic on a non-zero exit status. The analyzer's output text is an input of `ParseJumanppOutput`.
- The diff library's own algorithm (`Changeset::new`, src/main.rs:49) is not part of this model. The diff is a parameter. `Surface` and `Reading` say which text each kind of segment comes from, but the library's promise that the segments rebuild both strings is not assumed anywhere. Neither is its minimality, or that equal strings give one common span.
- `kanji::is_kanji` is not part of this model. It is the parameter `isKanji`.
- Regular-expression semantics are not modelled. The pattern is an escaped literal, so the pass is modelled as a literal scan. `Regex::new` can fail only on a compiled-size limit (the `?` at src/main.rs:117); that failure is left out.
- `Text.Lines` follows the current standard library. A final line that ends in a carriage return but has no line feed keeps that carriage return. Older releases stripped it, so there a final `EOS` followed by a carriage return stops the loop, while here it is a token line without a reading. The older behaviour is not modelled.
- Text is a sequence of Unicode characters, as Rust's `str` is. Byte-level UTF-8 encoding is not modelled.
- The abort behaviour of a panic (unwinding, the message on standard error) is modelled only as an error result.
