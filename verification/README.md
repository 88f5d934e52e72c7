# populateConstants — a Dafny model

`populateConstants.mjs` fills the Solidity test constants file with real contract
bytecode. It reads the file as text. It then runs three global regular-expression
replacements, one each for `UniswapV3Factory`, `NonfungiblePositionManager` and
`SwapRouter02`:

    text.replace(/Name = hex'(.*)'/g, `Name = hex'${Artifact.bytecode.slice(2)}'`)

Finally it writes the text back.

The model has five modules:

- `Text` covers line structure. It defines line terminators (`\n`, `\r`, U+2028 and
  U+2029, the characters `.` does not match) and splits a text into lines and the
  terminators between them. It proves that splitting and joining are inverse, both
  ways.
- `Regex` is the JavaScript semantics of one replacement on the whole text:
  - the leftmost match start;
  - a greedy `.*` that cannot cross a terminator, so the match runs to the last
    quote reachable on its line;
  - a `g` scan that resumes after each match.
- `Substitution` is the same replacement done line by line: each line is rewritten
  on its own and the lines are glued back together.
  `Substitution.ReplaceLinesIsReplaceAll` proves the two definitions equal on every
  text, for any pattern free of terminators. The line-by-line form is the one the
  other properties are proved about.
- `Properties` holds what one substitution promises:
  - it stays within lines and keeps every terminator;
  - it rewrites every matching line;
  - it leaves other lines, and a text without a match, unchanged;
  - it is idempotent;
  - two substitutions commute when the bytecode is hexadecimal and their
    placeholders either never share a line or cannot overlap.
- `PopulateConstants` is the script. It runs the three substitutions in source
  order. It fails with the first missing bytecode, in evaluation order, because
  `.slice` on a missing field throws before the file is written. It proves:
  - the result equals the three JavaScript replacements in a row;
  - the result is the same in all six orders;
  - the output is a fixed point of the script.

Three behaviours of the code shape the model:

- `slice(2)` drops the first two characters whatever they are; nothing checks for
  a `0x` prefix (`Substitution.Strip`, `PopulateConstants.StripExamples`).
- Every matching line is rewritten, not only one. With no match, the text is left
  as it is (`Properties.SubstituteEveryLine`, `Properties.SubstituteMiss`).
- `(.*)'` is greedy. On a line holding two placeholders, the first one's match
  swallows the second literal (`Properties.GreedyToLastQuote`). Whichever
  substitution runs first, such a line ends up with only its first placeholder
  rewritten. The script's three placeholders start with letters that the other
  two lack, so they never overlap, and the order of the substitutions does not
  matter (`Properties.CommuteSharedLine`, `PopulateConstants.NamesForeign`).

## Model

| member | source | states |
|---|---|---|
| Substitution.Strip | populateConstants.mjs:10 | `bytecode.slice(2)`: the bytecode is its first two characters followed by the result. Below two characters, the result is empty. The prefix is not inspected. |
| PopulateConstants.StripExamples | populateConstants.mjs:10 | `"0xdeadbeef"` gives `deadbeef`. A string without `0x` still loses two characters. A one-character string gives the empty string. |
| Text.LineLength | populateConstants.mjs:10 | The first line ends at the first terminator: the prefix holds no terminator, and the character after it is one, or the text ends. |
| Text.Lines | populateConstants.mjs:10 | A text is at least one line, and no line contains a terminator. |
| Text.LinesOutnumberBreaks | populateConstants.mjs:10 | A text has one more line than it has line breaks. |
| Text.JoinLines | populateConstants.mjs:10 | Splitting a text into lines and terminators and joining them again gives back the text. |
| Text.LinesOfJoin | populateConstants.mjs:10 | Joining terminator-free lines with terminators and splitting again gives back the same lines and terminators. |
| Text.BreaksAreTerminators | populateConstants.mjs:10 | The breaks between lines are exactly the terminators of the text, in order. |
| Text.IndexOf | populateConstants.mjs:10 | Finds the leftmost occurrence of the literal prefix at or after a position, or reports that there is none. |
| Text.LastIndexOf | populateConstants.mjs:10 | Finds the last occurrence of a character at or after a position, or reports that there is none. |
| Regex.ReplaceAll | populateConstants.mjs:10 | The JavaScript global replace with the replacement inserted literally. Its meaning is stated by `Regex.ReplaceAllMiss` and `Regex.ReplaceAllStep`. |
| Regex.LastQuote | populateConstants.mjs:10 | Greedy `.*'`: returns the last quote reachable without crossing a terminator. Every such quote lies at or before it. |
| Regex.FindMatch | populateConstants.mjs:10 | The search returns a match of `Name = hex'(.*)'` at or after the start. No match starts earlier, and none with the same start ends later. |
| Regex.FindMatchIsFirst | populateConstants.mjs:10 | The backtracking engine's match (leftmost start, then longest) is the one the search returns. |
| Regex.FirstMatchUnique | populateConstants.mjs:10 | A text has at most one such first match. |
| Regex.ReplaceAllMiss | populateConstants.mjs:10 | With no match anywhere, the global replace returns the text unchanged. |
| Regex.ReplaceAllStep | populateConstants.mjs:10 | With the `g` flag: the text before the first match, then the replacement, then the replace resumed just after the match. |
| Regex.ReplaceAllSkip | populateConstants.mjs:10 | A prefix in which no match starts is copied through unchanged. |
| Regex.ShiftMatch | populateConstants.mjs:10 | A match depends only on the matched characters: dropping a prefix shifts every match by its length, both ways. |
| Substitution.ReplaceLine | populateConstants.mjs:10 | The replace applied to one terminator-free line. Its meaning is stated by `Substitution.ReplaceLineSpec`. |
| Substitution.ReplaceLineSpec | populateConstants.mjs:10 | On one line: the span from the leftmost placeholder to the last quote after it becomes the replacement, and what surrounds it is kept. A line without such a span is unchanged. |
| Substitution.ReplaceLinesOfFirstLine | populateConstants.mjs:10 | The line-by-line rewrite is the first line rewritten, its terminator, then the rest rewritten. |
| Substitution.MatchStaysInLine | populateConstants.mjs:10 | A match that starts in the first line also ends in it, because `.` does not match a terminator. |
| Substitution.FirstMatchInLine | populateConstants.mjs:10 | The match found within the first line is the first match of the whole text. |
| Substitution.ReplaceAllAtBreak | populateConstants.mjs:10 | A terminator never starts a match: the global scan copies it and continues after it. |
| Substitution.ReplaceAllOfFirstLine | populateConstants.mjs:10 | The global replace over a text is its first line rewritten as a line, then the replace from the end of that line. |
| Substitution.Substitute | populateConstants.mjs:10-15 | One of the script's three replaces, `Name = hex'(.*)'` to `Name = hex'<stripped>'`, done line by line. `Properties.SubstituteIsGlobalReplace` proves it equal to the JavaScript replace. |
| Substitution.ReplaceLinesIsReplaceAll | populateConstants.mjs:10-15 | For any pattern without terminators and any replacement, the line-by-line rewrite equals the JavaScript global replace. |
| Properties.LiteralIsSingleLine | populateConstants.mjs:10 | Pattern and replacement have no terminator when the name and the stripped bytecode have none. |
| Properties.ReplaceEachAt | populateConstants.mjs:10 | Line `i` of the rewritten list is line `i` rewritten. |
| Properties.ReplaceLineNoTerminator | populateConstants.mjs:10 | Rewriting a terminator-free line with a terminator-free replacement yields a terminator-free line. |
| Properties.LinesOfReplaceLines | populateConstants.mjs:10 | Same line structure after a rewrite: the new lines are the old lines rewritten one by one, and the terminators are unchanged. |
| Properties.SubstituteByLine | populateConstants.mjs:10 | The same holds for one named substitution: same number of lines, line `i` rewritten alone, terminators kept. |
| Properties.SubstituteKeepsTerminators | populateConstants.mjs:10 | A substitution neither adds nor removes a line terminator. |
| Properties.SubstituteIsGlobalReplace | populateConstants.mjs:10 | A named substitution equals the JavaScript replace with `Name = hex'(.*)'` and `Name = hex'<stripped>'`, for any bytecode, with the replacement inserted literally as `Regex.ReplaceAll` does. JavaScript agrees on bytecode without a `$`. |
| Properties.SubstituteMiss | populateConstants.mjs:10 | A text in which the pattern matches nowhere is returned unchanged. |
| Properties.SubstituteLineShape | populateConstants.mjs:10 | On a matching line, the part before the placeholder is kept, then comes `Name = hex'<stripped>'`, then the part after the last quote. |
| Properties.SubstituteEveryLine | populateConstants.mjs:10 | Every line of the file holding a match gets the new literal, not only the first such line. |
| Properties.SubstituteIsolated | populateConstants.mjs:10 | A line without the placeholder comes through unchanged. |
| Properties.GreedyToLastQuote | populateConstants.mjs:10 | A line that starts with the placeholder and ends with a quote becomes exactly the new literal, whatever lies between. |
| Properties.ReplaceLineMiss | populateConstants.mjs:10 | A line without the placeholder is unchanged by the line rewrite. |
| Properties.RewrittenLineMatch | populateConstants.mjs:10 | After a rewrite, the placeholder is still leftmost, and the quote that closes the new literal is the last on the line. |
| Properties.ReplaceLineIdempotent | populateConstants.mjs:10 | Rewriting a line twice with `pat + s + "'"` equals rewriting it once, for any `s`. |
| Properties.SubstituteIdempotent | populateConstants.mjs:10 | One substitution applied twice equals it applied once, when name and bytecode have no terminator. |
| Properties.ReplaceLinesTwice | populateConstants.mjs:10-15 | Two rewrites in a row act line by line on the original lines and keep the original terminators. |
| Properties.RewrittenQuotes | populateConstants.mjs:10 | With hexadecimal bytecode, the only quote after the placeholder is the closing one, and it does not follow an `x`. |
| Properties.NoOccurrenceAfterRewrite | populateConstants.mjs:10 | Such a rewrite completes no new occurrence of a pattern ending in `x'`. |
| Properties.OccurrenceAfterRewrite | populateConstants.mjs:10 | After such a rewrite, an occurrence of a pattern ending in `x'` ends no later than the placeholder and was already in the line. |
| Properties.NoNewOccurrence | populateConstants.mjs:10-15 | Substituting one name with hexadecimal bytecode creates no placeholder of another name on that line. |
| Properties.CommuteLine | populateConstants.mjs:10-15 | On a line lacking one of two placeholders, the two substitutions commute. |
| Properties.IndexOfLeftmost | populateConstants.mjs:10 | The search for the placeholder returns its leftmost occurrence. |
| Properties.NoOverlap | populateConstants.mjs:10-15 | Two placeholders that lack each other's first character never overlap: the one that starts first ends before the other starts. |
| Properties.FirstSwallows | populateConstants.mjs:10-15 | When one placeholder comes first on a line and another later, the greedy match of the first runs past the whole of the second. |
| Properties.ReplaceLineAt | populateConstants.mjs:10 | At a known match, the line rewrite keeps what precedes the placeholder and what follows the last quote. |
| Properties.ReplaceLineNoQuote | populateConstants.mjs:10 | A line with no quote after its leftmost placeholder is unchanged. |
| Properties.NoOccurrenceBefore | populateConstants.mjs:10-15 | Rewriting the earlier placeholder with hexadecimal bytecode leaves no occurrence of a later one. |
| Properties.FirstThenSecond | populateConstants.mjs:10-15 | On a shared line, rewriting the earlier placeholder first makes the later substitution a no-op. |
| Properties.RewrittenMatch | populateConstants.mjs:10-15 | After the later placeholder is rewritten with hexadecimal bytecode, the earlier one is still leftmost and its match ends at the new literal's closing quote. |
| Properties.SecondRewrittenFirst | populateConstants.mjs:10-15 | Rewriting the earlier placeholder after the later one gives the line as if only the earlier one had been rewritten. |
| Properties.SecondThenFirst | populateConstants.mjs:10-15 | On a shared line, rewriting the later placeholder first and then the earlier one gives the same line as rewriting the earlier one alone. |
| Properties.CommuteSharedLine | populateConstants.mjs:10-15 | With hexadecimal bytecode and placeholders that cannot overlap, the two substitutions commute on every line, including one that holds both placeholders. |
| Properties.Commute | populateConstants.mjs:10-15 | With hexadecimal bytecode, two substitutions commute on a whole text when their placeholders never share a line or cannot overlap. |
| Properties.ApartAfter | populateConstants.mjs:10-15 | A substitution with hexadecimal bytecode keeps two other placeholders on different lines. |
| PopulateConstants.Rewrite | populateConstants.mjs:10-15 | The three substitutions in source order. `PopulateConstants.PopulateRewrites` proves it is what the script writes when every bytecode is present. |
| PopulateConstants.NamesAreSingleLine | populateConstants.mjs:10-15 | The three contract names contain no line terminator. |
| PopulateConstants.NamesForeign | populateConstants.mjs:10-15 | None of the three placeholders contains the first letter of another (`U`, `N`, `S`), so no two of them can overlap. |
| PopulateConstants.Populate | populateConstants.mjs:10-15 | Fails exactly when a bytecode is missing, naming the first missing one in the order factory, position manager, router. Otherwise it gives the three global replaces applied in that order, with each replacement inserted literally as `Regex.ReplaceAll` does; JavaScript agrees on bytecode without a `$`. |
| PopulateConstants.PopulateRewrites | populateConstants.mjs:10-15 | With every bytecode present, the result is the three substitutions in source order. |
| PopulateConstants.RewriteInAnyOrder | populateConstants.mjs:10-15 | With hexadecimal bytecodes, all six orders of the three substitutions give the same text, whatever lines the placeholders sit on. |
| PopulateConstants.RewriteIsFixedPoint | populateConstants.mjs:10-15 | With hexadecimal bytecodes, running the script on its own output changes nothing. |
| PopulateConstants.RewriteByLine | populateConstants.mjs:10-15 | The written text has the same lines and terminators as the text read, and each line is that line with the three substitutions applied. |
| PopulateConstants.LineExample | populateConstants.mjs:10 | `UniswapV3Factory = hex'0000';` with bytecode `0xabcd` becomes `UniswapV3Factory = hex'abcd';`. |
| PopulateConstants.UnanchoredExample | populateConstants.mjs:10 | The pattern is not anchored: `MyUniswapV3Factory = hex'00';` with bytecode `0xab` becomes `MyUniswapV3Factory = hex'ab';`. |

## Left out

- Loading the three compiled artifacts (populateConstants.mjs:1-3). Each becomes an
  `Artifact` parameter that holds the `bytecode` field or lacks it. A field that is
  present but not a string (a number, an object) is not modelled.
- Reading and writing the constants file (populateConstants.mjs:4-8, 17). The text
  read is a parameter and the model's result is the text written. An error means
  `writeFileSync` is never reached and the file keeps its old content. Partial
  writes, concurrent runs and file-system failures are not modelled.
- Regex.ReplaceAll: inserts the replacement literally. JavaScript would expand
  `$&`, `$1`, `$$` and the other `$`-patterns in the replacement. Hexadecimal
  bytecode holds no `$`, so the script's own inputs are unaffected.
- JavaScript strings are sequences of UTF-16 code units, but the model's characters
  are Unicode scalar values. `.` without the `u` flag matches any code unit except
  a terminator, and neither a quote nor a terminator is part of a surrogate pair,
  so matches fall in the same places.
- Substitution.Strip: counts characters (Unicode scalar values) rather than UTF-16
  code units, so `"😀ab".slice(2)` is `"ab"` while `Strip` gives `"b"`. The two agree
  on ASCII bytecode.
- Properties.Commute: requires hexadecimal bytecode, and placeholders that either
  never share a line or lack each other's first character. For arbitrary names one
  placeholder can end inside another (`X = hex'` inside `MyX = hex'`), and then the
  order matters: on `MyX = hex'00';` the substitution that runs last wins.
- PopulateConstants.RewriteInAnyOrder: requires hexadecimal bytecode. A bytecode
  may otherwise hold another placeholder: with factory bytecode
  `0xSwapRouter02 = hex'`, running the router substitution after the factory one
  rewrites the copied placeholder, and running it before does not.
- PopulateConstants.RewriteIsFixedPoint: requires hexadecimal bytecode, because its
  proof goes through `Properties.Commute`. Other bytecode is not covered.
