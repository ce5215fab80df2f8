# Benchmark-output parsing and human-readable units, in Dafny

This project models two parts of a command-line tool that benchmarks
ClickHouse queries.

- `parseBenchmarkResult` reads the text that `clickhouse-benchmark`
  prints. It keeps every line as captured output, followed by a newline.
  Each line that starts with the configured database host is cut at
  `", "` into tokens. Each token goes through an if/else-if chain on its
  prefix: `queries`, `QPS:`, `RPS:`, `MiB/s:`, `result RPS:`,
  `result MiB/s:`. The matching token's value is stored in one of the six
  fields of a `QueryBenchResult`.
- `microsecondsToHuman`, `milisecondsToHuman` and `bytesToHuman` turn a
  number into a short text with a unit (`μs`/`ms`/`s`, `ms`/`s`,
  `B`/`KB`/`MB`/`GB`). Each uses `toFixed(2)` above its smallest tier.

Modules:

- `Wrappers`: `Option` and `Result`.
- `Strings`: the string operations the parser uses, with the JavaScript
  meaning the code relies on.
  - `startsWith`.
  - `split` with a non-empty separator.
  - `replace` with a string pattern, which replaces only the first
    occurrence.
  - Lines and their newline-terminated concatenation.
- `Decimal`: decimal text of integers, and the two-decimal text that
  `toFixed(2)` prints. Both have parsers proved to invert them, and
  each parser accepts only that canonical text.
- `Utils`: the three formatters and what a reader recovers from their
  output.
- `DbBenchmark`: the parser.
  - `ParseBenchmarkResult` is a method with the source's two loops. The `forEach` callback is the method `ApplyRow`.
  - It is proved equal to a pure fold, `Parse`.
  - The lemmas below are proved about that fold.

How numbers and failures are represented in `DbBenchmark`:

- A field holds one of three values:
  - `Zero`, the initial value;
  - `FromText(t)`, the number that unary `+` makes of the text `t`;
  - `NaN`, for `+undefined`, when the token has no such segment.
- For `queries` and `result MiB/s:`, a missing segment makes `.replace`
  run on `undefined`, which throws. That case is modelled as
  `Failure(ReplaceOnUndefined(label))`.

## Model

| member | source | states |
|---|---|---|
| DbBenchmark.ParseBenchmarkResult | src/benchmark/dbBenchmark.ts:16-53 | the loop over the lines, with the if/else-if chain over each host line's tokens, returns exactly the pure parse `Parse(host, lines)` (fields and captured output, or the thrown error) |
| DbBenchmark.ApplyRow | src/benchmark/dbBenchmark.ts:33-48 | the `forEach` callback's if/else-if chain computes exactly the one-token step `ApplyToken`: the new fields, or the error thrown by `.replace` on a missing segment |
| DbBenchmark.ParseIsTokenWalk | src/benchmark/dbBenchmark.ts:29-51 | parsing equals applying the tokens of the host lines in order, starting from all-zero fields, with the output being every line followed by a newline |
| DbBenchmark.ParseOutput | src/benchmark/dbBenchmark.ts:29-30 | on success the output is every line read, each followed by "\n", whether or not it matched the host |
| DbBenchmark.NoHostLineKeepsZeros | src/benchmark/dbBenchmark.ts:20-31 | when no line starts with the host, all six fields stay 0 and the parse succeeds with the full output |
| DbBenchmark.OtherLineIgnored | src/benchmark/dbBenchmark.ts:31 | inserting a line that does not start with the host changes neither success nor any field |
| DbBenchmark.Classify | src/benchmark/dbBenchmark.ts:34-44 | a classified token starts with its label's prefix and with no prefix tested earlier in the chain; an unclassified token starts with none of the six prefixes |
| DbBenchmark.PrefixesExclusive | src/benchmark/dbBenchmark.ts:34-44 | no token starts with two different prefixes, so the order of the chain never decides a match |
| DbBenchmark.TokenValue | src/benchmark/dbBenchmark.ts:35-47 | reading a value throws exactly for the two dot-stripping labels when the token has no segment at the label's index, and the error names the label |
| DbBenchmark.WithField | src/benchmark/dbBenchmark.ts:35-47 | assigning one field sets that field and leaves the other five unchanged |
| DbBenchmark.ApplyToken | src/benchmark/dbBenchmark.ts:33-48 | one token throws exactly when it is a dot-stripping label without its segment; otherwise it writes only its label's field, with the value read from the token, and an unmatched token changes nothing |
| DbBenchmark.ApplyTokensAppend | src/benchmark/dbBenchmark.ts:29-49 | walking two token lists one after the other is the walk of their concatenation, and a throw in the first stops the walk |
| DbBenchmark.LastTokenWins | src/benchmark/dbBenchmark.ts:33-48 | after a successful walk, each field holds the value of the last token with that label, or its starting value if there is none |
| DbBenchmark.ParseFieldIsLastMatch | src/benchmark/dbBenchmark.ts:21-49 | each parsed field is the value of the last token for its label across all host lines, or 0 if no token has that label |
| DbBenchmark.ThrowsIffSomeTokenThrows | src/benchmark/dbBenchmark.ts:33-48 | a token walk fails if and only if one of its tokens throws |
| DbBenchmark.ParseThrows | src/benchmark/dbBenchmark.ts:29-49 | the parse fails if and only if some token of some host line throws |
| DbBenchmark.ReparseCapturedOutput | src/benchmark/dbBenchmark.ts:29-30 | re-reading the captured output line by line gives the same parse as the original lines |
| DbBenchmark.LabelledTokenValue | src/benchmark/dbBenchmark.ts:34-47 | a token made of a label's prefix, a space, a space-free value and then nothing or more space-separated words is classified as that label and stores that value: segment 1 for `queries`/`QPS:`/`RPS:`/`MiB/s:`, segment 2 for the two `result` labels, with the first "." removed for `queries` and `result MiB/s:`; later words are ignored |
| DbBenchmark.MissingValue | src/benchmark/dbBenchmark.ts:35-47 | a token that is a label's prefix with no space-separated value after it gives NaN for `QPS:`, `RPS:`, `MiB/s:` and `result RPS:`, and throws, naming the label, for `queries` and `result MiB/s:` |
| DbBenchmark.SummaryLineTokens | src/benchmark/dbBenchmark.ts:32 | a summary line that starts with the host splits at ", " into the host part and the six labelled tokens |
| DbBenchmark.SummaryTokensApplied | src/benchmark/dbBenchmark.ts:33-48 | the six labelled tokens set all six fields from their values, whatever the fields held before |
| DbBenchmark.WellFormedSummaryLine | src/benchmark/dbBenchmark.ts:31-48 | a well-formed summary line sets each of the six fields from its labelled value |
| DbBenchmark.ParseThreeLines | src/benchmark/dbBenchmark.ts:29-51 | a host line between two other lines gives that line's fields and the three lines as output |
| DbBenchmark.ExampleLineFields | src/benchmark/dbBenchmark.ts:31-48 | the summary line of host "h" with values 1.234, 55.5, 1000, 12.3, 200 and 3.456 (`h, queries 1.234, QPS: 55.5, RPS: 1000, MiB/s: 12.3, result RPS: 200, result MiB/s: 3.456`) stores "1234", "55.5", "1000", "12.3", "200" and "3456" |
| DbBenchmark.SummaryLineExample | src/benchmark/dbBenchmark.ts:16-53 | that line between two other lines parses to those fields, with the three lines as output |
| Strings.SplitJoin | src/benchmark/dbBenchmark.ts:32 | splitting at ", " gives at least one piece, and joining the pieces with ", " gives back the line |
| Strings.SplitPiecesAvoidSeparator | src/benchmark/dbBenchmark.ts:32 | no piece of a split contains the separator |
| Strings.SplitJoinInverse | src/benchmark/dbBenchmark.ts:32 | splitting the join of pieces that avoid the separator's first character gives back the pieces |
| Strings.RemoveFirstDot | src/benchmark/dbBenchmark.ts:35 | `.replace(".", "")` removes exactly the first "." and leaves a text without "." unchanged |
| Strings.LinesOfJoinLines | src/benchmark/dbBenchmark.ts:29-30 | the newline-terminated output of lines without "\n" reads back as those lines |
| Utils.MicrosecondsToHumanReading | src/utils.ts:61-69 | (with `ReadingDeterminesText`, these fix the text exactly) below 1000 the text is the integer followed by "μs"; below 1000000 it reads as the two-decimal number of milliseconds nearest to the input, followed by "ms"; above that, the two-decimal number of seconds nearest to the input, followed by "s" |
| Utils.MilisecondsToHumanReading | src/utils.ts:71-76 | (with `ReadingDeterminesText`, these fix the text exactly) below 1000 the text is the integer followed by "ms"; otherwise it reads as the two-decimal number of seconds nearest to the input, followed by "s" |
| Utils.BytesToHumanReading | src/utils.ts:78-89 | (with `ReadingDeterminesText`, these fix the text exactly) below 1024 the text is the integer followed by "B"; in each higher tier it reads as the two-decimal value that `toFixed(2)` picks for the input over 1024, 1024² or 1024³, followed by "KB", "MB" or "GB" |
| Utils.HundredthsIsToFixedChoice | src/utils.ts:82-88 | the rounding used is the `toFixed(2)` choice for an exactly represented quotient, as in the power-of-1024 tiers: the nearest hundredth, and the larger one at a tie |
| Utils.FormatterExamples | src/utils.ts:61-89 | the tier boundaries: 999μs, 1.00ms, 1.50ms, 1.00s; 999ms, 1.00s; 1023B, 1.00KB, 1.00MB, 1.00GB, and 1024.00GB for 1024⁴ bytes |
| Utils.ReadHumanScaled | src/utils.ts:66 | the `toFixed(2)` text of any number of hundredths, followed by a unit without digits, reads back as that number and that unit |
| Utils.ReadHumanCanonical | src/utils.ts:61-89 | the reader accepts one text per reading: a whole number only as its own decimal text (no leading zeros, no "-0") followed by the unit, hundredths only as their `toFixed(2)` text followed by the unit |
| Utils.ReadingDeterminesText | src/utils.ts:61-89 | two texts with the same reading are equal, so each Reading lemma above fixes the formatter's exact output text |
| Utils.ReadHumanWhole | src/utils.ts:63 | an integer's decimal text, followed by a unit without digits, reads back as that integer and that unit |
| Decimal.IntToStringRoundTrip | src/utils.ts:63 | an integer's decimal text has no "." and parses back to the integer |
| Decimal.ParseIntCanonical | src/utils.ts:63 | any text the integer reader accepts is exactly `${i}` for the integer it reads |
| Decimal.ReadFixed2Canonical | src/utils.ts:66 | any text the two-decimal reader accepts is exactly the `toFixed(2)` text of the hundredths it reads |
| Decimal.ReadFixed2RoundTrip | src/utils.ts:66 | the two-decimal text has exactly two digits after the point and parses back to its hundredths |

## Left out

- The configuration lookup (`getConfig`) is not part of this model. The configured database host is a parameter.
- Reading the child process's standard output (`readLines` over a `Deno.Reader`) is not part of this model. The input is the sequence of lines. `LinesOf` cuts a text at "\n" only, and the "\r" that `readLines` would also strip is not modelled.
- `runDbBenchmark` is not modelled: it builds the command line, spawns the process, awaits its status and logs. All of that is process I/O. So is the rest of the repository (`runQuery`, the download helper, the CLI options).
- A thrown `TypeError` is modelled as a `Failure` naming the label. The output captured before the throw is lost with it, as in the source.
- General number conversion is not modelled. Unary `+` is kept as the text it converts; `Zero` and `NaN` are the two values that do not come from text. Whether two texts convert to the same number is not decided.
- Each field is meant to be set at most once per run, but the code overwrites a field each time a later token has its label, and the model follows the code (`DbBenchmark.LastTokenWins`).
- Utils.MicrosecondsToHuman: modelled for integer inputs only, and faithful only for safe integers (|v| ≤ 2⁵³). Fractional inputs are not modelled. Neither are larger inputs, which are rounded doubles in the source, nor the exponent notation JavaScript prints from 1e21 on.
- Utils.MicrosecondsToHumanReading: holds for the source only for safe integers (|v| ≤ 2⁵³). Above that, the source's floating-point quotient can round to a different hundredth; for v = 1152921504606874880 it prints "1152921504606.88s" where the model prints "1152921504606.87s". It states that the printed hundredths are the nearest to the exact quotient, but not which one is chosen at an exact tie. The source divides by 1000, and the binary floating-point quotient can fall on either side of the tie. The model rounds half up there.
- Utils.MilisecondsToHumanReading: holds for the source only for safe integers (|v| ≤ 2⁵³), for the same reason. It states nearest only, not the digit printed at an exact tie.
- Utils.MilisecondsToHuman: modelled for integer inputs only, as for the microseconds formatter.
- Utils.BytesToHuman: modelled for integer inputs only, and faithful only for safe integers (|v| ≤ 2⁵³). Larger inputs are rounded doubles in the source. JavaScript also switches to exponent notation from 1e21: `${bytes}` prints "-1e+21B" for bytes = -10²¹, and `toFixed(2)` prints "1.1805916207174113e+21GB" for 2¹⁰⁰ bytes, where the model writes out every digit. Within the safe range, dividing by a power of 1024 is exact in floating point, so the `toFixed(2)` choice is stated exactly.
