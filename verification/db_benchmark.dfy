/**
 * The parser of `clickhouse benchmark` output: it reads the tool's stderr
 * line by line, keeps every line in a raw-output string, and fills the six
 * fields of a QueryBenchResult from the summary line, the one that starts
 * with the database host.
 */
module DbBenchmark {
  import opened Wrappers
  import opened Strings

  /**
   * A field's value. The source stores numbers: the initial literal 0, or
   * the unary plus of an extracted piece of text. The model keeps that text
   * (`FromText`); `NaN` is the unary plus of a segment that does not exist.
   */
  datatype Num = Zero | FromText(text: string) | NaN

  datatype QueryBenchResult = QueryBenchResult(
    numExecutions: Num,
    queriesPerSecond: Num,
    serverRowReadsPerSecond: Num,
    serverMegabytesReadsPerSecond: Num,
    rowsPlacedToResults: Num,
    megabytesPlacedToResult: Num)

  /** The result the parser starts from: every field 0. */
  const INITIAL := QueryBenchResult(Zero, Zero, Zero, Zero, Zero, Zero)

  /** The six token labels, in the order the parser tests them. */
  datatype Label = Queries | Qps | Rps | MibPerSecond | ResultRps | ResultMibPerSecond

  /** The literal a token must start with to carry the label. */
  function Prefix(l: Label): string {
    match l
    case Queries => "queries"
    case Qps => "QPS:"
    case Rps => "RPS:"
    case MibPerSecond => "MiB/s:"
    case ResultRps => "result RPS:"
    case ResultMibPerSecond => "result MiB/s:"
  }

  /** The position of the label's test in the parser's if/else-if chain. */
  function Rank(l: Label): nat {
    match l
    case Queries => 0
    case Qps => 1
    case Rps => 2
    case MibPerSecond => 3
    case ResultRps => 4
    case ResultMibPerSecond => 5
  }

  /** Which space-separated segment of the token holds the value. */
  function SegmentIndex(l: Label): nat {
    if l == ResultRps || l == ResultMibPerSecond then 2 else 1
  }

  /** Whether the first "." is removed from the value before conversion. */
  predicate StripsDot(l: Label) {
    l == Queries || l == ResultMibPerSecond
  }

  /** The field a label writes. */
  function Field(r: QueryBenchResult, l: Label): Num {
    match l
    case Queries => r.numExecutions
    case Qps => r.queriesPerSecond
    case Rps => r.serverRowReadsPerSecond
    case MibPerSecond => r.serverMegabytesReadsPerSecond
    case ResultRps => r.rowsPlacedToResults
    case ResultMibPerSecond => r.megabytesPlacedToResult
  }

  /** The record with the field of label `l` set to `v`. */
  function WithField(r: QueryBenchResult, l: Label, v: Num): (r': QueryBenchResult)
    ensures Field(r', l) == v
    ensures forall l' :: l' != l ==> Field(r', l') == Field(r, l')
  {
    match l
    case Queries => r.(numExecutions := v)
    case Qps => r.(queriesPerSecond := v)
    case Rps => r.(serverRowReadsPerSecond := v)
    case MibPerSecond => r.(serverMegabytesReadsPerSecond := v)
    case ResultRps => r.(rowsPlacedToResults := v)
    case ResultMibPerSecond => r.(megabytesPlacedToResult := v)
  }

  /** The exception the parser can raise: `.replace` called on a segment that does not exist. */
  datatype ParseError = ReplaceOnUndefined(tokenLabel: Label)

  /** What a successful parse returns: the fields and the raw output. */
  datatype Parsed = Parsed(results: QueryBenchResult, output: string)

  /** The label of a token: the first prefix of the chain that the token starts with. */
  function Classify(token: string): (r: Option<Label>)
    ensures r.Some? ==> StartsWith(token, Prefix(r.value))
    ensures r.Some? ==> forall l :: Rank(l) < Rank(r.value) ==> !StartsWith(token, Prefix(l))
    ensures r.None? ==> forall l :: !StartsWith(token, Prefix(l))
  {
    if StartsWith(token, "queries") then Some(Queries)
    else if StartsWith(token, "QPS:") then Some(Qps)
    else if StartsWith(token, "RPS:") then Some(Rps)
    else if StartsWith(token, "MiB/s:") then Some(MibPerSecond)
    else if StartsWith(token, "result RPS:") then Some(ResultRps)
    else if StartsWith(token, "result MiB/s:") then Some(ResultMibPerSecond)
    else None
  }

  /** The value a labelled token stores, or the exception its conversion raises. */
  function TokenValue(l: Label, token: string): (v: Result<Num, ParseError>)
    ensures v.Failure? <==> StripsDot(l) && |Split(token, " ")| <= SegmentIndex(l)
    ensures v.Failure? ==> v.error == ReplaceOnUndefined(l)
  {
    var segments := Split(token, " ");
    var k := SegmentIndex(l);
    if k < |segments| then
      Success(FromText(if StripsDot(l) then ReplaceFirst(segments[k], ".", "") else segments[k]))
    else if StripsDot(l) then
      Failure(ReplaceOnUndefined(l))
    else
      Success(NaN)
  }

  /** A token whose conversion throws. */
  predicate Throws(token: string) {
    Classify(token).Some? && TokenValue(Classify(token).value, token).Failure?
  }

  /**
   * One step of the `forEach` over a summary line's tokens: a labelled token
   * overwrites its own field and no other; an unlabelled token changes nothing.
   */
  function ApplyToken(r: QueryBenchResult, token: string): (o: Result<QueryBenchResult, ParseError>)
    ensures o.Failure? <==> Throws(token)
    ensures o.Success? ==> forall l :: Classify(token) != Some(l) ==> Field(o.value, l) == Field(r, l)
    ensures o.Success? && Classify(token).Some? ==>
      Field(o.value, Classify(token).value) == TokenValue(Classify(token).value, token).value
  {
    match Classify(token)
    case None => Success(r)
    case Some(l) =>
      match TokenValue(l, token)
      case Failure(e) => Failure(e)
      case Success(v) => Success(WithField(r, l, v))
  }

  /** The tokens of a line in order; the first exception stops the walk. */
  function ApplyTokens(r: QueryBenchResult, tokens: seq<string>): Result<QueryBenchResult, ParseError>
    decreases |tokens|
  {
    if tokens == [] then Success(r)
    else
      match ApplyToken(r, tokens[0])
      case Failure(e) => Failure(e)
      case Success(r') => ApplyTokens(r', tokens[1..])
  }

  /** One line: a line that starts with the host is split on ", " and its tokens applied. */
  function ApplyLine(host: string, r: QueryBenchResult, line: string): Result<QueryBenchResult, ParseError> {
    if StartsWith(line, host) then ApplyTokens(r, Split(line, ", ")) else Success(r)
  }

  /** The rest of the parse from fields `r` and output `out` so far. */
  function ParseFrom(host: string, r: QueryBenchResult, out: string, lines: seq<string>): Result<Parsed, ParseError>
    decreases |lines|
  {
    if lines == [] then Success(Parsed(r, out))
    else
      match ApplyLine(host, r, lines[0])
      case Failure(e) => Failure(e)
      case Success(r') => ParseFrom(host, r', out + lines[0] + "\n", lines[1..])
  }

  /** The whole parse, as a function of the host marker and the lines read. */
  function Parse(host: string, lines: seq<string>): Result<Parsed, ParseError> {
    ParseFrom(host, INITIAL, "", lines)
  }

  /**
   * parseBenchmarkResult: the loop over the lines read, appending each to the
   * output, and for a line that starts with the host the `forEach` over its
   * tokens. `host` stands for the configured database host and `lines` for
   * the lines of the stream.
   */
  method ParseBenchmarkResult(host: string, lines: seq<string>) returns (outcome: Result<Parsed, ParseError>)
    ensures outcome == Parse(host, lines)
  {
    var output := "";
    var results := INITIAL;
    for i := 0 to |lines|
      invariant ParseFrom(host, results, output, lines[i..]) == Parse(host, lines)
    {
      var line := lines[i];
      ghost var resultsBefore, outputBefore := results, output;
      assert lines[i..][1..] == lines[i + 1..];
      output := output + line + "\n";
      if StartsWith(line, host) {
        var stringResults := Split(line, ", ");
        for j := 0 to |stringResults|
          invariant ApplyTokens(results, stringResults[j..]) == ApplyTokens(resultsBefore, stringResults)
        {
          assert stringResults[j..][1..] == stringResults[j + 1..];
          var step := ApplyRow(results, stringResults[j]);
          if step.Failure? {
            return Failure(step.error);
          }
          results := step.value;
        }
      }
    }
    return Success(Parsed(results, output));
  }

  /**
   * The callback of the `forEach`: the if/else-if chain on the token's prefix.
   * A thrown exception is returned as a failure.
   */
  method ApplyRow(results: QueryBenchResult, stringRow: string) returns (step: Result<QueryBenchResult, ParseError>)
    ensures step == ApplyToken(results, stringRow)
  {
    step := Success(results);
    if StartsWith(stringRow, "queries") {
      var segments := Split(stringRow, " ");
      if |segments| < 2 {
        return Failure(ReplaceOnUndefined(Queries));
      }
      step := Success(results.(numExecutions := FromText(ReplaceFirst(segments[1], ".", ""))));
    } else if StartsWith(stringRow, "QPS:") {
      var segments := Split(stringRow, " ");
      step := Success(results.(queriesPerSecond := if |segments| < 2 then NaN else FromText(segments[1])));
    } else if StartsWith(stringRow, "RPS:") {
      var segments := Split(stringRow, " ");
      step := Success(results.(serverRowReadsPerSecond := if |segments| < 2 then NaN else FromText(segments[1])));
    } else if StartsWith(stringRow, "MiB/s:") {
      var segments := Split(stringRow, " ");
      step := Success(results.(serverMegabytesReadsPerSecond := if |segments| < 2 then NaN else FromText(segments[1])));
    } else if StartsWith(stringRow, "result RPS:") {
      var segments := Split(stringRow, " ");
      step := Success(results.(rowsPlacedToResults := if |segments| < 3 then NaN else FromText(segments[2])));
    } else if StartsWith(stringRow, "result MiB/s:") {
      var segments := Split(stringRow, " ");
      if |segments| < 3 {
        return Failure(ReplaceOnUndefined(ResultMibPerSecond));
      }
      step := Success(results.(megabytesPlacedToResult := FromText(ReplaceFirst(segments[2], ".", ""))));
    }
  }

  /** The six prefixes exclude each other: no token starts with two of them, so the order of the tests does not matter. */
  lemma PrefixesExclusive(token: string, l1: Label, l2: Label)
    requires StartsWith(token, Prefix(l1)) && StartsWith(token, Prefix(l2))
    ensures l1 == l2
  {
    assert token[0] == Prefix(l1)[0] == Prefix(l2)[0] by {
      assert token[..|Prefix(l1)|][0] == token[0] == token[..|Prefix(l2)|][0];
    }
    if Prefix(l1)[0] == 'r' {
      assert token[7] == Prefix(l1)[7] == Prefix(l2)[7] by {
        assert token[..|Prefix(l1)|][7] == token[7] == token[..|Prefix(l2)|][7];
      }
    }
  }

  /** The tokens of the lines that start with the host, in order. */
  function TokensOf(host: string, lines: seq<string>): seq<string> {
    if lines == [] then [] else LineTokens(host, lines[0]) + TokensOf(host, lines[1..])
  }

  /** The tokens one line contributes: its pieces when it starts with the host, none otherwise. */
  function LineTokens(host: string, line: string): seq<string> {
    if StartsWith(line, host) then Split(line, ", ") else []
  }

  /** The parse result assembled from the token walk and the captured output. */
  function WithOutput(o: Result<QueryBenchResult, ParseError>, output: string): Result<Parsed, ParseError> {
    match o
    case Failure(e) => Failure(e)
    case Success(r) => Success(Parsed(r, output))
  }

  /** Walking `a + b` is walking `a`, then `b` from where `a` ended, unless `a` threw. */
  lemma {:induction false} ApplyTokensAppend(r: QueryBenchResult, a: seq<string>, b: seq<string>)
    ensures ApplyTokens(r, a + b) ==
      match ApplyTokens(r, a)
      case Failure(e) => Failure(e)
      case Success(r') => ApplyTokens(r', b)
    decreases |a|
  {
    if a == [] {
      assert a + b == b;
    } else {
      assert (a + b)[0] == a[0];
      assert (a + b)[1..] == a[1..] + b;
      match ApplyToken(r, a[0])
      case Failure(e) =>
      case Success(r') => ApplyTokensAppend(r', a[1..], b);
    }
  }

  lemma {:induction false} TokensOfAppend(host: string, a: seq<string>, b: seq<string>)
    ensures TokensOf(host, a + b) == TokensOf(host, a) + TokensOf(host, b)
    decreases |a|
  {
    if a == [] {
      assert a + b == b;
    } else {
      assert (a + b)[0] == a[0];
      assert (a + b)[1..] == a[1..] + b;
      TokensOfAppend(host, a[1..], b);
    }
  }

  /**
   * The parse is one walk over the tokens of all host lines, and its output
   * is everything captured so far followed by each remaining line and a newline.
   */
  lemma {:induction false} ParseFromIsTokenWalk(host: string, r: QueryBenchResult, out: string, lines: seq<string>)
    ensures ParseFrom(host, r, out, lines) == WithOutput(ApplyTokens(r, TokensOf(host, lines)), out + JoinLines(lines))
    decreases |lines|
  {
    if lines == [] {
      assert out + JoinLines(lines) == out;
    } else {
      var line, rest := lines[0], lines[1..];
      var own := LineTokens(host, line);
      assert TokensOf(host, lines) == own + TokensOf(host, rest);
      ApplyTokensAppend(r, own, TokensOf(host, rest));
      assert ApplyLine(host, r, line) == ApplyTokens(r, own);
      var out' := out + line + "\n";
      assert JoinLines(lines) == line + "\n" + JoinLines(rest);
      assert out' + JoinLines(rest) == out + JoinLines(lines);
      match ApplyLine(host, r, line)
      case Failure(e) =>
      case Success(r') =>
        assert ParseFrom(host, r, out, lines) == ParseFrom(host, r', out', rest);
        ParseFromIsTokenWalk(host, r', out', rest);
    }
  }

  /** The parse as a whole: the token walk from the initial result, with the output being every line plus a newline. */
  lemma ParseIsTokenWalk(host: string, lines: seq<string>)
    ensures Parse(host, lines) == WithOutput(ApplyTokens(INITIAL, TokensOf(host, lines)), JoinLines(lines))
  {
    ParseFromIsTokenWalk(host, INITIAL, "", lines);
    assert "" + JoinLines(lines) == JoinLines(lines);
  }

  /** The captured output is every input line followed by a newline, matched or not. */
  lemma ParseOutput(host: string, lines: seq<string>)
    ensures Parse(host, lines).Success? ==> Parse(host, lines).value.output == JoinLines(lines)
  {
    ParseIsTokenWalk(host, lines);
  }

  lemma {:induction false} NoHostLineNoTokens(host: string, lines: seq<string>)
    requires forall k :: 0 <= k < |lines| ==> !StartsWith(lines[k], host)
    ensures TokensOf(host, lines) == []
  {
    if lines != [] {
      NoHostLineNoTokens(host, lines[1..]);
    }
  }

  /** Without a line that starts with the host, every field keeps its initial 0. */
  lemma NoHostLineKeepsZeros(host: string, lines: seq<string>)
    requires forall k :: 0 <= k < |lines| ==> !StartsWith(lines[k], host)
    ensures Parse(host, lines) == Success(Parsed(INITIAL, JoinLines(lines)))
  {
    NoHostLineNoTokens(host, lines);
    ParseIsTokenWalk(host, lines);
  }

  /** A line that does not start with the host, wherever it stands, changes neither the fields nor whether the parse throws. */
  lemma OtherLineIgnored(host: string, before: seq<string>, line: string, after: seq<string>)
    requires !StartsWith(line, host)
    ensures Parse(host, before + [line] + after).Success? <==> Parse(host, before + after).Success?
    ensures Parse(host, before + [line] + after).Success? ==>
      Parse(host, before + [line] + after).value.results == Parse(host, before + after).value.results
  {
    TokensOfAppend(host, before + [line], after);
    TokensOfAppend(host, before, [line]);
    TokensOfAppend(host, before, after);
    assert TokensOf(host, [line]) == [];
    assert TokensOf(host, before + [line]) == TokensOf(host, before);
    ParseIsTokenWalk(host, before + [line] + after);
    ParseIsTokenWalk(host, before + after);
  }

  /** The last token carrying label `l`, if any. */
  function LastMatch(tokens: seq<string>, l: Label): Option<string>
    decreases |tokens|
  {
    if tokens == [] then None
    else
      match LastMatch(tokens[1..], l)
      case Some(t) => Some(t)
      case None => if Classify(tokens[0]) == Some(l) then Some(tokens[0]) else None
  }

  /** Assignments overwrite: each field ends with the value of the last token carrying its label, or keeps its value. */
  lemma {:induction false} LastTokenWins(r: QueryBenchResult, tokens: seq<string>, l: Label)
    requires ApplyTokens(r, tokens).Success?
    ensures LastMatch(tokens, l).None? ==> Field(ApplyTokens(r, tokens).value, l) == Field(r, l)
    ensures LastMatch(tokens, l).Some? ==>
      var t := LastMatch(tokens, l).value;
      Classify(t) == Some(l) && TokenValue(l, t).Success? &&
      Field(ApplyTokens(r, tokens).value, l) == TokenValue(l, t).value
    decreases |tokens|
  {
    if tokens != [] {
      var r' := ApplyToken(r, tokens[0]).value;
      LastTokenWins(r', tokens[1..], l);
    }
  }

  /** The walk throws exactly when some token throws. */
  lemma {:induction false} ThrowsIffSomeTokenThrows(r: QueryBenchResult, tokens: seq<string>)
    ensures ApplyTokens(r, tokens).Failure? <==> exists k :: 0 <= k < |tokens| && Throws(tokens[k])
    decreases |tokens|
  {
    if tokens != [] {
      match ApplyToken(r, tokens[0])
      case Failure(e) =>
      case Success(r') =>
        ThrowsIffSomeTokenThrows(r', tokens[1..]);
        assert forall k :: 1 <= k < |tokens| ==> tokens[k] == tokens[1..][k - 1];
        if exists k :: 0 <= k < |tokens| && Throws(tokens[k]) {
          var k :| 0 <= k < |tokens| && Throws(tokens[k]);
          assert tokens[1..][k - 1] == tokens[k];
        }
    }
  }

  /**
   * After a successful parse each field holds the value of the last token of
   * a host line that carries its label, or 0 when there is none.
   */
  lemma ParseFieldIsLastMatch(host: string, lines: seq<string>, l: Label)
    requires Parse(host, lines).Success?
    ensures LastMatch(TokensOf(host, lines), l).None? ==> Field(Parse(host, lines).value.results, l) == Zero
    ensures LastMatch(TokensOf(host, lines), l).Some? ==>
      var t := LastMatch(TokensOf(host, lines), l).value;
      TokenValue(l, t).Success? && Field(Parse(host, lines).value.results, l) == TokenValue(l, t).value
  {
    ParseIsTokenWalk(host, lines);
    LastTokenWins(INITIAL, TokensOf(host, lines), l);
  }

  /** The parse throws exactly when a token of some host line throws. */
  lemma ParseThrows(host: string, lines: seq<string>)
    ensures Parse(host, lines).Failure? <==>
      exists k :: 0 <= k < |TokensOf(host, lines)| && Throws(TokensOf(host, lines)[k])
  {
    ParseIsTokenWalk(host, lines);
    ThrowsIffSomeTokenThrows(INITIAL, TokensOf(host, lines));
  }

  /** Re-reading the captured output as lines and parsing it again gives the same result. */
  lemma ReparseCapturedOutput(host: string, lines: seq<string>)
    requires forall k :: 0 <= k < |lines| ==> '\n' !in lines[k]
    ensures Parse(host, LinesOf(JoinLines(lines))) == Parse(host, lines)
    ensures Parse(host, lines).Success? ==> Parse(host, LinesOf(Parse(host, lines).value.output)) == Parse(host, lines)
  {
    LinesOfJoinLines(lines);
    ParseOutput(host, lines);
  }

  /** A token as the tool prints it: the label's prefix, a space, the value. */
  function Labelled(l: Label, value: string): string {
    Prefix(l) + " " + value
  }

  /** The value a label stores for the value text `value`. */
  function Stored(l: Label, value: string): Num {
    FromText(if StripsDot(l) then ReplaceFirst(value, ".", "") else value)
  }

  /** The space-separated words of a label's prefix. */
  function PrefixWords(l: Label): seq<string> {
    match l
    case ResultRps => ["result", "RPS:"]
    case ResultMibPerSecond => ["result", "MiB/s:"]
    case _ => [Prefix(l)]
  }

  /**
   * The words of a token that starts with a one-word prefix: the prefix, the
   * value, and the words of whatever follows a further space.
   */
  lemma OneWordSegments(word: string, value: string, tail: string)
    requires ' ' !in word && ' ' !in value
    requires tail == [] || tail[0] == ' '
    ensures Split(word + " " + value + tail, " ") ==
      [word, value] + (if tail == [] then [] else Split(tail[1..], " "))
  {
    assert word + " " + value + tail == word + " " + (value + tail);
    SplitBefore(word, " ", value + tail);
    if tail == [] {
      assert value + tail == value;
      SplitWhole(value, " ");
    } else {
      assert value + tail == value + " " + tail[1..];
      SplitBefore(value, " ", tail[1..]);
    }
  }

  /** The same for a two-word prefix such as `result RPS:`. */
  lemma TwoWordSegments(word: string, word': string, value: string, tail: string)
    requires ' ' !in word && ' ' !in word' && ' ' !in value
    requires tail == [] || tail[0] == ' '
    ensures Split(word + " " + word' + " " + value + tail, " ") ==
      [word, word', value] + (if tail == [] then [] else Split(tail[1..], " "))
  {
    assert word + " " + word' + " " + value + tail == word + " " + (word' + " " + value + tail);
    SplitBefore(word, " ", word' + " " + value + tail);
    OneWordSegments(word', value, tail);
  }

  /** A prefix is its one word, or its two words joined by a space; no word holds a space. */
  lemma PrefixShape(l: Label)
    ensures |PrefixWords(l)| == 1 ==> Prefix(l) == PrefixWords(l)[0]
    ensures |PrefixWords(l)| == 2 ==> Prefix(l) == PrefixWords(l)[0] + " " + PrefixWords(l)[1]
    ensures 1 <= |PrefixWords(l)| <= 2 && SegmentIndex(l) == |PrefixWords(l)|
    ensures forall k :: 0 <= k < |PrefixWords(l)| ==> ' ' !in PrefixWords(l)[k]
  {
    match l
    case ResultRps => assert "result RPS:" == "result" + " " + "RPS:";
    case ResultMibPerSecond => assert "result MiB/s:" == "result" + " " + "MiB/s:";
    case _ =>
  }

  /** The space-separated segments of a labelled token followed by `tail`. */
  lemma LabelledSegments(l: Label, value: string, tail: string)
    requires ' ' !in value
    requires tail == [] || tail[0] == ' '
    ensures Split(Labelled(l, value) + tail, " ") ==
      PrefixWords(l) + [value] + (if tail == [] then [] else Split(tail[1..], " "))
  {
    var words := PrefixWords(l);
    PrefixShape(l);
    if |words| == 1 {
      OneWordSegments(words[0], value, tail);
      assert [words[0], value] == words + [value];
    } else {
      TwoWordSegments(words[0], words[1], value, tail);
      assert [words[0], words[1], value] == words + [value];
    }
  }

  /**
   * A token made of a label's prefix, a space, a space-free value and then
   * nothing or further space-separated words is classified as that label and
   * stores that value: the segment after the prefix is read, whatever follows.
   */
  lemma LabelledTokenValue(l: Label, value: string, tail: string)
    requires ' ' !in value
    requires tail == [] || tail[0] == ' '
    ensures Classify(Labelled(l, value) + tail) == Some(l)
    ensures TokenValue(l, Labelled(l, value) + tail) == Success(Stored(l, value))
  {
    var token := Labelled(l, value) + tail;
    assert token == Prefix(l) + (" " + value + tail);
    ClassifyByPrefix(Prefix(l), " " + value + tail, l);
    LabelledSegments(l, value, tail);
    PrefixShape(l);
    var segments := Split(token, " ");
    assert segments[SegmentIndex(l)] == value;
  }

  /** A token that starts with a label's prefix is classified as that label. */
  lemma ClassifyByPrefix(prefix: string, rest: string, l: Label)
    requires prefix == Prefix(l)
    ensures Classify(prefix + rest) == Some(l)
  {
    var token := prefix + rest;
    assert token[..|prefix|] == prefix;
    PrefixesExclusive(token, Classify(token).value, l);
  }

  /**
   * A token that is a label's prefix with no space-separated value after it:
   * `+undefined` gives NaN, except for the two labels whose `.replace` on
   * `undefined` throws.
   */
  lemma MissingValue(l: Label, rest: string)
    requires ' ' !in rest
    ensures Classify(Prefix(l) + rest) == Some(l)
    ensures TokenValue(l, Prefix(l) + rest) ==
      if StripsDot(l) then Failure(ReplaceOnUndefined(l)) else Success(NaN)
  {
    var token := Prefix(l) + rest;
    ClassifyByPrefix(Prefix(l), rest, l);
    var words := PrefixWords(l);
    PrefixShape(l);
    if |words| == 1 {
      assert ' ' !in token;
      SplitWhole(token, " ");
    } else {
      assert token == words[0] + " " + (words[1] + rest);
      assert ' ' !in words[1] + rest;
      SplitBefore(words[0], " ", words[1] + rest);
      SplitWhole(words[1] + rest, " ");
    }
  }

  /** The summary line the tool prints: a first token, then the six labelled values in the tool's order. */
  function SummaryTokens(first: string, values: seq<string>): seq<string>
    requires |values| == 6
  {
    [first] + ([Labelled(Queries, values[0])] + ([Labelled(Qps, values[1])] + ([Labelled(Rps, values[2])] +
      ([Labelled(MibPerSecond, values[3])] + ([Labelled(ResultRps, values[4])] + [Labelled(ResultMibPerSecond, values[5])])))))
  }

  function SummaryLine(first: string, values: seq<string>): string
    requires |values| == 6
  {
    Join(SummaryTokens(first, values), ", ")
  }

  lemma SummaryLineTokens(first: string, values: seq<string>)
    requires |values| == 6
    requires forall k :: 0 <= k < 6 ==> ',' !in values[k]
    requires ',' !in first
    ensures Split(SummaryLine(first, values), ", ") == SummaryTokens(first, values)
    ensures StartsWith(SummaryLine(first, values), first)
  {
    var rest5 := [Labelled(ResultMibPerSecond, values[5])];
    var rest4 := [Labelled(ResultRps, values[4])] + rest5;
    var rest3 := [Labelled(MibPerSecond, values[3])] + rest4;
    var rest2 := [Labelled(Rps, values[2])] + rest3;
    var rest1 := [Labelled(Qps, values[1])] + rest2;
    var rest0 := [Labelled(Queries, values[0])] + rest1;
    CommaFreeCons(Labelled(ResultMibPerSecond, values[5]), []);
    assert rest5 == [Labelled(ResultMibPerSecond, values[5])] + [];
    CommaFreeCons(Labelled(ResultRps, values[4]), rest5);
    CommaFreeCons(Labelled(MibPerSecond, values[3]), rest4);
    CommaFreeCons(Labelled(Rps, values[2]), rest3);
    CommaFreeCons(Labelled(Qps, values[1]), rest2);
    CommaFreeCons(Labelled(Queries, values[0]), rest1);
    CommaFreeCons(first, rest0);
    SplitJoinInverse([first] + rest0, ", ");
    JoinCons(first, rest0, ", ");
    var line := SummaryLine(first, values);
    assert line[..|first|] == first;
  }

  predicate CommaFree(tokens: seq<string>) {
    forall k :: 0 <= k < |tokens| ==> ',' !in tokens[k]
  }

  lemma CommaFreeCons(head: string, tail: seq<string>)
    requires ',' !in head && CommaFree(tail)
    ensures CommaFree([head] + tail)
  {
    assert forall k :: 1 <= k < |tail| + 1 ==> ([head] + tail)[k] == tail[k - 1];
  }

  /** The six labelled tokens after an unlabelled first token set all six fields. */
  lemma SummaryTokensApplied(first: string, values: seq<string>, r: QueryBenchResult)
    requires |values| == 6
    requires forall k :: 0 <= k < 6 ==> ' ' !in values[k]
    requires Classify(first).None?
    ensures ApplyTokens(r, SummaryTokens(first, values)) == Success(QueryBenchResult(
      Stored(Queries, values[0]), Stored(Qps, values[1]), Stored(Rps, values[2]),
      Stored(MibPerSecond, values[3]), Stored(ResultRps, values[4]), Stored(ResultMibPerSecond, values[5])))
  {
    var tokens := SummaryTokens(first, values);
    var r1 := WithField(r, Queries, Stored(Queries, values[0]));
    var r2 := WithField(r1, Qps, Stored(Qps, values[1]));
    var r3 := WithField(r2, Rps, Stored(Rps, values[2]));
    var r4 := WithField(r3, MibPerSecond, Stored(MibPerSecond, values[3]));
    var r5 := WithField(r4, ResultRps, Stored(ResultRps, values[4]));
    var r6 := WithField(r5, ResultMibPerSecond, Stored(ResultMibPerSecond, values[5]));
    var rest5 := [Labelled(ResultMibPerSecond, values[5])];
    var rest4 := [Labelled(ResultRps, values[4])] + rest5;
    var rest3 := [Labelled(MibPerSecond, values[3])] + rest4;
    var rest2 := [Labelled(Rps, values[2])] + rest3;
    var rest1 := [Labelled(Qps, values[1])] + rest2;
    var rest0 := [Labelled(Queries, values[0])] + rest1;
    assert tokens == [first] + rest0;
    assert ([first] + rest0)[1..] == rest0;
    ApplyLabelledToken(r, Queries, values[0], rest1);
    ApplyLabelledToken(r1, Qps, values[1], rest2);
    ApplyLabelledToken(r2, Rps, values[2], rest3);
    ApplyLabelledToken(r3, MibPerSecond, values[3], rest4);
    ApplyLabelledToken(r4, ResultRps, values[4], rest5);
    ApplyLabelledToken(r5, ResultMibPerSecond, values[5], []);
    assert rest5 == [Labelled(ResultMibPerSecond, values[5])] + [];
    assert r6 == QueryBenchResult(
      Stored(Queries, values[0]), Stored(Qps, values[1]), Stored(Rps, values[2]),
      Stored(MibPerSecond, values[3]), Stored(ResultRps, values[4]), Stored(ResultMibPerSecond, values[5]));
  }

  /** A labelled token with a space-free value stores that value and lets the walk go on. */
  lemma ApplyLabelledToken(r: QueryBenchResult, l: Label, value: string, rest: seq<string>)
    requires ' ' !in value
    ensures ApplyTokens(r, [Labelled(l, value)] + rest) == ApplyTokens(WithField(r, l, Stored(l, value)), rest)
  {
    LabelledTokenValue(l, value, []);
    assert Labelled(l, value) + [] == Labelled(l, value);
    assert ([Labelled(l, value)] + rest)[1..] == rest;
  }

  /**
   * A well-formed summary line whose first token starts with the host sets
   * all six fields from its values: the count and the result MiB/s without
   * their first ".", the other four as printed.
   */
  lemma WellFormedSummaryLine(host: string, first: string, values: seq<string>, r: QueryBenchResult)
    requires |values| == 6
    requires forall k :: 0 <= k < 6 ==> ' ' !in values[k] && ',' !in values[k]
    requires StartsWith(first, host) && ',' !in first && Classify(first).None?
    ensures ApplyLine(host, r, SummaryLine(first, values)) == Success(QueryBenchResult(
      Stored(Queries, values[0]), Stored(Qps, values[1]), Stored(Rps, values[2]),
      Stored(MibPerSecond, values[3]), Stored(ResultRps, values[4]), Stored(ResultMibPerSecond, values[5])))
  {
    var line := SummaryLine(first, values);
    SummaryLineTokens(first, values);
    assert line[..|host|] == line[..|first|][..|host|];
    SummaryTokensApplied(first, values, r);
  }

  const EXAMPLE_VALUES := ["1.234", "55.5", "1000", "12.3", "200", "3.456"]

  const EXAMPLE_FIELDS := QueryBenchResult(FromText("1234"), FromText("55.5"), FromText("1000"), FromText("12.3"), FromText("200"), FromText("3456"))

  lemma ExampleLineStored()
    ensures ApplyLine("h", INITIAL, SummaryLine("h", EXAMPLE_VALUES)) == Success(QueryBenchResult(
      Stored(Queries, "1.234"), Stored(Qps, "55.5"), Stored(Rps, "1000"),
      Stored(MibPerSecond, "12.3"), Stored(ResultRps, "200"), Stored(ResultMibPerSecond, "3.456")))
  {
    WellFormedSummaryLine("h", "h", EXAMPLE_VALUES, INITIAL);
  }

  lemma ExampleCountStored(value: string)
    requires value == "1.234"
    ensures Stored(Queries, value) == FromText("1234")
  {
    var before, after := value[..1], value[2..];
    assert value == before + "." + after;
    ReplaceFirstDotAt(before, after);
    assert before + after == "1234";
  }

  lemma ExampleResultMibStored(value: string)
    requires value == "3.456"
    ensures Stored(ResultMibPerSecond, value) == FromText("3456")
  {
    var before, after := value[..1], value[2..];
    assert value == before + "." + after;
    ReplaceFirstDotAt(before, after);
    assert before + after == "3456";
  }

  lemma ExampleLineFields()
    ensures ApplyLine("h", INITIAL, SummaryLine("h", EXAMPLE_VALUES)) == Success(EXAMPLE_FIELDS)
  {
    ExampleLineStored();
    ExampleCountStored("1.234");
    ExampleResultMibStored("3.456");
  }

  /** Three lines, of which only the middle one starts with the host. */
  lemma {:induction false} ParseThreeLines(host: string, a: string, line: string, b: string, fields: QueryBenchResult)
    requires !StartsWith(a, host) && !StartsWith(b, host)
    requires ApplyLine(host, INITIAL, line) == Success(fields)
    ensures Parse(host, [a, line, b]) == Success(Parsed(fields, a + "\n" + line + "\n" + b + "\n"))
  {
    var out1 := "" + a + "\n";
    var out2 := out1 + line + "\n";
    var out3 := out2 + b + "\n";
    assert out3 == a + "\n" + line + "\n" + b + "\n";
    assert [a, line, b][1..] == [line, b] && [line, b][1..] == [b] && [b][1..] == [];
    assert ParseFrom(host, fields, out3, []) == Success(Parsed(fields, out3));
    assert ParseFrom(host, fields, out2, [b]) == Success(Parsed(fields, out3));
    assert ParseFrom(host, INITIAL, out1, [line, b]) == Success(Parsed(fields, out3));
  }

  lemma ExampleAround(line: string, fields: QueryBenchResult)
    requires ApplyLine("h", INITIAL, line) == Success(fields)
    ensures Parse("h", ["noise", line, "done"]) == Success(Parsed(fields, "noise\n" + line + "\ndone\n"))
  {
    assert "noise"[..1][0] == 'n' && "done"[..1][0] == 'd';
    ParseThreeLines("h", "noise", line, "done", fields);
    assert "noise" + "\n" == "noise\n";
    assert "\n" + "done" + "\n" == "\ndone\n";
    assert "noise" + "\n" + line + "\n" + "done" + "\n" == "noise\n" + line + "\ndone\n";
  }

  /**
   * The summary line "h, queries 1.234, QPS: 55.5, RPS: 1000, MiB/s: 12.3,
   * result RPS: 200, result MiB/s: 3.456" between two unrelated lines: the
   * six fields, and an output that keeps all three lines.
   */
  lemma SummaryLineExample()
    ensures Parse("h", ["noise", SummaryLine("h", EXAMPLE_VALUES), "done"]) ==
      Success(Parsed(EXAMPLE_FIELDS, "noise\n" + SummaryLine("h", EXAMPLE_VALUES) + "\ndone\n"))
  {
    ExampleLineFields();
    ExampleAround(SummaryLine("h", EXAMPLE_VALUES), EXAMPLE_FIELDS);
  }
}
