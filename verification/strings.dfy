/**
 * The few JavaScript string operations the benchmark parser relies on
 * (`startsWith`, `indexOf`, `split` and `replace` with a string pattern),
 * and the joining and re-splitting of lines that links the parser's captured
 * output to its input.
 */
module Strings {
  import opened Wrappers

  /** `s.startsWith(prefix)` */
  predicate StartsWith(s: string, prefix: string) {
    |prefix| <= |s| && s[..|prefix|] == prefix
  }

  /** `pat` occurs in `s` at index `i`. */
  predicate OccursAt(s: string, pat: string, i: nat) {
    i + |pat| <= |s| && s[i..i + |pat|] == pat
  }

  /** The first occurrence of `pat` in `s` at or after `from`. */
  function FindFrom(s: string, pat: string, from: nat): (r: Option<nat>)
    requires from <= |s|
    ensures r.Some? ==> from <= r.value && OccursAt(s, pat, r.value)
    ensures r.Some? ==> forall j :: from <= j < r.value ==> !OccursAt(s, pat, j)
    ensures r.None? ==> forall j :: from <= j <= |s| ==> !OccursAt(s, pat, j)
    decreases |s| - from
  {
    if from + |pat| > |s| then None
    else if s[from..from + |pat|] == pat then Some(from)
    else FindFrom(s, pat, from + 1)
  }

  /** `s.indexOf(pat)`, with -1 written as None. */
  function IndexOf(s: string, pat: string): Option<nat> {
    FindFrom(s, pat, 0)
  }

  /** `s.split(sep)` for a non-empty separator: the pieces between successive non-overlapping occurrences. */
  function Split(s: string, sep: string): seq<string>
    requires |sep| > 0
    decreases |s|
  {
    match IndexOf(s, sep)
    case None => [s]
    case Some(i) => [s[..i]] + Split(s[i + |sep|..], sep)
  }

  /** `parts.join(sep)` */
  function Join(parts: seq<string>, sep: string): string {
    if |parts| == 0 then ""
    else if |parts| == 1 then parts[0]
    else parts[0] + sep + Join(parts[1..], sep)
  }

  /** `s` contains `pat` somewhere. */
  predicate Contains(s: string, pat: string) {
    exists j :: 0 <= j <= |s| && OccursAt(s, pat, j)
  }

  /** `s.replace(pat, rep)` with a string pattern: only the first occurrence is replaced. */
  function ReplaceFirst(s: string, pat: string, rep: string): string {
    match IndexOf(s, pat)
    case None => s
    case Some(i) => s[..i] + rep + s[i + |pat|..]
  }

  /** Unfolding `Split` at the first occurrence of the separator. */
  lemma SplitAt(s: string, sep: string, i: nat)
    requires |sep| > 0
    requires IndexOf(s, sep) == Some(i)
    ensures i + |sep| <= |s|
    ensures Split(s, sep) == [s[..i]] + Split(s[i + |sep|..], sep)
    ensures s == s[..i] + sep + s[i + |sep|..]
  {
    assert OccursAt(s, sep, i);
    var j := i + |sep|;
    assert s[..j] == s[..i] + s[i..j];
    assert s == s[..j] + s[j..];
  }

  /** Splitting never loses text: joining the pieces back with the separator gives the input. */
  lemma {:induction false} SplitJoin(s: string, sep: string)
    requires |sep| > 0
    ensures |Split(s, sep)| >= 1
    ensures Join(Split(s, sep), sep) == s
    decreases |s|
  {
    match IndexOf(s, sep)
    case None =>
    case Some(i) =>
      SplitAt(s, sep, i);
      var rest := s[i + |sep|..];
      SplitJoin(rest, sep);
      JoinCons(s[..i], Split(rest, sep), sep);
  }

  lemma JoinCons(head: string, tail: seq<string>, sep: string)
    requires |tail| >= 1
    ensures Join([head] + tail, sep) == head + sep + Join(tail, sep)
  {
    assert ([head] + tail)[1..] == tail;
  }

  /** No piece produced by splitting contains the separator. */
  lemma {:induction false} SplitPiecesAvoidSeparator(s: string, sep: string)
    requires |sep| > 0
    ensures forall k :: 0 <= k < |Split(s, sep)| ==> !Contains(Split(s, sep)[k], sep)
    decreases |s|
  {
    match IndexOf(s, sep)
    case None =>
    case Some(i) =>
      var rest := s[i + |sep|..];
      SplitPiecesAvoidSeparator(rest, sep);
      var head := s[..i];
      forall j | 0 <= j <= |head|
        ensures !OccursAt(head, sep, j)
      {
        if OccursAt(head, sep, j) {
          assert s[j..j + |sep|] == head[j..j + |sep|];
          assert OccursAt(s, sep, j);
        }
      }
  }

  /**
   * `s.replace(".", "")`: when `s` has a dot, the text is `s` without its
   * first dot (later dots stay); otherwise it is `s` itself.
   */
  lemma RemoveFirstDot(s: string)
    ensures '.' !in s ==> ReplaceFirst(s, ".", "") == s
    ensures forall i :: 0 <= i < |s| && s[i] == '.' && '.' !in s[..i] ==>
      ReplaceFirst(s, ".", "") == s[..i] + s[i + 1..]
  {
    forall i | 0 <= i < |s| && s[i] == '.'
      ensures OccursAt(s, ".", i)
    {
      assert s[i..i + 1] == [s[i]];
    }
    forall k: nat | OccursAt(s, ".", k)
      ensures s[k] == '.'
    {
      assert s[k] == s[k..k + 1][0];
    }
    forall i, j | 0 <= j < i <= |s|
      ensures s[..i][j] == s[j]
    {
    }
  }

  /** The raw output the parser captures: every line followed by a newline. */
  function JoinLines(lines: seq<string>): string {
    if lines == [] then "" else lines[0] + "\n" + JoinLines(lines[1..])
  }

  /** Reading text back as lines: cut at each newline; a final newline ends the last line. */
  function LinesOf(text: string): seq<string>
    decreases |text|
  {
    if text == [] then []
    else match IndexOf(text, "\n")
      case None => [text]
      case Some(i) => [text[..i]] + LinesOf(text[i + 1..])
  }

  /** Lines without newlines are recovered exactly from their captured output. */
  lemma {:induction false} LinesOfJoinLines(lines: seq<string>)
    requires forall k :: 0 <= k < |lines| ==> '\n' !in lines[k]
    ensures LinesOf(JoinLines(lines)) == lines
  {
    if lines != [] {
      var first, rest := lines[0], JoinLines(lines[1..]);
      var text := first + "\n" + rest;
      assert JoinLines(lines) == text;
      assert OccursAt(text, "\n", |first|) by {
        assert text[|first|..|first| + 1] == "\n";
      }
      match IndexOf(text, "\n")
      case None =>
      case Some(i) =>
        assert text[i] == text[i..i + 1][0];
        assert forall j :: 0 <= j < |first| ==> first[j] == text[j];
        assert i == |first|;
        assert text[..i] == first;
        assert text[i + 1..] == rest;
        LinesOfJoinLines(lines[1..]);
    }
  }

  /** A piece free of the separator's first character ends at the separator that follows it. */
  lemma SplitBefore(piece: string, sep: string, rest: string)
    requires |sep| > 0 && sep[0] !in piece
    ensures Split(piece + sep + rest, sep) == [piece] + Split(rest, sep)
  {
    var s := piece + sep + rest;
    assert s[|piece|..|piece| + |sep|] == sep;
    assert OccursAt(s, sep, |piece|);
    forall j | 0 <= j < |piece|
      ensures !OccursAt(s, sep, j)
    {
      assert s[j] == piece[j];
      assert j + |sep| <= |s| ==> s[j..j + |sep|][0] == s[j];
    }
    var found := IndexOf(s, sep);
    assert found.Some? && found.value <= |piece|;
    assert found == Some(|piece|);
    SplitAt(s, sep, |piece|);
    assert s[..|piece|] == piece;
    assert s[|piece| + |sep|..] == rest;
  }

  /** Text free of the separator's first character is a single piece. */
  lemma SplitWhole(s: string, sep: string)
    requires |sep| > 0 && sep[0] !in s
    ensures Split(s, sep) == [s]
  {
    assert forall j :: 0 <= j < |s| && j + |sep| <= |s| ==> s[j..j + |sep|][0] == s[j];
  }

  /** Replacing the first dot of text that has one, preceded by dot-free text. */
  lemma ReplaceFirstDotAt(before: string, after: string)
    requires '.' !in before
    ensures ReplaceFirst(before + "." + after, ".", "") == before + after
  {
    var s := before + "." + after;
    RemoveFirstDot(s);
    assert s[|before|] == '.';
    assert s[..|before|] == before;
    assert s[|before| + 1..] == after;
  }

  /** Pieces that avoid the separator's first character are recovered by splitting their join. */
  lemma {:induction false} SplitJoinInverse(parts: seq<string>, sep: string)
    requires |sep| > 0 && |parts| >= 1
    requires forall k :: 0 <= k < |parts| ==> sep[0] !in parts[k]
    ensures Split(Join(parts, sep), sep) == parts
  {
    if |parts| == 1 {
      SplitWhole(parts[0], sep);
    } else {
      SplitJoinInverse(parts[1..], sep);
      SplitBefore(parts[0], sep, Join(parts[1..], sep));
    }
  }
}
