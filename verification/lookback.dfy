/**
 The multi-line half of `ParseLine`: when the line of a finding carries no
 `DevSkim:` keyword, the annotation may sit on the line above, either in a
 single-line comment or somewhere inside a block comment that ends there.

 Lines are numbered from 1 as in `TextContainer.GetLineContent`; `lines[k]` is
 line `k + 1`. The language's comment markers come in as a `CommentMarkers` value.
 The upward walk looks at each line only through its `LineKind`.
 */
module Lookback {
  import opened Options
  import opened Text
  import opened Grammar

  /** `Language.GetCommentPrefix`, `GetCommentSuffix` and `GetCommentInline` of the text's language. */
  datatype CommentMarkers = CommentMarkers(prefix: string, suffix: string, inline: string)

  /**
   What the upward walk makes of a line: it holds an annotation the grammar matches,
   or (failing that) it opens the block comment, or it is passed over.
   */
  datatype LineKind = Annotated | Opening | Plain

  function KindOf(line: string, prefix: string): LineKind {
    if Matches(line) then Annotated
    else if Contains(line, prefix) then Opening
    else Plain
  }

  /** The kind of every line, for the comment prefix `prefix`. */
  function KindsOf(lines: seq<string>, prefix: string): seq<LineKind> {
    seq(|lines|, k requires 0 <= k < |lines| => KindOf(lines[k], prefix))
  }

  /** Walking up from `kinds[n - 1]`, the first line that is not plain is `kinds[k]`, and it is annotated. */
  ghost predicate Adopts(kinds: seq<LineKind>, n: nat, k: int) {
    && 0 <= k < n <= |kinds|
    && kinds[k] == Annotated
    && forall j :: k < j < n ==> kinds[j] == Plain
  }

  /** Walking up from `kinds[n - 1]` reaches the comment opening or runs past line 1 first. */
  ghost predicate GivesUp(kinds: seq<LineKind>, n: nat) {
    && n <= |kinds|
    && ((forall j :: 0 <= j < n ==> kinds[j] == Plain)
        || exists p :: 0 <= p < n && kinds[p] == Opening && forall j :: p < j < n ==> kinds[j] == Plain)
  }

  /**
   The loop over `_lineNumber`: starting at `kinds[n - 1]` and moving up, adopt the
   first annotated line; stop at a line that opens the comment, or after line 1.
   */
  function WalkUp(kinds: seq<LineKind>, n: nat): (r: Option<nat>)
    requires n <= |kinds|
    ensures r.Some? ==> Adopts(kinds, n, r.value)
    ensures r.None? ==> GivesUp(kinds, n)
    decreases n
  {
    if n == 0 then None
    else
      match kinds[n - 1]
      case Annotated => Some(n - 1)
      case Opening => None
      case Plain =>
        var r := WalkUp(kinds, n - 1);
        if r.None? then
          GivesUpPastPlainLine(kinds, n);
          r
        else
          r
  }

  /** Giving up below a plain line means giving up from that line too. */
  lemma GivesUpPastPlainLine(kinds: seq<LineKind>, n: nat)
    requires 0 < n <= |kinds|
    requires kinds[n - 1] == Plain && GivesUp(kinds, n - 1)
    ensures GivesUp(kinds, n)
  {
    if exists p :: 0 <= p < n - 1 && kinds[p] == Opening && forall j :: p < j < n - 1 ==> kinds[j] == Plain {
      var p :| 0 <= p < n - 1 && kinds[p] == Opening && forall j :: p < j < n - 1 ==> kinds[j] == Plain;
      assert forall j :: p < j < n ==> kinds[j] == Plain;
    }
  }

  /** The two outcomes of the walk exclude each other, and the adopted line is unique. */
  lemma WalkOutcomesAreExclusive(kinds: seq<LineKind>, n: nat, k: int, k': int)
    requires Adopts(kinds, n, k)
    ensures !GivesUp(kinds, n)
    ensures Adopts(kinds, n, k') ==> k == k'
  {
  }

  /**
   The line text `ParseLine` goes on to match, for the finding on line `lineNumber`.
   The walk is tried only when the line has no `DevSkim:` keyword and is not line 1;
   a line with the keyword that fails the grammar is kept as it is.
   */
  function EffectiveLine(lines: seq<string>, lineNumber: int, markers: CommentMarkers): (r: string)
    requires 1 <= lineNumber <= |lines|
    ensures Contains(lines[lineNumber - 1], Prefix) || lineNumber == 1 ==> r == lines[lineNumber - 1]
    ensures !Contains(lines[lineNumber - 1], Prefix) && lineNumber > 1 && Contains(lines[lineNumber - 2], markers.suffix) ==>
      var kinds := KindsOf(lines, markers.prefix);
      && (r == lines[lineNumber - 1] <==> GivesUp(kinds, lineNumber - 1))
      && (r != lines[lineNumber - 1] ==> exists k :: Adopts(kinds, lineNumber - 1, k) && r == lines[k])
    ensures !Contains(lines[lineNumber - 1], Prefix) && lineNumber > 1 && !Contains(lines[lineNumber - 2], markers.suffix) ==>
      r == if Contains(lines[lineNumber - 2], markers.inline) then lines[lineNumber - 2] else lines[lineNumber - 1]
  {
    var target := lines[lineNumber - 1];
    if Contains(target, Prefix) || lineNumber == 1 then target
    else
      var previous := lines[lineNumber - 2];
      if Contains(previous, markers.suffix) then
        var kinds := KindsOf(lines, markers.prefix);
        match WalkUp(kinds, lineNumber - 1)
        case Some(k) =>
          assert kinds[k] == KindOf(lines[k], markers.prefix);
          MatchingLineHasPrefix(lines[k]);
          WalkOutcomesAreExclusive(kinds, lineNumber - 1, k, k);
          lines[k]
        case None => target
      else if Contains(previous, markers.inline) then previous
      else target
  }
}
