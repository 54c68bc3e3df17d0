/**
 The suppression grammar

     DevSkim:\s+ignore\s([a-zA-Z\d,:]+)(\s+until\s\d{4}-\d{2}-\d{2}|)

 written out by hand instead of run through a regular-expression engine.

 `MatchesAt` is the declarative reading: a `Shape` fixes the lengths of the three
 variable parts (the white space after `DevSkim:`, the ID list, and the white
 space before `until` when the `until` branch is taken), and `MatchesAt` says the
 text at a position has that shape. `Precedes` is the order in which a
 backtracking engine tries shapes: greedy quantifiers try longer runs first and
 the alternation tries the `until` branch before the empty one. `TryAt` computes
 the first shape in that order at one position and `FindMatch` the leftmost
 position where any shape fits, which is what `Regex.Match` returns.
 */
module Grammar {
  import opened Options
  import opened Text
  import opened Dates

  const Prefix: string := "DevSkim:"
  const Ignore: string := "ignore"
  const Until: string := "until"

  /** Lengths of the variable parts of one way of matching the grammar. */
  datatype Shape = Shape(gap: nat, idLength: nat, untilGap: Option<nat>)

  /** A successful match: where it starts and how its parts are laid out. */
  datatype Match = Match(start: nat, shape: Shape) {

    /** Index of group 1, the ID list. */
    function IdStart(): nat {
      start + |Prefix| + shape.gap + |Ignore| + 1
    }

    /** End of group 1, which is also where group 2 starts. */
    function IdEnd(): nat {
      IdStart() + shape.idLength
    }

    /** End of the whole match, which is also the end of group 2. */
    function End(): nat {
      match shape.untilGap
      case None => IdEnd()
      case Some(g) => IdEnd() + g + |Until| + 1 + 10
    }

    function Length(): nat {
      End() - start
    }

    /** Index of the date in the `until` clause. */
    function DateStart(): nat
      requires shape.untilGap.Some?
    {
      IdEnd() + shape.untilGap.value + |Until| + 1
    }
  }

  /** Text starting at `k` is `\s+until\s\d{4}-\d{2}-\d{2}` with `g` leading white-space characters. */
  predicate UntilClauseAt(s: string, k: nat, g: nat) {
    && g >= 1
    && k + g + |Until| + 1 + 10 <= |s|
    && AllIn(s, k, k + g, Space)
    && HasAt(s, k + g, Until)
    && IsSpace(s[k + g + |Until|])
    && DateAt(s, k + g + |Until| + 1)
  }

  /** Text starting at `i` is `DevSkim:\s+ignore\s` with `gap` white-space characters after the colon. */
  predicate HeadFits(s: string, i: nat, gap: nat) {
    && HasAt(s, i, Prefix)
    && gap >= 1
    && i + |Prefix| + gap + |Ignore| + 1 <= |s|
    && AllIn(s, i + |Prefix|, i + |Prefix| + gap, Space)
    && HasAt(s, i + |Prefix| + gap, Ignore)
    && IsSpace(s[i + |Prefix| + gap + |Ignore|])
  }

  /** Text starting at `k` is `[a-zA-Z\d,:]+` with `n` characters. */
  predicate IdsFit(s: string, k: nat, n: nat) {
    n >= 1 && k + n <= |s| && AllIn(s, k, k + n, IdChar)
  }

  /** The grammar matches the text at `i` with the part lengths given by `sh`. */
  predicate MatchesAt(s: string, i: int, sh: Shape) {
    && 0 <= i
    && HeadFits(s, i, sh.gap)
    && IdsFit(s, Match(i, sh).IdStart(), sh.idLength)
    && (sh.untilGap.Some? ==> UntilClauseAt(s, Match(i, sh).IdEnd(), sh.untilGap.value))
  }

  /** The date of a matched `until` clause lies inside the text and has the date shape. */
  lemma UntilDateInside(s: string, m: Match)
    requires MatchesAt(s, m.start, m.shape) && m.shape.untilGap.Some?
    ensures m.DateStart() + 10 == m.End() <= |s|
    ensures IsDateText(s[m.DateStart()..m.DateStart() + 10])
  {
    DateAtIsDateText(s, m.DateStart());
  }

  /** `a` is tried no later than `b` by a backtracking engine. */
  predicate Precedes(a: Shape, b: Shape) {
    || a.gap > b.gap
    || (a.gap == b.gap && a.idLength > b.idLength)
    || (a.gap == b.gap && a.idLength == b.idLength && UntilPrecedes(a.untilGap, b.untilGap))
  }

  predicate UntilPrecedes(a: Option<nat>, b: Option<nat>) {
    b.None? || (a.Some? && a.value >= b.value)
  }

  /** The engine's attempt at the head: the maximal white-space run after `DevSkim:`, if the head fits with it. */
  function HeadAt(s: string, i: nat): (r: Option<nat>)
    ensures r.Some? ==> HeadFits(s, i, r.value)
  {
    if !HasAt(s, i, Prefix) then None
    else
      var gap := Span(s, i + |Prefix|, Space);
      if HeadFits(s, i, gap) then Some(gap) else None
  }

  /** The engine's attempt at group 2: the `until` branch with a maximal white-space run if it fits, else none. */
  function UntilAt(s: string, k: nat): (r: Option<nat>)
    requires k <= |s|
    ensures r.Some? ==> UntilClauseAt(s, k, r.value)
  {
    var g := Span(s, k, Space);
    if UntilClauseAt(s, k, g) then Some(g) else None
  }

  /** A head that fits has its white-space run maximal, since `ignore` starts with a letter. */
  lemma HeadGapIsForced(s: string, i: nat, gap: nat)
    requires HeadFits(s, i, gap)
    ensures HeadAt(s, i) == Some(gap)
  {
    HasAtChar(s, i + |Prefix| + gap, Ignore, 0);
    SpanIsRun(s, i + |Prefix|, Space, gap);
  }

  /** An `until` clause that fits has its white-space run maximal, since `until` starts with a letter. */
  lemma UntilGapIsForced(s: string, k: nat, g: nat)
    requires UntilClauseAt(s, k, g)
    ensures UntilAt(s, k) == Some(g)
  {
    HasAtChar(s, k + g, Until, 0);
    SpanIsRun(s, k, Space, g);
  }

  /**
   The match a backtracking engine finds when it starts at `i`: the shape that
   comes first in the engine's order among all shapes that fit, or none if none
   fits (see `TryAtIsFirstShape`).
   */
  function TryAt(s: string, i: nat): Option<Shape> {
    match HeadAt(s, i)
    case None => None
    case Some(gap) => TailAt(s, i + |Prefix| + gap + |Ignore| + 1, gap)
  }

  /** The rest of an attempt, once the head has matched with `gap`: the ID list from `idStart`, then the optional date. */
  function TailAt(s: string, idStart: nat, gap: nat): Option<Shape>
    requires idStart <= |s|
  {
    var idLength := Span(s, idStart, IdChar);
    if idLength == 0 then None
    else Some(Shape(gap, idLength, UntilAt(s, idStart + idLength)))
  }

  lemma TryAtSound(s: string, i: nat)
    ensures TryAt(s, i).Some? ==> MatchesAt(s, i, TryAt(s, i).value)
  {
    match HeadAt(s, i)
    case None =>
    case Some(gap) =>
      var idStart := i + |Prefix| + gap + |Ignore| + 1;
      var t := TailAt(s, idStart, gap);
      TailAtSound(s, idStart, gap);
      if t.Some? {
        MatchesAtIntro(s, i, t.value);
      }
  }

  /** `MatchesAt` from its three parts, with the offsets written out. */
  lemma MatchesAtIntro(s: string, i: nat, sh: Shape)
    requires HeadFits(s, i, sh.gap)
    requires IdsFit(s, i + |Prefix| + sh.gap + |Ignore| + 1, sh.idLength)
    requires sh.untilGap.Some? ==>
      UntilClauseAt(s, i + |Prefix| + sh.gap + |Ignore| + 1 + sh.idLength, sh.untilGap.value)
    ensures MatchesAt(s, i, sh)
  {
  }

  /** What `TailAt` returns fits the grammar from `idStart` on. */
  lemma TailAtSound(s: string, idStart: nat, gap: nat)
    requires idStart <= |s|
    ensures var t := TailAt(s, idStart, gap);
      t.Some? ==>
        && t.value.gap == gap
        && IdsFit(s, idStart, t.value.idLength)
        && (t.value.untilGap.Some? ==> UntilClauseAt(s, idStart + t.value.idLength, t.value.untilGap.value))
  {
  }

  lemma TryAtPrecedesFit(s: string, i: nat, sh: Shape)
    requires MatchesAt(s, i, sh)
    ensures TryAt(s, i).Some? && Precedes(TryAt(s, i).value, sh)
  {
    FitForcesTail(s, i, sh);
    UntilAtIdEnd(s, i, sh);
    AttemptPrecedes(s, i, sh);
  }

  /** The `until` attempt at the end of group 1 is the one at its start plus its length. */
  lemma UntilAtIdEnd(s: string, i: nat, sh: Shape)
    requires Match(i, sh).IdEnd() <= |s|
    requires sh.untilGap.Some? ==> UntilAt(s, Match(i, sh).IdEnd()) == sh.untilGap
    ensures sh.untilGap.Some? ==> UntilAt(s, Match(i, sh).IdStart() + sh.idLength) == sh.untilGap
  {
  }

  /** An attempt decided by its tail comes no later than a shape with the facts `FitForcesTail` gives. */
  lemma AttemptPrecedes(s: string, i: nat, sh: Shape)
    requires Match(i, sh).IdStart() <= |s|
    requires TryAt(s, i) == TailAt(s, Match(i, sh).IdStart(), sh.gap)
    requires 1 <= sh.idLength <= Span(s, Match(i, sh).IdStart(), IdChar)
    requires sh.untilGap.Some? ==> UntilAt(s, Match(i, sh).IdStart() + sh.idLength) == sh.untilGap
    ensures TryAt(s, i).Some? && Precedes(TryAt(s, i).value, sh)
  {
    TailAtPrecedes(s, Match(i, sh).IdStart(), sh);
  }

  /**
   A fitting shape has the head the engine finds, so the attempt is decided by its
   tail; the shape's ID list lies within the greedy run, and its `until` gap is the forced one.
   */
  lemma FitForcesTail(s: string, i: nat, sh: Shape)
    requires MatchesAt(s, i, sh)
    ensures Match(i, sh).IdStart() <= |s|
    ensures TryAt(s, i) == TailAt(s, Match(i, sh).IdStart(), sh.gap)
    ensures 1 <= sh.idLength <= Span(s, Match(i, sh).IdStart(), IdChar)
    ensures sh.untilGap.Some? ==> UntilAt(s, Match(i, sh).IdEnd()) == sh.untilGap
  {
    HeadForcesTail(s, i, sh.gap);
    SpanIsMaximal(s, Match(i, sh).IdStart(), IdChar, sh.idLength);
    UntilIsForced(s, Match(i, sh).IdEnd(), sh.untilGap);
  }

  /** An `until` clause that fits is the one the engine's attempt at `k` finds. */
  lemma UntilIsForced(s: string, k: nat, untilGap: Option<nat>)
    requires untilGap.Some? ==> UntilClauseAt(s, k, untilGap.value)
    ensures untilGap.Some? ==> UntilAt(s, k) == untilGap
  {
    if untilGap.Some? {
      UntilGapIsForced(s, k, untilGap.value);
    }
  }

  /** Once the head fits with `gap`, the attempt at `i` is decided by its tail. */
  lemma HeadForcesTail(s: string, i: nat, gap: nat)
    requires HeadFits(s, i, gap)
    ensures TryAt(s, i) == TailAt(s, i + |Prefix| + gap + |Ignore| + 1, gap)
  {
    HeadGapIsForced(s, i, gap);
    TryAtIsTail(s, i, gap);
  }

  /** Once the head has matched with `gap`, the attempt is decided by its tail. */
  lemma TryAtIsTail(s: string, i: nat, gap: nat)
    requires HeadAt(s, i) == Some(gap)
    ensures TryAt(s, i) == TailAt(s, i + |Prefix| + gap + |Ignore| + 1, gap)
  {
  }

  /** The tail of an attempt comes no later than a tail that fits at most as many ID characters. */
  lemma TailAtPrecedes(s: string, idStart: nat, sh: Shape)
    requires idStart <= |s|
    requires 1 <= sh.idLength <= Span(s, idStart, IdChar)
    requires sh.idLength == Span(s, idStart, IdChar) && sh.untilGap.Some? ==>
      UntilAt(s, idStart + sh.idLength) == sh.untilGap
    ensures TailAt(s, idStart, sh.gap).Some? && Precedes(TailAt(s, idStart, sh.gap).value, sh)
  {
    var n := Span(s, idStart, IdChar);
    var t := Shape(sh.gap, n, UntilAt(s, idStart + n));
    assert TailAt(s, idStart, sh.gap) == Some(t);
    if n == sh.idLength && sh.untilGap.Some? {
      assert t.untilGap == sh.untilGap;
    }
  }

  /** `TryAt` yields the first shape, in the engine's order, that fits at `i`. */
  lemma TryAtIsFirstShape(s: string, i: nat)
    ensures TryAt(s, i).Some? ==> MatchesAt(s, i, TryAt(s, i).value)
    ensures TryAt(s, i).Some? ==> forall sh :: MatchesAt(s, i, sh) ==> Precedes(TryAt(s, i).value, sh)
    ensures TryAt(s, i).None? ==> forall sh :: !MatchesAt(s, i, sh)
  {
    TryAtSound(s, i);
    forall sh | MatchesAt(s, i, sh) ensures TryAt(s, i).Some? && Precedes(TryAt(s, i).value, sh) {
      TryAtPrecedesFit(s, i, sh);
    }
  }

  /** `Precedes` is antisymmetric, so the first shape at a position is unique. */
  lemma PrecedesAntisymmetric(a: Shape, b: Shape)
    requires Precedes(a, b) && Precedes(b, a)
    ensures a == b
  {
  }

  /** The attempt `TryAt` makes at each start position of `s`, the end of `s` included. */
  function Attempts(s: string): seq<Option<Shape>> {
    seq(|s| + 1, j requires 0 <= j <= |s| => TryAt(s, j))
  }

  /** Where every attempt before `i` fails, no match starts before `i`. */
  lemma NoMatchBefore(s: string, i: nat)
    requires i <= |s| + 1
    requires forall j :: 0 <= j < i ==> Attempts(s)[j].None?
    ensures forall j, sh :: 0 <= j < i ==> !MatchesAt(s, j, sh)
  {
    forall j, sh | 0 <= j < i ensures !MatchesAt(s, j, sh) {
      assert Attempts(s)[j] == TryAt(s, j);
      TryAtIsFirstShape(s, j);
    }
  }

  /** A match starts strictly inside the text: the keyword alone takes eight characters. */
  lemma MatchesStartInside(s: string)
    ensures forall j, sh :: MatchesAt(s, j, sh) ==> j < |s|
  {
  }

  /**
   `Regex.Match` with the suppression grammar: the leftmost position at which the
   grammar matches, with the shape the engine settles on there.
   */
  function FindMatch(s: string): (r: Option<Match>)
    ensures r.Some? ==> MatchesAt(s, r.value.start, r.value.shape)
    ensures r.Some? ==> forall sh :: MatchesAt(s, r.value.start, sh) ==> Precedes(r.value.shape, sh)
    ensures r.Some? ==> forall j, sh :: 0 <= j < r.value.start ==> !MatchesAt(s, j, sh)
    ensures r.None? ==> forall j, sh :: !MatchesAt(s, j, sh)
  {
    var attempts := Attempts(s);
    FirstSomeIsFirst(attempts, 0);
    match FirstSome(attempts, 0)
    case None =>
      NoMatchBefore(s, |s| + 1);
      MatchesStartInside(s);
      None
    case Some(i) =>
      NoMatchBefore(s, i);
      assert attempts[i] == TryAt(s, i);
      TryAtIsFirstShape(s, i);
      Some(Match(i, attempts[i].value))
  }

  /** The declarative description determines the match: it is the only one that fits it. */
  lemma FindMatchIsUnique(s: string, m: Match)
    requires MatchesAt(s, m.start, m.shape)
    requires forall sh :: MatchesAt(s, m.start, sh) ==> Precedes(m.shape, sh)
    requires forall j, sh :: 0 <= j < m.start ==> !MatchesAt(s, j, sh)
    ensures FindMatch(s) == Some(m)
  {
    var r := FindMatch(s).value;
    assert r.start == m.start;
    PrecedesAntisymmetric(r.shape, m.shape);
  }

  /** `Regex.IsMatch` with the suppression grammar. */
  predicate Matches(s: string) {
    FindMatch(s).Some?
  }

  /** A line matches exactly when the grammar fits it somewhere. */
  lemma MatchesIffSomeShape(s: string)
    ensures Matches(s) <==> exists i, sh :: MatchesAt(s, i, sh)
  {
    if Matches(s) {
      var m := FindMatch(s).value;
      assert MatchesAt(s, m.start, m.shape);
    }
  }

  /** A matching line contains the keyword `DevSkim:`. */
  lemma MatchingLineHasPrefix(s: string)
    requires Matches(s)
    ensures Contains(s, Prefix)
  {
    var m := FindMatch(s).value;
    assert HasAt(s, m.start, Prefix);
  }

  /** The second search, `(\d{4}-\d{2}-\d{2})`, run on the text of group 2 from `from` on. */
  function FindDateFrom(t: string, from: nat): (r: Option<nat>)
    requires from <= |t|
    ensures r.Some? ==> from <= r.value && DateAt(t, r.value)
    ensures r.Some? ==> forall j :: from <= j < r.value ==> !DateAt(t, j)
    ensures r.None? ==> forall j :: from <= j ==> !DateAt(t, j)
    decreases |t| - from
  {
    if DateAt(t, from) then Some(from)
    else if from == |t| then None
    else FindDateFrom(t, from + 1)
  }

  function FindDate(t: string): (r: Option<nat>)
    ensures r.Some? ==> DateAt(t, r.value) && forall j :: 0 <= j < r.value ==> !DateAt(t, j)
    ensures r.None? ==> forall j :: !DateAt(t, j)
  {
    FindDateFrom(t, 0)
  }

  /**
   The date search over group 2 succeeds exactly when the `until` branch was taken,
   and then finds the date of the `until` clause.
   */
  lemma DateSearchFindsUntilDate(s: string, m: Match)
    requires MatchesAt(s, m.start, m.shape)
    ensures m.IdEnd() <= m.End() <= |s|
    ensures m.shape.untilGap.None? ==> FindDate(s[m.IdEnd()..m.End()]) == None
    ensures m.shape.untilGap.Some? ==>
      FindDate(s[m.IdEnd()..m.End()]) == Some(m.shape.untilGap.value + |Until| + 1)
  {
    if m.shape.untilGap.Some? {
      UntilClauseDate(s, m.IdEnd(), m.shape.untilGap.value);
    }
  }

  /** In the text of an `until` clause, the date search finds the clause's date. */
  lemma UntilClauseDate(s: string, k: nat, g: nat)
    requires UntilClauseAt(s, k, g)
    ensures FindDate(s[k..k + g + |Until| + 1 + 10]) == Some(g + |Until| + 1)
  {
    var t := s[k..k + g + |Until| + 1 + 10];
    var d := g + |Until| + 1;
    forall j | 0 <= j < d ensures !IsDigit(t[j]) {
      assert t[j] == s[k + j];
      if j < g {
        assert InClass(s[k + j], Space);
      } else if j < g + |Until| {
        HasAtChar(s, k + g, Until, j - g);
      }
    }
    FindDateAt(t, d);
  }

  /** A date preceded only by non-digits is the one the date search finds. */
  lemma FindDateAt(t: string, k: nat)
    requires DateAt(t, k)
    requires forall j :: 0 <= j < k ==> !IsDigit(t[j])
    ensures FindDate(t) == Some(k)
  {
  }
}
