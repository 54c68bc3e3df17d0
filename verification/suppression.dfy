/**
 The inline suppression annotation `DevSkim: ignore <ids> [until yyyy-MM-dd]`:
 the result of parsing one line, and the two questions asked of it — is the
 suppression in effect, and which suppressed issue (if any) covers a rule ID.

 The clock is not read: every query takes the current instant `now` as a parameter.
 */
module Suppressions {
  import opened Options
  import opened Text
  import opened Dates
  import opened Grammar
  import opened Lookback

  const KeywordAll: string := "all"

  /** A half-open range `[index, index + length)` of a line. */
  datatype Boundary = Boundary(index: int, length: int)

  /** One suppressed rule ID and where it is written. */
  datatype SuppressedIssue = SuppressedIssue(id: string, boundary: Boundary)

  /**
   A parsed suppression. `index`, `length` and `issuesListIndex` are -1 and
   `issues` is empty when the line holds no annotation; `issues` is what
   `GetIssues` returns.
   */
  datatype Suppression = Suppression(
    lineText: string,
    index: int,
    length: int,
    issuesListIndex: int,
    expiration: DateTime,
    issues: seq<SuppressedIssue>)

  /** The IDs of a list of suppressed issues, in order. */
  function IdsOf(issues: seq<SuppressedIssue>): (ids: seq<string>)
    ensures |ids| == |issues|
    ensures forall k :: 0 <= k < |issues| ==> ids[k] == issues[k].id
  {
    seq(|issues|, k requires 0 <= k < |issues| => issues[k].id)
  }

  /** Total length of a list of IDs. */
  function TotalLength(ids: seq<string>): nat {
    if |ids| == 0 then 0 else |ids[0]| + TotalLength(ids[1..])
  }

  /**
   One issue per ID, each boundary starting at the running offset and the offset
   advancing past the ID and its comma.
   */
  function IssuesFrom(ids: seq<string>, start: int): (r: seq<SuppressedIssue>)
    ensures |r| == |ids|
    ensures IdsOf(r) == ids
    ensures |r| > 0 ==> r[0].boundary.index == start
    ensures forall k :: 0 <= k < |r| ==> r[k].boundary.length == |ids[k]|
    ensures forall k :: 0 <= k < |r| - 1 ==>
      r[k + 1].boundary.index == r[k].boundary.index + r[k].boundary.length + 1
    decreases |ids|
  {
    if |ids| == 0 then []
    else [SuppressedIssue(ids[0], Boundary(start, |ids[0]|))] + IssuesFrom(ids[1..], start + |ids[0]| + 1)
  }

  /** Issue `k` starts after the `k` earlier IDs and their `k` commas. */
  lemma {:induction false} IssuesFromOffsets(ids: seq<string>, start: int, k: nat)
    requires k < |ids|
    ensures IssuesFrom(ids, start)[k].boundary.index == start + TotalLength(ids[..k]) + k
    decreases k
  {
    if k > 0 {
      IssuesFromOffsets(ids[1..], start + |ids[0]| + 1, k - 1);
      IssuesFromTail(ids, start, k);
      assert ids[..k][1..] == ids[1..][..k - 1];
      assert TotalLength(ids[..k]) == |ids[0]| + TotalLength(ids[1..][..k - 1]);
    }
  }

  /** The issues of the ID list written at `start` of the line. */
  function IdIssues(idText: string, start: int): seq<SuppressedIssue> {
    if idText == KeywordAll then [SuppressedIssue(KeywordAll, Boundary(start, |KeywordAll|))]
    else IssuesFrom(Split(idText, ','), start)
  }

  /** The expiration given by the text of group 2 (empty or an `until` clause). */
  function ExpirationOf(group2: string): DateTime {
    match FindDate(group2)
    case None => MaxValue
    case Some(k) => DateExpiration(group2[k..k + 10])
  }

  /** `ParseExact` of a written date, or `MinValue` when it names no calendar date. */
  function DateExpiration(written: string): DateTime
    requires IsDateText(written)
  {
    match ParseDate(written)
    case Some(d) => Midnight(d)
    case None => MinValue
  }

  /** The suppression that results when no annotation is found. */
  function NoSuppression(text: string): Suppression {
    Suppression(text, -1, -1, -1, MaxValue, [])
  }

  /**
   Parses one line: the constructor from a string, and the matching half of `ParseLine`.
   */
  function Parse(text: string): (r: Suppression)
    ensures r.lineText == text
    ensures !Matches(text) ==>
      r.index == -1 && r.length == -1 && r.issuesListIndex == -1
      && r.issues == [] && r.expiration == MaxValue
    ensures Matches(text) ==>
      && 0 <= r.index < r.issuesListIndex < r.index + r.length <= |text|
      && HasAt(text, r.index, Prefix)
      && |r.issues| >= 1
  {
    match FindMatch(text)
    case None => NoSuppression(text)
    case Some(m) => ParseMatch(text, m)
  }

  /** The suppression read off a match: its location, its ID list and its `until` clause. */
  function ParseMatch(text: string, m: Match): (r: Suppression)
    requires MatchesAt(text, m.start, m.shape)
    ensures m.shape.untilGap.None? ==> r.expiration == MaxValue
    ensures m.shape.untilGap.Some? ==>
      && IsDateText(text[m.DateStart()..m.DateStart() + 10])
      && r.expiration == DateExpiration(text[m.DateStart()..m.DateStart() + 10])
  {
    ExpirationOfMatch(text, m);
    var idText := text[m.IdStart()..m.IdEnd()];
    Suppression(text, m.start, m.Length(), m.IdStart(),
      ExpirationOf(text[m.IdEnd()..m.End()]), IdIssues(idText, m.IdStart()))
  }

  /** `IsInEffect`: an annotation was found and has not expired at `now`. */
  predicate IsInEffect(s: Suppression, now: DateTime) {
    s.index >= 0 && |s.issues| > 0 && Before(now, s.expiration)
  }

  /** The issue suppresses rule `id`: it names it, or it is the wildcard `all`. */
  predicate Covers(issue: SuppressedIssue, id: string) {
    issue.id == id || issue.id == KeywordAll
  }

  /** `FirstOrDefault`: the position of the first issue from `from` on that covers `id`. */
  function FirstCovering(issues: seq<SuppressedIssue>, id: string, from: nat): (r: Option<nat>)
    requires from <= |issues|
    ensures r.Some? ==> from <= r.value < |issues| && Covers(issues[r.value], id)
    ensures r.Some? ==> forall k :: from <= k < r.value ==> !Covers(issues[k], id)
    ensures r.None? ==> forall k :: from <= k < |issues| ==> !Covers(issues[k], id)
    decreases |issues| - from
  {
    if from == |issues| then None
    else if Covers(issues[from], id) then Some(from)
    else FirstCovering(issues, id, from + 1)
  }

  /**
   `GetSuppressedIssue`: the first issue, in list order, that covers `id`, provided
   the suppression has not expired at `now`.
   */
  function GetSuppressedIssue(s: Suppression, id: string, now: DateTime): (r: Option<SuppressedIssue>)
    ensures r.Some? <==>
      Before(now, s.expiration) && exists k :: 0 <= k < |s.issues| && Covers(s.issues[k], id)
    ensures r.Some? ==> exists k :: (
      && 0 <= k < |s.issues|
      && r.value == s.issues[k]
      && Covers(s.issues[k], id)
      && forall j :: 0 <= j < k ==> !Covers(s.issues[j], id))
  {
    match FirstCovering(s.issues, id, 0)
    case Some(k) => if Before(now, s.expiration) then Some(s.issues[k]) else None
    case None => None
  }

  /** The annotation found is the leftmost one: no keyword at an earlier column starts a match. */
  lemma ParseIsLeftmost(text: string, j: int, sh: Shape)
    requires MatchesAt(text, j, sh)
    ensures 0 <= Parse(text).index <= j
  {
  }

  /** The ID list of a matched line (group 1). */
  function IdText(text: string, m: Match): string
    requires MatchesAt(text, m.start, m.shape)
  {
    text[m.IdStart()..m.IdEnd()]
  }

  /**
   The annotation found is the match the grammar describes: for the leftmost column
   where it fits, with the first shape there in backtracking order, `Index`, `Length`
   and `IssuesListIndex` are that match's start, length and group-1 start.
   */
  lemma ParseLocatesMatch(text: string, m: Match)
    requires MatchesAt(text, m.start, m.shape)
    requires forall sh :: MatchesAt(text, m.start, sh) ==> Precedes(m.shape, sh)
    requires forall j, sh :: 0 <= j < m.start ==> !MatchesAt(text, j, sh)
    ensures Parse(text).index == m.start
    ensures Parse(text).length == m.Length()
    ensures Parse(text).issuesListIndex == m.IdStart()
  {
    FindMatchIsUnique(text, m);
  }

  /** Laid out from `start` over the joined IDs, issue `k` finds its ID at its boundary. */
  lemma {:induction false} IssueLocatesId(text: string, ids: seq<string>, start: int, k: nat)
    requires k < |ids|
    requires HasAt(text, start, Join(ids, ','))
    ensures HasAt(text, IssuesFrom(ids, start)[k].boundary.index, ids[k])
    decreases k
  {
    if |ids| > 1 {
      var rest := Join(ids[1..], ',');
      HasAtConcat(text, start, ids[0], [','] + rest);
      if k > 0 {
        var next := start + |ids[0]| + 1;
        HasAtConcat(text, start + |ids[0]|, [','], rest);
        IssueLocatesId(text, ids[1..], next, k - 1);
        IssuesFromTail(ids, start, k);
      }
    }
  }

  /** Past the first, the issues are those laid out from the next offset over the remaining IDs. */
  lemma IssuesFromTail(ids: seq<string>, start: int, k: nat)
    requires 0 < k < |ids|
    ensures IssuesFrom(ids, start)[k] == IssuesFrom(ids[1..], start + |ids[0]| + 1)[k - 1]
  {
  }

  /** The last issue ends where the joined IDs end. */
  lemma {:induction false} LastIssueEnd(ids: seq<string>, start: int)
    requires |ids| >= 1
    ensures IssuesFrom(ids, start)[|ids| - 1].boundary.index + |ids[|ids| - 1]| == start + |Join(ids, ',')|
    decreases |ids|
  {
    if |ids| > 1 {
      var next := start + |ids[0]| + 1;
      LastIssueEnd(ids[1..], next);
      assert IssuesFrom(ids, start)[|ids| - 1] == IssuesFrom(ids[1..], next)[|ids| - 2];
    }
  }

  lemma HasAtConcat(text: string, start: int, a: string, b: string)
    requires HasAt(text, start, a + b)
    ensures HasAt(text, start, a) && HasAt(text, start + |a|, b)
  {
    assert text[start..start + |a|] == (a + b)[..|a|];
    assert text[start + |a|..start + |a| + |b|] == (a + b)[|a|..];
  }

  /** The `all` branch gives the same single issue the comma split would. */
  lemma AllBranchAgreesWithSplit(start: int)
    ensures IssuesFrom(Split(KeywordAll, ','), start) == IdIssues(KeywordAll, start)
  {
    SplitJoin([KeywordAll], ',');
  }

  /**
   When the ID list is not `all`, joining the issue IDs with commas gives the ID
   list back, and there is one issue more than there are commas (empty IDs are kept).
   */
  lemma ParseIdsRoundTrip(text: string)
    requires Matches(text)
    ensures IdText(text, FindMatch(text).value) != KeywordAll ==>
      && Join(IdsOf(Parse(text).issues), ',') == IdText(text, FindMatch(text).value)
      && |Parse(text).issues| == Occurrences(IdText(text, FindMatch(text).value), ',') + 1
  {
    SplitCount(IdText(text, FindMatch(text).value), ',');
  }

  /** An ID list that is exactly `all` yields one wildcard issue spanning it. */
  lemma ParseAllKeyword(text: string)
    requires Matches(text)
    ensures IdText(text, FindMatch(text).value) == KeywordAll ==>
      Parse(text).issues == [SuppressedIssue(KeywordAll, Boundary(Parse(text).issuesListIndex, 3))]
  {
  }

  /** The issues of an ID list written at `start` locate their IDs inside it. */
  lemma IdIssuesLocate(text: string, idText: string, start: int)
    requires HasAt(text, start, idText)
    ensures var r := IdIssues(idText, start);
      && |r| >= 1
      && r[0].boundary.index == start
      && (forall k :: 0 <= k < |r| ==>
            HasAt(text, r[k].boundary.index, r[k].id) && r[k].boundary.length == |r[k].id|)
      && (forall k :: 0 <= k < |r| - 1 ==>
            r[k + 1].boundary.index == r[k].boundary.index + r[k].boundary.length + 1)
      && r[|r| - 1].boundary.index + r[|r| - 1].boundary.length == start + |idText|
  {
    if idText != KeywordAll {
      var ids := Split(idText, ',');
      var r := IssuesFrom(ids, start);
      forall k | 0 <= k < |r| ensures HasAt(text, r[k].boundary.index, r[k].id) {
        IssueLocatesId(text, ids, start, k);
        assert IdsOf(r)[k] == r[k].id;
      }
      LastIssueEnd(ids, start);
    }
  }

  /**
   Every boundary marks its own ID in the line; boundaries follow each other with
   one comma between them, the first starts at the ID list and the last ends with it.
   */
  lemma ParseBoundariesLocateIds(text: string)
    requires Matches(text)
    ensures var r := Parse(text);
      && r.issues[0].boundary.index == r.issuesListIndex
      && (forall k :: 0 <= k < |r.issues| ==>
            HasAt(text, r.issues[k].boundary.index, r.issues[k].id)
            && r.issues[k].boundary.length == |r.issues[k].id|)
      && (forall k :: 0 <= k < |r.issues| - 1 ==>
            r.issues[k + 1].boundary.index == r.issues[k].boundary.index + r.issues[k].boundary.length + 1)
      && r.issues[|r.issues| - 1].boundary.index + r.issues[|r.issues| - 1].boundary.length
           == r.issuesListIndex + |IdText(text, FindMatch(text).value)|
  {
    var m := FindMatch(text).value;
    var idText := IdText(text, m);
    assert HasAt(text, m.IdStart(), idText);
    assert Parse(text).issues == IdIssues(idText, m.IdStart());
    assert Parse(text).issuesListIndex == m.IdStart();
    IdIssuesLocate(text, idText, m.IdStart());
  }

  /** Issue `k` starts after the ID list's start, the `k` earlier IDs and `k` commas. */
  lemma ParseIssueOffsets(text: string, k: nat)
    requires Matches(text)
    requires k < |Parse(text).issues|
    ensures Parse(text).issues[k].boundary.index
      == Parse(text).issuesListIndex + TotalLength(IdsOf(Parse(text).issues)[..k]) + k
  {
    var m := FindMatch(text).value;
    var idText := IdText(text, m);
    if idText == KeywordAll {
      assert IdsOf(Parse(text).issues)[..k] == [];
    } else {
      IssuesFromOffsets(Split(idText, ','), m.IdStart(), k);
    }
  }

  /**
   A written date expires the suppression at midnight of that date when it is a
   calendar date, and at `MinValue` (already expired) when it is not.
   */
  lemma DateExpirationMeaning(written: string)
    requires IsDateText(written)
    ensures forall d :: ValidDate(d) && FormatDate(d) == written ==> DateExpiration(written) == Midnight(d)
    ensures (forall d :: ValidDate(d) ==> FormatDate(d) != written) ==> DateExpiration(written) == MinValue
  {
    forall d | ValidDate(d) && FormatDate(d) == written
      ensures DateExpiration(written) == Midnight(d)
    {
      ParseFormatRoundTrip(d);
    }
  }

  /** The date written in the `until` clause of a matched line. */
  function UntilDate(text: string): (written: string)
    requires Matches(text) && FindMatch(text).value.shape.untilGap.Some?
    ensures IsDateText(written)
  {
    var m := FindMatch(text).value;
    UntilDateInside(text, m);
    text[m.DateStart()..m.DateStart() + 10]
  }

  /**
   The expiration of a matched line: never (`MaxValue`) without an `until` clause,
   and the expiration of the written date with one.
   */
  lemma ParseExpiration(text: string)
    requires Matches(text)
    ensures FindMatch(text).value.shape.untilGap.None? ==> Parse(text).expiration == MaxValue
    ensures FindMatch(text).value.shape.untilGap.Some? ==>
      Parse(text).expiration == DateExpiration(UntilDate(text))
  {
    var m := FindMatch(text).value;
    assert Parse(text) == ParseMatch(text, m);
  }

  lemma ExpirationOfMatch(text: string, m: Match)
    requires MatchesAt(text, m.start, m.shape)
    ensures m.IdEnd() <= m.End() <= |text|
    ensures m.shape.untilGap.None? ==> ExpirationOf(text[m.IdEnd()..m.End()]) == MaxValue
    ensures m.shape.untilGap.Some? ==>
      && IsDateText(text[m.DateStart()..m.DateStart() + 10])
      && ExpirationOf(text[m.IdEnd()..m.End()]) == DateExpiration(text[m.DateStart()..m.DateStart() + 10])
  {
    DateSearchFindsUntilDate(text, m);
    var group2 := text[m.IdEnd()..m.End()];
    if m.shape.untilGap.Some? {
      UntilDateInside(text, m);
      var k := m.shape.untilGap.value + |Until| + 1;
      var written := text[m.DateStart()..m.DateStart() + 10];
      assert group2[k..k + 10] == written;
      assert ExpirationOf(group2) == DateExpiration(group2[k..k + 10]);
    }
  }

  /**
   A dated annotation whose date exists is in effect exactly while the date of
   `now` is earlier than the written date: it expires at that date's midnight.
   */
  lemma DatedAnnotationInEffectBeforeDate(text: string, now: DateTime, d: Date)
    requires Matches(text) && FindMatch(text).value.shape.untilGap.Some?
    requires ValidDate(d) && FormatDate(d) == UntilDate(text)
    requires ValidDateTime(now)
    ensures IsInEffect(Parse(text), now) <==> DateBefore(now.date, d)
  {
    ParseExpiration(text);
    DateExpirationMeaning(UntilDate(text));
    BeforeMidnight(now, d);
  }

  /** A suppression is in effect exactly when the line matched and `now` is before its expiration. */
  lemma InEffectIffMatchedAndUnexpired(text: string, now: DateTime)
    ensures IsInEffect(Parse(text), now) <==> Matches(text) && Before(now, Parse(text).expiration)
  {
  }

  /** A line without an annotation suppresses nothing, whatever the rule and the time. */
  lemma UnmatchedSuppressesNothing(text: string, id: string, now: DateTime)
    requires !Matches(text)
    ensures !IsInEffect(Parse(text), now)
    ensures GetSuppressedIssue(Parse(text), id, now) == None
  {
  }

  /** A suppressed issue is only ever reported by a suppression that is in effect. */
  lemma SuppressedIssueImpliesInEffect(text: string, id: string, now: DateTime)
    requires GetSuppressedIssue(Parse(text), id, now).Some?
    ensures IsInEffect(Parse(text), now)
  {
  }

  /** An annotation whose `until` date does not exist has already expired, at every instant. */
  lemma InvalidDateIsExpired(text: string, id: string, now: DateTime)
    requires Matches(text)
    requires FindMatch(text).value.shape.untilGap.Some?
    requires forall d :: ValidDate(d) ==> FormatDate(d) != UntilDate(text)
    requires ValidDateTime(now)
    ensures !IsInEffect(Parse(text), now)
    ensures GetSuppressedIssue(Parse(text), id, now) == None
  {
    ParseExpiration(text);
    DateExpirationMeaning(UntilDate(text));
    MinValueIsLeast(now);
  }

  /** An annotation without `until` is in effect at every instant but the very last one. */
  lemma NoUntilNeverExpires(text: string, now: DateTime)
    requires Matches(text)
    requires FindMatch(text).value.shape.untilGap.None?
    requires ValidDateTime(now) && now != MaxValue
    ensures IsInEffect(Parse(text), now)
  {
    ParseExpiration(text);
    MaxValueIsGreatest(now);
  }

  /** While in effect, a wildcard issue makes every rule ID suppressed. */
  lemma WildcardCoversEveryId(s: Suppression, id: string, now: DateTime, k: nat)
    requires k < |s.issues| && s.issues[k].id == KeywordAll
    requires IsInEffect(s, now)
    ensures GetSuppressedIssue(s, id, now).Some?
  {
    assert Covers(s.issues[k], id);
  }

  /**
   The constructor from a text and a line number: the lookback settles on a line
   at or above `lineNumber`, and that line is parsed.
   */
  function ParseAt(lines: seq<string>, lineNumber: int, markers: CommentMarkers): (r: Suppression)
    requires 1 <= lineNumber <= |lines|
    ensures r.lineText == lines[lineNumber - 1] || exists k :: 0 <= k < lineNumber - 1 && r.lineText == lines[k]
    ensures Contains(lines[lineNumber - 1], Prefix) || lineNumber == 1 ==> r == Parse(lines[lineNumber - 1])
  {
    Parse(EffectiveLine(lines, lineNumber, markers))
  }

  /** A line that has the `DevSkim:` keyword but fails the grammar suppresses nothing: no lookback is tried. */
  lemma BrokenAnnotationSuppressesNothing(lines: seq<string>, lineNumber: int, markers: CommentMarkers, id: string, now: DateTime)
    requires 1 <= lineNumber <= |lines|
    requires Contains(lines[lineNumber - 1], Prefix) && !Matches(lines[lineNumber - 1])
    ensures !IsInEffect(ParseAt(lines, lineNumber, markers), now)
    ensures GetSuppressedIssue(ParseAt(lines, lineNumber, markers), id, now) == None
  {
  }

  /**
   Below the end of a block comment, the finding's line takes the annotation of the
   first matching line found walking up, or gets none if the walk gives up.
   */
  lemma BlockCommentLookback(lines: seq<string>, lineNumber: int, markers: CommentMarkers)
    requires 1 < lineNumber <= |lines|
    requires !Contains(lines[lineNumber - 1], Prefix)
    requires Contains(lines[lineNumber - 2], markers.suffix)
    ensures forall k :: Adopts(KindsOf(lines, markers.prefix), lineNumber - 1, k) ==>
      Matches(lines[k]) && ParseAt(lines, lineNumber, markers) == Parse(lines[k])
    ensures GivesUp(KindsOf(lines, markers.prefix), lineNumber - 1) ==>
      ParseAt(lines, lineNumber, markers).index == -1 && ParseAt(lines, lineNumber, markers).issues == []
  {
    var kinds := KindsOf(lines, markers.prefix);
    var target := lines[lineNumber - 1];
    if Matches(target) {
      MatchingLineHasPrefix(target);
    }
    forall k | Adopts(kinds, lineNumber - 1, k)
      ensures Matches(lines[k]) && ParseAt(lines, lineNumber, markers) == Parse(lines[k])
    {
      assert kinds[k] == KindOf(lines[k], markers.prefix);
      WalkOutcomesAreExclusive(kinds, lineNumber - 1, k, k);
      var r := EffectiveLine(lines, lineNumber, markers);
      var k' :| Adopts(kinds, lineNumber - 1, k') && r == lines[k'];
      WalkOutcomesAreExclusive(kinds, lineNumber - 1, k, k');
    }
  }

  /** Below a single-line comment, the comment line is parsed in place of the finding's line. */
  lemma InlineCommentLookback(lines: seq<string>, lineNumber: int, markers: CommentMarkers)
    requires 1 < lineNumber <= |lines|
    requires !Contains(lines[lineNumber - 1], Prefix)
    requires !Contains(lines[lineNumber - 2], markers.suffix)
    ensures ParseAt(lines, lineNumber, markers) == Parse(
      if Contains(lines[lineNumber - 2], markers.inline) then lines[lineNumber - 2] else lines[lineNumber - 1])
  {
  }
}
