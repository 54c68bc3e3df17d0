/**
 Worked annotations: concrete lines parsed and queried at concrete instants.
 */
module Examples {
  import opened Options
  import opened Text
  import opened Dates
  import opened Grammar
  import opened Suppressions

  /** An instant to query at: 2026-10-10, midnight. */
  const Today: DateTime := DateTime(Date(2026, 10, 10), 0)

  /** `// DevSkim: ignore DS123456 until <date>`. */
  function DatedLine(date: string): string {
    DatedHead + date
  }

  const DatedHead: string := "// DevSkim: ignore DS123456 until "

  /** The match of a line is fixed by a fitting shape that `TryAt` finds, with no keyword earlier. */
  lemma FirstMatchAt(line: string, i: nat, sh: Shape)
    requires MatchesAt(line, i, sh)
    requires TryAt(line, i) == Some(sh)
    requires forall j :: 0 <= j < i ==> !HasAt(line, j, Prefix)
    ensures FindMatch(line) == Some(Match(i, sh))
  {
    TryAtIsFirstShape(line, i);
    FindMatchIsUnique(line, Match(i, sh));
  }

  lemma DatedLineShape(date: string)
    requires IsDateText(date)
    ensures MatchesAt(DatedLine(date), 3, Shape(1, 8, Some(1)))
    ensures forall j :: 0 <= j < 3 ==> DatedLine(date)[j] != 'D'
  {
    DatedLineHead(date);
    DatedLineIds(date);
    DatedLineUntil(date);
  }

  lemma DatedLineHead(date: string)
    requires IsDateText(date)
    ensures HeadFits(DatedLine(date), 3, 1)
  {
    var line := DatedLine(date);
    HasAtFromChars(line, 3, Prefix);
    HasAtFromChars(line, 12, Ignore);
  }

  lemma DatedLineIds(date: string)
    requires IsDateText(date)
    ensures IdsFit(DatedLine(date), 19, 8)
  {
    assert AllIn(DatedLine(date), 19, 27, IdChar);
  }

  lemma DatedLineUntil(date: string)
    requires IsDateText(date)
    ensures UntilClauseAt(DatedLine(date), 27, 1)
  {
    var line := DatedLine(date);
    HasAtFromChars(line, 28, Until);
    assert line[34..44] == date;
  }

  lemma DatedLineTry(date: string)
    requires IsDateText(date)
    ensures TryAt(DatedLine(date), 3) == Some(Shape(1, 8, Some(1)))
  {
    var line := DatedLine(date);
    DatedLineShape(date);
    HeadGapIsForced(line, 3, 1);
    SpanIsRun(line, 19, IdChar, 8);
    UntilGapIsForced(line, 27, 1);
  }

  lemma DatedLineMatch(date: string)
    requires IsDateText(date)
    ensures FindMatch(DatedLine(date)) == Some(Match(3, Shape(1, 8, Some(1))))
  {
    var line := DatedLine(date);
    var sh := Shape(1, 8, Some(1));
    DatedLineShape(date);
    DatedLineTry(date);
    NoPrefixBefore(line, 3);
    FirstMatchAt(line, 3, sh);
  }

  /** No `DevSkim:` starts before column `i` when no `D` does. */
  lemma NoPrefixBefore(line: string, i: nat)
    requires i <= |line|
    requires forall j :: 0 <= j < i ==> line[j] != 'D'
    ensures forall j :: 0 <= j < i ==> !HasAt(line, j, Prefix)
  {
    forall j | 0 <= j < i ensures !HasAt(line, j, Prefix) {
      if HasAt(line, j, Prefix) {
        HasAtChar(line, j, Prefix, 0);
      }
    }
  }

  /** The annotation spans the line from `DevSkim:` on, with one issue `DS123456` at column 19. */
  lemma DatedLineParse(date: string)
    requires IsDateText(date)
    ensures var r := Parse(DatedLine(date));
      && r.index == 3 && r.length == 41 && r.issuesListIndex == 19
      && r.issues == [SuppressedIssue("DS123456", Boundary(19, 8))]
      && r.expiration == DateExpiration(date)
  {
    var line := DatedLine(date);
    var m := Match(3, Shape(1, 8, Some(1)));
    assert line[19..27] == "DS123456" by {
      SliceOfHead(DatedHead, date, 19, 27);
      assert DatedHead[19..27] == "DS123456";
    }
    assert line[34..44] == date;
    SingleIdIssues();
    assert MatchesAt(line, 3, m.shape) && Parse(line) == ParseMatch(line, m) by {
      DatedLineShape(date);
      DatedLineMatch(date);
    }
  }

  lemma SliceOfHead(a: string, b: string, i: nat, j: nat)
    requires i <= j <= |a|
    ensures (a + b)[i..j] == a[i..j]
  {
  }

  lemma SingleIdIssues()
    ensures IdIssues("DS123456", 19) == [SuppressedIssue("DS123456", Boundary(19, 8))]
  {
    SplitJoin(["DS123456"], ',');
  }

  /** A suppression until 2099-01-01 is in effect today and covers its rule, and no other. */
  lemma UnexpiredAnnotationSuppresses()
    ensures IsInEffect(Parse(DatedLine("2099-01-01")), Today)
    ensures GetSuppressedIssue(Parse(DatedLine("2099-01-01")), "DS123456", Today)
      == Some(SuppressedIssue("DS123456", Boundary(19, 8)))
    ensures GetSuppressedIssue(Parse(DatedLine("2099-01-01")), "DS000000", Today) == None
  {
    var date := "2099-01-01";
    var r := Parse(DatedLine(date));
    assert r.index >= 0 && r.issues == [SuppressedIssue("DS123456", Boundary(19, 8))] && Before(Today, r.expiration) by {
      FarFuture();
      DatedLineParse(date);
    }
    OneIssueInEffect(r, Today);
  }

  /** An unexpired suppression of the one rule `DS123456` covers that rule and no other. */
  lemma OneIssueInEffect(r: Suppression, now: DateTime)
    requires r.index >= 0 && r.issues == [SuppressedIssue("DS123456", Boundary(19, 8))]
    requires Before(now, r.expiration)
    ensures IsInEffect(r, now)
    ensures GetSuppressedIssue(r, "DS123456", now) == Some(r.issues[0])
    ensures GetSuppressedIssue(r, "DS000000", now) == None
  {
    assert Covers(r.issues[0], "DS123456");
    assert !Covers(r.issues[0], "DS000000");
  }

  /** A suppression until 2000-01-01 has expired today and covers nothing. */
  lemma ExpiredAnnotationSuppressesNothing()
    ensures !IsInEffect(Parse(DatedLine("2000-01-01")), Today)
    ensures GetSuppressedIssue(Parse(DatedLine("2000-01-01")), "DS123456", Today) == None
  {
    var date := "2000-01-01";
    var r := Parse(DatedLine(date));
    assert !Before(Today, r.expiration) by {
      LongPast();
      DatedLineParse(date);
    }
    ExpiredSuppressesNothing(r, "DS123456", Today);
  }

  /** Once its expiration has passed, a suppression is out of effect and covers no rule. */
  lemma ExpiredSuppressesNothing(r: Suppression, id: string, now: DateTime)
    requires !Before(now, r.expiration)
    ensures !IsInEffect(r, now)
    ensures GetSuppressedIssue(r, id, now) == None
  {
  }

  /** A written calendar date expires at the midnight that starts it. */
  lemma WrittenDateExpiration(date: string, d: Date)
    requires IsDateText(date) && Fields(date) == d && ValidDate(d)
    ensures DateExpiration(date) == Midnight(d)
  {
  }

  lemma FarFuture()
    ensures IsDateText("2099-01-01") && DateExpiration("2099-01-01") == Midnight(Date(2099, 1, 1))
  {
    WrittenDateExpiration("2099-01-01", Date(2099, 1, 1));
  }

  lemma LongPast()
    ensures IsDateText("2000-01-01") && DateExpiration("2000-01-01") == Midnight(Date(2000, 1, 1))
  {
    WrittenDateExpiration("2000-01-01", Date(2000, 1, 1));
  }

  /** February 30th is no date: the suppression is treated as expired, without an error. */
  lemma NonexistentDateIsExpired()
    ensures Parse(DatedLine("2099-02-30")).expiration == MinValue
    ensures !IsInEffect(Parse(DatedLine("2099-02-30")), Today)
  {
    var date := "2099-02-30";
    assert ParseDate(date) == None by {
      assert Fields(date) == Date(2099, 2, 30);
    }
    assert Parse(DatedLine(date)).expiration == DateExpiration(date) by {
      DatedLineParse(date);
    }
  }

  /** `DevSkim: ignore <ids>`, with no `until` clause. */
  function IgnoreLine(ids: string): string {
    "DevSkim:" + " " + "ignore" + " " + ids
  }

  lemma IgnoreLineMatch(ids: string)
    requires |ids| >= 1 && AllIn(ids, 0, |ids|, IdChar)
    ensures FindMatch(IgnoreLine(ids)) == Some(Match(0, Shape(1, |ids|, None)))
  {
    var line := IgnoreLine(ids);
    var sh := Shape(1, |ids|, None);
    assert line[0..8] == Prefix;
    assert line[9..15] == Ignore;
    assert line[16..] == ids;
    assert AllIn(line, 16, 16 + |ids|, IdChar) by {
      forall k | 16 <= k < 16 + |ids| ensures InClass(line[k], IdChar) {
        assert line[k] == ids[k - 16] && InClass(ids[k - 16], IdChar);
      }
    }
    assert MatchesAt(line, 0, sh);
    HeadGapIsForced(line, 0, 1);
    SpanIsRun(line, 16, IdChar, |ids|);
    assert UntilAt(line, 16 + |ids|) == None;
    assert TryAt(line, 0) == Some(sh);
    FirstMatchAt(line, 0, sh);
  }

  /** The parse of `DevSkim: ignore <ids>`: never expires, ID list at column 16. */
  lemma IgnoreLineParse(ids: string)
    requires |ids| >= 1 && AllIn(ids, 0, |ids|, IdChar)
    ensures var r := Parse(IgnoreLine(ids));
      && r.index == 0 && r.length == 16 + |ids| && r.issuesListIndex == 16
      && r.expiration == MaxValue
      && r.issues == IdIssues(ids, 16)
  {
    var line := IgnoreLine(ids);
    IgnoreLineMatch(ids);
    assert line[16..16 + |ids|] == ids;
    ParseExpiration(line);
  }

  /** `DevSkim: ignore all` suppresses every rule, at every instant but the last. */
  lemma WildcardSuppressesEveryRule(id: string, now: DateTime)
    requires ValidDateTime(now) && now != MaxValue
    ensures Parse(IgnoreLine("all")).issues == [SuppressedIssue("all", Boundary(16, 3))]
    ensures IsInEffect(Parse(IgnoreLine("all")), now)
    ensures GetSuppressedIssue(Parse(IgnoreLine("all")), id, now) == Some(SuppressedIssue("all", Boundary(16, 3)))
  {
    var ids := "all";
    assert AllIn(ids, 0, |ids|, IdChar) by {
      AllInOfMembers(ids, IdChar);
    }
    IgnoreLineParse(ids);
    MaxValueIsGreatest(now);
    var r := Parse(IgnoreLine(ids));
    assert Covers(r.issues[0], id);
  }

  /** The issues of `DevSkim: ignore <ids>` when the list is the join of comma-free IDs. */
  lemma IgnoreLineIssues(ids: string, parts: seq<string>)
    requires |ids| >= 1 && AllIn(ids, 0, |ids|, IdChar) && ids != KeywordAll
    requires |parts| >= 1 && forall k :: 0 <= k < |parts| ==> ',' !in parts[k]
    requires Join(parts, ',') == ids
    ensures Parse(IgnoreLine(ids)).issues == IssuesFrom(parts, 16)
  {
    SplitJoin(parts, ',');
    IgnoreLineParse(ids);
  }

  /** `DevSkim: ignore DS1,DS2`: two issues, the second one character after the first ends. */
  lemma TwoIds()
    ensures Parse(IgnoreLine("DS1,DS2")).issues ==
      [SuppressedIssue("DS1", Boundary(16, 3)), SuppressedIssue("DS2", Boundary(20, 3))]
  {
    var ids := "DS1,DS2";
    assert AllIn(ids, 0, |ids|, IdChar) by {
      AllInOfMembers(ids, IdChar);
    }
    IgnoreLineIssues(ids, ["DS1", "DS2"]);
  }

  /** `DevSkim: ignore a,,b`: the empty ID between the two commas is kept. */
  lemma EmptyIdIsKept()
    ensures Parse(IgnoreLine("a,,b")).issues ==
      [SuppressedIssue("a", Boundary(16, 1)), SuppressedIssue("", Boundary(18, 0)), SuppressedIssue("b", Boundary(19, 1))]
  {
    var ids := "a,,b";
    var parts := ["a", "", "b"];
    assert AllIn(ids, 0, |ids|, IdChar) by {
      AllInOfMembers(ids, IdChar);
    }
    assert Join(parts, ',') == ids;
    assert Parse(IgnoreLine(ids)).issues == IssuesFrom(parts, 16) by {
      IgnoreLineIssues(ids, parts);
    }
    IssuesOfEmptyMiddle();
  }

  lemma IssuesOfEmptyMiddle()
    ensures IssuesFrom(["a", "", "b"], 16) ==
      [SuppressedIssue("a", Boundary(16, 1)), SuppressedIssue("", Boundary(18, 0)), SuppressedIssue("b", Boundary(19, 1))]
  {
  }
}
