# DevSkim inline suppressions, modelled in Dafny

DevSkim is a static-analysis security scanner. A developer silences one of its
findings by writing an annotation in a comment next to the flagged code:

    // DevSkim: ignore DS123456,DS654321 until 2030-06-30

This project models the class that reads such annotations,
`Microsoft.DevSkim.Suppression`. It covers:

- the annotation grammar `DevSkim:\s+ignore\s([a-zA-Z\d,:]+)(\s+until\s\d{4}-\d{2}-\d{2}|)`,
  with the leftmost match a backtracking regular-expression engine returns.
  The pattern has a single `\s` after `ignore` and after `until`. Two spaces
  after `ignore` therefore make the match fail at that column, and two after
  `until` make group 2 take its empty alternative;
- how a match is taken apart: where the annotation starts, its length, where
  the ID list starts, and one suppressed issue per comma-separated ID. Each
  issue carries its column and length, and the wildcard `all` gets special
  treatment;
- the expiration date: a second search for the date inside group 2, then
  `ParseExact` with format `yyyy-MM-dd`. A date that does not exist gives
  `DateTime.MinValue`, and no `until` clause gives `DateTime.MaxValue`;
- the multi-line lookback. When the flagged line carries no `DevSkim:` keyword,
  the annotation may sit in a single-line comment on the line above. It may
  also sit anywhere in a block comment that ends on the line above; the model
  walks up that block until a matching line or the comment opening;
- `IsInEffect` and `GetSuppressedIssue` at an instant `now`.

Modules, one per file:

| file | module | content |
|---|---|---|
| `options.dfy` | `Options` | `Option`, and `FirstSome`: the first present entry of a sequence |
| `text.dfy` | `Text` | character classes (`\s`, `\d`, `[a-zA-Z\d,:]`), `HasAt`/`Contains`, maximal runs (`Span`), `Split`/`Join` |
| `dates.dfy` | `Dates` | proleptic Gregorian dates, `DateTime` as a date plus a tick of the day, `ParseDate`/`FormatDate` |
| `grammar.dfy` | `Grammar` | the grammar stated declaratively (`MatchesAt`), the engine's attempt at one column (`TryAt`), the leftmost match (`FindMatch`), the date search |
| `lookback.dfy` | `Lookback` | the line a finding's suppression is read from |
| `suppression.dfy` | `Suppressions` | the `Suppression` record, `Parse`, `ParseAt`, `IsInEffect`, `GetSuppressedIssue`, and the properties of these |
| `examples.dfy` | `Examples` | concrete annotations worked through the whole model |

A match has a `Shape`: the number of white-space characters after `DevSkim:`,
the length of the ID list, and the white-space count of the `until` clause if
that branch was taken. `Precedes` orders shapes the way a backtracking engine
tries them:

- greedy `\s+` and `[...]+` take longer runs first;
- the `until` alternative comes before the empty one.

The regular expression becomes two definitions:

- `MatchesAt` says which shapes fit at a column;
- `FindMatch` takes the first column where one fits, and there the first fitting shape in that order.

`FindMatch` is proved to be exactly that match (`Grammar.FindMatch`, `Grammar.FindMatchIsUnique`).

## Model

| member | source | states |
|---|---|---|
| Text.Span | DevSkim-DotNet/Microsoft.DevSkim/Suppression.cs:15 | a greedy `\s+` or `[a-zA-Z\d,:]+` run: every character counted is in the class, and the one after it is not |
| Text.Split | DevSkim-DotNet/Microsoft.DevSkim/Suppression.cs:196 | `Split(',')` gives at least one part, no part holds a comma, and joining the parts with commas gives the input back |
| Text.SplitJoin | DevSkim-DotNet/Microsoft.DevSkim/Suppression.cs:196 | splitting comma-free parts joined with commas gives those same parts back, empty parts included |
| Text.SplitCount | DevSkim-DotNet/Microsoft.DevSkim/Suppression.cs:196 | `Split` gives one part more than there are commas |
| Dates.ParseDate | DevSkim-DotNet/Microsoft.DevSkim/Suppression.cs:170-177 | `ParseExact(..., "yyyy-MM-dd")` succeeds exactly on the text of a calendar date: a result is a valid date that formats to the input; on failure, no valid date formats to it |
| Dates.ParseFormatRoundTrip | DevSkim-DotNet/Microsoft.DevSkim/Suppression.cs:172 | parsing a formatted valid date returns that date |
| Dates.FormatOfFields | DevSkim-DotNet/Microsoft.DevSkim/Suppression.cs:172 | every `dddd-dd-dd` text is the formatting of its own fields, so formatting reaches every shape the second search finds |
| Dates.BeforeIsStrictTotalOrder | DevSkim-DotNet/Microsoft.DevSkim/Suppression.cs:64 | the `<` used on `DateTime` is irreflexive, transitive and total |
| Dates.MaxValueIsGreatest | DevSkim-DotNet/Microsoft.DevSkim/Suppression.cs:105 | every valid instant but `MaxValue` itself is before `MaxValue` |
| Dates.MinValueIsLeast | DevSkim-DotNet/Microsoft.DevSkim/Suppression.cs:176 | no valid instant is before `MinValue` |
| Grammar.HeadGapIsForced | DevSkim-DotNet/Microsoft.DevSkim/Suppression.cs:15 | when `DevSkim:\s+ignore\s` fits with some white-space run, the greedy first attempt takes exactly that run; backtracking into `\s+` never helps because `ignore` starts with a letter |
| Grammar.UntilGapIsForced | DevSkim-DotNet/Microsoft.DevSkim/Suppression.cs:15 | the same for `\s+until\s`: a clause that fits is the one the greedy attempt finds |
| Grammar.TryAtIsFirstShape | DevSkim-DotNet/Microsoft.DevSkim/Suppression.cs:15 | the engine's attempt at a column fits the grammar; it precedes every shape that fits there in backtracking order; it fails only where nothing fits |
| Grammar.TryAtPrecedesFit | DevSkim-DotNet/Microsoft.DevSkim/Suppression.cs:15 | whatever shape fits at a column, the attempt there succeeds and is tried no later than it |
| Grammar.PrecedesAntisymmetric | DevSkim-DotNet/Microsoft.DevSkim/Suppression.cs:15 | two shapes each tried no later than the other are equal, so the engine's choice at a column is unique |
| Grammar.FindMatch | DevSkim-DotNet/Microsoft.DevSkim/Suppression.cs:152-154 | `Regex.Match`: the match fits the grammar, it is first in backtracking order at its column, and no match starts further left; the search fails only when the grammar fits nowhere |
| Grammar.FindMatchIsUnique | DevSkim-DotNet/Microsoft.DevSkim/Suppression.cs:152-154 | any match that is leftmost and first in backtracking order is the one `FindMatch` returns |
| Grammar.NoMatchBefore | DevSkim-DotNet/Microsoft.DevSkim/Suppression.cs:152 | when every attempt left of a column fails, no match starts left of it |
| Grammar.MatchesIffSomeShape | DevSkim-DotNet/Microsoft.DevSkim/Suppression.cs:132 | `IsMatch` holds exactly when the grammar fits at some column with some shape |
| Grammar.MatchingLineHasPrefix | DevSkim-DotNet/Microsoft.DevSkim/Suppression.cs:123 | a matching line contains `DevSkim:`, so the keyword test before the lookback never hides a match |
| Grammar.FindDate | DevSkim-DotNet/Microsoft.DevSkim/Suppression.cs:166-167 | the search for `(\d{4}-\d{2}-\d{2})` finds the leftmost date-shaped position, and fails only if there is none |
| Grammar.DateSearchFindsUntilDate | DevSkim-DotNet/Microsoft.DevSkim/Suppression.cs:163-168 | inside group 2 the date search fails exactly when the empty alternative was taken; otherwise it finds the date of the `until` clause and nothing before it |
| Grammar.UntilDateInside | DevSkim-DotNet/Microsoft.DevSkim/Suppression.cs:15 | the date of a matched `until` clause ends the match and has the `dddd-dd-dd` shape |
| Lookback.WalkUp | DevSkim-DotNet/Microsoft.DevSkim/Suppression.cs:130-142 | the walk up a block comment adopts a line only when it is annotated and every line between is plain; when it gives up, it ran into the comment opening or past line 1 with only plain lines in between |
| Lookback.WalkOutcomesAreExclusive | DevSkim-DotNet/Microsoft.DevSkim/Suppression.cs:130-142 | the walk adopts at most one line, and it never both adopts and gives up |
| Lookback.EffectiveLine | DevSkim-DotNet/Microsoft.DevSkim/Suppression.cs:120-150 | the line parsed for a finding: the line itself when it has `DevSkim:` or is line 1. Below a block comment, an adopted line; the line itself exactly when the walk gives up. Otherwise the line above if it holds the inline-comment marker |
| Suppressions.IssuesFrom | DevSkim-DotNet/Microsoft.DevSkim/Suppression.cs:197-210 | one issue per ID, in order and with the ID's length; the first starts at the ID list and each next one starts one comma past the end of the previous one |
| Suppressions.IssuesFromOffsets | DevSkim-DotNet/Microsoft.DevSkim/Suppression.cs:198-209 | issue `k` starts at the list start plus the lengths of the `k` earlier IDs plus `k` commas |
| Suppressions.Parse | DevSkim-DotNet/Microsoft.DevSkim/Suppression.cs:105-160 | without a match: index, length and list index are -1, there are no issues and the expiration is `MaxValue`. With one: the list index lies strictly inside the match, which starts at `DevSkim:`, and there is at least one issue |
| Suppressions.ParseMatch | DevSkim-DotNet/Microsoft.DevSkim/Suppression.cs:154-179 | a match without an `until` clause never expires; with one, it expires when the written date does |
| Suppressions.ParseLocatesMatch | DevSkim-DotNet/Microsoft.DevSkim/Suppression.cs:152-160 | for the match that fits leftmost and comes first in backtracking order at its column, `Index`, `Length` and `IssuesListIndex` are its start, its length and the start of group 1 |
| Suppressions.ParseIsLeftmost | DevSkim-DotNet/Microsoft.DevSkim/Suppression.cs:152-155 | the annotation found starts no later than any column where the grammar fits |
| Suppressions.ParseIdsRoundTrip | DevSkim-DotNet/Microsoft.DevSkim/Suppression.cs:194-211 | outside `all`, joining the issue IDs with commas gives group 1 back, and there is one issue per comma plus one (empty IDs are kept) |
| Suppressions.ParseAllKeyword | DevSkim-DotNet/Microsoft.DevSkim/Suppression.cs:182-193 | an ID list that is exactly `all` yields the single issue `all` spanning three characters at the list index |
| Suppressions.AllBranchAgreesWithSplit | DevSkim-DotNet/Microsoft.DevSkim/Suppression.cs:182-211 | the `all` branch gives the same issue list the comma split would |
| Suppressions.ParseBoundariesLocateIds | DevSkim-DotNet/Microsoft.DevSkim/Suppression.cs:194-211 | every issue's boundary marks its own ID in the line. Boundaries follow one another one comma apart; the first starts at the list index and the last ends where group 1 ends |
| Suppressions.ParseIssueOffsets | DevSkim-DotNet/Microsoft.DevSkim/Suppression.cs:198-209 | on a parsed line, issue `k` starts at the list index plus the lengths of the earlier IDs plus `k` |
| Suppressions.IdIssuesLocate | DevSkim-DotNet/Microsoft.DevSkim/Suppression.cs:182-211 | the issues of an ID list written at a column locate their IDs within that list, and cover it from start to end |
| Suppressions.DateExpirationMeaning | DevSkim-DotNet/Microsoft.DevSkim/Suppression.cs:170-177 | a written calendar date expires the suppression at that date's midnight; a date-shaped text naming no date gives `MinValue` |
| Suppressions.ParseExpiration | DevSkim-DotNet/Microsoft.DevSkim/Suppression.cs:163-179 | a matched line without `until` never expires; with `until` it expires as the date written in the clause says |
| Suppressions.ExpirationOfMatch | DevSkim-DotNet/Microsoft.DevSkim/Suppression.cs:163-179 | the expiration read from group 2 is `MaxValue` for the empty alternative and the written date's expiration otherwise |
| Suppressions.FirstCovering | DevSkim-DotNet/Microsoft.DevSkim/Suppression.cs:94 | `FirstOrDefault`: the first issue whose ID is the rule's or `all`, with none such before it, and none at all when it fails |
| Suppressions.GetSuppressedIssue | DevSkim-DotNet/Microsoft.DevSkim/Suppression.cs:92-99 | an issue is returned exactly when `now` is before the expiration and some issue names the rule or `all`; it is the first such issue in list order |
| Suppressions.InEffectIffMatchedAndUnexpired | DevSkim-DotNet/Microsoft.DevSkim/Suppression.cs:59-66 | a parsed line is in effect exactly when it matched and `now` is before its expiration |
| Suppressions.UnmatchedSuppressesNothing | DevSkim-DotNet/Microsoft.DevSkim/Suppression.cs:92-110 | a line without an annotation is never in effect and suppresses no rule |
| Suppressions.SuppressedIssueImpliesInEffect | DevSkim-DotNet/Microsoft.DevSkim/Suppression.cs:59-99 | a suppressed issue is only reported while the suppression is in effect |
| Suppressions.DatedAnnotationInEffectBeforeDate | DevSkim-DotNet/Microsoft.DevSkim/Suppression.cs:59-66 | an annotation `until` an existing date is in effect exactly while the date of `now` is earlier than the written date, since it expires at that date's midnight |
| Suppressions.InvalidDateIsExpired | DevSkim-DotNet/Microsoft.DevSkim/Suppression.cs:174-177 | when the `until` date names no calendar date, the suppression is out of effect at every valid instant and suppresses nothing |
| Suppressions.NoUntilNeverExpires | DevSkim-DotNet/Microsoft.DevSkim/Suppression.cs:105 | without `until` the suppression is in effect at every valid instant except `MaxValue` |
| Suppressions.WildcardCoversEveryId | DevSkim-DotNet/Microsoft.DevSkim/Suppression.cs:94-96 | while in effect, an `all` issue makes every rule ID suppressed |
| Suppressions.ParseAt | DevSkim-DotNet/Microsoft.DevSkim/Suppression.cs:32-43 | the constructor from a text and a line number parses the finding's line or a line above it. It parses the finding's own line whenever that line has `DevSkim:` or is line 1 |
| Suppressions.BrokenAnnotationSuppressesNothing | DevSkim-DotNet/Microsoft.DevSkim/Suppression.cs:123 | a line with `DevSkim:` that fails the grammar gets no lookback and suppresses nothing |
| Suppressions.BlockCommentLookback | DevSkim-DotNet/Microsoft.DevSkim/Suppression.cs:128-142 | below the end of a block comment, the finding takes the annotation of the line the walk adopts; when the walk gives up, it gets none |
| Suppressions.InlineCommentLookback | DevSkim-DotNet/Microsoft.DevSkim/Suppression.cs:144-147 | otherwise the line above is parsed when it holds the inline-comment marker, and the finding's own line when it does not |
| Examples.DatedLineMatch | DevSkim-DotNet/Microsoft.DevSkim/Suppression.cs:15 | in `// DevSkim: ignore DS123456 until <date>`, the match starts at column 3 with one space in each gap and an 8-character ID list |
| Examples.DatedLineParse | DevSkim-DotNet/Microsoft.DevSkim/Suppression.cs:152-211 | that line parses to index 3, length 41, list index 19, the single issue `DS123456` at column 19 of length 8, and the written date's expiration |
| Examples.UnexpiredAnnotationSuppresses | DevSkim-DotNet/Microsoft.DevSkim/Suppression.cs:59-99 | an annotation until 2099-01-01 is in effect on 2026-10-10 and suppresses `DS123456` but not `DS000000` |
| Examples.ExpiredAnnotationSuppressesNothing | DevSkim-DotNet/Microsoft.DevSkim/Suppression.cs:59-99 | an annotation until 2000-01-01 is out of effect on 2026-10-10 and suppresses nothing |
| Examples.NonexistentDateIsExpired | DevSkim-DotNet/Microsoft.DevSkim/Suppression.cs:172-177 | `until 2099-02-30` expires at `MinValue`, so the annotation is never in effect |
| Examples.IgnoreLineParse | DevSkim-DotNet/Microsoft.DevSkim/Suppression.cs:152-160 | `DevSkim: ignore <ids>` matches from column 0, puts its ID list at column 16 and never expires |
| Examples.WildcardSuppressesEveryRule | DevSkim-DotNet/Microsoft.DevSkim/Suppression.cs:182-193 | `DevSkim: ignore all` yields the issue `all` at column 16 and suppresses every rule at every instant but the last |
| Examples.TwoIds | DevSkim-DotNet/Microsoft.DevSkim/Suppression.cs:194-211 | `ignore DS1,DS2` yields `DS1` at column 16 and `DS2` at column 20 |
| Examples.EmptyIdIsKept | DevSkim-DotNet/Microsoft.DevSkim/Suppression.cs:196 | `ignore a,,b` yields three issues, the middle one the empty ID at column 18 |

## Left out

- Null checks: the constructors throw `ArgumentNullException` on a null text (Suppression.cs:23-26, 34-37). Dafny values cannot be null, so these cases do not arise.
- `TextContainer` and `Language` are not part of this model. A text becomes its sequence of lines, numbered from 1. The language's comment prefix, suffix and inline markers become a `CommentMarkers` value. `ParseAt` requires the line number to name a line of the text, as `GetLineContent` does.
- `DateTime.Now` becomes the parameter `now` of `IsInEffect` and `GetSuppressedIssue`.
- `DateTime` is modelled as a calendar date plus a tick of the day, ordered lexicographically, which is the order of .NET's tick count. Only midnights and the two sentinels are ever produced.
- Character classes: `\s` and `\d` are modelled by their ASCII members. .NET also counts Unicode white space and Unicode decimal digits.
- Positions count characters (Unicode scalar values), not UTF-16 code units. `Match.Index`, `Groups[1].Index` and `id.Length` count code units in .NET, so every position after a character outside the Basic Multilingual Plane is one less in the model per such character. In `// 🙂 DevSkim: ignore DS1`, .NET gives `Index` 6 and `IssuesListIndex` 22; the model gives 5 and 21.
- `Trim()` of group 1 (Suppression.cs:159) is not modelled separately. Group 1 is `[a-zA-Z\d,:]+`, which holds no white space, so trimming leaves it unchanged.
- Reassigning `reg` to the date pattern (Suppression.cs:166) only matters to a later call on the same object. The model parses once and does not keep the regex object.
- The `match.Groups.Count > 2` test (Suppression.cs:163) always holds. `Groups.Count` counts the groups the pattern declares, group 0 and the two parenthesised groups, whether or not they took part in the match, so it is 3 on every successful match. The date search is therefore always performed.
- `GetIssues` (Suppression.cs:82-85) is an array copy of the issue list. It is the `issues` field of the model.
- The public setter of `IssuesListIndex` (Suppression.cs:71) is not modelled. Parsing is the only writer considered.
- The rule matcher, `SearchPattern`, `RuleProcessor` and the command-line writers are outside this model. They call `Suppression`, but the parser does not depend on them.
