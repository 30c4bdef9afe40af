# Scanning, storing and committing: a verified model

This project models the hard core of two of the repository's tools and proves what they keep.

**gitradar** collects commits incrementally. A scan asks git for the commits since the last scanned tip, parses the
output, drops the hashes it has already seen, folds the rest into one record per (member, ISO week, repository), merges
the records into a table, credits the authors, and moves the cursor. The project follows that path end to end:

| part | modules |
|---|---|
| calendar and weeks | `Calendar`, `IsoWeek`, `WeekWindow`, `WeekMask`, `DateChunks` |
| reading `git log` | `GitLog`, `GitLogRoundTrip`, `GitLogLines` |
| measuring | `Measures`, `Columns`, `Commits`, `CommitCounts`, `Collector`, `MergeByKey` |
| storing | `Records`, `LegacyDays`, `Reattribution`, `AuthorRegistry`, `Database` (the class over the tables), `ScanLock` |
| scanning | `CommitGraph`, `ScanState`, `ScanRuns`, `RecordCounts`, `Cursors`, `ExactlyOnce`, `IncrementalScan`, `RangeWalks`, `Engine` (the class), `EngineRuns` |
| reading back | `Rollup`, `RollupSums`, `Ranking`, `Csv`, `Bar` |

**pritty** turns staged files into one commit per category and checks rebase plans: `Categorizer`, `IndexCommit`,
`RebasePlan`. `Text`, `MapSums`, `Permutations` and `Sorting` are shared.

Scanning is a state machine. A world holds the three tables and, as specification only, the commits counted per
repository since its records were last cleared. An event is one visit to one repository: ordinary or forced, skipped,
failed or completed, with everything git and the clock answer as part of the event. The main theorems hold for every
sequence of events, over any commit graph, with HEAD moving as the theorem says.

Classes, in-place arrays and loops of the source appear as such, each proved against a specification function; the
theorems about whole runs are about those functions.

## Results the code does not meet

Each has a lemma, and where the claim is a general one, its exact condition.

- A `git log` that dies after printing something counts as a success, so the commits it had not printed can be lost
  (`TruncatedWalkLosesCommit`). Without such a run nothing is lost (`WholeRangesReach`); with one, `LossExactly` says
  when, and `DyingGitIsHarmlessExactly` says for which ranges no such output can lose anything. Issue #112 only covers
  runs that print nothing.
- A first scan in chunks misses commits dated outside the last ten years and lists a commit dated on a boundary between
  two chunks twice, and does neither otherwise (`FirstScanExactly`).
- A forced scan whose HEAD does not resolve clears the repository but keeps its old tip, and loses the tip's history
  (`ForcedScanWithoutHeadLoses`); `ForcedScanCoversExactly` is the exact condition. `rescanRepo` keeps no tip in that
  case and falls under the date cursor below; `RescanIsForcedScan` says when the two agree.
- On rewritten histories a commit that has left the 5000-hash window is counted again
  (`RewriteBeyondWindowCountsTwice`, exactly when `DoubleCountExactly` and, over runs, `NeverTwiceExactly` say). Nothing
  is lost even then (`RunCovered`), and repositories that have counted no more than 5000 commits are safe
  (`SmallRepositoriesNeverTwice`).
- The date cursor of states without a tip, old ones and those left by a first scan whose HEAD did not resolve, loses
  uncounted commits from before its date (`DateCursorLossExactly`).
- After a forced scan the engine's scan state in memory keeps a cursor whose row was deleted, when that repository
  failed and a later one completed (`MemoryMatchesExactly`). The comment on `forgetRepoScanState` says it does not.
- Day counts can depend on the order of upserts when rows from before the weekday mask take part
  (`LegacyRowsAreOrderDependent`). They do exactly when such a row brings days, two rows of the key carry a mask, and the
  masks leave a weekday free (`DayCountIgnoresOrderExactly`).
- The status of a renamed or copied file is lost, `Unknown`, when its counted path and what follows an arrow in it are
  neither of its two names, as in the braces git uses within a directory (`UnnamedIsUnknown`, `BracedRenameIsUnknown`),
  and a file a later copy starts from takes the copy's status (`CopySourceIsCopied`). `LogRoundTripExactly` is the exact
  condition.
- Dates in the years 1 to 99 get the week string of the same date 1900 years later, since `Date.UTC` reads such years as
  1900 to 1999 (`CenturiesCollide`).
- `queryRollup` and `filterRecords` + `rollup` differ on an empty week list and on grouping an empty selection as `all`
  (`RollupsAgree`).
- The scan lock does not exclude once a scan outlives two hours (`AcquireBreaksExactly`, `OverrunBreaksTheLock`).
- Committing the categories "in any order" can stop with a category unmade when a staged file's name is a pathspec for
  another one (`WildcardNameBreaksAnOrder`). `AllStepsCommit` is the exact condition for one order and
  `EveryOrderCommitsExactly` for all. A success leaves staged a path that no staged path's own pathspec selects, as names
  opening with a colon may not (`RunCommit`).
- `stackedBar` does not always draw exactly `width` cells (`MoreSegmentsThanCells`; `BarWidth` is the exact condition).

Two comments disagree with the code, and the model follows the code: the comment on `parseGitLogOutput` describes a
pipe-delimited header (it is NUL-delimited), and the one on `stackedBar` promises exactly `width` characters.

## Model

| member | source | states |
|---|---|---|
| Calendar.Jan1ClosedForm | apps/gitradar/src/collector/git.ts:582-596 | the year table counted out day by day is DayFromYear of section 21.4.1.3 of ECMA-262, for every year |
| IsoWeek.LongYears | apps/gitradar/src/aggregator/filters.ts:225-268 | a year has 53 ISO weeks exactly when it starts on a Thursday, or is leap and starts on a Wednesday, else 52; the next year's week 1 follows its last week |
| IsoWeek.LongYearsExactly | apps/gitradar/src/aggregator/filters.ts:225-268 | by leap years counted from year 0 alone: the 53-week years are those that end on a Thursday or follow a year that ends on a Wednesday |
| IsoWeek.WeekByThursday | apps/gitradar/src/collector/git.ts:582-596 | a week has the year of its Thursday and counts that year's Thursdays, day 0 having been a Thursday |
| IsoWeek.WeekTurns | apps/gitradar/src/collector/git.ts:589-590 | the week string changes from one day to the next exactly on the days that are 4 modulo 7, day 4 having been a Monday |
| IsoWeek.WeekOfMonday | apps/gitradar/src/aggregator/filters.ts:225-268 | all seven days from a valid week's Monday are in that week |
| IsoWeek.MondayOfWeekOf | apps/gitradar/src/aggregator/filters.ts:225-268 | the week of any date is one of its year's weeks, and its Monday is the Monday on or before the date |
| IsoWeek.WeekdaysDistinct | apps/gitradar/src/collector/git.ts:860-867 | two dates of one ISO week with the same weekday are the same date |
| IsoWeek.DateRoundTrip | apps/gitradar/src/aggregator/filters.ts:246-268 | week string of a date, then Monday of that string: the Monday of the date's own week |
| IsoWeek.WeekRoundTrip | apps/gitradar/src/aggregator/filters.ts:225-268 | Monday of a valid week's string plus 0 to 6 days gives back the same string |
| IsoWeek.RegularWeek | apps/gitradar/src/collector/git.ts:582-596 | outside the years 0 to 99, which `Date.UTC` reads as 1900 to 1999, the computed week is the ISO week |
| IsoWeek.CenturiesCollide | apps/gitradar/src/collector/git.ts:582-596 | every date of the years 1 to 99 gets the string of the same date 1900 years later |
| IsoWeek.SameStringSameWeek | apps/gitradar/src/collector/git.ts:582-596 | a week string names one week, outside those years |
| IsoWeek.StringOrderIsDateOrder | apps/gitradar/src/aggregator/scorecard.ts:361-364 | week strings compare as the weeks do, across 52- and 53-week years, from 1000 to 9999 |
| Text.LessIsLexLess | apps/gitradar/src/collector/git.ts:747-750 | the recursive comparison is "first difference decides", the order of JavaScript and SQLite on such text |
| WeekWindow.GetLastNWeeks | apps/gitradar/src/aggregator/filters.ts:52-69 | the loop yields the weeks of the n Mondays ending at the given week, oldest first; malformed weeks are errors |
| WeekWindow.BuildWeekWindow | apps/gitradar/src/aggregator/trends.ts:124-160 | the UTC loop yields the set of the same weeks |
| WeekWindow.WindowIsConsecutive | apps/gitradar/src/aggregator/filters.ts:52-69 | n strictly increasing, distinct weeks; a date's week is among them exactly when the date is in the 7n days |
| WeekWindow.ScorecardWindows | apps/gitradar/src/aggregator/scorecard.ts:332-338 | baseline followed by window is the last 2n weeks |
| WeekWindow.WindowsPartition | apps/gitradar/src/aggregator/scorecard.ts:332-338 | window and baseline are disjoint, have n weeks each, and make up the last 2n |
| WeekMask.PopcountLoop | apps/gitradar/src/aggregator/engine.ts:140-144 | the shifting loop counts what the SQL sum of shifted bits counts |
| WeekMask.PopcountIsCardinality | apps/gitradar/src/store/sqlite-store.ts:272-280 | that count is the number of weekdays in the mask |
| WeekMask.OrUnitesDays | apps/gitradar/src/store/sqlite-store.ts:277-288 | bitwise or is union of weekdays |
| WeekMask.MaskFromDays | apps/gitradar/src/collector/git.ts:860-867 | a mask is determined by its weekdays |
| WeekMask.ToActiveDayMask | apps/gitradar/src/collector/git.ts:860-867 | the loop sets exactly the weekdays of the given dates: bit i exactly when some date is i + 4 modulo 7 |
| WeekMask.MaskCountsDates | apps/gitradar/src/collector/git.ts:775-787 | for dates of one ISO week there are as many bits as dates, and at most seven |
| DateChunks.AddMonthsLands | apps/gitradar/src/collector/git.ts:678 | adding months keeps the day of the month, or spills into the next month by the days that are lacking; the time of day stays |
| DateChunks.MonthStarts | apps/gitradar/src/collector/git.ts:668-683 | every month starts on the day the table of section 21.4.1.4 of ECMA-262 gives, leap years included |
| DateChunks.TenYearsBack | apps/gitradar/src/collector/git.ts:704-706 | the first scan starts on the same month, day and time ten years earlier, and from February 29 on March 1 |
| DateChunks.AddMonthsAdvances | apps/gitradar/src/collector/git.ts:678 | with months >= 1 the cursor advances by at least 28 days per month, so the loop ends |
| DateChunks.GenerateDateChunks | apps/gitradar/src/collector/git.ts:668-683 | the loop ends; no chunk when the end is not after the start day's midnight, otherwise chunks that start there, end at the end, meet without gap, are non-empty and span the months, the last cut off |
| DateChunks.ChunkOfInstant | apps/gitradar/src/collector/git.ts:664-667 | an instant lies in exactly one chunk when it is between midnight of the start day and the end, and in none otherwise |
| DateChunks.BuildScanRanges | apps/gitradar/src/collector/git.ts:694-708 | a tip gives one reachability range, a date or no chunk size one open range, and a first scan the chunks of the last ten years |
| GitLog.ParseGitLogOutput | apps/gitradar/src/collector/git.ts:281-372 | the batch parser finds the commits of the line-by-line specification |
| GitLog.GitLogLineParser.ProcessLine | apps/gitradar/src/collector/git.ts:389-457 | one line moves the parser's state one step and completes at most the previous commit |
| GitLog.GitLogLineParser.Flush | apps/gitradar/src/collector/git.ts:460-476 | the last commit, with late statuses filled in |
| GitLog.StreamGitLog | apps/gitradar/src/collector/git.ts:533-566 | for every text and every way of cutting it into chunks, the pending buffer, the parser and the final flush yield what batch parsing the whole text yields |
| GitLog.SplitAppend | apps/gitradar/src/collector/git.ts:541-549 | appending text only changes the last part of a split, the invariant behind the pending buffer |
| GitLogRoundTrip.RawMatches | apps/gitradar/src/collector/git.ts:260 | a raw line printed for a change, rename or copy is matched with its status and names, whatever modes, object names and score it shows |
| GitLogRoundTrip.NumStatMatches | apps/gitradar/src/collector/git.ts:263 | a numstat line is matched with its two counts, dashes being zeros, and its path, tabs and arrows in the path included |
| GitLogRoundTrip.HeaderParses | apps/gitradar/src/collector/git.ts:242-257 | a header line gives back hash, email, name, date and subject |
| GitLogRoundTrip.ReadCommit | apps/gitradar/src/collector/git.ts:296-366 | after the lines of a commit the parser holds that commit, with the statuses its raw lines tell, whatever it held before |
| GitLogRoundTrip.LogReadsBack | apps/gitradar/src/collector/git.ts:210-372 | printing any list of commits, renames, copies and binary files included, and parsing the text returns them with all files and counts, and the status the raw lines tell of each file |
| GitLogRoundTrip.LogRoundTripExactly | apps/gitradar/src/collector/git.ts:210-372 | the text gives back exactly the commits printed when the last raw line naming each file has its status, and only then |
| GitLogRoundTrip.LogRoundTrip | apps/gitradar/src/collector/git.ts:210-372 | so it does whenever renames show as `from => to` and no name is used for two files of a commit |
| GitLogRoundTrip.UnnamedIsUnknown | apps/gitradar/src/collector/git.ts:355-364 | a moved file whose counted path, and what follows an arrow in it, are neither of its names comes out with an unknown status |
| GitLogRoundTrip.CopySourceIsCopied | apps/gitradar/src/collector/git.ts:336-344 | a modified file that a later copy starts from comes out as copied |
| GitLogLines.RawOnly | apps/gitradar/src/collector/git.ts:260 | nothing but raw lines is taken for one |
| GitLogLines.NumStatOnly | apps/gitradar/src/collector/git.ts:263 | nothing but numstat lines is taken for one, and the counts are the numerals' values |
| GitLogLines.HeaderExactly | apps/gitradar/src/collector/git.ts:242-257 | a header is taken exactly when its hash has 6 to 40 hex digits and its date parses; no control character gets into email, name or subject |
| Measures.JoinAssociates | apps/gitradar/src/store/sqlite-store.ts:296-340 | merging measure columns is associative |
| Measures.JoinCommutes | apps/gitradar/src/store/sqlite-store.ts:296-340 | merging measure columns is commutative |
| Measures.SumOfPermutes | apps/gitradar/src/store/sqlite-store.ts:296-340 | a fold of measures does not depend on order |
| Columns.JoinAdds | apps/gitradar/src/store/sqlite-store.ts:296-340 | every counter column of a merge is the integer sum of the two |
| Columns.ColumnsDetermine | apps/gitradar/src/store/sqlite-store.ts:296-340 | the columns are all there are: equal in each, two measures have the same counters |
| Records.UpsertAllMeasures | apps/gitradar/src/store/sqlite-store.ts:1364-1403 | after any upserts a key holds its old measures joined with those of the records for it |
| Columns.UpsertsAdd | apps/gitradar/src/store/sqlite-store.ts:1364-1403 | after any upserts each counter of a key is its old value plus the integer sum over the records for it |
| Columns.UpsertsUnite | apps/gitradar/src/store/sqlite-store.ts:277-340 | and its scopes and weekdays are exactly those it had or some record for it brings |
| Records.UpsertKeepsMasks | apps/gitradar/src/store/sqlite-store.ts:282-288 | without legacy rows every merge keeps active days equal to the popcount of the mask |
| Records.UpsertOrderIrrelevant | apps/gitradar/src/store/sqlite-store.ts:1364-1403 | two orders or batchings of the same records leave the same measures and day counts |
| Records.LegacyRowsAreOrderDependent | apps/gitradar/src/store/sqlite-store.ts:282-288 | three rows, one of them legacy, whose day count is 1 in one order and 4 in another |
| LegacyDays.FoldBounds | apps/gitradar/src/store/sqlite-store.ts:282-288 | with mask-free rows among them, the day count of a key lies between the days of the united masks and those plus the undated days, capped at seven |
| LegacyDays.DayCountIgnoresOrderExactly | apps/gitradar/src/store/sqlite-store.ts:282-288 | all orders of the same upserts leave one day count for a key exactly when none of its rows brings undated days, or at most one carries a mask, or the masks fill the week |
| Records.TotalUpsertAll | apps/gitradar/src/store/sqlite-store.ts:1364-1403 | a batch adds exactly its own measures to the total of any selection |
| Columns.UpsertsAddUp | apps/gitradar/src/store/sqlite-store.ts:1364-1403 | a batch adds its integer sum to every counter summed over any selection of rows |
| MergeByKey.MergeRecordsByKey | apps/gitradar/src/collector/index.ts:312-332 | each key once, with the base row plus the PR and rework counters of every extra record of that key |
| MergeByKey.MergedUpsert | apps/gitradar/src/collector/index.ts:312-332 | upserting the merged list leaves the same table as upserting base, then extra |
| Reattribution.UpdateConserves | apps/gitradar/src/store/sqlite-store.ts:1476-1498 | one update, collisions included, leaves every counter, scope set and mask union of each (week, repo) unchanged |
| Reattribution.ReattributionConserves | apps/gitradar/src/store/sqlite-store.ts:1432-1502 | so does any list of updates |
| Columns.ReattributionKeepsSums | apps/gitradar/src/store/sqlite-store.ts:1432-1502 | any list of updates leaves each counter summed over the rows of a (week, repo), its scopes and its weekdays as they were |
| Reattribution.UpdateShape | apps/gitradar/src/store/sqlite-store.ts:1476-1498 | exactly the rows of the update's email move, to its member, and carry its email, org, type, team and tag; no other row changes, and a row met on the way keeps its group |
| Reattribution.UpdateAttributes | apps/gitradar/src/store/sqlite-store.ts:1449-1474 | after an update every row with its email carries the new member, org, type, team and tag |
| Reattribution.LastUpdateWins | apps/gitradar/src/store/sqlite-store.ts:1432-1502 | after a list the last update naming an email decides all its rows |
| CommitCounts.IgnoredOnlyExactly | apps/gitradar/src/collector/git.ts:760-769 | a commit is set aside exactly when it has files and every one is ignored |
| CommitCounts.FilesAdd | apps/gitradar/src/collector/git.ts:826-834 | each file counter of a commit is the sum over its files that are not ignored and have that category |
| CommitCounts.SumCounts | apps/gitradar/src/collector/git.ts:809-834 | each counter of a fold of commits is the integer sum over the measured commits of that member and UTC week |
| CommitCounts.SumScopes | apps/gitradar/src/collector/git.ts:821-824 | its scopes are those these commits name |
| Commits.SumMask | apps/gitradar/src/collector/git.ts:860-867 | the union of single-day masks is the set of weekdays of the commit dates |
| Commits.PopcountIsDates | apps/gitradar/src/collector/git.ts:775-787 | the mask of a key has as many bits as the key has distinct UTC dates, at most seven |
| Collector.Accumulators.ProcessCommitBatch | apps/gitradar/src/collector/git.ts:716-854 | the batch loop folds exactly the commits outside the window into records, days, hashes and authors, and counts the skipped and the ignored; each counter of a record grows by the sum over the measured commits of its key |
| Collector.Accumulators.TakeCommit | apps/gitradar/src/collector/git.ts:740-850 | one commit's effect on every accumulator; it is measured exactly when it has no files or one that is not ignored |
| Collector.AccRecords | apps/gitradar/src/collector/git.ts:809-834 | a key's record is the fold of the commits of that key |
| Collector.AccDays | apps/gitradar/src/collector/git.ts:784-787 | a key's day set is the distinct UTC dates of its measured commits, and a key has a record exactly when it has one |
| Collector.AccAuthors | apps/gitradar/src/collector/git.ts:742-758 | a discovered author's count is the number of commits with that email, ignored-only ones included |
| Collector.AccNewest | apps/gitradar/src/collector/git.ts:742-758 | a discovered author carries date and name of the first of their commits with the latest date |
| Collector.ScanRepo | apps/gitradar/src/collector/git.ts:883-991 | fails exactly when a run fails for an unexpected reason having printed nothing; otherwise one record per key of the fold, hashes newest range first, and the counts |
| Collector.ScanRanges | apps/gitradar/src/collector/git.ts:923-969 | walking range by range accumulates what one fold over all output does, with one hash list per range |
| Collector.Finish | apps/gitradar/src/collector/git.ts:973-980 | active days and masks are set from the tracked dates, each record listed once |
| AuthorRegistry.MergeDiscoveredAuthors | apps/gitradar/src/store/author-registry.ts:18-66 | the loop credits every discovered author, new or known |
| AuthorRegistry.SubtractRepoFromRegistry | apps/gitradar/src/store/author-registry.ts:75-91 | the loop takes one repository's share back from every author |
| AuthorRegistry.MergedIsSaved | apps/gitradar/src/store/sqlite-store.ts:1262-1299 | the conflict rules of the save change nothing of what was merged into the stored registry |
| AuthorRegistry.SubtractedIsSaved | apps/gitradar/src/store/sqlite-store.ts:1302-1304 | nor of what was subtracted from it |
| AuthorRegistry.SavedSpan | apps/gitradar/src/store/sqlite-store.ts:1262-1299 | a save keeps the earlier first day, the later last day and a known identifier, and takes the counts as given |
| AuthorRegistry.SeenAgainBalances | apps/gitradar/src/store/author-registry.ts:30-48 | a known author's count stays the sum of the shares, and the repository's share grows by the new commits |
| AuthorRegistry.WithoutShareBalances | apps/gitradar/src/store/author-registry.ts:75-91 | taking a share back keeps the balance and clears exactly that share |
| CommitGraph.GrowthKeepsHistory | apps/gitradar/src/collector/git.ts:929-935 | new commits never change what an existing one reaches, so one graph serves a whole run |
| CommitGraph.HistoryNests | apps/gitradar/src/collector/git.ts:929-935 | an ancestor's history is part of its descendant's |
| CommitGraph.SameCommitsSameBag | apps/gitradar/src/collector/git.ts:734-740 | two lists of the same commits, each once, are permutations of each other |
| ScanState.WindowKeepsNewestRanges | apps/gitradar/src/collector/git.ts:910-912 | the hash window of a chunked scan never drops a newer range's hash while it keeps an older range's |
| ScanState.NewestFirstHashes | apps/gitradar/src/collector/git.ts:971 | the hash list of a scan holds exactly the hashes of the commits it counted |
| ScanRuns.ScanTableAgrees | apps/gitradar/src/collector/git.ts:973-980 | a scan's records hold the sum of its commits, with as many active days as distinct dates |
| ScanRuns.NextRecordAgrees | apps/gitradar/src/collector/index.ts:102-293 | any visit keeps every record equal to the fold of the commits counted for it |
| ScanRuns.RecordsAgree | apps/gitradar/src/collector/index.ts:102-293 | in every reachable state each record is the fold of its counted commits |
| RecordCounts.ScanCounts | apps/gitradar/src/collector/git.ts:809-834 | each counter of a scan's record is the integer sum over the measured commits of its key |
| RecordCounts.ScanAttributes | apps/gitradar/src/collector/git.ts:771-806 | a scan's record is attributed, column by column, by the first commit of its key, or as unassigned |
| RecordCounts.RecordsAreCounts | apps/gitradar/src/collector/index.ts:102-293 | in every reachable state each commit counter of a record is the integer sum over the counted commits of its key |
| RecordCounts.RecordScopes | apps/gitradar/src/collector/index.ts:102-293 | and its scopes are those these commits name |
| RecordCounts.PostColumnsAreBrought | apps/gitradar/src/collector/index.ts:160-286 | in every reachable state the PR and rework counters are what the passes of completed visits brought since the repository was last cleared |
| RecordCounts.AuthorsNamed | apps/gitradar/src/store/author-registry.ts:18-66 | after a completed visit every author it counted carries the name of their newest commit, has been seen in the repository, was last seen no earlier, and keeps first day, repositories, org, team and a known identifier |
| ScanRuns.ActiveDaysAreDates | apps/gitradar/src/store/sqlite-store.ts:282-288 | in every reachable state active days are the distinct UTC dates over all merged batches |
| ScanRuns.AuthorsAgree | apps/gitradar/src/engine/gitradar-engine.ts:395-403 | in every reachable state each author's share of a repository is the number of its counted commits they wrote, and the total is the sum of the shares |
| ScanRuns.ThreeTablesAgree | apps/gitradar/src/collector/index.ts:125-286 | summed record commits plus ignored-only commits, summed author shares and counted commits are one number, under any mix of ordinary, forced, failed and skipped visits |
| Cursors.FinishRemembered | apps/gitradar/src/store/scan-state.ts:39-46 | after any run the saved scan date is when the last remembered scan finished, told from the events alone |
| Cursors.ScansExactlyWhenDue | apps/gitradar/src/collector/index.ts:107-123 | a visit scans exactly when the path exists and it is forced, has no scan to remember, or that scan finished more than the staleness ago; otherwise the world stays as it was |
| Cursors.ScannedAgainExactly | apps/gitradar/src/collector/index.ts:107-114 | after a completed scan an ordinary visit changes nothing until the staleness has passed, and from then on scans again |
| Cursors.CursorSaved | apps/gitradar/src/collector/index.ts:263-282 | a completed visit saves the newest 5000 hashes of commits and PRs, the tips, and one more record for each key fed; a forced one starts afresh |
| Cursors.WalkExactly | apps/gitradar/src/collector/index.ts:131-158 | when git answers truly, a walk lists the head's non-merge history less that of a saved tip in it, by date only for a cursor without a tip, and meets what the run theorems ask |
| ExactlyOnce.MovingHeadReaches | apps/gitradar/src/collector/index.ts:131-158 | a walk during which HEAD moves on to a descendant still holds all of the resolved head's range |
| ExactlyOnce.NextCovered | apps/gitradar/src/collector/index.ts:131-158 | a completed visit whose output holds the resolved head's range leaves everything reachable from that head counted |
| ExactlyOnce.RunCovered | apps/gitradar/src/collector/index.ts:131-286 | no loss over whole runs, rewrites included and whatever the window: the saved tip's history is always counted |
| ExactlyOnce.ScannedHeadsStayCounted | apps/gitradar/src/collector/index.ts:131-286 | so is the history of every head ever scanned, also when it is rewritten away, until the repository is cleared |
| ExactlyOnce.DoubleCountExactly | apps/gitradar/src/collector/index.ts:157-158 | a visit counts nothing twice exactly when the window still held every counted commit it walked again |
| ExactlyOnce.NeverTwiceExactly | apps/gitradar/src/collector/index.ts:157-158 | over whole runs nothing is ever counted twice exactly when that held at every completed visit |
| ExactlyOnce.SmallRepositoriesNeverTwice | apps/gitradar/src/store/scan-state.ts:48-66 | while a repository has counted at most 5000 commits no history, rewritten or not, counts one twice |
| ExactlyOnce.EachCommitOnce | apps/gitradar/src/collector/index.ts:131-286 | every non-merge commit reachable from any scanned HEAD is counted, none twice, and each record equals one fold over the set of counted commits |
| IncrementalScan.FastForwardRunsAreExact | apps/gitradar/src/collector/index.ts:131-158 | on fast-forward histories, whatever the window, the counted commits are exactly the tip's non-merge history |
| IncrementalScan.FastForwardRunsAreGood | apps/gitradar/src/collector/index.ts:141-149 | fast-forward histories meet every assumption of the exactly-once theorems, the window's included, at any size |
| IncrementalScan.WholeScanIsGood | apps/gitradar/src/collector/git.ts:929-958 | a first scan that prints both commits of a two-commit history meets them, so they are not vacuous |
| IncrementalScan.IncrementalEqualsScratch | apps/gitradar/src/collector/index.ts:131-286 | records, day counts and shares after any fast-forward run equal those of one scan of the final tip into an empty store |
| IncrementalScan.SameCountedSameTables | apps/gitradar/src/collector/index.ts:102-293 | two reachable states that counted the same commits hold the same records and shares |
| IncrementalScan.ForcedScanRepeats | apps/gitradar/src/collector/index.ts:125-129 | repeating a forced scan leaves the repository's records and day counts, every author's shares and every author's total unchanged |
| RangeWalks.WholeRangesReach | apps/gitradar/src/collector/git.ts:929-969 | a scan in which no git run failed or died printing gives the run theorems what they ask for, also while HEAD moves on between ranges |
| RangeWalks.LossExactly | apps/gitradar/src/collector/git.ts:568-573 | a completed visit leaves everything reachable counted exactly when each run that exited non-zero after printing had already printed, or the store already counted, its whole range |
| RangeWalks.DyingGitIsHarmlessExactly | apps/gitradar/src/collector/git.ts:568-573 | every output such a run may have printed is harmless exactly when its range was already counted or holds at most one commit |
| RangeWalks.FirstScanExactly | apps/gitradar/src/collector/git.ts:694-708 | a chunked first scan reaches the whole history exactly when all of it is dated within the ten years, and lists nothing twice exactly when nothing is dated on an inner chunk boundary |
| RangeWalks.PrintedDistinct | apps/gitradar/src/collector/git.ts:929-958 | the output of all ranges lists no commit twice exactly when no two ranges print the same one |
| IncrementalScan.DateCursorLossExactly | apps/gitradar/src/collector/index.ts:150-154 | a date walk misses exactly the uncounted commits from before its date |
| IncrementalScan.TruncatedWalkLosesCommit | apps/gitradar/src/collector/git.ts:568-573 | two commits, one printed before git dies: the visit completes, the tip moves, and no later ordinary walk covers the other |
| IncrementalScan.ForcedScanCoversExactly | apps/gitradar/src/collector/index.ts:274-282 | a forced scan of a repository with a tip leaves the saved tip's history counted exactly when HEAD resolved or the old tip had nothing to count |
| IncrementalScan.ForcedScanWithoutHeadLoses | apps/gitradar/src/collector/index.ts:274-282 | a forced scan without a HEAD keeps the old tip with nothing counted, and the next walk from it is empty |
| IncrementalScan.RewriteBeyondWindowCountsTwice | apps/gitradar/src/store/scan-state.ts:48-66 | a re-walk that prints a counted commit beyond the window counts it twice |
| ScanLock.OneScanAtATime | apps/gitradar/src/store/sqlite-store.ts:1329-1359 | over every interleaving of starting, acquiring, releasing, crashing and waiting, without an overrun at most one scan is in flight and the row names its process |
| ScanLock.AcquireBreaksExactly | apps/gitradar/src/store/sqlite-store.ts:1336-1355 | from such a state an acquire breaks exclusion exactly when the scan in flight has reached the maximum age |
| ScanLock.RefusedExactlyWhileScanning | apps/gitradar/src/store/sqlite-store.ts:1344-1348 | with pids not reused, an acquire is refused exactly while a scan is in flight |
| ScanLock.StaleRowIsReclaimed | apps/gitradar/src/store/sqlite-store.ts:1344-1353 | after any run at all, a dead holder's row or an old one does not block: the acquirer gets the row and scans |
| ScanLock.OverrunBreaksTheLock | apps/gitradar/src/engine/gitradar-engine.ts:360-377 | one overrun, then the unconditional release: two other processes scan side by side, neither overdue |
| Database.Store.UpsertRecords | apps/gitradar/src/store/sqlite-store.ts:1364-1403 | the transaction's loop applies the upserts in order and touches no other table; every counter of a key grows by the sum over the records for it |
| Database.ClearedTotals | apps/gitradar/src/store/sqlite-store.ts:1406-1409 | after the delete nothing measured is left of the repository, and every selection of the other rows adds up to what it did |
| Database.Store.ReattributeRecords | apps/gitradar/src/store/sqlite-store.ts:1432-1502 | the loops apply the update list, and the count returned is the rows found for each update in turn; every counter summed over a (week, repo) stays |
| Database.Store.SaveAuthorRegistry | apps/gitradar/src/store/sqlite-store.ts:1262-1299 | the loop of upserts saves every author by the conflict rules |
| Database.Store.SubtractRepoFromAuthorCounts | apps/gitradar/src/store/sqlite-store.ts:1302-1304 | load, subtract, save leaves the stored registry without the repository's shares |
| Database.Store.AcquireScanLock | apps/gitradar/src/store/sqlite-store.ts:1336-1355 | takes the row or leaves it, as the protocol's step |
| Engine.GitRadarEngine.Scan | apps/gitradar/src/engine/gitradar-engine.ts:360-377 | scans exactly when the lock can be taken, otherwise changes nothing, and ends with the lock free |
| Engine.GitRadarEngine.ScanAllRepos | apps/gitradar/src/collector/index.ts:59-310 | the loop over repositories, with the engine's callbacks, makes the tables, the carried state and the engine's own fields what visiting in turn makes them |
| Engine.GitRadarEngine.ScanOneRepo | apps/gitradar/src/collector/index.ts:102-293 | one turn of the loop is one visit; within the staleness of the last finish, without a path, or on a failed ordinary scan nothing changes, and otherwise the finish is saved |
| Engine.GitRadarEngine.StoreResult | apps/gitradar/src/collector/index.ts:241-286 | records, authors and cursor of a good scan stored through the callbacks amount to one completed visit |
| Engine.GitRadarEngine.OnRepoReset | apps/gitradar/src/engine/gitradar-engine.ts:398-403 | the reset clears the repository from records, cursors and shares, and from the engine's memory |
| Engine.GitRadarEngine.RescanRepo | apps/gitradar/src/engine/gitradar-engine.ts:484-534 | a rescan is a forced visit without previous state, under the lock |
| EngineRuns.ScanIsRun | apps/gitradar/src/engine/gitradar-engine.ts:379-404 | what a scan leaves in the store is what its visits leave there as events of a run, so every theorem about runs is one about scans |
| EngineRuns.OrdinaryStaysInStep | apps/gitradar/src/engine/gitradar-engine.ts:389-393 | an ordinary scan keeps the carried, the engine's and the persisted scan state equal |
| EngineRuns.OrdinaryRegistryInStep | apps/gitradar/src/engine/gitradar-engine.ts:395-397 | and the engine's author registry equal to the stored one |
| EngineRuns.MemoryMatchesExactly | apps/gitradar/src/engine/gitradar-engine.ts:466-480 | after a forced scan the engine's state for a repository is the persisted one, except exactly when it had a state, failed, and a later repository completed |
| EngineRuns.RescanIsForcedScan | apps/gitradar/src/engine/gitradar-engine.ts:484-534 | a rescan leaves the store as a forced scan does exactly when git answered for the tips or there was nothing older to fall back on |
| Rollup.RollUp | apps/gitradar/src/aggregator/engine.ts:50-130 | the accumulating loop computes, per group, totals, active members, PR sizes, and active days |
| RollupSums.RollupSumsUp | apps/gitradar/src/aggregator/engine.ts:50-130 | every group of the loop shows, column by column, integer sums over exactly the records of its key: files over five categories, net lines, and the members with a commit |
| RollupSums.QuerySumsUp | apps/gitradar/src/store/sqlite-store.ts:739-950 | so does every group of the query, over exactly the rows that meet the conditions given and have the group's key, with one group per key |
| RollupSums.WeekDays | apps/gitradar/src/store/sqlite-store.ts:739-950 | on both paths the days of a member-week are the weekdays any row's mask sets plus the days of the rows without a mask, at most seven |
| RollupSums.FilterExactly | apps/gitradar/src/aggregator/filters.ts:26-39 | filter and `WHERE` clause keep the rows that meet each condition given; on an empty week list the filter keeps none |
| RollupSums.KeyExactly | apps/gitradar/src/store/sqlite-store.ts:721-729 | the group key is the member, repository, org, team, tag or week of the record, or `all` |
| Rollup.AddRecord | apps/gitradar/src/aggregator/engine.ts:89-120 | adding a record to the running totals is joining its measures |
| Rollup.SumDays | apps/gitradar/src/aggregator/engine.ts:123-144 | per member-week, popcount plus legacy days capped at seven, summed |
| Rollup.TrackedBits | apps/gitradar/src/store/sqlite-store.ts:739-950 | a bit of the or-ed mask is set exactly when MAX over the rows sets it |
| Rollup.SameGroup | apps/gitradar/src/store/sqlite-store.ts:739-950 | for the same rows in any order the loop and the SQL aggregates give the same group |
| Rollup.SameSelection | apps/gitradar/src/aggregator/filters.ts:26-39 | for the same non-empty selection the filter and the loop equal the query, for every grouping |
| Rollup.RollupsAgree | apps/gitradar/src/store/sqlite-store.ts:739-950 | the two paths agree exactly when the selection is non-empty and the week list is not the empty list, or it is empty and the grouping is not `all` |
| Ranking.PercentileMonotone | apps/gitradar/src/aggregator/scorecard.ts:183-187 | the nearest-rank percentile grows with p |
| Ranking.RankCovers | apps/gitradar/src/aggregator/scorecard.ts:183-187 | the rank is the least that covers p percent of the values |
| Ranking.PercentileExactly | apps/gitradar/src/aggregator/scorecard.ts:183-187 | at least p percent of the values are at most the percentile, which is one of them, and fewer are below it, or none |
| Ranking.CohortPercentiles | apps/gitradar/src/aggregator/scorecard.ts:383-395 | the loops set each present value's percentile, and none below the minimum cohort |
| Ranking.CohortRanksFollowValues | apps/gitradar/src/aggregator/scorecard.ts:383-395 | percentiles are in 0 to 100, follow the values, and are equal on ties |
| Ranking.CohortShare | apps/gitradar/src/aggregator/scorecard.ts:383-395 | the percentile is 100 times the share of the others that lie below, to the nearest integer, halves up |
| Ranking.CohortEnds | apps/gitradar/src/aggregator/scorecard.ts:383-395 | the lowest value gets 0 and an untied highest 100 |
| Ranking.CohortEdges | apps/gitradar/src/aggregator/scorecard.ts:383-395 | too small a cohort and a missing value have no percentile, a cohort of one has 100 |
| Ranking.CohortOrderIrrelevant | apps/gitradar/src/aggregator/scorecard.ts:383-395 | they do not depend on the order of the rows |
| Ranking.ComparatorIsPreorder | apps/gitradar/src/aggregator/scorecard.ts:428-447 | the row comparator is total and transitive, for each direction |
| Ranking.RowsSorted | apps/gitradar/src/aggregator/scorecard.ts:428-447 | the rows come out rearranged, in order of the column, ties by member, nulls last in both directions, stably |
| Ranking.CalculateSegments | apps/gitradar/src/aggregator/segments.ts:19-46 | everyone is middle below the minimum; otherwise each member has the segment of their place by total |
| Ranking.LargerTotalsRankHigher | apps/gitradar/src/aggregator/segments.ts:19-46 | a larger total never gets a lower segment, whatever the thresholds |
| Ranking.SegmentSizes | apps/gitradar/src/aggregator/segments.ts:31-44 | the high are as many as the least integer that covers their percentage, or all with a positive total when they are fewer; the low are the zeros and the last ones covering theirs |
| Csv.FieldRead | apps/gitradar/src/commands/export-data.ts:165-171 | an escaped field, followed by whatever may follow one, reads back as itself |
| Csv.CsvRoundTrip | apps/gitradar/src/commands/export-data.ts:165-197 | a reader after section 2 of RFC 4180 with LF line breaks recovers every field of every row |
| Csv.CsvInjective | apps/gitradar/src/commands/export-data.ts:173-197 | two different tables never export to the same text |
| Bar.StackedBar | apps/gitradar/src/ui/bar.ts:13-77 | the in-place loops over the array draw nothing, a blank, or the adjusted widths of the positive segments |
| Bar.EachCell | apps/gitradar/src/ui/bar.ts:33-68 | every positive segment has at least one cell and ends within one cell of its rounded-down share |
| Bar.BarCells | apps/gitradar/src/ui/bar.ts:36-68 | the cells add up to the width plus the excess the wide segments could not absorb |
| Bar.BarWidth | apps/gitradar/src/ui/bar.ts:24-68 | the sum is the width exactly when the excess is at most the number of segments with two cells or more; otherwise it is larger, by less than the number of segments with a share below one cell |
| Bar.RemaindersDecide | apps/gitradar/src/ui/bar.ts:39-68 | cells go to the largest remainders and are taken from the smallest |
| Bar.MoreSegmentsThanCells | apps/gitradar/src/ui/bar.ts:7-12 | three equal segments in two cells take three |
| Categorizer.Categorize | apps/pritty/src/categorizer.ts:66-91 | the nested loops bucket every file under its category, in order, with a bucket for each category and for unknown |
| Categorizer.FirstMatch | apps/pritty/src/categorizer.ts:57-65 | a file's category is the first with a pattern that fits the file, or unknown when none has |
| Categorizer.BucketsPartition | apps/pritty/src/categorizer.ts:66-91 | each file is, with all its occurrences, in the bucket of its category and in no other |
| Categorizer.BucketsInOrder | apps/pritty/src/categorizer.ts:66-91 | a bucket keeps the order of the input |
| Categorizer.ReconcileCommitPlan | apps/pritty/src/commands/_shared/plan.ts:12-37 | a plan is accepted exactly when it names existing categories, each once, and all that have files; the files are the categorizer's |
| IndexCommit.Repository.CommitIndexSubset | apps/pritty/src/git.ts:259-295 | through the temporary index HEAD takes the staged content of exactly the selected paths; it throws, changing nothing, exactly when none is staged or git refuses; the index is untouched |
| IndexCommit.SubsetCommit | apps/pritty/src/git.ts:248-258 | path by path: selected paths get their staged state, deletions included, others keep theirs, and exactly the others stay staged |
| IndexCommit.CoveringEndsAtIndex | apps/pritty/src/commands/commit.ts:175-191 | in any order, the steps end with HEAD equal to the index exactly when between them they select every staged path |
| IndexCommit.AllStepsCommit | apps/pritty/src/git.ts:285-290 | every step commits exactly when each selects a staged path that no earlier step selects |
| IndexCommit.EveryOrderCommitsExactly | apps/pritty/src/commands/commit.ts:175-191 | every order of the categories commits each of them exactly when each selects a staged path that no other category's files select |
| IndexCommit.ApartStepsSucceed | apps/pritty/src/commands/commit.ts:175-191 | with pathspecs that stay within their category, every order commits every category |
| IndexCommit.WildcardNameBreaksAnOrder | apps/pritty/src/git.ts:267 | with a file whose name selects one of another category, one order commits both steps and the other does not |
| IndexCommit.Repository.RunCommit | apps/pritty/src/commands/commit.ts:88-194 | grouping, plan check and commits: it succeeds exactly when the plan covers the groups and each step finds something staged, and then HEAD equals the index exactly when every staged path is selected by some staged path's pathspec |
| RebasePlan.ValidateRebasePlan | apps/pritty/src/ai.ts:477-521 | accepts exactly the plans whose abbreviations each match one input, with known actions, that permute the inputs and open with a pick; returns the full hashes |
| RebasePlan.PermutationExactly | apps/pritty/src/ai.ts:508-514 | nothing missing and nothing repeated is being a permutation of the inputs |
| RebasePlan.OneMatch | apps/pritty/src/ai.ts:490-496 | one filtered match is a unique position, and it is the hash returned |
| RebasePlan.AbbreviationExactly | apps/pritty/src/ai.ts:490-496 | an abbreviation has 4 to 40 lower-case hex digits |
| RebasePlan.ValidPlansAreInjective | apps/pritty/src/ai.ts:477-521 | an accepted plan names distinct commits, so repeated inputs are never accepted |

## Left out

- Git, SQLite, files, clocks and processes: their answers are parameters. A crash between two transactions of one scan is not modelled; a visit completes, or fails before it writes anything but a forced reset.
- The cursor is taken to be the persisted one when the lock is held; in the source it was loaded before the lock was taken.
- ScanLock.OneScanAtATime: assumes a clock that does not run backwards and one machine's pids.
- ExactlyOnce.EachCommitOnce: a visit whose HEAD does not resolve needs an earlier state to stand in for it.
- RangeWalks.LossExactly: HEAD does not move during the visit; `RangeWalks.WholeRangesReach` has no such limit. Instants are exact, where git rounds `--since` and `--until` to seconds.
- A scan that fails after a reset is modelled; its git runs are listed in full, although the source stops at the first that fails.
- ScanRuns.ThreeTablesAgree: the PR proxy and the blame pass appear only as the extra records they produce, which carry PR and rework counters and nothing else; pruning is left out.
- Auto-pruning at the end of a scan, the console output, the exit code and the repository counters of a scan.
- One set of rules (author map, ignore patterns, classification, identifiers) serves a whole run; the regex- and glob-driven functions behind them, and lower-casing, are parameters.
- Conventional-commit parsing is a parameter applied to the subject when a commit is measured, not a field filled in by the parser.
- Commit instants are not before 1970, which is all git can store.
- IsoWeek.StringOrderIsDateOrder: years 1000 to 9999 and a UTC host; the local-time stepping of `getLastNWeeks` across daylight saving is not modelled.
- Keys `member::week::repo` are tuples; within a scan the repository is fixed and week strings have eight characters, so the joined strings are as distinct as the tuples.
- Scopes are sets and PR sizes multisets: the order in which the source stores them is not modelled, nor are `recordToRow` and `rowToRecord`, taken to be inverse to each other.
- Records.UpsertOrderIrrelevant: identity columns are left out of the comparison, since the first row of a key keeps them.
- GitHub handles in the author registry, the enrichment tables, and assignment of authors to teams.
- Bar.StackedBar: real arithmetic instead of floating point, and non-negative values for the width results; the two other copies of the algorithm are not modelled separately.
- Ranking.CohortPercentiles: real arithmetic instead of floating point; the metrics, deltas and the composite score are left out.
- Ranking.RowsSorted: `localeCompare` is an arbitrary rank on strings, on which different strings may tie; the built-in sort is a stable insertion sort.
- IndexCommit.Repository.CommitIndexSubset: unmerged entries and a file turning into a directory are left out; a pathspec is an arbitrary relation between names and paths.
- IndexCommit.ApartStepsSucceed: for pathspecs that select the path they spell; `EveryOrderCommitsExactly` has no such limit.
- IndexCommit.Repository.RunCommit: hooks are taken to accept; message generation, editing, dry runs and confirmation are left out.
- Csv.CsvRoundTrip: the flattening of a record to its columns is left out; a row is any list of at least one field. A reader that also takes CRLF as a line break is not covered.
- DateChunks.GenerateDateChunks: instants outside the range of ECMAScript dates are not errors here.
- RollupSums.QuerySumsUp: the week range and repository conditions of the query, which the loop's filter does not have, are left out.
- GitLogRoundTrip.LogReadsBack: paths that git quotes are taken as quoted; the inputs the batch loop gathers for the rework pass are left out.
- Bots and the bot-exclusion clauses, trend and delta views, configuration, the terminal interface, and the other applications of the repository.
