# GitFreqStat, modelled in Dafny

GitFreqStat is a console tool that scans a git repository's recent history and
reports which files changed most often. It reads the commits whose committer
clock reading (`When.DateTime`, the local time with the time-zone offset
dropped) is at or after a cut-off. A commit with parents contributes every path of
its diff against its first parent. A root commit contributes every
non-directory entry of its tree, found by recursive descent. Each contributed
path increments a frequency table, a dictionary from path to count. The report
keeps the table entries whose frequency reaches a threshold and sorts them by
descending frequency. It takes `max` from the first row and `min` from the
last, and colours each row by the third of the range `[min, max]` it falls in.
When no entry reaches the threshold, the tool prints "no data" instead.

The model has four modules:

- `Frequency` (`frequency.dfy`): the table as a value. `Increment` is one
  `UpdateFileFrequency` call. `Tally` is a sequence of them. The lemmas give
  each count in closed form and show that every stored count is at least 1.
- `History` (`history.dfy`): trees, commits and the backend's diff (a function
  parameter). It covers the recursive tree walk, the per-commit contribution,
  the time filter, and lemmas relating them to reference definitions.
- `Reporting` (`reporting.dfy`): the LINQ pipeline as functions (filter, then
  a stable descending sort), C#'s truncating `/ 3`, the bucket choice, and the
  report. Its lemmas cover the filter, the sort, the min/max bounds and the
  bucket partition.
- `Scan` (`scan.dfy`): the static dictionary as a class `FrequencyTable` whose
  methods update it in place (`Update`, the recursive `CountEntry`, the commit
  loop `Scan`), plus `Run`, which is `Main` without the console, and the
  end-to-end lemmas.

The model follows the code on three points:

- Commit selection. The loop body carries an early exit, commented "break if
  commit is older than we need" (GitFreqStat/Program.cs:71-73). Read alone,
  it would stop at the first commit older than the cut-off and keep a
  contiguous prefix of the history. But the loop runs over the result of the
  `Where` at line 60, which has already dropped every such commit. So the
  `break` can never fire, and the selection is a plain filter that keeps the
  history's order. `Scan` keeps the `break` and proves it unreachable.
  `PrefixIsFilterWhenNewestFirst` shows the two readings agree when the
  history is enumerated newest first.
- Enumeration order. The report's tie order follows the dictionary's
  enumeration order. The model takes this to be first-insertion order, which
  is what .NET's `Dictionary` does when nothing is removed. The table keeps
  this order in its `order` field.
- Division. C#'s `/` truncates toward zero. It is written out as `Third`.
  Where the report uses it, the dividend is never negative, so it agrees with
  Dafny's `/` (`BucketBands`).

## Model

| member | source | states |
|---|---|---|
| `Frequency.Increment` | GitFreqStat/Program.cs:146-152 | The updated path's count is its old count (0 when absent) plus one. It becomes a key, no other key's count changes, a new key is appended to the enumeration order, and the table invariant is kept. |
| `Frequency.TallyCount` | GitFreqStat/Program.cs:146-152 | After a series of increments, each path's count is its old count plus the number of increments that targeted it. A path is a key exactly when it was a key before or some increment targeted it. |
| `Frequency.TallyWellFormed` | GitFreqStat/Program.cs:146-152 | Increments keep every stored frequency at least 1. They also keep the enumeration order listing each key exactly once. |
| `Frequency.Tally` | GitFreqStat/Program.cs:146-152 | No contract of its own: one `Increment` per path, in order. It is specified by `Frequency.TallyCount`, `Frequency.TallyWellFormed` and `Frequency.TallyAppend`. |
| `Frequency.TallyAppend` | GitFreqStat/Program.cs:79-80 | Tallying two runs of changes one after the other is tallying their concatenation. |
| `Frequency.TallyFromEmpty` | GitFreqStat/Program.cs:12 | Starting from the empty table, a path is a key exactly when at least one increment targeted it. Its count is then the number of such increments. |
| `Scan.FrequencyTable.constructor` | GitFreqStat/Program.cs:12 | The table starts empty, which is a well-formed table. |
| `Scan.FrequencyTable.Update` | GitFreqStat/Program.cs:146-152 | In place: the path's count becomes its old count (0 when absent) plus one. Every other entry is unchanged, and the invariant is preserved. |
| `Scan.FrequencyTable.CountEntry` | GitFreqStat/Program.cs:137-144 | The recursive walk of one entry tallies exactly the paths `WalkEntry` lists. A directory is descended into, and any other entry gets one increment. |
| `Scan.FrequencyTable.CountEntries` | GitFreqStat/Program.cs:84-85 | Walking a tree's entries in turn tallies the walk of the whole tree. |
| `Scan.FrequencyTable.CountChanges` | GitFreqStat/Program.cs:79-80 | Each path of a diff gets one increment, in the diff's order. |
| `Scan.FrequencyTable.CountCommit` | GitFreqStat/Program.cs:75-86 | A commit with parents tallies its diff against its first parent. A root commit tallies every leaf of its tree. |
| `Scan.FrequencyTable.Scan` | GitFreqStat/Program.cs:60-87 | The new table is the old one with the contributions of all commits at or after `stopAt` tallied, in history order. The early exit for an older commit is proved unreachable. |
| `History.WalkEntry` | GitFreqStat/Program.cs:137-144 | No contract of its own: a directory yields the walk of its children, any other entry its own path. It is specified by `History.WalkEntryVisitsEachLeafOnce`. |
| `History.Walk` | GitFreqStat/Program.cs:84-85 | No contract of its own: the walks of the entries, one after the other. It is specified by `History.WalkVisitsEachLeafOnce` and `History.WalkAppend`. |
| `History.WalkAppend` | GitFreqStat/Program.cs:84-85 | Walking two runs of entries one after the other is walking their concatenation. |
| `History.WalkEntryVisitsEachLeafOnce` | GitFreqStat/Program.cs:137-144 | The walk of one entry lists exactly the leaf paths of the entry and everything below it, in pre-order. |
| `History.WalkVisitsEachLeafOnce` | GitFreqStat/Program.cs:137-144 | The root-commit walk lists exactly the paths of the tree's leaf entries, at every depth, once each and in pre-order. Directory entries are skipped, and symlinks and submodules count as leaves. |
| `History.WalkCountsOnlyLeaves` | GitFreqStat/Program.cs:137-144 | Every path the walk increments is the path of some leaf entry of the tree; directory entries contribute no path. |
| `History.DirectoriesNeverCounted` | GitFreqStat/Program.cs:139-143 | In a tree whose entries have distinct paths, which every git tree has, no directory's own path is among the walked paths. |
| `Scan.RootDirectoriesNotKeys` | GitFreqStat/Program.cs:82-86 | For a root commit whose tree has distinct entry paths, no directory's path becomes a key of the table. |
| `History.Contribution` | GitFreqStat/Program.cs:75-86 | No contract of its own: the first-parent diff for a commit with parents, the tree walk for a root commit. It is specified by `History.OnlyFirstParentCounts`, `History.WalkVisitsEachLeafOnce` and `Scan.FrequencyTable.CountCommit`. |
| `History.OnlyFirstParentCounts` | GitFreqStat/Program.cs:75-81 | A commit with parents contributes exactly the diff of its first parent's tree against its own tree. Further parents are ignored. |
| `History.Selected` | GitFreqStat/Program.cs:60 | The selected commits are exactly those with committer time >= `stopAt`. A commit at exactly `stopAt` is included. |
| `History.SelectedCounts` | GitFreqStat/Program.cs:60 | Each commit at or after `stopAt` is selected as often as it occurs in the history, and no other commit is. |
| `History.SelectedAppend` | GitFreqStat/Program.cs:60 | The filter keeps the history's order: selecting from two consecutive parts of the history is selecting from each and concatenating. |
| `History.PrefixIsFilterWhenNewestFirst` | GitFreqStat/Program.cs:71-73 | When the history is enumerated newest first, stopping at the first older commit selects the same commits as the filter. |
| `History.Touches` | GitFreqStat/Program.cs:66-87 | No contract of its own: the contributions of the commits, one after the other. It is specified by `History.TouchesSnoc`, `History.TouchesCountsHits` and `Scan.FrequencyTable.Scan`. |
| `History.TouchesSnoc` | GitFreqStat/Program.cs:66-87 | Scanning one more commit appends its contribution to what was scanned before. |
| `History.Hits` | GitFreqStat/Program.cs:66-87 | No contract of its own: the sum, over commits, of a path's occurrences in each contribution. It is related to the scan by `History.TouchesCountsHits`. |
| `History.TouchesCountsHits` | GitFreqStat/Program.cs:66-87 | A path's number of occurrences in everything the scan tallies is the sum, over the scanned commits, of its occurrences in each commit's contribution. |
| `Reporting.TableRows` | GitFreqStat/Program.cs:92 | No contract of its own: one row per key, in enumeration order. It is specified by `Reporting.TableRowsListTable`. |
| `Reporting.TableRowsListTable` | GitFreqStat/Program.cs:92 | Enumerating the table gives one row per entry, with the entry's path and frequency, and nothing else. |
| `Reporting.AtLeast` | GitFreqStat/Program.cs:93 | The filter keeps each row whose frequency is >= the threshold as often as it occurs, and drops every other row. A row equal to the threshold is kept. |
| `Reporting.AtLeastKeepsOrder` | GitFreqStat/Program.cs:93 | The filter keeps the input order: the kept rows of any frequency at or above the threshold are all the input's rows of that frequency, in input order, and none of a lower frequency are kept. |
| `Reporting.SortDescending` | GitFreqStat/Program.cs:94 | The sort returns a permutation of its input in non-increasing order of frequency. |
| `Reporting.SortIsStable` | GitFreqStat/Program.cs:94 | The sort is stable: rows of equal frequency keep their enumeration order. |
| `Reporting.Build` | GitFreqStat/Program.cs:92-108 | No contract of its own: filter, sort, then "no data" or the bucketed lines. It is specified by `Reporting.NoDataIffNothingQualifies`, `Reporting.ReportShowsQualifyingRows`, `Reporting.ShownPathsDistinct` and `Reporting.ReportBuckets`. |
| `Reporting.NoDataIffNothingQualifies` | GitFreqStat/Program.cs:96-101 | The "no data" outcome is taken exactly when no row reaches the threshold. |
| `Reporting.ReportShowsQualifyingRows` | GitFreqStat/Program.cs:92-94 | When some row reaches the threshold, the report is shown. It lists exactly the rows at or above the threshold, as a permutation. It is in non-increasing order of frequency, with rows of equal frequency in the table's enumeration order. |
| `Reporting.ShownPathsDistinct` | GitFreqStat/Program.cs:92-94 | When the table's rows have distinct paths and some row reaches the threshold, no path is shown twice. |
| `Reporting.Third` | GitFreqStat/Program.cs:113-117 | C#'s integer division by 3, truncating toward zero, for every sign of the dividend. |
| `Reporting.Classify` | GitFreqStat/Program.cs:113-124 | No contract of its own: the colour choice with C#'s truncating division. It is specified by `Reporting.BucketBands` and `Reporting.BucketMonotone`. |
| `Reporting.BucketBands` | GitFreqStat/Program.cs:113-124 | For min <= f <= max: f is High iff f > min + 2(max-min)/3. It is Medium iff it is not High and f > min + (max-min)/3, and Low otherwise. So the three cases partition the range. The min frequency is always Low. The max is High whenever max > min. Every frequency is Low when max == min. |
| `Reporting.BucketMonotone` | GitFreqStat/Program.cs:113-124 | A higher frequency never gets a lower bucket. |
| `Reporting.Lines` | GitFreqStat/Program.cs:110-124 | Each line carries its row's path and frequency and the bucket of that frequency against the given range, in the rows' order. |
| `Reporting.ReportBuckets` | GitFreqStat/Program.cs:107-124 | When some row reaches the threshold, the report is shown and non-empty. Max is the first row's frequency and min the last row's, and every row lies between them. Each row carries the bucket of its frequency. Buckets never rise down the report. The last row is Low, the first is High unless all shown frequencies are equal, and then every row is Low. |
| `Reporting.ExampleBuckets` | GitFreqStat/Program.cs:113-124 | With frequencies 10, 7 and 4 the report is sorted 10, 7, 4 and bucketed High, Medium, Low. |
| `Scan.Run` | GitFreqStat/Program.cs:55-124 | Scanning into a fresh table and reporting gives the report of the empty table tallied with the contributions of the selected commits. |
| `Scan.TallyRows` | GitFreqStat/Program.cs:92 | Each row of the table built by the scan is a touched path with its number of occurrences. No path appears twice. |
| `Scan.NoDataIffNothingFrequent` | GitFreqStat/Program.cs:92-101 | End to end, "no data" is reported exactly when no touched path occurs at least `threshold` times. |
| `Scan.ShowsFrequentPaths` | GitFreqStat/Program.cs:92-94 | End to end, when some touched path occurs at least `threshold` times, the report is shown. A path is then shown with frequency f exactly when it occurs f times among the scanned contributions and f >= the threshold. Each path is shown once. |
| `Scan.ShownFrequencyIsPerCommitSum` | GitFreqStat/Program.cs:66-87 | End to end, in a shown report, a path is shown with frequency f exactly when f is the sum over the selected commits of its occurrences in each commit's contribution, f >= 1 and f >= the threshold. |

## Left out

- Console prompts and input (`Console.ReadLine`, `Read`, `ReadKey`), the header and the printing of rows (GitFreqStat/Program.cs:16-53, 98-99, 103-105, 126-134) are console I/O. The report is modelled as a sequence of (bucket, frequency, path) lines, with the bucket an enumeration instead of a console colour.
- `Convert.ToInt32` parsing and its exceptions (GitFreqStat/Program.cs:32, 39, 45, 52) are library calls. The lookback and the threshold are given integers.
- `DateTime.Now` and the `TimeSpan` subtraction (GitFreqStat/Program.cs:55) read the wall clock. The cut-off `stopAt` is an integer parameter in the same unit as commit times.
- `Commit.time` stands for `Committer.When.DateTime` (GitFreqStat/Program.cs:60, 72): the committer's local clock reading with the time-zone offset dropped, compared with the local `DateTime.Now`. Commits from different time zones are compared by clock reading, not by instant. The model does not relate this reading to the commit's instant, so a log in commit order need not be `NewestFirst`.
- LibGit2Sharp is not part of this model: opening the repository, enumerating commits, loading trees and `Diff.Compare` (GitFreqStat/Program.cs:58, 60, 78, 140). Commits and trees are datatypes given in history order. The diff is a function parameter returning the changed paths in the backend's order.
- The progress bar and the `current` countdown (GitFreqStat/Program.cs:61-69) are cosmetic.
- `Environment.Exit(0)` (GitFreqStat/Program.cs:100) is process control. It is modelled as the `NoData` report.
- `Scan.FrequencyTable.Update`: does not model 32-bit wrap-around of `frequency++`. A count would need more than 2^31 increments to overflow.
- `Reporting.BucketBands`: does not model 32-bit overflow of `2 * (max - min)`. This would need frequencies above 2^30.
- `Scan.FrequencyTable.Scan`: does not restate the table invariant in its own contract. The invariant after a scan follows from `Frequency.TallyWellFormed` applied to its result.
