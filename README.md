# File searcher scan engine, modelled in Dafny

This project models the engine of a small desktop file searcher. The searcher
walks a folder recursively. For each file it bumps a counter, and every
25,000 files it prints a progress line. It collects the full paths of the
files that match the chosen mode:

- `"filename"`: fuzzy, case-insensitive. The similarity score of the
  lower-cased query and the lower-cased file name must be at least 0.6.
- `"extension"`: a literal, case-sensitive suffix test on the file name.
- `"count"`: only totals the number of files in the walk.

The model takes the directory walk as a value. It is the sequence of
`Dir(root, files)` items that the recursive walk yields, in the order it
yields them.

Two library calls are left abstract and passed in as function-typed
parameters:

- path joining (`join: (string, string) -> string`);
- the fuzzy similarity score (`ratio: (string, string) -> real`).

Every result is therefore stated for every possible path-joining function
and every possible score.

Modules:

- `DirWalk` (`dir_walk.dfy`): the walk and its visited entries. `TotalFiles`
  is the count-mode sum. Also holds a subsequence predicate.
- `MatchPolicy` (`match_policy.dfy`): ASCII lower-casing, the suffix test,
  the 0.6 threshold and the per-file predicate `IsMatch`.
- `Progress` (`progress.dfy`): the 25,000-file cadence. `Milestones(n)` is the
  sequence of counts reported while the counter climbs from 0 to `n`.
- `FileSearch` (`file_search.dfy`): `Select` and `SpecMatches` specify the
  matches. It also holds the imperative scan engine and the search command,
  with the lemmas about the matches.

The scan engine `SearchWithProgress` keeps the source's nested loops. The
outer loop runs over the walk items. The inner loop over one item's files is
the method `ScanDir`. Each loop updates the counter, the progress log and the
match list, as the source does. They are proved against `TotalFiles`,
`SpecMatches` and `Milestones`.

Two behaviours of the code are worth stating up front:

- Count mode bypasses the engine. The search command sums the lengths of
  the walk's file lists itself and reports no progress while doing so.
- Nothing rejects an empty query. An empty query in `"extension"` mode
  matches every file.

## Model

| member | source | states |
|---|---|---|
| `DirWalk.TotalFiles` | file_search_1.0.py:53 | the count-mode total: the sum, over the items of the walk, of the length of each item's file list |
| `MatchPolicy.EndsWith` | file_search_1.0.py:30 | the suffix test: the query is no longer than the name and equals the name's last characters, compared literally, so the empty query always passes |
| `MatchPolicy.IsMatch` | file_search_1.0.py:24-31 | the per-file policy, tried in the source's order: "filename" compares the score of the lower-cased query and name with 0.6; otherwise "extension" applies the suffix test; any other mode never matches |
| `FileSearch.Select` | file_search_1.0.py:16-31 | the joined path of each matching entry, one per matching entry, in entry order, which is the order of the appends at lines 28 and 31 |
| `FileSearch.SpecMatches` | file_search_1.0.py:13-31 | the matches of a whole walk: the selection over every visited file, in the order the nested loops visit them |
| `Progress.Milestones` | file_search_1.0.py:15-22 | the progress log after n increments: step c adds the count c exactly when c is a multiple of 25,000, checked after the increment |
| `FileSearch.SearchWithProgress` | file_search_1.0.py:8-37 | the number of files scanned is the total number of files in the walk; the matches are exactly the joined paths of the matching files, in walk order; the progress log is the list of counts that are multiples of 25,000 |
| `FileSearch.ScanDir` | file_search_1.0.py:14-31 | scanning one directory adds its number of files to the counter, appends the paths of its matching files, in order, to the matches, and keeps the progress log equal to the multiples of 25,000 reached so far |
| `FileSearch.RunSearch` | file_search_1.0.py:40-57 | a missing folder stops the command before any walking (and only that outcome is FolderMissing); "count" mode returns the sum of the lengths of the walk's file lists; any other mode returns the engine's matches, the scanned count, which equals that same sum, and the progress log |
| `DirWalk.TotalFilesCountsEntries` | file_search_1.0.py:53 | the count-mode sum of `len(files)` equals the number of files the engine's nested loops visit |
| `DirWalk.VisitedLength` | file_search_1.0.py:13-16 | exactly one path is visited per file of the walk, whatever path joining does |
| `DirWalk.TotalFilesOrderIndependent` | file_search_1.0.py:53 | the count-mode total does not depend on the order in which the walk yields its directories: walks that are permutations of each other give the same total |
| `DirWalk.EntriesMembership` | file_search_1.0.py:13-14 | a (directory, name) pair is visited if and only if some walk item lists that name under that directory |
| `MatchPolicy.Lower` | file_search_1.0.py:26 | lower-casing keeps the length, leaves no ASCII capital, keeps every other character and maps each capital to its small letter |
| `MatchPolicy.FilenameModeIgnoresCase` | file_search_1.0.py:25-27 | "filename" mode gives the same answer when query or name are lower-cased first, so it is case-insensitive on both sides |
| `MatchPolicy.FuzzyBoundaries` | file_search_1.0.py:26-27 | a name equal to the query up to case matches if the score of equal strings is 1; a score of 0 never matches |
| `MatchPolicy.EndsWithIff` | file_search_1.0.py:30 | the suffix test holds if and only if the name is some prefix followed by the query |
| `MatchPolicy.EndsWithExamples` | file_search_1.0.py:30 | `.txt` matches `report.txt` but not `report.TXT`, `report.txtx` or `txt`; the empty query matches `report.txt` |
| `MatchPolicy.EmptySuffixMatches` | file_search_1.0.py:30 | in "extension" mode an empty query matches every name |
| `Progress.MilestonesCount` | file_search_1.0.py:15-22 | n files give n / 25,000 progress reports (integer division) |
| `Progress.MilestonesExact` | file_search_1.0.py:15-22 | a count is reported if and only if it is a positive multiple of 25,000 no greater than the final count |
| `Progress.MilestonesIncreasing` | file_search_1.0.py:15-22 | progress reports come in strictly increasing order |
| `Progress.ProgressExamples` | file_search_1.0.py:19-22 | 24,999 files give no reports; 50,000 files give reports at 25,000 and at 50,000 |
| `FileSearch.SelectMembership` | file_search_1.0.py:24-31 | every matching file has its path among the matches, and every match is the path of some matching file |
| `FileSearch.MatchedPathsIff` | file_search_1.0.py:13-31 | when no other visited file has the path join(root, name), that path is a match if and only if the walk visits (root, name) and the name matches under the mode |
| `FileSearch.ExtensionMatchesIff` | file_search_1.0.py:30-31 | "extension" mode, when no other visited file shares the path: join(root, name) is a match if and only if some walk item lists name under root and name ends with the query, literally and case-sensitively |
| `FileSearch.FilenameMatchesIff` | file_search_1.0.py:25-28 | "filename" mode, when no other visited file shares the path: join(root, name) is a match if and only if some walk item lists name under root and the score of the lower-cased query and name is at least 0.6 |
| `FileSearch.SlashJoinInjectiveOnBareNames` | file_search_1.0.py:16 | joining with a "/" separator never gives two (directory, name) pairs the same path when the names contain no "/" |
| `FileSearch.SlashJoinUniquePath` | file_search_1.0.py:13-16 | for a walk whose file names contain no "/", separator joining meets the uniqueness condition of the iff lemmas for every bare name under any directory |
| `FileSearch.SelectIsSubsequence` | file_search_1.0.py:16-31 | the selected paths are an order-preserving subsequence of the entries' paths |
| `FileSearch.MatchesAreSubsequenceOfVisited` | file_search_1.0.py:13-31 | the matches are an order-preserving subsequence of the visited paths, so there are no more matches than files scanned |
| `FileSearch.EmptyExtensionSelectsAll` | file_search_1.0.py:30-31 | an empty query in "extension" mode selects every visited path, in visiting order |
| `FileSearch.OtherModesSelectNothing` | file_search_1.0.py:25-31 | a mode other than "filename" and "extension" (e.g. "count") selects no path, whatever the query; the scanned count is unaffected, since SearchWithProgress counts every file in every mode |

## Left out

- The GUI is left out because it is presentation. That covers window and widget setup, the result-box inserts, the event-loop pumping after a progress line, the folder picker and the final rendering of matches and totals (file_search_1.0.py:20-22, 49-50, 54, 59-128). A progress line is modelled as an entry in the returned progress log, which holds the count it reports.
- The recursive directory walk is left out because it is filesystem I/O. It is the input sequence `walk`. Directories the walk skips (for example because access is denied) are simply not in that sequence.
- Path joining is left out because it is library path semantics. It is the parameter `join`. The iff lemmas only need that no other visited file has the same path, which `SlashJoinUniquePath` proves for a "/" separator join over bare file names. The real `os.path.join` semantics (the platform separator, an existing trailing separator on the directory) are not modelled.
- The folder-existence test is left out because it is filesystem I/O. It is the boolean parameter `folderExists` of `RunSearch`.
- The sequence matcher's similarity ratio is left out because it is a foreign library with floating-point results. It is the parameter `ratio`, compared against the real constant 0.6. Floating-point rounding of the score is not modelled.
- MatchPolicy.Lower: maps only the ASCII capitals A-Z. The source's lower-casing also maps non-ASCII capitals, and that is not modelled.
- The `PermissionError` handler (file_search_1.0.py:33-34) is left out because it has no effect to model. The guarded code only compares strings and appends to a list, so with this input the handler never runs.
- The elapsed wall-clock time (file_search_1.0.py:11, 36) is left out because it is a clock reading.
- The engine's `query=None` default is left out because its only caller always passes a string (the query text box's contents), so `query` is a `string` here. With `None` the source would raise an error in "filename" and "extension" modes.
