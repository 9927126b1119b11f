# AcuWand file reconciliation and treatment-time accounting, in Dafny

AcuWand is a wearable pressure sensor. Each subject of a study has a
directory of CSV recordings. A day may be split over several fragment
files, and the names follow one of three conventions. The analysis script
does the following for each subject:

- deletes the merged files of its previous run;
- decides which naming format the subject's files use;
- puts the files of that format in date order and groups them by date;
- writes one `_full.csv` record per day;
- cleans each day's pressure column to a band and computes means;
- counts treatment time, leaving out long idle runs of a near-zero
  reading.

A companion validator classifies names the same way and then reports one
naming problem per file.

This project models that core as pure functions over basenames and
sequences of readings, and proves its properties. The modules are:

| file | module | what it holds |
|---|---|---|
| results.dfy | `Results` | `Option` and `Result` |
| strings.dfy | `Strings` | the Python `str` operations used: `startswith`, `endswith`, `in`, `replace(m, "")`, `split`, `<=` |
| sorting.dfy | `Sorting` | a sort by key and the uniqueness of sorted permutations |
| glob.dfy | `Glob` | `*`-only file-name patterns |
| naming.dfy | `Naming` | the three formats, format detection, the date token |
| day_order.dfy | `DayOrder` | the Format 1/2 re-sort (strip the wand/instance label, sort, re-associate by `endswith`) and the Format 3 sort |
| day_groups.dfy | `DayGroups` | date extraction, the script's grouping walk, and grouping by date |
| day_merge.dfy | `DayMerge` | merge names and concatenated columns |
| preparation.dfy | `Preparation` | one subject from directory listing to merged days |
| pressure.dfy | `Pressure` | the band filter, day means and subject means with NaN days excluded |
| run_length.dfy | `RunLength` | the "equals next" marks, the run scan, net treatment rows, seconds and minutes |
| regex.dfy | `Regex` | the fragment of `re.match` the validator uses |
| validator.dfy | `Validator` | the validator's classification and per-file check chain |

The main members model the script as written. In five places the
script does not do what its comments and design describe:

- A date that appears again after a different date makes the script index
  past its list of groups. `Preparation.PrepareSubject` aborts there, as
  the script does.
- The run scan counts one row less than the run's length.
  `RunLength.DayTreatmentAsWritten` keeps that count.
- Re-association by `endswith` can return a file twice
  (`DayOrder.SuffixCollisionDuplicates`).
- Re-association by `endswith` can also drop a file. Every copy of the
  ten-character label is stripped, so a name in which the label recurs
  need not end with its own stripped name, and then nothing maps back to
  it (`DayOrder.ReorderDropsUnsuffixed`).
- When the Format 1/2 re-sort returns no file at all, the grouping
  variables are never set (line 189), or the merge loop reads the first
  file of an empty list (line 228), and the run aborts.
  `Preparation.MergeDays` aborts there too, with `EmptyDayList`
  (`Preparation.LoneUnsuffixedAborts`).

The first two are listed under Findings. For them the model also gives the
intended behaviour as separate members: `Preparation.PrepareSubjectByDate`
with `DayGroups.GroupByDate`, and `RunLength.DayTreatment`. The last three
are the script's behaviour, which the model keeps without a corrected
variant.

## Model

| member | source | states |
|---|---|---|
| Strings.RemoveAllSoleTrailing | AcuWand_Analysis.py:229-236 | deleting every copy of a marker that occurs only at the end of a name gives back the name without it |
| Strings.RemoveAllAbsent | AcuWand_Analysis.py:152 | `replace` with a string that does not occur leaves the name unchanged |
| Strings.RemoveAllKeepsCount | AcuWand_Analysis.py:177-183 | deleting `.csv`, which holds no `_`, keeps every `_` of the name |
| Strings.Split | AcuWand_Analysis.py:179-183 | `split('_')` gives one more field than there are underscores, and no field holds `_` |
| Strings.SplitJoin | AcuWand_Analysis.py:179-183 | joining the fields of `split('_')` with `_` gives back the name |
| Strings.LexLeTotal | AcuWand_Analysis.py:155 | Python's string order compares any two names |
| Strings.LexLeTransitive | AcuWand_Analysis.py:155 | Python's string order is transitive |
| Strings.LexLeAntisymmetric | AcuWand_Analysis.py:155 | two names each `<=` the other are equal |
| Sorting.SortBy | AcuWand_Analysis.py:171 | the sorted list is ordered by the key and is a permutation of the input |
| Sorting.SortedPermutationUnique | AcuWand_Analysis.py:155 | any two sorted permutations of the same names are equal, so the sort's algorithm does not matter |
| Glob.GlobConcat | AcuWand_Analysis.py:117-119 | matches of two patterns concatenate into a match of the joined pattern |
| Glob.GlobSplit | AcuWand_Analysis.py:117-119 | a match of a joined pattern splits into matches of its parts |
| Glob.GlobKeepsLiterals | AcuWand_Analysis.py:117-119 | a name matching a pattern has at least as many of each literal character as the pattern |
| Naming.DetectFormat | AcuWand_Analysis.py:121-143 | the chosen format's pattern matches some name, no higher-ranked pattern matches any, and there is no format exactly when no pattern matches |
| Naming.MatchingKeeps | AcuWand_Analysis.py:117-137 | the working list holds exactly the files whose names match the chosen pattern, each as often as listed |
| Naming.Format2NamesMatchFormat1 | AcuWand_Analysis.py:117-118 | every name matching the Format 2 pattern also matches the Format 1 pattern |
| Naming.Format2SubjectAlsoFormat1 | AcuWand_Analysis.py:127-138 | a subject with a Format 2 name also has a Format 1 name, so Format 2 must be tried first |
| Naming.DateToken | AcuWand_Analysis.py:176-184 | the date token is present exactly when the stem has enough underscores, and holds no `_` |
| Naming.DateTokenPresent | AcuWand_Analysis.py:176-182 | a Format 1 or 2 name that matched its pattern always has its date field |
| Naming.Format3DateToken | AcuWand_Analysis.py:177-183 | a Format 3 name `<subject>_<cohort>_<date><tail>.csv` has `<date>` as its date token when the tail is empty or starts with `_` (a `_part2` suffix leaves the date alone, while a letter glued to the date becomes part of it) |
| Strings.SplitAfterField | AcuWand_Analysis.py:183 | a leading field without the separator is split off whole as the first field |
| DayOrder.EndingWithCount | AcuWand_Analysis.py:163-168 | the originals ending with a key, each as often as listed, and no other file |
| DayOrder.ReorderReturnsOriginals | AcuWand_Analysis.py:145-168 | every file the re-sort returns is one of the originals |
| DayOrder.ReorderKeepsSelfSuffixed | AcuWand_Analysis.py:147-168 | each original that ends with its own stripped name is returned at least once |
| DayOrder.ReorderDropsUnsuffixed | AcuWand_Analysis.py:147-168 | an original whose name ends with no stripped name of the listing, its own included, is not returned at all |
| DayOrder.DroppedWhenNotSelfSuffixed | AcuWand_Analysis.py:147-168 | a lone file that does not end with its own stripped name makes the re-sort return nothing |
| DayOrder.ReassociateCount | AcuWand_Analysis.py:157-168 | an original is returned at least once per sorted key it ends with, and exactly that often when it is listed once |
| DayOrder.StripDropsWandInstance | AcuWand_Analysis.py:149-153 | with a ten-character label that does not recur, stripping leaves the rest of the name |
| DayOrder.SuffixCollisionDuplicates | AcuWand_Analysis.py:157-168 | when one file's stripped name ends another file's name, that file is returned twice and the result is not a permutation |
| DayOrder.ReorderWithoutCollision | AcuWand_Analysis.py:145-168 | without such collisions the re-sort is a permutation whose stripped names are in nondecreasing order |
| DayGroups.DateFiles | AcuWand_Analysis.py:175-184 | dating succeeds exactly when every file has its date field, keeps files and order, and otherwise names the first file without one |
| DayGroups.DistinctDates | AcuWand_Analysis.py:184-187 | the distinct dates are exactly the dates present, without repeats |
| DayGroups.DistinctDatesInOrder | AcuWand_Analysis.py:184-187 | the distinct dates come in order of first appearance: a file of a later date is always preceded by a file of each earlier one |
| DayGroups.GroupRunsAreMaximal | AcuWand_Analysis.py:198-226 | the runs of equal dates are non-empty, single-dated, differ from their neighbours, and concatenate to the ordered list |
| DayGroups.RunsVsDistinct | AcuWand_Analysis.py:184-226 | there are at least as many runs as distinct dates, and equally many exactly when each date's files are adjacent |
| DayGroups.GroupAsWrittenOutcome | AcuWand_Analysis.py:196-226 | the script's walk succeeds exactly when each date's files are adjacent, and then gives the groups by date |
| DayGroups.InterleavedDatesOverrun | AcuWand_Analysis.py:220-225 | dates "1-18-79", "1-18-79A", "1-18-79" make the walk index past its lists |
| DayGroups.WithDate | AcuWand_Analysis.py:213-219 | a date's group holds exactly the files of that date |
| DayGroups.GroupByDate | AcuWand_Analysis.py:186-197 | one non-empty single-dated group per distinct date, the k-th group carrying the k-th distinct date |
| DayGroups.GroupByDateInOrder | AcuWand_Analysis.py:186-226 | the groups come in order of first appearance of their dates |
| DayGroups.GroupByDatePartitions | AcuWand_Analysis.py:196-226 | the groups together are a permutation of the files, and no two groups share a date |
| DayGroups.ContiguousRunsAreByDate | AcuWand_Analysis.py:196-226 | with each date's files adjacent, the runs are the groups by date |
| DayGroups.MultiPartNote | AcuWand_Analysis.py:189-194 | there are never more distinct dates than files, and fewer exactly when two files share a date |
| DayMerge.DropMarker | AcuWand_Analysis.py:229-236 | a stem that does not end with the marker is left alone, and dropping never lengthens a stem |
| Strings.RemoveAllSkipsPrefix | AcuWand_Analysis.py:229-236 | a prefix in which no occurrence of the removed string starts survives `replace` untouched |
| Strings.RemoveAllTwoCopies | AcuWand_Analysis.py:229-236 | `replace` deletes every copy of the string, not only the last one |
| DayMerge.MergeName | AcuWand_Analysis.py:228-244 | every merged name ends with `_full.csv` |
| DayMerge.MergeNameDropsMarker | AcuWand_Analysis.py:228-244 | a base, one trailing part marker and `.csv` merge to the base plus `_full.csv` |
| DayMerge.MarkerNotInOther | AcuWand_Analysis.py:229-236 | of two different part markers neither ends with the other |
| DayMerge.OtherMarkersAbsent | AcuWand_Analysis.py:229-236 | a stem that ends with one part marker ends with none of the others; the tests run in sequence on the updated stem, so a marker exposed by an earlier removal is also dropped (see the next two rows) |
| DayMerge.ExposedMarkerDropped | AcuWand_Analysis.py:229-236 | a base followed by `_Part1` and then `_part1` loses both: the first test removes `_part1`, which exposes `_Part1` to the last test, and the result is the base |
| DayMerge.ExposedMarkerExample | AcuWand_Analysis.py:229-236 | the stem `x_Part1_part1` becomes `x` |
| DayMerge.MergeNameDropsEveryCopy | AcuWand_Analysis.py:228-244 | a stem that ends with a part marker loses every copy of it, so `x` + marker + `y` + marker + `.csv` merges to `x` + `y` + `_full.csv` |
| DayMerge.MergeNameUnmarked | AcuWand_Analysis.py:228-244 | a stem that ends with no marker keeps its name |
| DayMerge.MergeAll | AcuWand_Analysis.py:227-244 | one record per group, singletons included, each named from the group's first file |
| DayMerge.MergeKeepsAllSamples | AcuWand_Analysis.py:237-242 | the records' columns, day after day, are the files' columns in group order |
| Preparation.FreshKeeps | AcuWand_Analysis.py:98-100 | deleting the merged days removes every `_full.csv` file and keeps every copy of every other file |
| Preparation.PrepareListing | AcuWand_Analysis.py:117-244 | a prepared listing has at least one day, every one named `..._full.csv`; the run fails only on a missing date field, the grouping walk's overrun, or an empty re-sort |
| Preparation.MergeDays | AcuWand_Analysis.py:175-244 | the ordered files fail with `EmptyDayList` exactly when there are none; otherwise they fail only on a missing date field or the overrun, or give at least one `..._full.csv` day in the chosen format |
| Preparation.LoneUnsuffixedAborts | AcuWand_Analysis.py:145-189 | a lone Format 1 or 2 file that does not end with its own stripped name aborts the run with `EmptyDayList` |
| Preparation.PrepareListingByDate | AcuWand_Analysis.py:117-244 | with one group per distinct date, a prepared listing has at least one day, every one named `..._full.csv`, and only a missing date field or an empty re-sort fails the run |
| Preparation.MergeDaysByDate | AcuWand_Analysis.py:175-244 | the intended grouping fails with `EmptyDayList` exactly when there are no files, and otherwise only on a missing date field |
| Preparation.ListingOrderIrrelevant | AcuWand_Analysis.py:117-244 | two listings of the same distinctly named files, in any order, prepare to the same outcome, when Formats 1 and 2 have no suffix collision |
| Preparation.SelectedIgnoresListingOrder | AcuWand_Analysis.py:117-171 | under the same conditions both listings leave the same files, in the same order, to group |
| Preparation.SubjectOrderIrrelevant | AcuWand_Analysis.py:97-244 | the same for a whole subject directory, old merged days included |
| Preparation.FreshIgnoresListingOrder | AcuWand_Analysis.py:98-100 | deleting the merged days from two listings of the same files leaves the same files, with distinct names |
| DayOrder.OrderFilesIgnoresListingOrder | AcuWand_Analysis.py:145-171 | two listings of the same distinctly named files get the same order: by name for Format 3, and by stripped name for Formats 1 and 2 without suffix collisions |
| DayOrder.DistinctNamesWithin | AcuWand_Analysis.py:117-137 | a sub-listing of a listing with distinct names has distinct names |
| Naming.DetectFormatSameFiles | AcuWand_Analysis.py:121-143 | the format depends only on which files are listed, not on their order or repetition |
| Naming.MatchingSameFiles | AcuWand_Analysis.py:117-137 | two listings of the same files keep the same files for a pattern |
| Sorting.SortedUniqueBy | AcuWand_Analysis.py:155-171 | a list whose keys are all different has one sorted arrangement, so any sort by key gives the same order |
| Preparation.ListingAsWrittenVsByDate | AcuWand_Analysis.py:175-244 | the script's preparation aborts with the overrun exactly when the dated files of the chosen format are not contiguous by date, and otherwise equals the by-date preparation |
| Preparation.ListingPrepared | AcuWand_Analysis.py:175-244 | a prepared listing came from a non-empty list of contiguous dated files grouped by date, with the note exactly when there are fewer dates than files |
| Preparation.PrepareSubject | AcuWand_Analysis.py:97-244 | a subject is skipped exactly when no pattern matches its fresh listing; otherwise the chosen format outranks every matching one, a prepared subject has at least one day, and the run fails only on a missing date field, the grouping overrun or an empty re-sort |
| Preparation.ListingFormat | AcuWand_Analysis.py:117-143 | a listing is reported unreadable exactly when no format is detected, and is otherwise prepared in the detected format |
| Preparation.PrepareSubjectByDate | AcuWand_Analysis.py:97-244 | the intended preparation: skipped exactly when no pattern matches, and failing only on a missing date field or an empty re-sort |
| Preparation.ContiguousDays | AcuWand_Analysis.py:175-244 | contiguous dated files merge to one record per distinct date holding every sample in order, with the note exactly when two files share a date |
| Preparation.PreparedDays | AcuWand_Analysis.py:175-244 | a prepared subject's dated files were contiguous; there is one record per distinct date, grouped by date, the multi-part note exactly when two files share a date, and every sample of every file in order |
| Preparation.Written | AcuWand_Analysis.py:244 | the merged days as files under their merged names |
| Preparation.RerunGivesSameOutcome | AcuWand_Analysis.py:98-100 | running again over a directory that holds the previous run's merged days gives the same outcome |
| Pressure.BandFilter | AcuWand_Analysis.py:281-282 | the kept values are exactly those strictly inside the band, each as often as in the column |
| Pressure.TwoCutsAreBand | AcuWand_Analysis.py:281-282 | the two successive filters `> lower` and `< upper` are the band filter |
| Pressure.BandFilterIsSubsequence | AcuWand_Analysis.py:281-282 | the kept values keep their order |
| Pressure.BandFilterIdempotent | AcuWand_Analysis.py:281-282 | cleaning a cleaned column changes nothing |
| Pressure.DayMean | AcuWand_Analysis.py:285 | the mean is undefined (NaN) exactly for an empty column, and otherwise times the count is the sum |
| Pressure.DayMeanInBand | AcuWand_Analysis.py:281-285 | a defined day mean lies strictly inside the band |
| Pressure.DaySummary | AcuWand_Analysis.py:281-306 | a day's mean is NaN, and its IQR the 'NaN' string, exactly when no reading lies inside the band; its standard deviation is defined exactly when two readings lie inside the band; a defined mean times the number of kept readings is their sum |
| Pressure.BandAtLeastTwo | AcuWand_Analysis.py:281-289 | the cleaned column has two or more values exactly when two of the day's readings lie inside the band |
| Pressure.Defined | AcuWand_Analysis.py:297-300 | the subject list is empty exactly when every day's value is NaN |
| Pressure.DefinedMembers | AcuWand_Analysis.py:297-300 | a value is in the subject list exactly when some day has it as its defined value |
| Pressure.SubjectMean | AcuWand_Analysis.py:358-365 | the subject value is 'NaN' exactly when no day contributed; otherwise it is the mean of the defined day values (times their count it gives their sum) |
| Pressure.SubjectMeanIgnoresUndefined | AcuWand_Analysis.py:297-300 | removing a day with a NaN value does not change the subject value |
| Pressure.SubjectMeanBetween | AcuWand_Analysis.py:358-361 | when all defined day values lie in a band, so does the subject value |
| RunLength.EqualsNext | AcuWand_Analysis.py:428 | one mark per row |
| RunLength.EntriesDecompose | AcuWand_Analysis.py:431-445 | the loop with its trailing append lists exactly the maximal blocks of marks, in increasing order with gaps, and the append is taken exactly when the last mark is set |
| RunLength.TrailingAppendUnreachable | AcuWand_Analysis.py:444-445 | the last row is never marked, so the append after the loop is never taken |
| RunLength.BlockIsRun | AcuWand_Analysis.py:428-441 | a maximal block of marks is exactly a maximal run of equal rows one row longer |
| RunLength.RunYieldsOneEntry | AcuWand_Analysis.py:428-445 | each run of L >= 2 equal rows starting at s gives the entry (s, L-1), and no other entry starts at s |
| RunLength.EntryIsRun | AcuWand_Analysis.py:428-445 | each entry (s, c) stands for a maximal run of c + 1 equal rows from s |
| RunLength.FlatDayEntries | AcuWand_Analysis.py:428-445 | a day of n >= 2 equal rows has the single entry (0, n-1) |
| RunLength.TwoRunDayEntries | AcuWand_Analysis.py:428-445 | n rows of one value then m of another give exactly the entries (0, n-1) and (n, m-1) |
| RunLength.NetRowsBounds | AcuWand_Analysis.py:446-476 | net rows lie between 0 and the day's rows, and removing whole runs never leaves more than the script does |
| RunLength.NoIdleRunKeepsAllRows | AcuWand_Analysis.py:447-475 | when no run of more than 600 equal rows holds an in-band value, both counts are the day's rows |
| RunLength.FlatIdleDayAsWritten | AcuWand_Analysis.py:446-476 | as written, an idle day of 602 or more rows keeps 1 row and one of 601 rows keeps all of them |
| RunLength.FlatIdleDay | AcuWand_Analysis.py:446-476 | with whole runs removed, an idle day of more than 600 rows counts no treatment rows |
| RunLength.IdleThenActiveAsWritten | AcuWand_Analysis.py:446-476 | as written, an idle run of 602 or more rows followed by m active rows leaves m + 1 rows |
| RunLength.IdleThenActive | AcuWand_Analysis.py:446-476 | with whole runs removed, the same day leaves exactly the m active rows |
| RunLength.IdleMorningExample | AcuWand_Analysis.py:446-478 | 700 idle rows then 100 rows of 3.0 give 10.1 seconds as written and 10.0 seconds with whole runs removed |
| RunLength.Time | AcuWand_Analysis.py:477-478 | seconds times 10 are the rows, and minutes times 60 are the seconds |
| RunLength.DayTreatmentAsWritten | AcuWand_Analysis.py:446-478 | the script's treatment seconds are never negative and never exceed the day's rows divided by 10 |
| RunLength.DayTreatment | AcuWand_Analysis.py:446-478 | treatment seconds with whole idle runs removed, never negative and never above the day's rows divided by 10 |
| Regex.StarsMatchAnything | AcuWand_Validator.py:122 | a pattern made only of starred characters matches every name |
| Regex.FixedThenStars | AcuWand_Validator.py:122 | a fixed pattern followed by starred characters matches exactly the names that start with a fit of the fixed part |
| Regex.FitsConcat | AcuWand_Validator.py:140 | a name fits two joined patterns exactly when it fits each in turn |
| Validator.ValidateSubject | AcuWand_Validator.py:68-94 | a subject is skipped exactly when no pattern matches, the format has the same precedence as the analysis, and each name that is not a merged day gets its own check |
| Validator.ValidateCoversUnmerged | AcuWand_Validator.py:93-94 | a name is checked exactly when it is listed and does not end with `_full.csv` |
| Validator.CheckFile | AcuWand_Validator.py:95-146 | a name is ignored exactly when it is a data sheet; it gets the space error exactly when it is no data sheet and has a space; it gets the `-part` error exactly when it is no data sheet, has no space and contains `-part`; it is accepted exactly when it passes those three checks and the format's pattern matches its start |
| Validator.DataSheetNeverFlagged | AcuWand_Validator.py:97-110 | a data-sheet name is never flagged, even with a space |
| Validator.SpaceErrorOnly | AcuWand_Validator.py:111-115 | a name with a space gets the space error and no other, whatever the format |
| Validator.Format1Check | AcuWand_Validator.py:121-122 | the Format 1 check accepts exactly the names starting with 5 digits, `_` and 4 digits |
| Validator.Format2Check | AcuWand_Validator.py:130-131 | the Format 2 check accepts exactly the names starting with 5 digits, `_`, 4 digits and `__` |
| Validator.Format3Check | AcuWand_Validator.py:139-140 | the Format 3 check accepts exactly the names starting with `BPCR01-`, 4 digits, `-`, 3 digits, `_` and the cohort name |
| Validator.Format1Verdict | AcuWand_Validator.py:111-128 | a Format 1 name with no data-sheet marker, no space and no `-part` is accepted exactly when it starts with 5 digits, `_` and 4 digits |
| Validator.Format2Verdict | AcuWand_Validator.py:111-137 | a Format 2 name with no data-sheet marker, no space and no `-part` is accepted exactly when it starts with 5 digits, `_`, 4 digits and `__` |
| Validator.Format3Verdict | AcuWand_Validator.py:111-146 | a Format 3 name with no data-sheet marker, no space and no `-part` is accepted exactly when it starts with `BPCR01-`, 4 digits, `-`, 3 digits, `_` and the cohort name |

## Left out

- File-system access is not modelled: `glob` enumeration (hidden files, `/`), `os.remove`, `os.chdir` and the walk over cohort and subject directories. A subject is its listing of basenames and first-column readings.
- Preparation.Written: `to_csv` overwrites, so two days whose merged names coincide leave one file on disk; the model keeps both records.
- Preparation.ListingOrderIrrelevant: with a suffix collision the re-association follows the listing order, because its inner loop runs over the original list, so the days then depend on the order in which the directory lists the files; the lemma assumes no collision for Formats 1 and 2 for that reason.
- Preparation.MergeDays: on a subject after the first, an empty re-sort meets the previous subject's `n_groups` and filled lists, which the script may process again before it aborts; the model aborts without those reads and writes.
- The re-sort's `replace` acts on the whole path (line 152); the model applies it to the basename, so a label that also occurs in the directory path is not modelled.
- pandas CSV mechanics are not modelled: `read_csv` taking each fragment's first row as a header, column alignment in `concat`, and `to_csv`. A file is the sequence of its first-column values.
- Readings are exact reals. Floating-point rounding, NaN readings inside a column, and the `Decimal` conversion before the zero-band test are left out; that test is an exact comparison.
- Pressure.DaySummary: only whether the mean, the standard deviation and the IQR are defined is modelled, and the mean's value; the values of the standard deviation and IQR are not. Minimum, maximum, median, skew, kurtosis and quantiles are floating-point statistics outside this model.
- Pressure.SubjectMean: the mean of the defined day values is exact rather than `statistics.fmean`. It stands for both the mean and the standard-deviation lists.
- The subject-level averaging of treatment times (lines 504-511) is left out, being floating-point numerics, as is the `isnan` test on treatment time, which never holds for a row count.
- Log-file writes, timestamps, text cleanup of the statistics (327-349) and the output tables (529-538) are left out. The multi-part note is the boolean `multiPart`.
- The regular expressions are modelled as sequences of atoms (a literal character, `[0-9]`, `c*`). The cohort name is taken as plain text, so a cohort name holding regular-expression metacharacters is not modelled.
- AcuWand_GUI.py is not part of this model. It is a window around the two scripts and holds no logic of its own.

## Findings

| source | as written | input that shows it | evidently intended | confidence | as-written member | corrected member |
|---|---|---|---|---|---|---|
| AcuWand_Analysis.py:196-226 | `n_groups` lists are allocated (one per distinct date), and the index moves to the next list at every change of date | the sorted Format 3 names `P_T7_1-18-79.csv`, `P_T7_1-18-79A.csv`, `P_T7_1-18-79_part2.csv` have the dates "1-18-79", "1-18-79A", "1-18-79" (by `Naming.Format3DateToken`); the third file indexes a third list where only two exist | one group per distinct date, as `n_groups` assumes | medium, not executed | DayGroups.InterleavedDatesOverrun | DayGroups.GroupByDatePartitions |
| AcuWand_Analysis.py:446-463 | a run of L equal rows is recorded with count L-1; that count is tested against 600 and subtracted | 700 rows of 0.0 then 100 rows of 3.0 with the zero band [-0.1, 0.1] give 101 rows (10.1 s) instead of 100; an idle run of exactly 601 rows is never removed | a run lasting more than 600 rows is removed whole | high, not executed | RunLength.IdleMorningExample | RunLength.IdleThenActive |
