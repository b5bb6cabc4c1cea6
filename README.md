# tax_break: a Dafny model

`tax_break.py` is a small script. It collects a developer's commits on one
branch for the current month, in three steps:

1. It asks git for two things. The first is the files those commits touched
   (`git log --name-only`). The second is their hashes (`git log --format=%H`).
2. It turns the file list into a set. It builds a map from each hash to that
   commit's `git show` output.
3. It writes two archives into a directory named `my_changes_YYYY_MM_DD`:
   - `files.zip` stores each changed file under its base name;
   - `diffs.zip` stores each diff as `<hash>.diff`.

This project models that logic in Dafny and proves properties of it. The
model does not run git, read the clock or write zip files:
- the strings GitPython's `git_repo.log` returns for the two `git log` calls
  are parameters (git's output without its final newline);
- `git show` is a function parameter `show: string -> string`;
- each clock reading is a date or date-time parameter;
- an archive is its path plus the list of entries written to it, in write
  order.

Files:
- `strings.dfy` (module `Strings`): Python's one-character `str.split` and
  `str.join`, one-character `str.replace`, and zero-padded decimal digits.
- `sets.dfy` (module `Sets`): `set(xs)`, and the images of sets with their
  sizes.
- `paths.dfy` (module `Paths`): POSIX `os.path.basename` and
  `os.path.join`.
- `dates.dfy` (module `Dates`): naive dates and date-times as `datetime`
  stores them, their ordering, and `date.isoformat()`.
- `tax_break.dfy` (module `TaxBreak`): the operations of `tax_break.py`.

`str.split('\n')` is modelled exactly. Splitting `""` gives `[""]`, and a
trailing newline gives a trailing empty piece. The functions in
`tax_break.py` that are single expressions are Dafny functions. The loop in
`filter_commits` that fills the dictionary is a method with loop invariants
over a map. So are the two archive writers, which add entries one at a time.
Both writers' loops pick the next element with `:|`, and their contracts
hold for every order. For `files.zip` this is the whole story: Python gives
no fixed iteration order over a set. A dict, by contrast, iterates in
insertion order, so `create_archive_with_diffs` writes the diffs in the
order each hash first appears in the hash list. The contract of
`TaxBreak.CreateArchiveWithDiffs` holds for that order too, but does not
say which order it is.

Two behaviours of the code are easy to miss:
- Empty log output. `"".split('\n')` is `[""]`, not `[]`. So with no
  matching commits `get_unique_files_from_commits` returns `{""}`, and
  `split_hashes` returns the one hash `""`
  (`TaxBreak.EmptyLogIsOneEmptyLine`). The source then calls
  `git_repo.show('')`, which git rejects, and the run stops before any
  archive is written. In the model `show` is total, so the diff map has one
  entry, for the hash `""`.
- Base-name collisions. `create_archive_with_files` calls `ZipFile.write`
  once per file, so two files with the same base name give two entries with
  the same name. The model keeps both entries. The collision shows up as
  fewer distinct entry names than files
  (`TaxBreak.BasenameCollisionLosesName`).

## Model

| member | source | states |
|---|---|---|
| `TaxBreak.GenerateDefaultBeginDate` | tax_break.py:39-41 | the begin date is a valid date-time in the same year and month as the clock reading. It is no later than that reading, and no later than any instant of that month: midnight on the 1st |
| `TaxBreak.GenerateDefaultDateRange` | tax_break.py:33-45 | end is the second clock reading. Begin is `GenerateDefaultBeginDate` of the first reading: midnight on the 1st of that reading's month, no later than that reading. If the clock did not go back between the two readings, begin <= end |
| `TaxBreak.DefaultRangeCoversMonthSoFar` | tax_break.py:33-45 | with both readings at the same instant, every instant of the current month up to that instant lies within [begin, end] |
| `TaxBreak.CreateAuthor` | tax_break.py:73-74 | for one or more tokens, the author string's length is the sum of the token lengths plus one space between each pair. No tokens gives "" |
| `TaxBreak.CreateAuthorSplitsBack` | tax_break.py:73-74 | with at least one token and no spaces inside tokens, splitting the author string on ' ' gives back exactly the tokens |
| `TaxBreak.SplitHashes` | tax_break.py:81-82 | there is one piece more than the input has newlines. No piece contains a newline. Joining the pieces with '\n' reproduces the input exactly |
| `TaxBreak.SplitHashesTrailingNewline` | tax_break.py:81-82 | a trailing newline adds exactly one trailing empty hash |
| `TaxBreak.GetUniqueFilesFromCommits` | tax_break.py:77-78 | a name is in the set if and only if it is a line of the log output. No member contains a newline. The set has at most (newlines + 1) members |
| `TaxBreak.UniqueFilesIgnoreRepeats` | tax_break.py:77-78 | appending lines that already occur in the log output does not change the file set |
| `TaxBreak.EmptyLogIsOneEmptyLine` | tax_break.py:77-82 | empty log output gives the hash list [""] and the file set {""} |
| `TaxBreak.FilterCommits` | tax_break.py:48-70 | the file set is the set of lines of the files log. The diff map's keys are exactly the distinct split hashes, and each value is show(key). The map has no more entries than there are split hashes, which is (newlines + 1) |
| `TaxBreak.CollectDiffs` | tax_break.py:67-69 | the loop that fills `diffs`. The keys are exactly the listed hashes and each value is show(key). There are no more entries than hashes |
| `TaxBreak.DiffsDependOnHashSetOnly` | tax_break.py:66-69 | any two maps with the keys and values FilterCommits promises, built from hash lists with the same members, are equal. Order and repetition of hashes do not matter |
| `TaxBreak.CreateToplevelDirname` | tax_break.py:92-93 | the name is 21 characters long and starts with `my_changes_`. It contains no '-'. Underscores are at positions 15 and 18, and the three digit groups read back as the year, month and day of the clock reading |
| `TaxBreak.ToplevelDirnameInjective` | tax_break.py:92-93 | clock readings on different days give different directory names |
| `TaxBreak.DiffEntryName` | tax_break.py:111 | the entry name is 5 characters longer than the hash. Stripping the `.diff` suffix gives back the hash |
| `TaxBreak.StripDiffSuffixInverse` | tax_break.py:110-112 | every name that strips to a hash is that hash's entry name |
| `TaxBreak.DiffEntryNameInjective` | tax_break.py:110-112 | distinct hashes get distinct entry names |
| `TaxBreak.FileEntryNames` | tax_break.py:99-103 | no name in `files.zip` contains '/'. There are no more names than files |
| `TaxBreak.BasenameCollisionLosesName` | tax_break.py:99-103 | two distinct changed files with the same base name leave `files.zip` with fewer distinct names than files. This is the known collision |
| `TaxBreak.SameNameInTwoDirectories` | tax_break.py:99-103 | `dir1/name` and `dir2/name` with dir1 != dir2 both have base name `name`. When both are changed files, `files.zip` has fewer distinct names than files |
| `TaxBreak.DistinctBasenamesKeepAllNames` | tax_break.py:99-103 | when no two files share a base name, every file has a name of its own |
| `TaxBreak.FilesArchiveNames` | tax_break.py:99-103 | an entry list that holds each file under its base name, and nothing else, has exactly the files' base names as its names |
| `TaxBreak.CreateArchiveWithFiles` | tax_break.py:96-104 | the archive is `<dir>/files.zip` and has one entry per file. Each file appears under its base name, read from its own path. Every entry is of that form, and the entry names are exactly the base names |
| `TaxBreak.CreateArchiveWithDiffs` | tax_break.py:107-113 | the archive is `<dir>/diffs.zip` and has one entry per map entry. Each hash's diff is stored as text under `<hash>.diff`. Every entry is some hash's diff, and no two entries share a name |
| `TaxBreak.CreateArchive` | tax_break.py:85-89 | the directory is the dirname of the clock reading's date. The two archives sit directly inside it under the names `files.zip` and `diffs.zip`. They hold the entries the two writers promise: each file under its base name, read from its own path, and nothing else; each hash's diff under `<hash>.diff`, nothing else, with no name twice |
| `Strings.Split` | tax_break.py:82 | `str.split(sep)` yields (separator count + 1) pieces, none containing the separator |
| `Strings.Join` | tax_break.py:74 | the length of `sep.join(parts)` is the sum of the part lengths plus (parts - 1). Joining no parts gives "" |
| `Strings.JoinSplit` | tax_break.py:82 | joining the split pieces with the separator gives back the input |
| `Strings.SplitJoin` | tax_break.py:74 | splitting a join of one or more separator-free parts gives back the parts |
| `Strings.SplitTrailingSeparator` | tax_break.py:82 | a trailing separator adds one trailing empty piece |
| `Strings.ReplaceChar` | tax_break.py:93 | `str.replace` with one-character arguments keeps the length, puts `to` at every position that held `from`, and keeps every other character |
| `Strings.ReplaceCharRemovesAll` | tax_break.py:93 | `replace('-', '_')` leaves no '-' |
| `Strings.Digits` | tax_break.py:93 | zero-padded formatting yields exactly `width` decimal digits |
| `Strings.DecimalValueOfDigits` | tax_break.py:93 | the padded digits read back as the number that was formatted |
| `Dates.IsoFormat` | tax_break.py:93 | `str(date)` is `YYYY-MM-DD`: 10 characters, dashes at positions 4 and 7. The digit groups read back as year, month and day |
| `Dates.IsoFormatInjective` | tax_break.py:93 | different dates have different ISO forms |
| `Sets.ToSet` | tax_break.py:78 | `set(xs)` holds exactly the elements of xs and is no larger than xs |
| `Paths.Basename` | tax_break.py:102 | `os.path.basename` is no longer than the path. `Paths.BasenameSpec` characterises it in full |
| `Paths.BasenameSpec` | tax_break.py:102 | `os.path.basename` is the longest suffix of the path without '/'. It is a suffix, has no '/', and unless it is the whole path it comes right after a '/' |
| `Paths.BasenameAfterSlash` | tax_break.py:102 | the base name of `dir/name` is `name` |
| `Paths.JoinPath` | tax_break.py:97 | `os.path.join(a, b)` is `b` when `b` is absolute. Otherwise it starts with `a` and ends with `b`. A single '/' is put between them exactly when `a` is non-empty and does not already end in '/' |
| `Paths.JoinPathUnderDirectory` | tax_break.py:97 | joining the output directory with an archive name puts one '/' between them, and the archive name is the base name of the result |

## Left out

- The git queries (tax_break.py:49-65, 69) are left out. Their outputs are
  string parameters, and `git show` is the total function `show`. Branch,
  `--author`, `--since` and `--until` matching belong to git and are not
  modelled. So are the `str(datetime)` forms passed to `--since` and
  `--until`.
- A failing git command (no repository, no such branch, a failing `show`)
  is left out. The source does not handle it, and the process ends with an
  error.
- Zip writing is left out (tax_break.py:97-98, 104, 108-109, 113). This
  covers DEFLATE compression, the zip file format and the `close` calls.
  Reading each changed file from the working tree is left out too, and so
  is the error when that file is missing. An entry records the path it is
  read from instead of the file's bytes.
- `Path.mkdir(parents=True, exist_ok=True)` (tax_break.py:87) is file-system
  I/O and is left out.
- `parse_args` (tax_break.py:15-30) is CLI glue and is left out. The
  guarantee it gives `create_author` (at least one author token) appears as
  a precondition of `TaxBreak.CreateAuthorSplitsBack` only.
- `main` (tax_break.py:116-120) only chains the stages and is left out.
- `datetime.datetime.today()` (tax_break.py:40, 45, 93) is left out. Each
  call is a date-time parameter: two for the date range and one for the
  directory name, whose `.date()` is `Dates.DateOf`.
- `generate_default_end_date` (tax_break.py:44-45) returns its clock reading
  unchanged. It is the `endClock` parameter of
  `TaxBreak.GenerateDefaultDateRange`, not a member of its own.
- The order in which `create_archive_with_diffs` writes its entries is not
  stated. Python dicts keep insertion order, so the source writes them in
  the order each hash first appears in the hash list. The model keeps the
  map without that order.
- Some details of what `zipfile` stores are left out. `writestr` stores the
  diff UTF-8 encoded, not as text. A path that names a directory, such as a
  submodule, is stored by `write` as a directory entry whose name ends in
  '/'.
- `os.path` is modelled for POSIX hosts only. Windows path separators are
  not modelled.
