/** The logic of `tax_break.py`: from what GitPython's `git_repo.log`
    returns for two `git log` queries (git's output without its final
    newline), and from `git show` for each commit, build the set of changed
    files and the commit-to-diff map, name the output directory after
    today's date, and lay out the entries of `files.zip` and `diffs.zip`.

    The git queries, the clock and the zip writer are outside the model:
    log output arrives as strings, `git show` as a function parameter,
    clock readings as date-time parameters, and an archive is described by
    its path and the entries written to it, in order. */
module TaxBreak {
  import opened Strings
  import opened Sets
  import opened Paths
  import opened Dates

  datatype Option<T> = None | Some(value: T)

  // ---------------------------------------------------------------------
  // Date range

  /** `DateRange(begin_date, end_date)`: never changed after construction. */
  datatype DateRange = DateRange(begin: DateTime, end: DateTime)

  /** `generate_default_begin_date`: midnight on the first day of the month
      that the clock reading `now` falls in. */
  function GenerateDefaultBeginDate(now: DateTime): (begin: DateTime)
    requires ValidDateTime(now)
    ensures ValidDateTime(begin)
    ensures begin.year == now.year && begin.month == now.month
    ensures NotAfter(begin, now)
    ensures forall t :: ValidDateTime(t) && t.year == now.year && t.month == now.month ==> NotAfter(begin, t)
  {
    DateTime(now.year, now.month, 1, 0, 0, 0, 0)
  }

  /** `generate_default_date_range`. The source reads the clock twice: once
      in `generate_default_begin_date` (`beginClock`) and once in
      `generate_default_end_date`, which returns that reading unchanged
      (`endClock`). As long as the clock did not go back between the two
      readings, the range is not empty. */
  function GenerateDefaultDateRange(beginClock: DateTime, endClock: DateTime): (range: DateRange)
    requires ValidDateTime(beginClock) && ValidDateTime(endClock)
    ensures range.begin == GenerateDefaultBeginDate(beginClock) && range.end == endClock
    ensures range.begin.year == beginClock.year && range.begin.month == beginClock.month
    ensures range.begin.day == 1 && NotAfter(range.begin, beginClock)
    ensures NotAfter(beginClock, endClock) ==> NotAfter(range.begin, range.end)
  {
    var begin := GenerateDefaultBeginDate(beginClock);
    assert NotAfter(beginClock, endClock) ==> NotAfter(begin, endClock) by {
      if NotAfter(beginClock, endClock) { NotAfterTransitive(begin, beginClock, endClock); }
    }
    DateRange(begin, endClock)
  }

  /** Read at one instant, the default range holds every instant of the
      current month up to and including that instant. */
  lemma DefaultRangeCoversMonthSoFar(now: DateTime, t: DateTime)
    requires ValidDateTime(now) && ValidDateTime(t)
    requires t.year == now.year && t.month == now.month && NotAfter(t, now)
    ensures NotAfter(GenerateDefaultDateRange(now, now).begin, t)
    ensures NotAfter(t, GenerateDefaultDateRange(now, now).end)
  {
  }

  // ---------------------------------------------------------------------
  // Commit filtering

  /** `create_author`: the `--author` tokens joined by single spaces. */
  function CreateAuthor(tokens: seq<string>): (author: string)
    ensures tokens != [] ==> |author| == TotalLength(tokens) + |tokens| - 1
    ensures tokens == [] ==> author == ""
  {
    Join(tokens, ' ')
  }

  /** The author string splits back into its tokens when there is at least
      one token (argparse's `nargs='+'`) and no token holds a space. */
  lemma CreateAuthorSplitsBack(tokens: seq<string>)
    requires |tokens| >= 1
    requires forall i :: 0 <= i < |tokens| ==> ' ' !in tokens[i]
    ensures Split(CreateAuthor(tokens), ' ') == tokens
  {
    SplitJoin(tokens, ' ');
  }

  /** `split_hashes`: the lines of `git log --format=%H` output, exactly as
      `str.split('\n')` gives them. */
  function SplitHashes(logInfo: string): (hashes: seq<string>)
    ensures |hashes| == CountChar(logInfo, '\n') + 1
    ensures forall i :: 0 <= i < |hashes| ==> '\n' !in hashes[i]
    ensures Join(hashes, '\n') == logInfo
  {
    JoinSplit(logInfo, '\n');
    Split(logInfo, '\n')
  }

  /** Output ending in a newline has a trailing empty piece. */
  lemma SplitHashesTrailingNewline(logInfo: string)
    ensures SplitHashes(logInfo + "\n") == SplitHashes(logInfo) + [""]
  {
    SplitTrailingSeparator(logInfo, '\n');
  }

  /** `get_unique_files_from_commits`: the distinct lines of
      `git log --name-only` output. */
  function GetUniqueFilesFromCommits(logInfo: string): (files: set<string>)
    ensures forall f :: f in files <==> f in Split(logInfo, '\n')
    ensures forall f :: f in files ==> '\n' !in f
    ensures |files| <= CountChar(logInfo, '\n') + 1
  {
    ToSet(Split(logInfo, '\n'))
  }

  /** Appending lines that name files already listed does not change the
      set of unique files. */
  lemma UniqueFilesIgnoreRepeats(lines: seq<string>, repeats: seq<string>)
    requires |lines| >= 1
    requires forall i :: 0 <= i < |lines| ==> '\n' !in lines[i]
    requires forall j :: 0 <= j < |repeats| ==> repeats[j] in lines
    ensures GetUniqueFilesFromCommits(Join(lines + repeats, '\n'))
         == GetUniqueFilesFromCommits(Join(lines, '\n'))
  {
    var all := lines + repeats;
    forall i | 0 <= i < |all| ensures '\n' !in all[i] {
      if i >= |lines| {
        assert all[i] == repeats[i - |lines|];
      }
    }
    SplitJoin(all, '\n');
    SplitJoin(lines, '\n');
  }

  /** Empty log output is one empty line: the file set holds the empty
      name and the hash list one empty hash, not nothing. */
  lemma EmptyLogIsOneEmptyLine()
    ensures SplitHashes("") == [""]
    ensures GetUniqueFilesFromCommits("") == {""}
  {
  }

  /** A map whose keys are exactly the listed hashes has one entry per
      distinct hash, so no more entries than hashes. */
  lemma {:induction false} KeysOfListedHashes(diffs: map<string, string>, hashes: seq<string>)
    requires forall h :: h in diffs <==> h in hashes
    ensures diffs.Keys == ToSet(hashes)
    ensures |diffs| <= |hashes|
  {
    assert diffs.Keys == ToSet(hashes);
    assert |diffs| == |diffs.Keys|;
  }

  /** The loop of `filter_commits`: one entry per listed hash, holding that
      commit's `show` output. Each step adds or overwrites the current
      hash's entry and leaves every other entry alone. */
  method CollectDiffs(hashes: seq<string>, show: string -> string) returns (diffs: map<string, string>)
    ensures forall h :: h in diffs <==> h in hashes
    ensures forall h :: h in diffs ==> diffs[h] == show(h)
    ensures |diffs| <= |hashes|
  {
    diffs := map[];
    for i := 0 to |hashes|
      invariant forall h :: h in diffs <==> h in hashes[..i]
      invariant forall h :: h in diffs ==> diffs[h] == show(h)
    {
      var hash := hashes[i];
      assert hashes[..i + 1] == hashes[..i] + [hash];
      diffs := diffs[hash := show(hash)];
    }
    assert hashes[..|hashes|] == hashes;
    KeysOfListedHashes(diffs, hashes);
  }

  /** `filter_commits` after its two `git log` calls: `filesLogInfo` and
      `hashesLogInfo` are what GitPython's `git_repo.log` returned for them
      (git's output without its final newline), and `show` stands for
      `git_repo.show`. */
  method FilterCommits(filesLogInfo: string, hashesLogInfo: string, show: string -> string)
    returns (uniqueFiles: set<string>, diffs: map<string, string>)
    ensures uniqueFiles == GetUniqueFilesFromCommits(filesLogInfo)
    ensures forall h :: h in diffs <==> h in SplitHashes(hashesLogInfo)
    ensures forall h :: h in diffs ==> diffs[h] == show(h)
    ensures |diffs| <= |SplitHashes(hashesLogInfo)|
  {
    uniqueFiles := GetUniqueFilesFromCommits(filesLogInfo);
    var hashes := SplitHashes(hashesLogInfo);
    diffs := CollectDiffs(hashes, show);
  }

  /** The diff map depends only on which hashes are listed, not on their
      order or repetition. */
  lemma DiffsDependOnHashSetOnly(d1: map<string, string>, d2: map<string, string>,
                                 log1: string, log2: string, show: string -> string)
    requires forall h :: h in d1 <==> h in SplitHashes(log1)
    requires forall h :: h in d1 ==> d1[h] == show(h)
    requires forall h :: h in d2 <==> h in SplitHashes(log2)
    requires forall h :: h in d2 ==> d2[h] == show(h)
    requires forall h :: h in SplitHashes(log1) <==> h in SplitHashes(log2)
    ensures d1 == d2
  {
  }

  // ---------------------------------------------------------------------
  // Archives

  /** What an entry holds: a file read from the working tree at `path`
      (`ZipFile.write`), or text given directly (`ZipFile.writestr`). */
  datatype Content = WorkingTreeFile(path: string) | Text(data: string)

  datatype Entry = Entry(arcname: string, content: Content)

  /** A zip archive: where it is written and the entries written to it, in
      the order they were written. */
  datatype ZipArchive = ZipArchive(path: string, entries: seq<Entry>)

  const FilesArchiveName := "files.zip"
  const DiffsArchiveName := "diffs.zip"

  /** The names that occur among `entries`. */
  function EntryNames(entries: seq<Entry>): set<string>
  {
    set i | 0 <= i < |entries| :: entries[i].arcname
  }

  /** `create_toplevel_dirname`: `my_changes_` and the ISO form of the date
      of the clock reading `now`, with its dashes turned into underscores. */
  function CreateToplevelDirname(now: DateTime): (name: string)
    requires ValidDateTime(now)
    ensures |name| == 21 && name[..11] == "my_changes_"
    ensures '-' !in name
    ensures name[15] == '_' && name[18] == '_'
    ensures AllDigits(name[11..15]) && AllDigits(name[16..18]) && AllDigits(name[19..])
    ensures DecimalValue(name[11..15]) == now.year
    ensures DecimalValue(name[16..18]) == now.month
    ensures DecimalValue(name[19..]) == now.day
  {
    var iso := IsoFormat(DateOf(now));
    var underscored := ReplaceChar(iso, '-', '_');
    var name := "my_changes_" + underscored;
    forall k | 0 <= k < 10 && k != 4 && k != 7 ensures underscored[k] == iso[k] {
      assert IsDigit(iso[k]) by {
        if k < 4 { assert iso[k] == iso[..4][k]; }
        else if k < 7 { assert iso[k] == iso[5..7][k - 5]; }
        else { assert iso[k] == iso[8..][k - 8]; }
      }
    }
    assert underscored[..4] == iso[..4];
    assert underscored[5..7] == iso[5..7];
    assert underscored[8..] == iso[8..];
    assert name[11..] == underscored;
    assert name[11..15] == underscored[..4] && name[16..18] == underscored[5..7] && name[19..] == underscored[8..];
    ReplaceCharRemovesAll(iso, '-', '_');
    name
  }

  /** Clock readings on different days get different directories; the time
      of day does not matter. */
  lemma ToplevelDirnameInjective(t1: DateTime, t2: DateTime)
    requires ValidDateTime(t1) && ValidDateTime(t2)
    requires CreateToplevelDirname(t1) == CreateToplevelDirname(t2)
    ensures DateOf(t1) == DateOf(t2)
  {
  }

  /** The name under which a commit's diff is stored in `diffs.zip`. */
  function DiffEntryName(hash: string): (name: string)
    ensures |name| == |hash| + 5
    ensures StripDiffSuffix(name) == Some(hash)
  {
    var name := hash + ".diff";
    assert name[..|hash|] == hash && name[|hash|..] == ".diff";
    name
  }

  /** The commit hash a `diffs.zip` entry name stands for, if it ends in `.diff`. */
  function StripDiffSuffix(name: string): Option<string>
  {
    if |name| >= 5 && name[|name| - 5..] == ".diff" then Some(name[..|name| - 5]) else None
  }

  /** Any name that strips to a hash is that hash's entry name, so entry
      names and hashes correspond one to one. */
  lemma StripDiffSuffixInverse(name: string, hash: string)
    requires StripDiffSuffix(name) == Some(hash)
    ensures DiffEntryName(hash) == name
  {
    assert name == name[..|name| - 5] + name[|name| - 5..];
  }

  /** Distinct commits get distinct entry names in `diffs.zip`. */
  lemma DiffEntryNameInjective(h1: string, h2: string)
    requires DiffEntryName(h1) == DiffEntryName(h2)
    ensures h1 == h2
  {
  }

  /** The entry names of `files.zip`: one base name per changed file. */
  function FileEntryNames(files: set<string>): (names: set<string>)
    ensures forall n :: n in names ==> '/' !in n
    ensures |names| <= |files|
  {
    forall n | n in Image(files, Basename) ensures '/' !in n {
      var f :| f in files && Basename(f) == n;
      BasenameSpec(f);
    }
    ImageNoLarger(files, Basename);
    Image(files, Basename)
  }

  /** Two changed files in different directories with the same base name
      share one entry name, so `files.zip` has fewer distinct names than
      there are changed files. */
  lemma BasenameCollisionLosesName(files: set<string>, p: string, q: string)
    requires p in files && q in files && p != q
    requires Basename(p) == Basename(q)
    ensures |FileEntryNames(files)| < |files|
  {
    ImageShrinksOnCollision(files, Basename, p, q);
  }

  /** The collision as it arises in a repository: the same file name in two
      different directories. */
  lemma SameNameInTwoDirectories(files: set<string>, dir1: string, dir2: string, name: string)
    requires dir1 != dir2 && '/' !in name
    requires dir1 + "/" + name in files && dir2 + "/" + name in files
    ensures Basename(dir1 + "/" + name) == Basename(dir2 + "/" + name) == name
    ensures |FileEntryNames(files)| < |files|
  {
    var p, q := dir1 + "/" + name, dir2 + "/" + name;
    BasenameAfterSlash(dir1, name);
    BasenameAfterSlash(dir2, name);
    assert p != q by {
      if |dir1| == |dir2| {
        assert p[..|dir1|] == dir1 && q[..|dir2|] == dir2;
      }
    }
    BasenameCollisionLosesName(files, p, q);
  }

  /** Without two files sharing a base name, every file gets a name of its own. */
  lemma DistinctBasenamesKeepAllNames(files: set<string>)
    requires forall p, q :: p in files && q in files && Basename(p) == Basename(q) ==> p == q
    ensures |FileEntryNames(files)| == |files|
  {
    ImageOfInjective(files, Basename);
  }

  /** An entry list holding every file under its base name, and nothing
      else, has exactly the base names of the files as its names. */
  lemma FilesArchiveNames(files: set<string>, entries: seq<Entry>)
    requires forall f :: f in files ==> Entry(Basename(f), WorkingTreeFile(f)) in entries
    requires forall i :: 0 <= i < |entries| ==> IsFileEntryOf(entries[i], files)
    ensures EntryNames(entries) == FileEntryNames(files)
  {
    forall n | n in FileEntryNames(files) ensures n in EntryNames(entries) {
      var f :| f in files && Basename(f) == n;
      var i :| 0 <= i < |entries| && entries[i] == Entry(Basename(f), WorkingTreeFile(f));
      assert entries[i].arcname == n;
    }
    forall n | n in EntryNames(entries) ensures n in FileEntryNames(files) {
      var i :| 0 <= i < |entries| && entries[i].arcname == n;
      assert entries[i].content.path in files;
    }
  }

  /** Whether `e` stores one of `paths` under its base name. */
  predicate IsFileEntryOf(e: Entry, paths: set<string>)
  {
    e.content.WorkingTreeFile? && e.content.path in paths && e.arcname == Basename(e.content.path)
  }

  /** `create_archive_with_files`: one entry per changed file, read from the
      working tree at its path and stored under its base name. The set is
      visited in no particular order. */
  method CreateArchiveWithFiles(topLevelDirname: string, files: set<string>) returns (zip: ZipArchive)
    ensures zip.path == JoinPath(topLevelDirname, FilesArchiveName)
    ensures |zip.entries| == |files|
    ensures forall f :: f in files ==> Entry(Basename(f), WorkingTreeFile(f)) in zip.entries
    ensures forall i :: 0 <= i < |zip.entries| ==> IsFileEntryOf(zip.entries[i], files)
    ensures EntryNames(zip.entries) == FileEntryNames(files)
  {
    var entries: seq<Entry> := [];
    var remaining := files;
    while remaining != {}
      invariant remaining <= files
      invariant |entries| + |remaining| == |files|
      invariant forall f :: f in files - remaining ==> Entry(Basename(f), WorkingTreeFile(f)) in entries
      invariant forall i :: 0 <= i < |entries| ==> IsFileEntryOf(entries[i], files - remaining)
      decreases |remaining|
    {
      var file :| file in remaining;
      entries := entries + [Entry(Basename(file), WorkingTreeFile(file))];
      remaining := remaining - {file};
    }
    zip := ZipArchive(JoinPath(topLevelDirname, FilesArchiveName), entries);
    FilesArchiveNames(files, entries);
  }

  /** Whether `e` is the `diffs.zip` entry of some commit in `diffs`. */
  predicate IsDiffEntryOf(e: Entry, diffs: map<string, string>)
  {
    match StripDiffSuffix(e.arcname)
    case Some(hash) => hash in diffs && e.content == Text(diffs[hash])
    case None => false
  }

  /** `create_archive_with_diffs`: one text entry per commit, named
      `<hash>.diff` and holding that commit's diff verbatim; no two entries
      share a name. */
  method CreateArchiveWithDiffs(topLevelDirname: string, diffs: map<string, string>) returns (zip: ZipArchive)
    ensures zip.path == JoinPath(topLevelDirname, DiffsArchiveName)
    ensures |zip.entries| == |diffs|
    ensures forall h :: h in diffs ==> Entry(DiffEntryName(h), Text(diffs[h])) in zip.entries
    ensures forall i :: 0 <= i < |zip.entries| ==> IsDiffEntryOf(zip.entries[i], diffs)
    ensures forall i, j :: 0 <= i < j < |zip.entries| ==> zip.entries[i].arcname != zip.entries[j].arcname
  {
    var entries: seq<Entry> := [];
    var remaining := diffs.Keys;
    while remaining != {}
      invariant remaining <= diffs.Keys
      invariant |entries| + |remaining| == |diffs|
      invariant forall h :: h in diffs.Keys - remaining ==> Entry(DiffEntryName(h), Text(diffs[h])) in entries
      invariant forall i :: 0 <= i < |entries| ==> IsDiffEntryOf(entries[i], diffs)
      invariant forall i :: 0 <= i < |entries| ==> StripDiffSuffix(entries[i].arcname).value !in remaining
      invariant forall i, j :: 0 <= i < j < |entries| ==> entries[i].arcname != entries[j].arcname
      decreases |remaining|
    {
      var hash :| hash in remaining;
      var e := Entry(DiffEntryName(hash), Text(diffs[hash]));
      forall i | 0 <= i < |entries| ensures entries[i].arcname != e.arcname {
        assert StripDiffSuffix(entries[i].arcname).value != hash;
      }
      entries := entries + [e];
      remaining := remaining - {hash};
    }
    zip := ZipArchive(JoinPath(topLevelDirname, DiffsArchiveName), entries);
  }

  /** `create_archive`: the directory named after the date of the clock
      reading `now`, then the two
      archives inside it. Creating the directory is left out. */
  method CreateArchive(now: DateTime, files: set<string>, diffs: map<string, string>)
    returns (topLevelDirname: string, filesZip: ZipArchive, diffsZip: ZipArchive)
    requires ValidDateTime(now)
    ensures topLevelDirname == CreateToplevelDirname(now)
    ensures filesZip.path == topLevelDirname + "/" + FilesArchiveName
    ensures diffsZip.path == topLevelDirname + "/" + DiffsArchiveName
    ensures Basename(filesZip.path) == FilesArchiveName && Basename(diffsZip.path) == DiffsArchiveName
    ensures |filesZip.entries| == |files|
    ensures forall f :: f in files ==> Entry(Basename(f), WorkingTreeFile(f)) in filesZip.entries
    ensures forall i :: 0 <= i < |filesZip.entries| ==> IsFileEntryOf(filesZip.entries[i], files)
    ensures EntryNames(filesZip.entries) == FileEntryNames(files)
    ensures |diffsZip.entries| == |diffs|
    ensures forall h :: h in diffs ==> Entry(DiffEntryName(h), Text(diffs[h])) in diffsZip.entries
    ensures forall i :: 0 <= i < |diffsZip.entries| ==> IsDiffEntryOf(diffsZip.entries[i], diffs)
    ensures forall i, j :: 0 <= i < j < |diffsZip.entries| ==> diffsZip.entries[i].arcname != diffsZip.entries[j].arcname
  {
    topLevelDirname := CreateToplevelDirname(now);
    assert IsDigit(topLevelDirname[19..][1]);
    assert '/' !in FilesArchiveName && '/' !in DiffsArchiveName;
    JoinPathUnderDirectory(topLevelDirname, FilesArchiveName);
    JoinPathUnderDirectory(topLevelDirname, DiffsArchiveName);
    filesZip := CreateArchiveWithFiles(topLevelDirname, files);
    diffsZip := CreateArchiveWithDiffs(topLevelDirname, diffs);
  }
}
