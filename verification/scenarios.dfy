/** Small trees run through the whole model, one per documented behaviour. */
module Scenarios {
  import opened Wrappers
  import opened Entries
  import opened HumanSize
  import opened Listing
  import opened PathResolution
  import FilterSort

  const FileF := Entry("f.txt", "-rw-", 2048, 1_700_000_000, [])
  const RootF := Entry("root", "d---", 0, 0, [FileF])

  /** `-l --human` on the root of a one-file tree prints a single long line with a scaled size. */
  lemma LongHumanOneFile(formatTime: int -> string)
    ensures Run(RootF, "", Config(false, true, true, "", false, "size"), formatTime)
      == Output(["-rw- 2.0K " + formatTime(1_700_000_000) + " f.txt"], None)
  {
    var cfg := Config(false, true, true, "", false, "size");
    KiBExamples();
    assert !IsHidden(FileF);
    assert [FileF][1..] == [];
    assert WalkItems(RootF, [], cfg) == Walk([], None);
    assert WalkItems(RootF, [FileF], cfg) == Walk([FileF], None);
    assert WalkLevel(RootF, cfg) == Walk([FileF], None);
    assert Lines([FileF], cfg, formatTime) == [LineOf(FileF, cfg, formatTime)];
    var t := formatTime(1_700_000_000);
    assert LineOf(FileF, cfg, formatTime) == "-rw-" + " " + "2.0K" + " " + t + " " + "f.txt";
    assert "-rw-" + " " + "2.0K" + " " == "-rw- 2.0K ";
    var head := "-rw- 2.0K " + t;
    assert head + " " + "f.txt" == head + " f.txt";
    assert LineOf(FileF, cfg, formatTime) == "-rw- 2.0K " + t + " f.txt";
    assert ListFiles(RootF, cfg, formatTime) == Output([LineOf(FileF, cfg, formatTime)], None);
    assert Resolve(RootF, "") == Success(RootF);
  }

  const B := Entry("b", "-rw-", 1, 0, [])
  const A := Entry("a", "drw-", 0, 0, [B])
  const RootAB := Entry("root", "d---", 0, 0, [A])

  /** "a/b" names `b`; "a/c" names nothing and the error line quotes "a/c", not "c". */
  lemma LookupAB(cfg: Config, formatTime: int -> string)
    ensures Resolve(RootAB, "a/b") == Success(B)
    ensures Resolve(RootAB, "a/c") == Failure("a/c")
    ensures Run(RootAB, "a/c", cfg, formatTime).lines == [ErrorLine("a/c")]
  {
    assert Join(["a", "b"], '/') == "a/b";
    SplitJoin(["a", "b"], '/');
    assert Join(["a", "c"], '/') == "a/c";
    SplitJoin(["a", "c"], '/');
    assert FindChild(RootAB.contents, "a") == Some(A);
    assert FindChild(A.contents, "b") == Some(B);
    assert FindChild(A.contents, "c") == None;
    assert ResolveSegments(B, []) == Some(B);
    assert ResolveSegments(A, ["b"]) == Some(B);
    assert ResolveSegments(A, ["c"]) == None;
    assert ["a", "b"][1..] == ["b"];
    assert ["a", "c"][1..] == ["c"];
  }

  const Git := Entry(".git", "drw-", 0, 0, [Entry("HEAD", "-rw-", 23, 0, [])])
  const Readme := Entry("README", "-rw-", 10, 0, [])
  const RootGit := Entry("repo", "d---", 0, 0, [Git, Readme])

  /** A hidden directory and everything in it are skipped unless -A is given. */
  lemma HiddenDirectory()
    ensures WalkLevel(RootGit, Config(false, true, false, "", false, "size")).shown == [Readme]
    ensures WalkLevel(RootGit, Config(true, true, false, "", false, "size")).shown
      == [Git, Git.contents[0], Readme]
  {
    var hiddenCfg := Config(false, true, false, "", false, "size");
    assert !Visible(Git, hiddenCfg);
    assert WalkItems(RootGit, [Readme], hiddenCfg).shown == [Readme];
    var allCfg := Config(true, true, false, "", false, "size");
    assert WalkLevel(Git, allCfg).shown == [Git.contents[0]];
    assert WalkItems(RootGit, [Readme], allCfg).shown == [Readme];
  }

  const Small := Entry("small", "-rw-", 1, 30, [])
  const Mid := Entry("mid", "-rw-", 2, 10, [])
  const Big := Entry("big", "-rw-", 3, 20, [])
  const Sub := Entry("sub", "drw-", 4096, 0, [])
  const RootMixed := Entry("root", "d---", 0, 0, [Mid, Sub, Big, Small])

  lemma KeepFilesTail()
    ensures FilterSort.KeepKind([Sub, Big, Small], '-') == [Big, Small]
  {
    assert [Sub, Big, Small][1..] == [Big, Small];
    assert [Big, Small][1..] == [Small];
    assert [Small][1..] == [];
    assert FilterSort.KeepKind([], '-') == [];
    assert FilterSort.KeepKind([Small], '-') == [Small];
    assert FilterSort.KeepKind([Big, Small], '-') == [Big, Small];
  }

  lemma KeepFiles()
    ensures FilterSort.KeepKind(RootMixed.contents, '-') == [Mid, Big, Small]
  {
    KeepFilesTail();
    var s := RootMixed.contents;
    assert s == [Mid, Sub, Big, Small];
    assert s[1..] == [Sub, Big, Small];
    assert FilterSort.KeepKind(s, '-') == [Mid] + FilterSort.KeepKind(s[1..], '-');
  }

  lemma AllHavePermissions()
    ensures !exists e :: e in RootMixed.contents && e.permissions == []
  {
  }

  lemma SortBySizeUp()
    ensures FilterSort.SortEntries([Mid, Big, Small], FilterSort.BySize, false) == [Small, Mid, Big]
  {
    var k := FilterSort.BySize;
    assert [Mid, Big, Small][1..] == [Big, Small];
    assert [Big, Small][1..] == [Small];
    assert [Small][1..] == [];
    assert FilterSort.SortEntries([Small], k, false) == [Small];
    assert FilterSort.Insert(Big, [Small], k, false) == [Small, Big];
    assert FilterSort.SortEntries([Big, Small], k, false) == [Small, Big];
    assert [Small, Big][1..] == [Big];
    assert FilterSort.Insert(Mid, [Big], k, false) == [Mid, Big];
    assert FilterSort.Insert(Mid, [Small, Big], k, false) == [Small, Mid, Big];
  }

  lemma SortBySizeDown()
    ensures FilterSort.SortEntries([Mid, Big, Small], FilterSort.BySize, true) == [Big, Mid, Small]
  {
    var k := FilterSort.BySize;
    assert [Mid, Big, Small][1..] == [Big, Small];
    assert [Big, Small][1..] == [Small];
    assert [Small][1..] == [];
    assert FilterSort.SortEntries([Small], k, true) == [Small];
    assert FilterSort.Insert(Big, [Small], k, true) == [Big, Small];
    assert FilterSort.SortEntries([Big, Small], k, true) == [Big, Small];
    assert FilterSort.Insert(Mid, [Small], k, true) == [Mid, Small];
    assert FilterSort.Insert(Mid, [Big, Small], k, true) == [Big, Mid, Small];
  }

  lemma SortByTimeUp()
    ensures FilterSort.SortEntries([Mid, Big, Small], FilterSort.ByTime, false) == [Mid, Big, Small]
  {
    var k := FilterSort.ByTime;
    assert [Mid, Big, Small][1..] == [Big, Small];
    assert [Big, Small][1..] == [Small];
    assert [Small][1..] == [];
    assert FilterSort.SortEntries([Small], k, false) == [Small];
    assert FilterSort.Insert(Big, [Small], k, false) == [Big, Small];
    assert FilterSort.SortEntries([Big, Small], k, false) == [Big, Small];
    assert FilterSort.Insert(Mid, [Big, Small], k, false) == [Mid, Big, Small];
  }

  /** --filter file keeps the files and sorts them by size, ascending. */
  lemma FilterFilesBySizeUp()
    ensures FilterSort.FilterSortFiles(RootMixed.contents, "file", false, "size") == Success([Small, Mid, Big])
  {
    assert FilterSort.FilterChar("file") == Some('-');
    assert FilterSort.ParseSortKey("size") == Some(FilterSort.BySize);
    AllHavePermissions();
    FilterSort.FilterSortFilesValid(RootMixed.contents, "file", false, "size", '-', FilterSort.BySize);
    KeepFiles();
    SortBySizeUp();
  }

  /** With reverse, the files come largest first. */
  lemma FilterFilesBySizeDown()
    ensures FilterSort.FilterSortFiles(RootMixed.contents, "file", true, "size") == Success([Big, Mid, Small])
  {
    assert FilterSort.FilterChar("file") == Some('-');
    assert FilterSort.ParseSortKey("size") == Some(FilterSort.BySize);
    AllHavePermissions();
    FilterSort.FilterSortFilesValid(RootMixed.contents, "file", true, "size", '-', FilterSort.BySize);
    KeepFiles();
    SortBySizeDown();
  }

  /** Sorting by time uses the modification time, not the size. */
  lemma FilterFilesByTime()
    ensures FilterSort.FilterSortFiles(RootMixed.contents, "file", false, "time") == Success([Mid, Big, Small])
  {
    assert FilterSort.FilterChar("file") == Some('-');
    assert FilterSort.ParseSortKey("time") == Some(FilterSort.ByTime);
    AllHavePermissions();
    FilterSort.FilterSortFilesValid(RootMixed.contents, "file", false, "time", '-', FilterSort.ByTime);
    KeepFiles();
    SortByTimeUp();
  }

  const RootB := Entry("root", "d---", 0, 0, [B])

  /** A filter with no matching entry prints nothing, and that is not an error. */
  lemma FilterNoMatch()
    ensures WalkLevel(RootB, Config(false, false, false, "dir", false, "size")) == Walk([], None)
  {
    var cfg := Config(false, false, false, "dir", false, "size");
    assert FilterSort.KeepKind(RootB.contents, 'd') == [];
    assert Items(RootB, cfg) == Success([]);
  }

  const Dotfile := Entry(".h", "", 0, 0, [])
  const Plain := Entry("f", "-rw-", 1, 0, [])
  const RootDot := Entry("root", "d---", 0, 0, [Dotfile, Plain])
  const RootPlain := Entry("root", "d---", 0, 0, [Plain])

  /**
   * --filter reads every child's permissions before hidden names are skipped:
   * a hidden child with no permissions makes the listing fail, while the same
   * level without it lists the file.
   */
  lemma FilterReadsHiddenPermissions()
    ensures WalkLevel(RootDot, Config(false, false, false, "file", false, "size")) == Walk([], Some(MissingPermissions))
    ensures WalkLevel(RootPlain, Config(false, false, false, "file", false, "size")) == Walk([Plain], None)
  {
    var cfg := Config(false, false, false, "file", false, "size");
    assert FilterSort.FilterChar("file") == Some('-');
    assert FilterSort.ParseSortKey("size") == Some(FilterSort.BySize);
    assert Dotfile in RootDot.contents && Dotfile.permissions == [];
    assert Items(RootDot, cfg) == Failure(MissingPermissions);
    FilterSort.FilterSortFilesValid(RootPlain.contents, "file", false, "size", '-', FilterSort.BySize);
    assert [Plain][1..] == [];
    assert FilterSort.KeepKind([Plain], '-') == [Plain];
    assert FilterSort.SortEntries([Plain], FilterSort.BySize, false) == [Plain];
    assert Items(RootPlain, cfg) == Success([Plain]);
    assert !IsHidden(Plain);
    assert WalkItems(RootPlain, [], cfg) == Walk([], None);
  }
}
