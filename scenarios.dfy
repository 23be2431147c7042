/**
 * The scenario of the repository's end-to-end system check
 * (`verify_system.py`), restated over the model.
 */
module Scenarios {
  import opened Wrappers
  import opened Ignore
  import opened Walker
  import Glob
  import Paths
  import opened Catalog
  import opened Scanner

  /** A listing of three plain files, of which only the middle one is ignored. */
  lemma WalkOfThreeFiles(n1: string, n2: string, n3: string, s1: Option<Stat>, s2: Option<Stat>, s3: Option<Stat>, patterns: seq<string>)
    requires !IsIgnored(n1, patterns) && IsIgnored(n2, patterns) && !IsIgnored(n3, patterns)
    ensures WalkRoot(Some([File(n1, s1), File(n2, s2), File(n3, s3)]), patterns) == [Found([], n1, s1), Found([], n3, s3)]
  {
    var t3 := [File(n3, s3)];
    var t2 := [File(n2, s2)] + t3;
    var t1 := [File(n1, s1)] + t2;
    assert t3[1..] == [] && t2[1..] == t3 && t1[1..] == t2;
    assert Descend([], t3, patterns) == [];
    assert Descend([], t2, patterns) == [];
    assert Descend([], t1, patterns) == [];
    assert FilesHere([], t3, patterns) == [Found([], n3, s3)];
    assert FilesHere([], t2, patterns) == [Found([], n3, s3)];
    assert FilesHere([], t1, patterns) == [Found([], n1, s1), Found([], n3, s3)];
    assert t1 == [File(n1, s1), File(n2, s2), File(n3, s3)];
  }

  /** The pattern `*.log` against the three names of the system check. */
  lemma StarLogIgnores()
    ensures !IsIgnored("file1.txt", ["*.log"])
    ensures IsIgnored("file2.log", ["*.log"])
    ensures !IsIgnored(".docignore", ["*.log"])
  {
    assert "*.log" == ['*'] + ".log";
    Glob.StarSuffix(".log", "file1.txt");
    assert "file1.txt"[5..] == ".txt";
    Glob.StarSuffix(".log", "file2.log");
    assert "file2.log"[5..] == ".log";
    Glob.StarSuffix(".log", ".docignore");
    assert ".docignore"[6..] == "nore";
  }

  /**
   * The scenario of the repository's system check: a directory holding
   * `file1.txt`, `file2.log` and a `.docignore` reading `*.log`. The walk
   * reports `file1.txt` and `.docignore`, and not `file2.log`.
   */
  lemma LogFilesAreSkipped(s1: Option<Stat>, s2: Option<Stat>, s3: Option<Stat>)
    ensures Patterns(Lines("*.log")) == ["*.log"]
    ensures WalkRoot(Some([File("file1.txt", s1), File("file2.log", s2), File(".docignore", s3)]), ["*.log"])
         == [Found([], "file1.txt", s1), Found([], ".docignore", s3)]
  {
    SingleLineIgnoreFile("*.log");
    StarLogIgnores();
    WalkOfThreeFiles("file1.txt", "file2.log", ".docignore", s1, s2, s3, ["*.log"]);
  }

  /** The `.docignore` of the system check yields the one pattern `*.log`. */
  lemma SystemCheckPatterns()
    ensures PatternsOf(Text("*.log")) == ["*.log"]
  {
    SingleLineIgnoreFile("*.log");
  }

  /** The three names of the system check are distinct single path components. */
  lemma SystemCheckNames()
    ensures Paths.PlainName("file1.txt") && Paths.PlainName("file2.log") && Paths.PlainName(".docignore")
    ensures "file1.txt" != "file2.log" && "file1.txt" != ".docignore" && "file2.log" != ".docignore"
  {
    assert "file1.txt"[4] != "file2.log"[4];
    assert "file1.txt"[0] != ".docignore"[0];
    assert "file2.log"[0] != ".docignore"[0];
  }

  /** The directory the system check creates: `file1.txt`, `file2.log` and a `.docignore`. */
  function SystemCheckTree(s1: Option<Stat>, s2: Option<Stat>, s3: Option<Stat>): (t: seq<Entry>)
    ensures WellFormed(t)
  {
    var t := [File("file1.txt", s1), File("file2.log", s2), File(".docignore", s3)];
    assert t[0].name == "file1.txt" && t[1].name == "file2.log" && t[2].name == ".docignore";
    t
  }

  /**
   * A first scan of a directory holding the files `n1`, `n2`, `n3`, of which
   * only `n2` is ignored, against a table with no row for the directory and no
   * other row holding one of its paths: it commits, the directory then has a
   * row for `n1`, and every row it has is `n1`'s or `n3`'s.
   */
  lemma FirstScanOfThreeFiles(files: map<int, FileRecord>, root: string, configId: int, firstId: int, patterns: seq<string>,
                              n1: string, n2: string, n3: string, s1: Option<Stat>, s2: Option<Stat>, s3: Option<Stat>)
    requires root != [] && s1.Some?
    requires Paths.PlainName(n1) && Paths.PlainName(n2) && Paths.PlainName(n3) && n1 != n2 && n1 != n3 && n2 != n3
    requires !IsIgnored(n1, patterns) && IsIgnored(n2, patterns) && !IsIgnored(n3, patterns)
    requires forall id :: id in files ==> files[id].directoryConfigId != configId
    requires forall id :: id in files ==> files[id].fullPath != Paths.Join(root, n1) && files[id].fullPath != Paths.Join(root, n3)
    ensures var plan := Reconcile(files, root, configId, WalkRoot(Some([File(n1, s1), File(n2, s2), File(n3, s3)]), patterns), firstId);
      var after := Apply(files, plan, firstId);
      && !Conflicts(files, plan.adds)
      && (exists id :: id in after && after[id].directoryConfigId == configId && after[id].filename == n1)
      && (forall id :: id in after && after[id].directoryConfigId == configId ==> after[id].filename == n1 || after[id].filename == n3)
  {
    var plan := Reconcile(files, root, configId, WalkRoot(Some([File(n1, s1), File(n2, s2), File(n3, s3)]), patterns), firstId);
    ThreeFilePlan(files, root, configId, firstId, patterns, n1, n2, n3, s1, s2, s3);
    FirstScanFilenames(files, plan, configId, firstId, n1, n3);
  }

  /** The plan of that scan: it commits, and it queues the first file, then the third when its stat succeeds. */
  lemma ThreeFilePlan(files: map<int, FileRecord>, root: string, configId: int, firstId: int, patterns: seq<string>,
                      n1: string, n2: string, n3: string, s1: Option<Stat>, s2: Option<Stat>, s3: Option<Stat>)
    requires root != [] && s1.Some?
    requires Paths.PlainName(n1) && Paths.PlainName(n2) && Paths.PlainName(n3) && n1 != n2 && n1 != n3 && n2 != n3
    requires !IsIgnored(n1, patterns) && IsIgnored(n2, patterns) && !IsIgnored(n3, patterns)
    requires forall id :: id in files ==> files[id].directoryConfigId != configId
    requires forall id :: id in files ==> files[id].fullPath != Paths.Join(root, n1) && files[id].fullPath != Paths.Join(root, n3)
    ensures var plan := Reconcile(files, root, configId, WalkRoot(Some([File(n1, s1), File(n2, s2), File(n3, s3)]), patterns), firstId);
      && !Conflicts(files, plan.adds)
      && plan.adds == [NewRecord(root, Found([], n1, s1), configId, firstId)]
                      + (if s3.Some? then [NewRecord(root, Found([], n3, s3), configId, firstId + 1)] else [])
  {
    var tree := [File(n1, s1), File(n2, s2), File(n3, s3)];
    assert WellFormed(tree);
    WalkOfThreeFiles(n1, n2, n3, s1, s2, s3, patterns);
    var f1, f3 := Found([], n1, s1), Found([], n3, s3);
    var found := [f1, f3];
    assert DirPath(root, []) == root;
    assert forall f :: f in found ==> FullPath(root, f) == Paths.Join(root, n1) || FullPath(root, f) == Paths.Join(root, n3);
    ScanCommits(files, root, configId, tree, patterns, firstId);
    assert ExistingPaths(files, configId) == {};
    TwoFileAdditions(root, configId, firstId, f1, f3);
  }

  /**
   * A first scan whose queue starts with a row for `a` and holds rows for `a`
   * or `b` only: afterwards the directory has a row for `a`, and every row of
   * it is for `a` or `b`.
   */
  lemma FirstScanFilenames(files: map<int, FileRecord>, plan: Plan, configId: int, firstId: int, a: string, b: string)
    requires forall id :: id in files ==> files[id].directoryConfigId != configId
    requires |plan.adds| > 0 && plan.adds[0].filename == a && plan.adds[0].directoryConfigId == configId
    requires forall k :: 0 <= k < |plan.adds| ==> plan.adds[k].filename == a || plan.adds[k].filename == b
    ensures var after := Apply(files, plan, firstId);
      && (exists id :: id in after && after[id].directoryConfigId == configId && after[id].filename == a)
      && (forall id :: id in after && after[id].directoryConfigId == configId ==> after[id].filename == a || after[id].filename == b)
  {
    FirstScanRows(files, plan, configId, firstId);
    assert Apply(files, plan, firstId)[firstId + 0] == plan.adds[0];
  }

  /** Two found files with new paths, the first with a successful stat: the first is queued, then the second when its stat succeeds. */
  lemma TwoFileAdditions(root: string, configId: int, firstId: int, f1: Found, f3: Found)
    requires f1.stat.Some?
    ensures Additions(root, [f1, f3], {}, configId, firstId)
         == [NewRecord(root, f1, configId, firstId)] + (if f3.stat.Some? then [NewRecord(root, f3, configId, firstId + 1)] else [])
  {
    AdditionsSnoc(root, [], f1, {}, configId, firstId);
    assert [] + [f1] == [f1];
    AdditionsSnoc(root, [f1], f3, {}, configId, firstId);
    assert [f1] + [f3] == [f1, f3];
  }

  /**
   * The scan the system check triggers, against a table with no row for the
   * new directory and no other row holding one of its paths: it commits, the
   * directory then has a row for `file1.txt`, and none for `file2.log`.
   */
  lemma SystemCheckScanCommits(files: map<int, FileRecord>, root: string, configId: int, firstId: int,
                               s1: Option<Stat>, s2: Option<Stat>, s3: Option<Stat>)
    requires root != [] && s1.Some?
    requires forall id :: id in files ==> files[id].directoryConfigId != configId
    requires forall id :: id in files ==>
      files[id].fullPath != Paths.Join(root, "file1.txt") && files[id].fullPath != Paths.Join(root, ".docignore")
    ensures var plan := Reconcile(files, root, configId, WalkRoot(Some(SystemCheckTree(s1, s2, s3)), PatternsOf(Text("*.log"))), firstId);
      var after := Apply(files, plan, firstId);
      && !Conflicts(files, plan.adds)
      && (exists id :: id in after && after[id].directoryConfigId == configId && after[id].filename == "file1.txt")
      && (forall id :: id in after && after[id].directoryConfigId == configId ==> after[id].filename != "file2.log")
  {
    SystemCheckPatterns();
    StarLogIgnores();
    SystemCheckNames();
    FirstScanOfThreeFiles(files, root, configId, firstId, ["*.log"], "file1.txt", "file2.log", ".docignore", s1, s2, s3);
  }

  /**
   * Steps 3 to 5 of the system check: scanning the new directory, with its
   * `.docignore` reading `*.log`, commits; afterwards the directory has a row
   * for `file1.txt` and none for `file2.log`.
   */
  method SystemCheckScan(db: Store, root: string, configId: int, s1: Option<Stat>, s2: Option<Stat>, s3: Option<Stat>)
    returns (outcome: ScanOutcome)
    requires db.Valid() && root != [] && s1.Some?
    requires forall id :: id in db.files ==> db.files[id].directoryConfigId != configId
    requires forall id :: id in db.files ==>
      db.files[id].fullPath != Paths.Join(root, "file1.txt") && db.files[id].fullPath != Paths.Join(root, ".docignore")
    modifies db
    ensures outcome == Committed
    ensures exists id :: id in db.files && db.files[id].directoryConfigId == configId && db.files[id].filename == "file1.txt"
    ensures forall id :: id in db.files && db.files[id].directoryConfigId == configId ==> db.files[id].filename != "file2.log"
  {
    SystemCheckScanCommits(db.files, root, configId, db.nextFileId, s1, s2, s3);
    outcome := ScanDirectory(root, db, configId, Text("*.log"), Some(SystemCheckTree(s1, s2, s3)));
  }
}
