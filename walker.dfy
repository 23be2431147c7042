/**
 * The pruned top-down walk of `scan_directory`: `os.walk` over the scanned
 * directory, with ignored subdirectory names removed from `dirs` before the
 * walk descends, and ignored file names skipped. Only base names are tested
 * against the patterns, never relative paths.
 */
module Walker {
  import opened Wrappers
  import opened Ignore
  import Paths

  /** What `os.stat` reports for a file: size in bytes and the two timestamps. */
  datatype Stat = Stat(size: int, ctime: int, mtime: int)

  /**
   * One entry of a directory listing, in the order the listing returns them.
   * A file whose `os.stat` would raise (a broken symlink, a file vanishing
   * mid-scan) has `stat == None`. A `ClosedDir` is a subdirectory `os.walk`
   * lists but does not enter: it cannot be read, or it is a symlink (links
   * are not followed).
   */
  datatype Entry =
    | File(name: string, stat: Option<Stat>)
    | Dir(name: string, listing: seq<Entry>)
    | ClosedDir(name: string)

  /** A file the walk reports: the names of the directories leading to it from the scan root, its name, its stat. */
  datatype Found = Found(chain: seq<string>, name: string, stat: Option<Stat>)

  /** The directory-path string `os.walk` reports as `root` for a chain of subdirectory names. */
  function DirPath(root: string, chain: seq<string>): string
  {
    if chain == [] then root else Paths.Join(DirPath(root, chain[..|chain| - 1]), chain[|chain| - 1])
  }

  /** `os.path.join(root, filename)` for a reported file: its `full_path`. */
  function FullPath(root: string, f: Found): string
  {
    Paths.Join(DirPath(root, f.chain), f.name)
  }

  /**
   * The files visited when walking a directory whose listing is `entries` and
   * which sits at `chain` below the scan root: first the non-ignored files of
   * this directory, then, subdirectory by subdirectory, everything below the
   * non-ignored ones.
   */
  function Walk(chain: seq<string>, entries: seq<Entry>, patterns: seq<string>): seq<Found>
    decreases entries, 1
  {
    FilesHere(chain, entries, patterns) + Descend(chain, entries, patterns)
  }

  /** The inner `for filename in files` loop: non-ignored files of one listing, in listing order. */
  function FilesHere(chain: seq<string>, entries: seq<Entry>, patterns: seq<string>): seq<Found>
  {
    if entries == [] then []
    else
      (match entries[0]
       case File(name, stat) => if IsIgnored(name, patterns) then [] else [Found(chain, name, stat)]
       case _ => [])
      + FilesHere(chain, entries[1..], patterns)
  }

  /** The descent into `dirs` after `dirs[:]` dropped the ignored names. */
  function Descend(chain: seq<string>, entries: seq<Entry>, patterns: seq<string>): seq<Found>
    decreases entries, 0
  {
    if entries == [] then []
    else
      (match entries[0]
       case Dir(name, listing) =>
         if IsIgnored(name, patterns) then [] else Walk(chain + [name], listing, patterns)
       case _ => [])
      + Descend(chain, entries[1..], patterns)
  }

  /** The whole walk of a scan root; `None` is a root `os.walk` cannot list (absent, not a directory, unreadable). */
  function WalkRoot(tree: Option<seq<Entry>>, patterns: seq<string>): seq<Found>
  {
    match tree
    case None => []
    case Some(entries) => Walk([], entries, patterns)
  }

  /**
   * Reference definition of what the walk should report: following the
   * directory names `rel` down from `entries`, each through a readable,
   * non-ignored subdirectory, ends at a file `name` with that stat whose
   * own name is not ignored.
   */
  ghost predicate Reaches(entries: seq<Entry>, rel: seq<string>, name: string, stat: Option<Stat>, patterns: seq<string>)
    decreases entries
  {
    if rel == [] then
      exists i :: 0 <= i < |entries| && entries[i] == File(name, stat) && !IsIgnored(name, patterns)
    else
      exists i :: 0 <= i < |entries| && ReachesVia(entries[i], rel, name, stat, patterns)
  }

  ghost predicate ReachesVia(e: Entry, rel: seq<string>, name: string, stat: Option<Stat>, patterns: seq<string>)
    requires rel != []
    decreases e
  {
    match e
    case Dir(d, listing) => d == rel[0] && !IsIgnored(d, patterns) && Reaches(listing, rel[1..], name, stat, patterns)
    case _ => false
  }

  lemma {:induction false} FilesHereMembership(chain: seq<string>, entries: seq<Entry>, patterns: seq<string>, f: Found)
    ensures f in FilesHere(chain, entries, patterns) <==> f.chain == chain && Reaches(entries, [], f.name, f.stat, patterns)
  {
    if entries != [] {
      FilesHereMembership(chain, entries[1..], patterns, f);
      if Reaches(entries[1..], [], f.name, f.stat, patterns) {
        var i :| 0 <= i < |entries[1..]| && entries[1..][i] == File(f.name, f.stat) && !IsIgnored(f.name, patterns);
        assert entries[i + 1] == File(f.name, f.stat);
      }
      if f.chain == chain && Reaches(entries, [], f.name, f.stat, patterns) {
        var i :| 0 <= i < |entries| && entries[i] == File(f.name, f.stat) && !IsIgnored(f.name, patterns);
        if i > 0 {
          assert entries[1..][i - 1] == entries[i];
        }
      }
    }
  }

  /** Reaching through a listing means reaching through its first entry or through the rest. */
  lemma ReachesUncons(entries: seq<Entry>, rel: seq<string>, name: string, stat: Option<Stat>, patterns: seq<string>)
    requires entries != [] && rel != []
    ensures Reaches(entries, rel, name, stat, patterns) <==>
      ReachesVia(entries[0], rel, name, stat, patterns) || Reaches(entries[1..], rel, name, stat, patterns)
  {
    if Reaches(entries, rel, name, stat, patterns) {
      var i :| 0 <= i < |entries| && ReachesVia(entries[i], rel, name, stat, patterns);
      if i > 0 {
        assert entries[1..][i - 1] == entries[i];
      }
    }
    if Reaches(entries[1..], rel, name, stat, patterns) {
      var i :| 0 <= i < |entries[1..]| && ReachesVia(entries[1..][i], rel, name, stat, patterns);
      assert entries[i + 1] == entries[1..][i];
    }
  }

  /** What the first entry of a listing contributes to the descent. */
  function DescendHead(chain: seq<string>, e: Entry, patterns: seq<string>): seq<Found>
  {
    match e
    case Dir(name, listing) => if IsIgnored(name, patterns) then [] else Walk(chain + [name], listing, patterns)
    case _ => []
  }

  lemma {:induction false} DescendHeadMembership(chain: seq<string>, e: Entry, patterns: seq<string>, f: Found)
    ensures f in DescendHead(chain, e, patterns) <==>
      |chain| < |f.chain| && f.chain[..|chain|] == chain && ReachesVia(e, f.chain[|chain|..], f.name, f.stat, patterns)
    decreases e, 2
  {
    match e
    case Dir(name, listing) =>
      if !IsIgnored(name, patterns) {
        WalkMembership(chain + [name], listing, patterns, f);
        if |chain| < |f.chain| {
          var rel := f.chain[|chain|..];
          assert f.chain[..|chain| + 1] == f.chain[..|chain|] + [rel[0]];
          assert rel[1..] == f.chain[|chain| + 1..];
        }
      }
    case _ =>
  }

  lemma {:induction false} DescendMembership(chain: seq<string>, entries: seq<Entry>, patterns: seq<string>, f: Found)
    ensures f in Descend(chain, entries, patterns) <==>
      |chain| < |f.chain| && f.chain[..|chain|] == chain && Reaches(entries, f.chain[|chain|..], f.name, f.stat, patterns)
    decreases entries, 0
  {
    if entries != [] {
      assert Descend(chain, entries, patterns) == DescendHead(chain, entries[0], patterns) + Descend(chain, entries[1..], patterns);
      DescendHeadMembership(chain, entries[0], patterns, f);
      DescendMembership(chain, entries[1..], patterns, f);
      if |chain| < |f.chain| {
        ReachesUncons(entries, f.chain[|chain|..], f.name, f.stat, patterns);
      }
    }
  }

  /** The walk reports exactly the files the reference definition reaches, each with the right chain. */
  lemma {:induction false} WalkMembership(chain: seq<string>, entries: seq<Entry>, patterns: seq<string>, f: Found)
    ensures f in Walk(chain, entries, patterns) <==>
      |chain| <= |f.chain| && f.chain[..|chain|] == chain && Reaches(entries, f.chain[|chain|..], f.name, f.stat, patterns)
    decreases entries, 1
  {
    FilesHereMembership(chain, entries, patterns, f);
    DescendMembership(chain, entries, patterns, f);
    if |chain| <= |f.chain| && f.chain[..|chain|] == chain && |chain| == |f.chain| {
      assert f.chain == chain;
      assert f.chain[|chain|..] == [];
    }
  }

  /** Nothing on a reached file's way is ignored: neither a directory on its chain nor its own name. */
  lemma {:induction false} ReachesNotIgnored(entries: seq<Entry>, rel: seq<string>, name: string, stat: Option<Stat>, patterns: seq<string>)
    requires Reaches(entries, rel, name, stat, patterns)
    ensures !IsIgnored(name, patterns)
    ensures forall k :: 0 <= k < |rel| ==> !IsIgnored(rel[k], patterns)
    decreases |rel|
  {
    if rel != [] {
      var i :| 0 <= i < |entries| && ReachesVia(entries[i], rel, name, stat, patterns);
      var listing := entries[i].listing;
      ReachesNotIgnored(listing, rel[1..], name, stat, patterns);
      forall k | 0 <= k < |rel| ensures !IsIgnored(rel[k], patterns) {
        if k > 0 {
          assert rel[k] == rel[1..][k - 1];
        }
      }
    }
  }

  /**
   * Pruning: no reported file lies below a subdirectory whose name is ignored,
   * and no reported file's own name is ignored.
   */
  lemma WalkSkipsIgnored(tree: Option<seq<Entry>>, patterns: seq<string>, f: Found)
    requires f in WalkRoot(tree, patterns)
    ensures !IsIgnored(f.name, patterns)
    ensures forall k :: 0 <= k < |f.chain| ==> !IsIgnored(f.chain[k], patterns)
  {
    WalkMembership([], tree.value, patterns, f);
    assert f.chain[0..] == f.chain;
    ReachesNotIgnored(tree.value, f.chain, f.name, f.stat, patterns);
  }

  /** Conversely, every file reachable without passing an ignored name is reported. */
  lemma WalkFindsReachable(entries: seq<Entry>, rel: seq<string>, name: string, stat: Option<Stat>, patterns: seq<string>)
    requires Reaches(entries, rel, name, stat, patterns)
    ensures Found(rel, name, stat) in WalkRoot(Some(entries), patterns)
  {
    WalkMembership([], entries, patterns, Found(rel, name, stat));
    assert rel[0..] == rel;
  }

  /** The ignore file itself gets no special treatment: at the root it is reported unless a pattern matches its name. */
  lemma DocignoreIsReported(entries: seq<Entry>, stat: Option<Stat>, patterns: seq<string>)
    requires File(".docignore", stat) in entries
    requires !IsIgnored(".docignore", patterns)
    ensures Found([], ".docignore", stat) in WalkRoot(Some(entries), patterns)
  {
    var i :| 0 <= i < |entries| && entries[i] == File(".docignore", stat);
    assert Reaches(entries, [], ".docignore", stat, patterns);
    WalkFindsReachable(entries, [], ".docignore", stat, patterns);
  }

  // ----- each file is reported once -----

  /**
   * A directory tree as a file system holds it: the names within one listing
   * are pairwise distinct, and each is a non-empty name without `/`.
   */
  ghost predicate WellFormed(entries: seq<Entry>)
    decreases entries
  {
    && (forall i, j :: 0 <= i < j < |entries| ==> entries[i].name != entries[j].name)
    && (forall i :: 0 <= i < |entries| ==> Paths.PlainName(entries[i].name))
    && (forall i :: 0 <= i < |entries| && entries[i].Dir? ==> WellFormed(entries[i].listing))
  }

  /** Every name of a chain is a plain name. */
  predicate PlainChain(chain: seq<string>)
  {
    forall k :: 0 <= k < |chain| ==> Paths.PlainName(chain[k])
  }

  /** No two reported files sit at the same place: the same chain and the same name. */
  predicate DistinctPlaces(s: seq<Found>)
  {
    forall i, j :: 0 <= i < j < |s| ==> s[i].chain != s[j].chain || s[i].name != s[j].name
  }

  /** No two reported files get the same `full_path`. */
  predicate DistinctPaths(root: string, found: seq<Found>)
  {
    forall i, j :: 0 <= i < j < |found| ==> FullPath(root, found[i]) != FullPath(root, found[j])
  }

  lemma WellFormedTail(entries: seq<Entry>)
    requires WellFormed(entries) && entries != []
    ensures WellFormed(entries[1..])
    ensures forall i :: 1 <= i < |entries| ==> entries[0].name != entries[i].name
  {
    var rest := entries[1..];
    assert forall i :: 0 <= i < |rest| ==> rest[i] == entries[i + 1];
  }

  /** In a well-formed tree, the way to a reached file and its name consist of plain names. */
  lemma {:induction false} ReachesPlain(entries: seq<Entry>, rel: seq<string>, name: string, stat: Option<Stat>, patterns: seq<string>)
    requires WellFormed(entries)
    requires Reaches(entries, rel, name, stat, patterns)
    ensures Paths.PlainName(name) && PlainChain(rel)
    decreases |rel|
  {
    if rel == [] {
      var i :| 0 <= i < |entries| && entries[i] == File(name, stat) && !IsIgnored(name, patterns);
      assert Paths.PlainName(entries[i].name);
    } else {
      var i :| 0 <= i < |entries| && ReachesVia(entries[i], rel, name, stat, patterns);
      assert Paths.PlainName(entries[i].name);
      ReachesPlain(entries[i].listing, rel[1..], name, stat, patterns);
      forall k | 0 <= k < |rel| ensures Paths.PlainName(rel[k]) {
        if k > 0 {
          assert rel[k] == rel[1..][k - 1];
        }
      }
    }
  }

  /** Below a non-empty root, a directory path is at least as long as the root, and a proper subdirectory's is longer and does not end in `/`. */
  lemma {:induction false} DirPathShape(root: string, chain: seq<string>)
    requires root != [] && PlainChain(chain)
    ensures |DirPath(root, chain)| >= |root| > 0
    ensures chain != [] ==> |DirPath(root, chain)| > |root| && DirPath(root, chain)[|DirPath(root, chain)| - 1] != '/'
  {
    if chain != [] {
      var init := chain[..|chain| - 1];
      DirPathShape(root, init);
      Paths.JoinPlain(DirPath(root, init), chain[|chain| - 1]);
    }
  }

  /** Different chains below a non-empty root give different directory paths, even once a `/` is appended. */
  lemma {:induction false} DirPathInjective(root: string, c1: seq<string>, c2: seq<string>)
    requires root != [] && PlainChain(c1) && PlainChain(c2)
    requires Paths.WithSlash(DirPath(root, c1)) == Paths.WithSlash(DirPath(root, c2))
    ensures c1 == c2
    decreases |c1| + |c2|
  {
    DirPathShape(root, c1);
    DirPathShape(root, c2);
    if c1 != [] && c2 != [] {
      var i1, i2 := c1[..|c1| - 1], c2[..|c2| - 1];
      DirPathShape(root, i1);
      DirPathShape(root, i2);
      Paths.JoinPlain(DirPath(root, i1), c1[|c1| - 1]);
      Paths.JoinPlain(DirPath(root, i2), c2[|c2| - 1]);
      var p1, p2 := DirPath(root, c1), DirPath(root, c2);
      assert Paths.WithSlash(p1) == p1 + "/" && Paths.WithSlash(p2) == p2 + "/";
      assert p1 == (p1 + "/")[..|p1|] && p2 == (p2 + "/")[..|p2|];
      Paths.SplitAtSlash(Paths.WithSlash(DirPath(root, i1)), c1[|c1| - 1], Paths.WithSlash(DirPath(root, i2)), c2[|c2| - 1]);
      DirPathInjective(root, i1, i2);
      assert c1 == i1 + [c1[|c1| - 1]] && c2 == i2 + [c2[|c2| - 1]];
    }
  }

  /** `os.path.join(root, filename)` tells the places of plain names apart. */
  lemma FullPathInjective(root: string, f: Found, g: Found)
    requires root != [] && PlainChain(f.chain) && PlainChain(g.chain)
    requires Paths.PlainName(f.name) && Paths.PlainName(g.name)
    requires FullPath(root, f) == FullPath(root, g)
    ensures f.chain == g.chain && f.name == g.name
  {
    DirPathShape(root, f.chain);
    DirPathShape(root, g.chain);
    Paths.JoinPlain(DirPath(root, f.chain), f.name);
    Paths.JoinPlain(DirPath(root, g.chain), g.name);
    Paths.SplitAtSlash(Paths.WithSlash(DirPath(root, f.chain)), f.name, Paths.WithSlash(DirPath(root, g.chain)), g.name);
    DirPathInjective(root, f.chain, g.chain);
  }

  lemma DistinctPlacesAppend(a: seq<Found>, b: seq<Found>)
    requires DistinctPlaces(a) && DistinctPlaces(b)
    requires forall f, g :: f in a && g in b ==> f.chain != g.chain || f.name != g.name
    ensures DistinctPlaces(a + b)
  {
    var s := a + b;
    forall i, j | 0 <= i < j < |s| ensures s[i].chain != s[j].chain || s[i].name != s[j].name {
      if j < |a| {
        assert s[i] == a[i] && s[j] == a[j];
      } else if |a| <= i {
        assert s[i] == b[i - |a|] && s[j] == b[j - |a|];
      } else {
        assert s[i] in a && s[j] in b;
      }
    }
  }

  /** The files of one listing with pairwise distinct names are reported at distinct places. */
  lemma {:induction false} FilesHereDistinct(chain: seq<string>, entries: seq<Entry>, patterns: seq<string>)
    requires WellFormed(entries)
    ensures DistinctPlaces(FilesHere(chain, entries, patterns))
  {
    if entries != [] {
      WellFormedTail(entries);
      var rest := entries[1..];
      FilesHereDistinct(chain, rest, patterns);
      var head := match entries[0]
        case File(name, stat) => if IsIgnored(name, patterns) then [] else [Found(chain, name, stat)]
        case _ => [];
      forall f, g | f in head && g in FilesHere(chain, rest, patterns) ensures f.chain != g.chain || f.name != g.name {
        FilesHereMembership(chain, rest, patterns, g);
        var i :| 0 <= i < |rest| && rest[i] == File(g.name, g.stat) && !IsIgnored(g.name, patterns);
        assert rest[i] == entries[i + 1];
      }
      DistinctPlacesAppend(head, FilesHere(chain, rest, patterns));
    }
  }

  /** The descent into the subdirectories of a well-formed listing reports each place once. */
  lemma {:induction false} DescendDistinct(chain: seq<string>, entries: seq<Entry>, patterns: seq<string>)
    requires WellFormed(entries)
    ensures DistinctPlaces(Descend(chain, entries, patterns))
    decreases entries, 0
  {
    if entries != [] {
      WellFormedTail(entries);
      var rest := entries[1..];
      var head := DescendHead(chain, entries[0], patterns);
      assert Descend(chain, entries, patterns) == head + Descend(chain, rest, patterns);
      DescendDistinct(chain, rest, patterns);
      match entries[0] {
        case Dir(name, listing) =>
          if !IsIgnored(name, patterns) {
            WalkDistinct(chain + [name], listing, patterns);
          }
        case _ =>
      }
      forall f, g | f in head && g in Descend(chain, rest, patterns) ensures f.chain != g.chain || f.name != g.name {
        DescendHeadMembership(chain, entries[0], patterns, f);
        DescendMembership(chain, rest, patterns, g);
        var i :| 0 <= i < |rest| && ReachesVia(rest[i], g.chain[|chain|..], g.name, g.stat, patterns);
        assert rest[i] == entries[i + 1];
        assert f.chain[|chain|] == entries[0].name && g.chain[|chain|] == entries[i + 1].name;
      }
      DistinctPlacesAppend(head, Descend(chain, rest, patterns));
    }
  }

  /** A well-formed tree is walked with each file reported at its own place. */
  lemma {:induction false} WalkDistinct(chain: seq<string>, entries: seq<Entry>, patterns: seq<string>)
    requires WellFormed(entries)
    ensures DistinctPlaces(Walk(chain, entries, patterns))
    decreases entries, 1
  {
    FilesHereDistinct(chain, entries, patterns);
    DescendDistinct(chain, entries, patterns);
    forall f, g | f in FilesHere(chain, entries, patterns) && g in Descend(chain, entries, patterns)
      ensures f.chain != g.chain || f.name != g.name
    {
      FilesHereMembership(chain, entries, patterns, f);
      DescendMembership(chain, entries, patterns, g);
    }
    DistinctPlacesAppend(FilesHere(chain, entries, patterns), Descend(chain, entries, patterns));
  }

  /**
   * `os.walk` without following links reports each file of a well-formed tree
   * once, so the full paths the walk yields below a non-empty root are
   * pairwise distinct.
   */
  lemma WalkPathsDistinct(root: string, entries: seq<Entry>, patterns: seq<string>)
    requires root != [] && WellFormed(entries)
    ensures DistinctPaths(root, WalkRoot(Some(entries), patterns))
  {
    var found := WalkRoot(Some(entries), patterns);
    WalkDistinct([], entries, patterns);
    forall i, j | 0 <= i < j < |found| ensures FullPath(root, found[i]) != FullPath(root, found[j]) {
      var f, g := found[i], found[j];
      WalkMembership([], entries, patterns, f);
      WalkMembership([], entries, patterns, g);
      assert f.chain[0..] == f.chain && g.chain[0..] == g.chain;
      ReachesPlain(entries, f.chain, f.name, f.stat, patterns);
      ReachesPlain(entries, g.chain, g.name, g.stat, patterns);
      if FullPath(root, f) == FullPath(root, g) {
        FullPathInjective(root, f, g);
      }
    }
  }
}
