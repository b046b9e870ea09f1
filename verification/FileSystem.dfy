/**
 * The repository file rules: the local name a clone URL gets, the filter that
 * picks the files to index, and the repository map (one line per file, with an
 * ignored marker) that becomes the synthetic structure document.
 *
 * A working copy is an abstract directory tree in place of the real file
 * system; `os.walk` visits it top-down, a directory's own files first and then
 * each remaining subdirectory in listing order, which the recursive walk
 * methods below do directly.
 */
module FileSystem {
  import opened Wrappers
  import opened PyStr
  import opened Config

  /** A path as its components, e.g. ["src", "main.py"]. */
  type Path = seq<string>

  /** `Path.as_posix()` / `str(path)`. */
  function JoinPath(p: Path): string {
    Join(p, "/")
  }

  // ---------------------------------------------------------------------------
  // clone_repo

  /** The repository name: the last '/'-separated segment of the URL, one trailing ".git" removed. */
  function RepoName(url: string): (name: string)
    ensures '/' !in name
    ensures EndsWith(url, name) || EndsWith(url, name + ".git")
  {
    var last := AfterLast(url, '/');
    if EndsWith(last, ".git") then
      assert last == last[..|last| - 4] + ".git";
      last[..|last| - 4]
    else last
  }

  /**
   * Naming round trip: a URL `base/x.git` or `base/x` (x without a trailing
   * ".git") names the repository `x`. With x = "y.git" the first form shows
   * that only one ".git" is removed: "base/y.git.git" names "y.git".
   */
  lemma RepoNameOfUrl(base: string, x: string)
    requires '/' !in x
    ensures RepoName(base + "/" + x + ".git") == x
    ensures !EndsWith(x, ".git") ==> RepoName(base + "/" + x) == x
  {
    assert base + "/" + x + ".git" == base + ['/'] + (x + ".git");
    AfterLastAppend(base, '/', x + ".git");
    var withGit := x + ".git";
    assert withGit[..|withGit| - 4] == x;
    assert base + "/" + x == base + ['/'] + x;
    AfterLastAppend(base, '/', x);
  }

  /** Where a clone lives: `REPO_DIR / name`; pathlib drops an empty or "." segment. */
  datatype RepoPath = RepoRoot | RepoDir(name: string)

  function LocalPath(name: string): (p: RepoPath)
    ensures p.RepoDir? <==> name != "" && name != "."
  {
    if name == "" || name == "." then RepoRoot else RepoDir(name)
  }

  /** `path.name`. */
  function PathName(p: RepoPath): string {
    match p
    case RepoRoot => REPO_DIR[|REPO_DIR| - 1]
    case RepoDir(n) => n
  }

  /** The components of the path, below the base directory. */
  function PathComponents(p: RepoPath): Path {
    match p
    case RepoRoot => REPO_DIR
    case RepoDir(n) => REPO_DIR + [n]
  }

  /**
   * The name `ingest_repo` takes from the cloned path is the derived repository
   * name, except when the derived name is empty or "." (as for a URL ending in
   * "/.git"): that path is the repositories directory itself, named "repos".
   */
  lemma LocalPathName(url: string)
    ensures var n := RepoName(url);
            PathName(LocalPath(n)) == if n == "" || n == "." then "repos" else n
  {
  }

  datatype Cloned = Cloned(path: RepoPath, cloned: bool)

  datatype CloneError = CloneFailed(url: string)

  /** Whether `path.exists()`, given the names present in the repositories directory. */
  predicate PathExists(p: RepoPath, present: set<string>) {
    p.RepoDir? ==> p.name in present
  }

  /**
   * `clone_repo(url)`. `present` lists the entries of the repositories
   * directory (which itself exists) and `gitSucceeds` is the outcome of the
   * `git clone` subprocess, which is only consulted when the path is missing.
   */
  function CloneRepo(url: string, present: set<string>, gitSucceeds: bool): (r: Result<Cloned, CloneError>)
    ensures r.Success? ==> r.value.path == LocalPath(RepoName(url))
    ensures PathExists(LocalPath(RepoName(url)), present) ==> r.Success? && !r.value.cloned
    ensures !PathExists(LocalPath(RepoName(url)), present) ==>
              (r.Success? <==> gitSucceeds) && (r.Success? ==> r.value.cloned)
    ensures r.Failure? ==> r.error == CloneFailed(url)
  {
    var localPath := LocalPath(RepoName(url));
    if PathExists(localPath, present) then Success(Cloned(localPath, false))
    else if gitSucceeds then Success(Cloned(localPath, true))
    else Failure(CloneFailed(url))
  }

  // ---------------------------------------------------------------------------
  // Directory trees

  /** A directory: its files and its subdirectories, each in listing order. */
  datatype Tree = Tree(files: seq<string>, dirs: seq<Subdir>)
  datatype Subdir = Subdir(name: string, tree: Tree)

  /** `p` names a file of `t`, relative to `t`. */
  predicate InTree(t: Tree, p: Path)
    decreases t
  {
    || (|p| == 1 && p[0] in t.files)
    || (|p| > 1 && exists i :: 0 <= i < |t.dirs| && t.dirs[i].name == p[0] && InTree(t.dirs[i].tree, p[1..]))
  }

  /** What any real directory satisfies: names are non-empty, hold no '/', and subdirectory names are distinct. */
  predicate WellFormed(t: Tree)
    decreases t
  {
    && (forall f :: f in t.files ==> f != "" && '/' !in f)
    && (forall i :: 0 <= i < |t.dirs| ==> t.dirs[i].name != "" && '/' !in t.dirs[i].name)
    && (forall i, j :: 0 <= i < j < |t.dirs| ==> t.dirs[i].name != t.dirs[j].name)
    && (forall i :: 0 <= i < |t.dirs| ==> WellFormed(t.dirs[i].tree))
  }

  // ---------------------------------------------------------------------------
  // get_source_files

  /** The per-file test: not hidden, and the lowercased `splitext` extension not ignored. */
  predicate IsSourceFile(name: string) {
    !IsHidden(name) && Lower(SplitExt(name)) !in IGNORED_EXTENSIONS
  }

  /** `dirs[:] = [d for d in dirs if not d.startswith(".")]`. */
  function PruneHidden(ds: seq<Subdir>): (r: seq<Subdir>)
    ensures forall k :: 0 <= k < |r| ==> r[k] in ds && !IsHidden(r[k].name)
  {
    if ds == [] then []
    else PruneHidden(ds[..|ds| - 1]) + (if IsHidden(ds[|ds| - 1].name) then [] else [ds[|ds| - 1]])
  }

  /** The source files among `files`, as paths below `root`, in order. */
  function SourceFilesOf(root: Path, files: seq<string>): seq<Path> {
    if files == [] then []
    else
      var f := files[|files| - 1];
      SourceFilesOf(root, files[..|files| - 1]) + (if IsSourceFile(f) then [root + [f]] else [])
  }

  /** What `get_source_files(root)` returns for the tree `t` at `root`, in walk order. */
  function SourceFiles(root: Path, t: Tree): (r: seq<Path>)
    decreases t
  {
    SourceFilesOf(root, t.files) + SourceFilesUnder(root, t.dirs)
  }

  /** The walk continued into each subdirectory of `ds` that is not hidden, in order. */
  function SourceFilesUnder(root: Path, ds: seq<Subdir>): (r: seq<Path>)
    decreases ds
  {
    if ds == [] then []
    else
      var d := ds[|ds| - 1];
      SourceFilesUnder(root, ds[..|ds| - 1]) + (if IsHidden(d.name) then [] else SourceFiles(root + [d.name], d.tree))
  }

  /** Pruning the hidden subdirectories first does not change the walk. */
  lemma {:induction false} SourceFilesUnderPruned(root: Path, ds: seq<Subdir>)
    ensures SourceFilesUnder(root, PruneHidden(ds)) == SourceFilesUnder(root, ds)
  {
    if ds != [] {
      var init, d := ds[..|ds| - 1], ds[|ds| - 1];
      SourceFilesUnderPruned(root, init);
      if IsHidden(d.name) {
        assert PruneHidden(ds) == PruneHidden(init);
        assert SourceFilesUnder(root, ds) == SourceFilesUnder(root, init);
      } else {
        var pr := PruneHidden(init) + [d];
        assert PruneHidden(ds) == pr;
        assert pr[..|pr| - 1] == PruneHidden(init);
      }
    }
  }

  lemma SourceFilesOfStep(root: Path, files: seq<string>, i: int)
    requires 0 <= i < |files|
    ensures SourceFilesOf(root, files[..i + 1]) ==
            SourceFilesOf(root, files[..i]) + (if IsSourceFile(files[i]) then [root + [files[i]]] else [])
  {
    assert files[..i + 1][..i] == files[..i];
  }

  lemma SourceFilesUnderStep(root: Path, ds: seq<Subdir>, j: int)
    requires 0 <= j < |ds| && !IsHidden(ds[j].name)
    ensures SourceFilesUnder(root, ds[..j + 1]) ==
            SourceFilesUnder(root, ds[..j]) + SourceFiles(root + [ds[j].name], ds[j].tree)
  {
    assert ds[..j + 1][..j] == ds[..j];
  }

  lemma WalkStep(root: Path, top: seq<Path>, ds: seq<Subdir>, j: int, found: seq<Path>, below: seq<Path>)
    requires 0 <= j < |ds| && !IsHidden(ds[j].name)
    requires found == top + SourceFilesUnder(root, ds[..j])
    requires below == SourceFiles(root + [ds[j].name], ds[j].tree)
    ensures found + below == top + SourceFilesUnder(root, ds[..j + 1])
  {
    SourceFilesUnderStep(root, ds, j);
    AppendAssociative(top, SourceFilesUnder(root, ds[..j]), below);
  }

  /**
   * `get_source_files(directory)`, on the tree `t` found at `directory`: walks
   * the tree top-down, pruning hidden subdirectories before descending, and
   * keeps each file that is not hidden and whose lowercased extension is not
   * ignored.
   */
  method GetSourceFiles(directory: Path, t: Tree) returns (sourceFiles: seq<Path>)
    ensures sourceFiles == SourceFiles(directory, t)
    decreases t
  {
    sourceFiles := [];
    for i := 0 to |t.files|
      invariant sourceFiles == SourceFilesOf(directory, t.files[..i])
    {
      var file := t.files[i];
      SourceFilesOfStep(directory, t.files, i);
      if IsHidden(file) {
        continue;
      }
      var ext := Lower(SplitExt(file));
      if ext in IGNORED_EXTENSIONS {
        continue;
      }
      sourceFiles := sourceFiles + [directory + [file]];
    }
    assert t.files[..|t.files|] == t.files;
    var dirs := PruneHidden(t.dirs);
    ghost var top := SourceFilesOf(directory, t.files);
    assert top + SourceFilesUnder(directory, dirs[..0]) == top by {
      assert dirs[..0] == [];
    }
    for j := 0 to |dirs|
      invariant sourceFiles == top + SourceFilesUnder(directory, dirs[..j])
    {
      assert dirs[j] in t.dirs;
      var below := GetSourceFiles(directory + [dirs[j].name], dirs[j].tree);
      WalkStep(directory, top, dirs, j, sourceFiles, below);
      sourceFiles := sourceFiles + below;
    }
    assert dirs[..|dirs|] == dirs;
    SourceFilesUnderPruned(directory, t.dirs);
  }

  /**
   * The three conditions on a file path relative to the walk root: the file
   * name is not hidden and its extension is not ignored, and no directory on
   * the way down to it is hidden.
   */
  predicate Eligible(q: Path) {
    |q| >= 1 && IsSourceFile(q[|q| - 1]) && forall k :: 0 <= k < |q| - 1 ==> !IsHidden(q[k])
  }

  lemma EligibleStep(q: Path)
    requires |q| > 1
    ensures Eligible(q) <==> !IsHidden(q[0]) && Eligible(q[1..])
  {
    if !IsHidden(q[0]) && Eligible(q[1..]) {
      forall k | 0 <= k < |q| - 1 ensures !IsHidden(q[k]) {
        if k > 0 { assert q[k] == q[1..][k - 1]; }
      }
    }
  }

  lemma {:induction false} SourceFilesOfMembers(root: Path, files: seq<string>, q: Path)
    ensures root + q in SourceFilesOf(root, files) <==> |q| == 1 && q[0] in files && IsSourceFile(q[0])
  {
    if files != [] {
      var init, f := files[..|files| - 1], files[|files| - 1];
      SourceFilesOfMembers(root, init, q);
      assert files == init + [f];
      assert root + q == root + [f] <==> q == [f] by {
        if root + q == root + [f] {
          assert q == (root + q)[|root|..];
        }
      }
    }
  }

  /** Walking into one subdirectory `ds[i]`, so that the quantifier below has a name to hang on. */
  predicate FoundUnder(root: Path, ds: seq<Subdir>, i: int, p: Path)
    requires 0 <= i < |ds|
  {
    !IsHidden(ds[i].name) && p in SourceFiles(root + [ds[i].name], ds[i].tree)
  }

  lemma {:induction false} SourceFilesUnderMembers(root: Path, ds: seq<Subdir>, p: Path)
    ensures p in SourceFilesUnder(root, ds) <==> exists i :: 0 <= i < |ds| && FoundUnder(root, ds, i, p)
  {
    if ds != [] {
      var init, d := ds[..|ds| - 1], ds[|ds| - 1];
      SourceFilesUnderMembers(root, init, p);
      var last := if IsHidden(d.name) then [] else SourceFiles(root + [d.name], d.tree);
      assert SourceFilesUnder(root, ds) == SourceFilesUnder(root, init) + last;
      if p in SourceFilesUnder(root, init) {
        var i :| 0 <= i < |init| && FoundUnder(root, init, i, p);
        assert init[i] == ds[i];
        assert FoundUnder(root, ds, i, p);
      } else if p in last {
        assert FoundUnder(root, ds, |ds| - 1, p);
      } else {
        forall i | 0 <= i < |ds| ensures !FoundUnder(root, ds, i, p) {
          if i < |init| {
            assert init[i] == ds[i];
            assert !FoundUnder(root, init, i, p);
          }
        }
      }
    }
  }

  lemma {:induction false} SourceFilesOfBelow(root: Path, files: seq<string>, p: Path)
    requires p in SourceFilesOf(root, files)
    ensures |p| == |root| + 1 && p[..|root|] == root
  {
    var init, f := files[..|files| - 1], files[|files| - 1];
    if p in SourceFilesOf(root, init) {
      SourceFilesOfBelow(root, init, p);
    } else {
      assert p == root + [f];
    }
  }

  /** Every path `get_source_files` returns lies strictly below its root. */
  lemma {:induction false} SourceFilesBelow(root: Path, t: Tree, p: Path)
    requires p in SourceFiles(root, t)
    ensures |p| > |root| && p[..|root|] == root
    decreases t
  {
    if p in SourceFilesOf(root, t.files) {
      SourceFilesOfBelow(root, t.files, p);
    } else {
      SourceFilesUnderMembers(root, t.dirs, p);
      var i :| 0 <= i < |t.dirs| && FoundUnder(root, t.dirs, i, p);
      var below := root + [t.dirs[i].name];
      SourceFilesBelow(below, t.dirs[i].tree, p);
      assert p[..|root|] == p[..|below|][..|root|];
    }
  }

  /**
   * `get_source_files` is exact: below its root it returns the path of a file
   * of the tree if and only if that file meets the three conditions of
   * `Eligible` (and, by the contract of `SourceFiles`, nothing that is not
   * below the root).
   */
  lemma {:induction false} SourceFilesExact(root: Path, t: Tree, q: Path)
    ensures root + q in SourceFiles(root, t) <==> InTree(t, q) && Eligible(q)
    decreases t
  {
    var p := root + q;
    SourceFilesOfMembers(root, t.files, q);
    SourceFilesUnderMembers(root, t.dirs, p);
    if |q| > 1 {
      EligibleStep(q);
      var rest := q[1..];
      assert p == (root + [q[0]]) + rest;
      forall i | 0 <= i < |t.dirs|
        ensures FoundUnder(root, t.dirs, i, p) <==>
                t.dirs[i].name == q[0] && !IsHidden(q[0]) && InTree(t.dirs[i].tree, rest) && Eligible(rest)
      {
        var n := t.dirs[i].name;
        if p in SourceFiles(root + [n], t.dirs[i].tree) {
          SourceFilesBelow(root + [n], t.dirs[i].tree, p);
          PathBelowChild(root, n, q);
        }
        if n == q[0] {
          SourceFilesExact(root + [n], t.dirs[i].tree, rest);
        }
      }
    } else {
      forall i | 0 <= i < |t.dirs| ensures !FoundUnder(root, t.dirs, i, p) {
        if p in SourceFiles(root + [t.dirs[i].name], t.dirs[i].tree) {
          SourceFilesBelow(root + [t.dirs[i].name], t.dirs[i].tree, p);
          assert false;
        }
      }
    }
  }

  // ---------------------------------------------------------------------------
  // generate_repo_map

  /** `if ".git" in dirs: dirs.remove(".git")`: only the first such entry goes. */
  function RemoveGitDir(ds: seq<Subdir>): (r: seq<Subdir>)
    ensures forall d :: d in r ==> d in ds
    ensures forall d :: d in ds && d.name != ".git" ==> d in r
  {
    if ds == [] then []
    else if ds[0].name == ".git" then ds[1..]
    else [ds[0]] + RemoveGitDir(ds[1..])
  }

  /** With at most one ".git" entry, removing the first removes them all. */
  lemma {:induction false} RemoveGitDirExact(ds: seq<Subdir>, d: Subdir)
    requires forall i, j :: 0 <= i < j < |ds| ==> ds[i].name != ds[j].name
    ensures d in RemoveGitDir(ds) <==> d in ds && d.name != ".git"
  {
    if ds != [] {
      if ds[0].name == ".git" {
        if d in ds[1..] {
          var k :| 0 <= k < |ds[1..]| && ds[1..][k] == d;
          assert ds[k + 1] == d;
        }
      } else {
        RemoveGitDirExact(ds[1..], d);
      }
    }
  }

  /** `f.startswith(".") or Path(f).suffix.lower() in IGNORED_EXTENSIONS`. */
  predicate MarkedIgnored(name: string) {
    IsHidden(name) || Lower(Suffix(name)) in IGNORED_EXTENSIONS
  }

  /** The map line of a relative file path, with " [IGN]" for an ignored file. */
  function MapLine(p: Path): string {
    if p == [] then "" else JoinPath(p) + (if MarkedIgnored(p[|p| - 1]) then " [IGN]" else "")
  }

  /** Every file of `files`, as a path below `rel`, in order. */
  function MapPathsOf(rel: Path, files: seq<string>): (r: seq<Path>)
    ensures |r| == |files|
    ensures forall k :: 0 <= k < |r| ==> r[k] == rel + [files[k]]
  {
    if files == [] then []
    else MapPathsOf(rel, files[..|files| - 1]) + [rel + [files[|files| - 1]]]
  }

  /** The files `generate_repo_map` lists for the tree `t` at `rel`, in walk order. */
  function MapPaths(rel: Path, t: Tree): (r: seq<Path>)
    decreases t
  {
    MapPathsOf(rel, t.files) + MapPathsUnder(rel, t.dirs, true)
  }

  /**
   * The walk continued into the subdirectories `ds`, in order; while
   * `dropGit` holds, the first one named ".git" is left out.
   */
  function MapPathsUnder(rel: Path, ds: seq<Subdir>, dropGit: bool): (r: seq<Path>)
    decreases ds
  {
    if ds == [] then []
    else if dropGit && ds[0].name == ".git" then MapPathsUnder(rel, ds[1..], false)
    else MapPaths(rel + [ds[0].name], ds[0].tree) + MapPathsUnder(rel, ds[1..], dropGit)
  }

  lemma {:induction false} MapPathsUnderAppend(rel: Path, ds: seq<Subdir>, d: Subdir)
    ensures MapPathsUnder(rel, ds + [d], false) == MapPathsUnder(rel, ds, false) + MapPaths(rel + [d.name], d.tree)
  {
    if ds != [] {
      assert (ds + [d])[1..] == ds[1..] + [d];
      MapPathsUnderAppend(rel, ds[1..], d);
    }
  }

  /** Removing the first ".git" entry and then walking is the walk that skips it. */
  lemma {:induction false} MapPathsUnderRemoved(rel: Path, ds: seq<Subdir>)
    ensures MapPathsUnder(rel, RemoveGitDir(ds), false) == MapPathsUnder(rel, ds, true)
  {
    if ds != [] && ds[0].name != ".git" {
      MapPathsUnderRemoved(rel, ds[1..]);
    }
  }

  lemma {:induction false} MapPathsOfMembers(rel: Path, files: seq<string>, q: Path)
    ensures rel + q in MapPathsOf(rel, files) <==> |q| == 1 && q[0] in files
  {
    var r := MapPathsOf(rel, files);
    if rel + q in r {
      var k :| 0 <= k < |r| && r[k] == rel + q;
      assert q == (rel + q)[|rel|..] == [files[k]];
    }
    if |q| == 1 && q[0] in files {
      var k :| 0 <= k < |files| && files[k] == q[0];
      assert r[k] == rel + q;
    }
  }

  lemma {:induction false} MapPathsOfBelow(rel: Path, files: seq<string>, p: Path)
    requires p in MapPathsOf(rel, files)
    ensures |p| == |rel| + 1 && p[..|rel|] == rel
  {
    var r := MapPathsOf(rel, files);
    var k :| 0 <= k < |r| && r[k] == p;
  }

  /** Walking into the subdirectory `d` of the directory at `rel` lists `p`. */
  predicate FoundInMap(rel: Path, d: Subdir, p: Path) {
    p in MapPaths(rel + [d.name], d.tree)
  }

  lemma {:induction false} MapPathsUnderMembers(rel: Path, ds: seq<Subdir>, p: Path)
    ensures p in MapPathsUnder(rel, ds, false) <==> exists d :: d in ds && FoundInMap(rel, d, p)
  {
    if ds != [] {
      MapPathsUnderMembers(rel, ds[1..], p);
      assert ds == [ds[0]] + ds[1..];
      if p in MapPathsUnder(rel, ds, false) && !FoundInMap(rel, ds[0], p) {
        var d :| d in ds[1..] && FoundInMap(rel, d, p);
        assert d in ds;
      }
    }
  }

  lemma {:induction false} MapPathsBelow(rel: Path, t: Tree, p: Path)
    requires p in MapPaths(rel, t)
    ensures |p| > |rel| && p[..|rel|] == rel
    decreases t
  {
    if p in MapPathsOf(rel, t.files) {
      MapPathsOfBelow(rel, t.files, p);
    } else {
      MapPathsUnderRemoved(rel, t.dirs);
      MapPathsUnderMembers(rel, RemoveGitDir(t.dirs), p);
      var d :| d in RemoveGitDir(t.dirs) && FoundInMap(rel, d, p);
      var below := rel + [d.name];
      MapPathsBelow(below, d.tree, p);
      assert p[..|rel|] == p[..|below|][..|rel|];
    }
  }

  /** A path strictly below the child `n` of `rel` is `rel`, then `n`, then the rest. */
  lemma PathBelowChild(rel: Path, n: string, q: Path)
    requires |rel + q| > |rel| + 1 && (rel + q)[..|rel| + 1] == rel + [n]
    ensures |q| > 1 && q[0] == n && rel + q == (rel + [n]) + q[1..]
  {
    var p := rel + q;
    assert p[|rel|] == q[0];
    assert p[..|rel| + 1][|rel|] == n;
  }

  /** No directory on the way down to the file is named ".git". */
  predicate OutsideGit(q: Path) {
    forall k :: 0 <= k < |q| - 1 ==> q[k] != ".git"
  }

  lemma OutsideGitStep(q: Path)
    requires |q| > 1
    ensures OutsideGit(q) <==> q[0] != ".git" && OutsideGit(q[1..])
  {
    if q[0] != ".git" && OutsideGit(q[1..]) {
      forall k | 0 <= k < |q| - 1 ensures q[k] != ".git" {
        if k > 0 { assert q[k] == q[1..][k - 1]; }
      }
    }
  }

  /** Every file whose path has no ".git" directory is listed in the repository map. */
  lemma {:induction false} MapPathsComplete(rel: Path, t: Tree, q: Path)
    requires InTree(t, q) && OutsideGit(q)
    ensures rel + q in MapPaths(rel, t)
    decreases t
  {
    var p := rel + q;
    if |q| == 1 {
      MapPathsOfMembers(rel, t.files, q);
    } else {
      OutsideGitStep(q);
      var rest := q[1..];
      var i :| 0 <= i < |t.dirs| && t.dirs[i].name == q[0] && InTree(t.dirs[i].tree, rest);
      var d := t.dirs[i];
      MapPathsComplete(rel + [d.name], d.tree, rest);
      assert p == (rel + [q[0]]) + rest;
      var kept := RemoveGitDir(t.dirs);
      assert d in kept;
      MapPathsUnderMembers(rel, kept, p);
      MapPathsUnderRemoved(rel, t.dirs);
    }
  }

  /**
   * Everything the repository map lists below its root is a file of the tree
   * with no ".git" directory on its path; real directory listings hold at most
   * one ".git" entry, which the walk removes at every level.
   */
  lemma {:induction false} MapPathsSound(rel: Path, t: Tree, q: Path)
    requires WellFormed(t)
    requires rel + q in MapPaths(rel, t)
    ensures InTree(t, q) && OutsideGit(q)
    decreases t
  {
    var p := rel + q;
    MapPathsOfMembers(rel, t.files, q);
    if p !in MapPathsOf(rel, t.files) {
      var kept := RemoveGitDir(t.dirs);
      MapPathsUnderRemoved(rel, t.dirs);
      MapPathsUnderMembers(rel, kept, p);
      var d :| d in kept && FoundInMap(rel, d, p);
      RemoveGitDirExact(t.dirs, d);
      var i :| 0 <= i < |t.dirs| && t.dirs[i] == d;
      MapPathsBelow(rel + [d.name], d.tree, p);
      PathBelowChild(rel, d.name, q);
      var rest := q[1..];
      MapPathsSound(rel + [d.name], d.tree, rest);
      assert InTree(t, q) by {
        assert t.dirs[i].name == q[0] && InTree(t.dirs[i].tree, rest);
      }
      OutsideGitStep(q);
    }
  }

  /** The file name at the end of a path into a well-formed tree is a plain name. */
  lemma {:induction false} InTreeName(t: Tree, q: Path)
    requires WellFormed(t) && InTree(t, q)
    ensures '/' !in q[|q| - 1]
    decreases t
  {
    if |q| > 1 {
      var i :| 0 <= i < |t.dirs| && t.dirs[i].name == q[0] && InTree(t.dirs[i].tree, q[1..]);
      InTreeName(t.dirs[i].tree, q[1..]);
    }
  }

  /**
   * The map's " [IGN]" marker and the indexing filter agree on every file
   * name: `Path.suffix` and `splitext` differ only on a trailing '.', and
   * neither "" nor "." is an ignored extension.
   */
  lemma MarkerMatchesFilter(f: string)
    requires '/' !in f
    ensures MarkedIgnored(f) <==> !IsSourceFile(f)
  {
    if !IsHidden(f) {
      SuffixAgreesWithSplitExt(f);
      assert Lower("") == "";
      assert Lower(".") == ".";
    }
  }

  /**
   * The files `get_source_files` returns are exactly the files the repository
   * map lists without the " [IGN]" marker and outside every hidden directory.
   */
  lemma SourceFilesAreUnmarkedMapEntries(root: Path, t: Tree, q: Path)
    requires WellFormed(t)
    ensures root + q in SourceFiles(root, t) <==>
            && root + q in MapPaths(root, t)
            && |q| > 0 && !MarkedIgnored(q[|q| - 1])
            && forall k :: 0 <= k < |q| - 1 ==> !IsHidden(q[k])
  {
    SourceFilesExact(root, t, q);
    if root + q in MapPaths(root, t) {
      MapPathsSound(root, t, q);
    }
    if InTree(t, q) {
      InTreeName(t, q);
      MarkerMatchesFilter(q[|q| - 1]);
      if forall k :: 0 <= k < |q| - 1 ==> !IsHidden(q[k]) {
        assert OutsideGit(q);
        MapPathsComplete(root, t, q);
      }
    }
  }

  /** A one-file example: ".github/ci.yml". */
  function GithubWorkflowTree(): Tree {
    Tree([], [Subdir(".github", Tree(["ci.yml"], []))])
  }

  /** A file under ".github" is listed in the repository map, unmarked... */
  lemma HiddenDirectoryListed()
    ensures Lines(MapPaths([], GithubWorkflowTree())) == [".github/ci.yml"]
  {
    var p: Path := [".github", "ci.yml"];
    GithubWorkflowPaths();
    GithubWorkflowLine();
    assert [p][..0] == [];
  }

  lemma GithubWorkflowLine()
    ensures MapLine([".github", "ci.yml"]) == ".github/ci.yml"
  {
    var p: Path := [".github", "ci.yml"];
    CiYmlNotMarked();
    assert p[1..] == ["ci.yml"];
    assert JoinPath(p) == ".github" + "/" + "ci.yml";
    GithubWorkflowText();
  }

  lemma GithubWorkflowText()
    ensures ".github" + "/" + "ci.yml" == ".github/ci.yml"
  {
  }

  lemma GithubWorkflowPaths()
    ensures MapPaths([], GithubWorkflowTree()) == [[".github", "ci.yml"]]
  {
    var t := GithubWorkflowTree();
    var inner := Tree(["ci.yml"], []);
    var p: Path := [".github", "ci.yml"];
    assert [".github"] + ["ci.yml"] == p;
    assert MapPathsOf([".github"], ["ci.yml"]) == [p];
    assert MapPaths([".github"], inner) == [p];
    var rel: Path := [];
    assert rel + [".github"] == [".github"] && t.dirs[1..] == [];
    assert MapPathsUnder(rel, t.dirs, true) == [p] + MapPathsUnder(rel, [], true);
  }

  /** ...but is not indexed: the walk prunes every hidden directory. */
  lemma HiddenDirectoryNotIndexed()
    ensures SourceFiles([], GithubWorkflowTree()) == []
  {
    var t := GithubWorkflowTree();
    assert t.dirs[..0] == [];
  }

  lemma CiYmlNotMarked()
    ensures !MarkedIgnored("ci.yml")
  {
    assert RFind("ci.yml", '.') == 2 by {
      assert "ci.yml"[..5] == "ci.ym" && "ci.ym"[..4] == "ci.y" && "ci.y"[..3] == "ci.";
    }
    assert Suffix("ci.yml") == ".yml";
    assert Lower(".yml") == ".yml" by {
      assert ".yml"[1..] == "yml" && "yml"[1..] == "ml" && "ml"[1..] == "l" && "l"[1..] == "";
    }
  }

  /** The map lines of the paths `ps`, in order. */
  function Lines(ps: seq<Path>): (r: seq<string>)
    ensures |r| == |ps|
  {
    if ps == [] then [] else Lines(ps[..|ps| - 1]) + [MapLine(ps[|ps| - 1])]
  }

  lemma {:induction false} LinesAt(ps: seq<Path>, k: int)
    requires 0 <= k < |ps|
    ensures Lines(ps)[k] == MapLine(ps[k])
  {
    if k < |ps| - 1 {
      LinesAt(ps[..|ps| - 1], k);
    }
  }

  lemma {:induction false} LinesAppend(a: seq<Path>, b: seq<Path>)
    ensures Lines(a + b) == Lines(a) + Lines(b)
    decreases |b|
  {
    if b == [] {
      assert a + b == a;
    } else {
      LinesAppend(a, b[..|b| - 1]);
      assert (a + b)[..|a + b| - 1] == a + b[..|b| - 1];
    }
  }

  lemma MapPathsOfStep(rel: Path, files: seq<string>, i: int)
    requires 0 <= i < |files|
    ensures MapPathsOf(rel, files[..i + 1]) == MapPathsOf(rel, files[..i]) + [rel + [files[i]]]
  {
    assert files[..i + 1][..i] == files[..i];
  }

  lemma MapPathsUnderStep(rel: Path, ds: seq<Subdir>, j: int)
    requires 0 <= j < |ds|
    ensures MapPathsUnder(rel, ds[..j + 1], false) == MapPathsUnder(rel, ds[..j], false) + MapPaths(rel + [ds[j].name], ds[j].tree)
  {
    assert ds[..j + 1] == ds[..j] + [ds[j]];
    MapPathsUnderAppend(rel, ds[..j], ds[j]);
  }

  /** The lines for the files of one directory of the walk, at `rel`, in order. */
  method FileLines(rel: Path, files: seq<string>) returns (lines: seq<string>)
    ensures lines == Lines(MapPathsOf(rel, files))
  {
    lines := [];
    for i := 0 to |files|
      invariant lines == Lines(MapPathsOf(rel, files[..i]))
    {
      var f := files[i];
      var relPath := rel + [f];
      var ext := Lower(Suffix(f));
      var marker := "";
      if IsHidden(f) || ext in IGNORED_EXTENSIONS {
        marker := " [IGN]";
      }
      assert MapLine(relPath) == JoinPath(relPath) + marker by {
        assert relPath[|relPath| - 1] == f;
      }
      MapPathsOfStep(rel, files, i);
      LinesAppend(MapPathsOf(rel, files[..i]), [relPath]);
      lines := lines + [JoinPath(relPath) + marker];
    }
    assert files[..|files|] == files;
  }

  lemma CollectStep(rel: Path, top: seq<Path>, ds: seq<Subdir>, j: int, lines: seq<string>, below: seq<string>)
    requires 0 <= j < |ds|
    requires lines == Lines(top + MapPathsUnder(rel, ds[..j], false))
    requires below == Lines(MapPaths(rel + [ds[j].name], ds[j].tree))
    ensures lines + below == Lines(top + MapPathsUnder(rel, ds[..j + 1], false))
  {
    var done, next := MapPathsUnder(rel, ds[..j], false), MapPaths(rel + [ds[j].name], ds[j].tree);
    MapPathsUnderStep(rel, ds, j);
    AppendAssociative(top, done, next);
    LinesAppend(top + done, next);
  }

  lemma AppendAssociative<T>(a: seq<T>, b: seq<T>, c: seq<T>)
    ensures a + (b + c) == (a + b) + c
  {
  }

  /** The walk of `generate_repo_map`, from the directory at `rel` below the root. */
  method CollectMapLines(rel: Path, t: Tree) returns (lines: seq<string>)
    ensures lines == Lines(MapPaths(rel, t))
    decreases t
  {
    lines := FileLines(rel, t.files);
    var dirs := RemoveGitDir(t.dirs);
    ghost var top := MapPathsOf(rel, t.files);
    assert top + MapPathsUnder(rel, dirs[..0], false) == top by {
      assert dirs[..0] == [];
    }
    for j := 0 to |dirs|
      invariant lines == Lines(top + MapPathsUnder(rel, dirs[..j], false))
    {
      assert dirs[j] in t.dirs;
      var below := CollectMapLines(rel + [dirs[j].name], dirs[j].tree);
      CollectStep(rel, top, dirs, j, lines, below);
      lines := lines + below;
    }
    assert lines == Lines(MapPaths(rel, t)) by {
      assert dirs[..|dirs|] == dirs;
      MapPathsUnderRemoved(rel, t.dirs);
    }
  }

  /**
   * The text of the repository map: its lines in ascending code-point order,
   * joined by newlines.
   */
  function RepoMap(t: Tree): string {
    Join(SortLines(Lines(MapPaths([], t))), "\n")
  }

  /**
   * Whatever sorted arrangement of the map lines one takes, joining it gives
   * the repository map; in particular it is what Python's `sorted` yields.
   */
  lemma RepoMapIsSortedLines(t: Tree, s: seq<string>)
    requires Sorted(s) && multiset(s) == multiset(Lines(MapPaths([], t)))
    ensures RepoMap(t) == Join(s, "\n")
  {
    SortedUnique(SortLines(Lines(MapPaths([], t))), s);
  }

  /** `generate_repo_map(root)`. */
  method GenerateRepoMap(t: Tree) returns (repoMap: string)
    ensures repoMap == RepoMap(t)
  {
    var lines := CollectMapLines([], t);
    repoMap := Join(SortLines(lines), "\n");
  }
}
