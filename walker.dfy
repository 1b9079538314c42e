/**
 * Directory walking: a depth-first walk from a root directory over a finite
 * filesystem, listing regular files, skipping six fixed directory names, and
 * cutting cycles with a set of canonical directory paths shared by every
 * recursive call of one walk.
 */
module TreeWalker {
  import opened Wrappers

  type Path = string

  /** The kind `Dirent` reports; `Other` is a symbolic link, fifo, socket or device. */
  datatype Kind = Directory | RegularFile | Other

  /** One entry of `readdirSync(dir, { withFileTypes: true })`. */
  datatype Entry = Entry(name: string, kind: Kind)

  /**
   * A snapshot of the filesystem. `canonical` is `realpathSync` and `listing`
   * is `readdirSync` on a canonical directory path; `content` is
   * `readFileSync`. A path missing from a map is one on which that call throws.
   */
  datatype FileSystem = FileSystem(
    canonical: map<Path, Path>,
    listing: map<Path, seq<Entry>>,
    content: map<Path, string>)

  /** The two filesystem calls of the walk that can throw; neither is caught. */
  datatype FsError = RealpathFailed(path: Path) | ReaddirFailed(path: Path)

  /** Directory names that are never descended into. */
  const ExcludedDirNames: set<string> := {"node_modules", ".dist", ".angular", ".git", ".nx", ".vs"}

  /** `path.join(dir, name)` for a canonical directory and a plain entry name. */
  function JoinPath(dir: Path, name: string): Path {
    if |dir| > 0 && dir[|dir| - 1] == '/' then dir + name else dir + "/" + name
  }

  /** The joined path is the directory, then the name, with exactly one separator between them. */
  lemma JoinPathParts(dir: Path, name: string)
    ensures var p := JoinPath(dir, name);
            |dir| + |name| <= |p| <= |dir| + |name| + 1 && |p| > |name|
            && p[..|dir|] == dir && p[|p| - |name|..] == name
            && p[|p| - |name| - 1] == '/'
  {
  }

  /** In one directory, distinct entry names give distinct paths. */
  lemma JoinPathInjective(dir: Path, n1: string, n2: string)
    requires JoinPath(dir, n1) == JoinPath(dir, n2)
    ensures n1 == n2
  {
    var p := JoinPath(dir, n1);
    JoinPathParts(dir, n1);
    JoinPathParts(dir, n2);
    assert |n1| == |n2|;
    assert n1 == p[|p| - |n1|..] == n2;
  }

  /**
   * What a walk produced: the files listed, the visited set afterwards, and
   * the canonical directories it expanded, in the order it expanded them.
   */
  datatype Walked = Walked(files: seq<Path>, visited: set<Path>, expanded: seq<Path>)

  /**
   * `w` is a walk that started from visited set `v`: the visited set only
   * grew, and grew by exactly the expanded directories, each a listed
   * directory not visited before and none expanded twice.
   */
  ghost predicate Extends(fs: FileSystem, v: set<Path>, w: Walked) {
    v <= w.visited
    && w.visited == v + (set d | d in w.expanded)
    && (forall k :: 0 <= k < |w.expanded| ==> w.expanded[k] in fs.listing && w.expanded[k] !in v)
    && (forall k, l :: 0 <= k < l < |w.expanded| ==> w.expanded[k] != w.expanded[l])
  }

  lemma CardSubset<T>(a: set<T>, b: set<T>)
    requires a <= b
    ensures |a| <= |b|
    decreases a
  {
    if a != {} {
      var x :| x in a;
      CardSubset(a - {x}, b - {x});
    }
  }

  /** A larger visited set leaves no more unvisited listed directories. */
  lemma UnvisitedMonotone(keys: set<Path>, v: set<Path>, w: set<Path>)
    requires v <= w
    ensures |keys - w| <= |keys - v|
  {
    CardSubset(keys - w, keys - v);
  }

  /** Marking an unvisited listed directory visited leaves one fewer. */
  lemma UnvisitedShrinks(keys: set<Path>, v: set<Path>, w: set<Path>, d: Path)
    requires d in keys && d !in v && v + {d} <= w
    ensures |keys - w| < |keys - v|
  {
    CardSubset(keys - w, keys - v - {d});
    assert (keys - v - {d}) + {d} == keys - v;
  }

  /** Expanding `d` and then walking `w` from `v + {d}` is a walk from `v`. */
  lemma ExtendsByRoot(fs: FileSystem, v: set<Path>, d: Path, w: Walked)
    requires d in fs.listing && d !in v
    requires Extends(fs, v + {d}, w)
    ensures Extends(fs, v, Walked(w.files, w.visited, [d] + w.expanded))
  {
    var e := [d] + w.expanded;
    assert (set x | x in e) == {d} + (set x | x in w.expanded);
    forall k | 0 < k < |e| ensures e[k] in fs.listing && e[k] !in v && e[k] != d {
      assert e[k] == w.expanded[k - 1];
    }
    forall k, l | 0 <= k < l < |e| ensures e[k] != e[l] {
      assert e[l] == w.expanded[l - 1];
      if k > 0 { assert e[k] == w.expanded[k - 1]; }
    }
  }

  /** A walk from `v` followed by a walk from where it stopped is one walk from `v`. */
  lemma ExtendsByConcat(fs: FileSystem, v: set<Path>, a: Walked, b: Walked)
    requires Extends(fs, v, a) && Extends(fs, a.visited, b)
    ensures Extends(fs, v, Walked(a.files + b.files, b.visited, a.expanded + b.expanded))
  {
    var e := a.expanded + b.expanded;
    assert (set x | x in e) == (set x | x in a.expanded) + (set x | x in b.expanded);
    forall k | 0 <= k < |e| ensures e[k] in fs.listing && e[k] !in v {
      if k >= |a.expanded| { assert e[k] == b.expanded[k - |a.expanded|]; }
    }
    forall k, l | 0 <= k < l < |e| ensures e[k] != e[l] {
      if l >= |a.expanded| {
        assert e[l] == b.expanded[l - |a.expanded|];
        assert e[l] !in a.visited;
        if k >= |a.expanded| { assert e[k] == b.expanded[k - |a.expanded|]; }
        else { assert e[k] in a.visited; }
      }
    }
  }

  /**
   * `listFilesRecursively(dir, visited)`: resolve `dir`; a canonical path
   * already visited yields nothing; otherwise mark it visited and walk its
   * entries in listing order.
   */
  function WalkDir(fs: FileSystem, dir: Path, visited: set<Path>): (r: Result<Walked, FsError>)
    ensures r.Success? ==> Extends(fs, visited, r.value)
    ensures dir in fs.canonical && fs.canonical[dir] in visited ==> r == Success(Walked([], visited, []))
    ensures r.Success? ==> dir in fs.canonical && fs.canonical[dir] in r.value.visited
    decreases |fs.listing.Keys - visited|, 0, 0
  {
    if dir !in fs.canonical then Failure(RealpathFailed(dir))
    else
      var realPath := fs.canonical[dir];
      if realPath in visited then Success(Walked([], visited, []))
      else if realPath !in fs.listing then Failure(ReaddirFailed(realPath))
      else
        UnvisitedShrinks(fs.listing.Keys, visited, visited + {realPath}, realPath);
        match WalkEntries(fs, realPath, 0, visited + {realPath})
        case Failure(e) => Failure(e)
        case Success(w) =>
          ExtendsByRoot(fs, visited, realPath, w);
          Success(Walked(w.files, w.visited, [realPath] + w.expanded))
  }

  /**
   * The loop of listFilesRecursively over the entries of `realPath` from
   * index `i` on: excluded directories are skipped, other directories are
   * walked with the current visited set, regular files are listed, and
   * every other kind of entry is ignored.
   */
  function WalkEntries(fs: FileSystem, realPath: Path, i: nat, visited: set<Path>): (r: Result<Walked, FsError>)
    requires realPath in fs.listing && i <= |fs.listing[realPath]|
    ensures r.Success? ==> Extends(fs, visited, r.value)
    decreases |fs.listing.Keys - visited|, 1, |fs.listing[realPath]| - i
  {
    var entries := fs.listing[realPath];
    if i == |entries| then Success(Walked([], visited, []))
    else
      var entry := entries[i];
      var fullPath := JoinPath(realPath, entry.name);
      if entry.kind == Directory && entry.name in ExcludedDirNames then
        WalkEntries(fs, realPath, i + 1, visited)
      else if entry.kind == Directory then
        match WalkDir(fs, fullPath, visited)
        case Failure(e) => Failure(e)
        case Success(sub) =>
          UnvisitedMonotone(fs.listing.Keys, visited, sub.visited);
          match WalkEntries(fs, realPath, i + 1, sub.visited)
          case Failure(e) => Failure(e)
          case Success(more) =>
            ExtendsByConcat(fs, visited, sub, more);
            Success(Walked(sub.files + more.files, more.visited, sub.expanded + more.expanded))
      else if entry.kind == RegularFile then
        match WalkEntries(fs, realPath, i + 1, visited)
        case Failure(e) => Failure(e)
        case Success(more) => Success(Walked([fullPath] + more.files, more.visited, more.expanded))
      else
        WalkEntries(fs, realPath, i + 1, visited)
  }

  /** `listFilesRecursively(root)`: a walk with a fresh visited set. */
  function ListFiles(fs: FileSystem, root: Path): Result<seq<Path>, FsError> {
    match WalkDir(fs, root, {})
    case Success(w) => Success(w.files)
    case Failure(e) => Failure(e)
  }

  /** `child` is the canonical path of a non-excluded directory entry of `parent`. */
  ghost predicate Follows(fs: FileSystem, parent: Path, child: Path) {
    parent in fs.listing
    && (exists e :: e in fs.listing[parent] && e.kind == Directory && e.name !in ExcludedDirNames
          && JoinPath(parent, e.name) in fs.canonical && fs.canonical[JoinPath(parent, e.name)] == child)
  }

  /** The directory at index `k` of `s` was reached from an earlier one. */
  ghost predicate HasParent(fs: FileSystem, s: seq<Path>, k: nat)
    requires k < |s|
  {
    exists j :: 0 <= j < k && Follows(fs, s[j], s[k])
  }

  /** Every directory after the first was reached from an earlier one by `Follows`. */
  ghost predicate RootedChain(fs: FileSystem, s: seq<Path>) {
    forall k :: 0 < k < |s| ==> HasParent(fs, s, k)
  }

  /** `p` is `join(d, name)` for a regular-file entry of directory `d`. */
  ghost predicate ListedFile(fs: FileSystem, d: Path, p: Path) {
    d in fs.listing
    && (exists e :: e in fs.listing[d] && e.kind == RegularFile && JoinPath(d, e.name) == p)
  }

  /** Every listed file is a regular-file entry of one of `dirs`. */
  ghost predicate FilesFrom(fs: FileSystem, files: seq<Path>, dirs: seq<Path>) {
    forall p :: p in files ==> exists d :: d in dirs && ListedFile(fs, d, p)
  }

  lemma ChainAppend(fs: FileSystem, root: Path, a: seq<Path>, b: seq<Path>)
    requires RootedChain(fs, a) && (a != [] ==> Follows(fs, root, a[0]))
    requires RootedChain(fs, [root] + b)
    ensures RootedChain(fs, [root] + a + b)
  {
    var s := [root] + a + b;
    forall k | 0 < k < |s| ensures HasParent(fs, s, k) {
      if k <= |a| {
        assert s[k] == a[k - 1];
        if k == 1 {
          assert Follows(fs, s[0], s[k]);
        } else {
          assert HasParent(fs, a, k - 1);
          var j :| 0 <= j < k - 1 && Follows(fs, a[j], a[k - 1]);
          assert s[j + 1] == a[j];
          assert Follows(fs, s[j + 1], s[k]);
        }
      } else {
        var t := [root] + b;
        assert s[k] == t[k - |a|];
        assert HasParent(fs, t, k - |a|);
        var j :| 0 <= j < k - |a| && Follows(fs, t[j], t[k - |a|]);
        if j == 0 {
          assert s[0] == t[0];
          assert Follows(fs, s[0], s[k]);
        } else {
          assert s[j + |a|] == t[j];
          assert Follows(fs, s[j + |a|], s[k]);
        }
      }
    }
    assert RootedChain(fs, s);
  }

  /**
   * The shape of a walk from `dir`: every expanded directory is the
   * canonical path of `dir` or was reached from an earlier expanded
   * directory through a directory entry whose name is not excluded; every
   * listed file is `join(d, name)` for a regular-file entry of an expanded
   * directory `d`.
   */
  ghost predicate DirShape(fs: FileSystem, dir: Path, w: Walked) {
    RootedChain(fs, w.expanded)
    && (w.expanded != [] ==> dir in fs.canonical && w.expanded[0] == fs.canonical[dir])
    && FilesFrom(fs, w.files, w.expanded)
  }

  /** The same for a walk over the entries of `realPath`, which leads the chain. */
  ghost predicate EntriesShape(fs: FileSystem, realPath: Path, w: Walked) {
    RootedChain(fs, [realPath] + w.expanded)
    && FilesFrom(fs, w.files, [realPath] + w.expanded)
  }

  /** Every directory a walk expands, and every file it lists, was reached as DirShape describes. */
  lemma {:induction false} WalkDirSound(fs: FileSystem, dir: Path, visited: set<Path>)
    decreases |fs.listing.Keys - visited|, 0, 0
    ensures WalkDir(fs, dir, visited).Success? ==> DirShape(fs, dir, WalkDir(fs, dir, visited).value)
  {
    if dir in fs.canonical {
      var realPath := fs.canonical[dir];
      if realPath !in visited && realPath in fs.listing {
        UnvisitedShrinks(fs.listing.Keys, visited, visited + {realPath}, realPath);
        WalkEntriesSound(fs, realPath, 0, visited + {realPath});
      }
    }
  }

  /** The same for a walk over the entries of a directory, as EntriesShape describes. */
  lemma {:induction false} WalkEntriesSound(fs: FileSystem, realPath: Path, i: nat, visited: set<Path>)
    requires realPath in fs.listing && i <= |fs.listing[realPath]|
    decreases |fs.listing.Keys - visited|, 1, |fs.listing[realPath]| - i
    ensures WalkEntries(fs, realPath, i, visited).Success? ==>
              EntriesShape(fs, realPath, WalkEntries(fs, realPath, i, visited).value)
  {
    var entries := fs.listing[realPath];
    if i < |entries| {
      var entry := entries[i];
      var fullPath := JoinPath(realPath, entry.name);
      if entry.kind == Directory && entry.name !in ExcludedDirNames {
        WalkDirSound(fs, fullPath, visited);
        var r := WalkDir(fs, fullPath, visited);
        if r.Success? {
          var sub := r.value;
          UnvisitedMonotone(fs.listing.Keys, visited, sub.visited);
          WalkEntriesSound(fs, realPath, i + 1, sub.visited);
          var r' := WalkEntries(fs, realPath, i + 1, sub.visited);
          if r'.Success? {
            var more := r'.value;
            SubdirShape(fs, realPath, i, sub, more);
          }
        }
      } else {
        WalkEntriesSound(fs, realPath, i + 1, visited);
        var r' := WalkEntries(fs, realPath, i + 1, visited);
        if r'.Success? && entry.kind == RegularFile {
          var more := r'.value;
          assert entry in fs.listing[realPath];
          assert ListedFile(fs, realPath, fullPath);
          assert WalkEntries(fs, realPath, i, visited).value.files == [fullPath] + more.files;
        }
      }
    }
  }

  /**
   * A walk from any directory lists exactly the right files and expands
   * exactly the right directories. Every expanded directory is the
   * canonical path of `dir` or was reached from an earlier expanded
   * directory through a non-excluded directory entry, and every listed file
   * is a regular-file entry of an expanded directory (DirShape). Conversely,
   * every regular-file entry of an expanded directory is listed, and every
   * non-excluded directory entry of one was visited by its canonical path
   * (Complete).
   */
  lemma WalkDirShape(fs: FileSystem, dir: Path, visited: set<Path>)
    ensures WalkDir(fs, dir, visited).Success? ==> DirShape(fs, dir, WalkDir(fs, dir, visited).value)
    ensures WalkDir(fs, dir, visited).Success? ==> Complete(fs, WalkDir(fs, dir, visited).value)
  {
    WalkDirSound(fs, dir, visited);
    WalkDirComplete(fs, dir, visited);
  }

  /**
   * The same for a walk over the entries of `realPath` from index `i` on,
   * which moreover accounts for each of those entries.
   */
  lemma WalkEntriesShape(fs: FileSystem, realPath: Path, i: nat, visited: set<Path>)
    requires realPath in fs.listing && i <= |fs.listing[realPath]|
    ensures WalkEntries(fs, realPath, i, visited).Success? ==>
              EntriesShape(fs, realPath, WalkEntries(fs, realPath, i, visited).value)
    ensures WalkEntries(fs, realPath, i, visited).Success? ==>
              Complete(fs, WalkEntries(fs, realPath, i, visited).value)
              && forall j :: i <= j < |fs.listing[realPath]| ==>
                   EntryCovered(fs, realPath, fs.listing[realPath][j], WalkEntries(fs, realPath, i, visited).value)
  {
    WalkEntriesSound(fs, realPath, i, visited);
    WalkEntriesComplete(fs, realPath, i, visited);
  }

  /** Walking a non-excluded subdirectory and then the remaining entries keeps the shape. */
  lemma SubdirShape(fs: FileSystem, realPath: Path, i: nat, sub: Walked, more: Walked)
    requires realPath in fs.listing && i < |fs.listing[realPath]|
    requires fs.listing[realPath][i].kind == Directory && fs.listing[realPath][i].name !in ExcludedDirNames
    requires DirShape(fs, JoinPath(realPath, fs.listing[realPath][i].name), sub)
    requires EntriesShape(fs, realPath, more)
    ensures EntriesShape(fs, realPath, Walked(sub.files + more.files, more.visited, sub.expanded + more.expanded))
  {
    var entry := fs.listing[realPath][i];
    if sub.expanded != [] {
      assert entry in fs.listing[realPath];
      assert Follows(fs, realPath, sub.expanded[0]);
    }
    ChainAppend(fs, realPath, sub.expanded, more.expanded);
    var dirs := [realPath] + sub.expanded + more.expanded;
    assert dirs == [realPath] + (sub.expanded + more.expanded);
    forall p | p in sub.files + more.files ensures exists d :: d in dirs && ListedFile(fs, d, p) {
      if p in sub.files {
        var d :| d in sub.expanded && ListedFile(fs, d, p);
        assert d in dirs;
      } else {
        var d :| d in [realPath] + more.expanded && ListedFile(fs, d, p);
        assert d in dirs;
      }
    }
  }

  /**
   * Entry `e` of directory `d` is accounted for by `w`: a regular file is
   * listed, and a directory whose name is not excluded has its canonical
   * path in the visited set.
   */
  ghost predicate EntryCovered(fs: FileSystem, d: Path, e: Entry, w: Walked) {
    (e.kind == RegularFile ==> JoinPath(d, e.name) in w.files)
    && (e.kind == Directory && e.name !in ExcludedDirNames ==>
          JoinPath(d, e.name) in fs.canonical && fs.canonical[JoinPath(d, e.name)] in w.visited)
  }

  /** Every entry of every directory `w` expanded is accounted for by `w`. */
  ghost predicate Complete(fs: FileSystem, w: Walked) {
    forall d :: d in w.expanded ==>
      d in fs.listing && forall e :: e in fs.listing[d] ==> EntryCovered(fs, d, e, w)
  }

  /** `b` lists every file `a` lists and has visited every directory `a` has. */
  ghost predicate Covers(a: Walked, b: Walked) {
    (forall p :: p in a.files ==> p in b.files) && a.visited <= b.visited
  }

  /** What a walk accounts for stays accounted for by a walk that covers it. */
  lemma CoveredGrows(fs: FileSystem, d: Path, e: Entry, a: Walked, b: Walked)
    requires EntryCovered(fs, d, e, a) && Covers(a, b)
    ensures EntryCovered(fs, d, e, b)
  {
  }

  /**
   * A walk from any directory misses nothing: every regular-file entry of
   * an expanded directory is listed, and every directory entry whose name
   * is not excluded was visited by its canonical path.
   */
  lemma {:induction false} WalkDirComplete(fs: FileSystem, dir: Path, visited: set<Path>)
    decreases |fs.listing.Keys - visited|, 0, 0
    ensures WalkDir(fs, dir, visited).Success? ==> Complete(fs, WalkDir(fs, dir, visited).value)
  {
    if dir in fs.canonical {
      var realPath := fs.canonical[dir];
      if realPath !in visited && realPath in fs.listing {
        UnvisitedShrinks(fs.listing.Keys, visited, visited + {realPath}, realPath);
        WalkEntriesComplete(fs, realPath, 0, visited + {realPath});
        var r := WalkEntries(fs, realPath, 0, visited + {realPath});
        if r.Success? {
          var w := r.value;
          var top := Walked(w.files, w.visited, [realPath] + w.expanded);
          assert WalkDir(fs, dir, visited) == Success(top);
          forall d | d in top.expanded
            ensures d in fs.listing && forall e :: e in fs.listing[d] ==> EntryCovered(fs, d, e, top)
          {
            if d == realPath {
              forall e | e in fs.listing[d] ensures EntryCovered(fs, d, e, top) {
                var j :| 0 <= j < |fs.listing[d]| && fs.listing[d][j] == e;
                assert EntryCovered(fs, d, fs.listing[d][j], w);
              }
            } else {
              assert d in w.expanded;
            }
          }
        }
      }
    }
  }

  /**
   * A walk over the entries of `realPath` from index `i` on accounts for
   * each of those entries, and misses nothing in the directories it expanded.
   */
  lemma {:induction false} WalkEntriesComplete(fs: FileSystem, realPath: Path, i: nat, visited: set<Path>)
    requires realPath in fs.listing && i <= |fs.listing[realPath]|
    decreases |fs.listing.Keys - visited|, 1, |fs.listing[realPath]| - i
    ensures WalkEntries(fs, realPath, i, visited).Success? ==>
              Complete(fs, WalkEntries(fs, realPath, i, visited).value)
              && forall j :: i <= j < |fs.listing[realPath]| ==>
                   EntryCovered(fs, realPath, fs.listing[realPath][j], WalkEntries(fs, realPath, i, visited).value)
  {
    var entries := fs.listing[realPath];
    if i < |entries| {
      var entry := entries[i];
      var fullPath := JoinPath(realPath, entry.name);
      if entry.kind == Directory && entry.name !in ExcludedDirNames {
        WalkDirComplete(fs, fullPath, visited);
        var r := WalkDir(fs, fullPath, visited);
        if r.Success? {
          var sub := r.value;
          UnvisitedMonotone(fs.listing.Keys, visited, sub.visited);
          WalkEntriesComplete(fs, realPath, i + 1, sub.visited);
          var r' := WalkEntries(fs, realPath, i + 1, sub.visited);
          if r'.Success? {
            SubdirComplete(fs, realPath, i, sub, r'.value);
          }
        }
      } else {
        WalkEntriesComplete(fs, realPath, i + 1, visited);
        var r' := WalkEntries(fs, realPath, i + 1, visited);
        if r'.Success? {
          var more := r'.value;
          var w := WalkEntries(fs, realPath, i, visited).value;
          assert w.expanded == more.expanded && Covers(more, w);
          forall d, e | d in w.expanded && e in fs.listing[d] ensures EntryCovered(fs, d, e, w) {
            CoveredGrows(fs, d, e, more, w);
          }
          forall j | i < j < |entries| ensures EntryCovered(fs, realPath, entries[j], w) {
            CoveredGrows(fs, realPath, entries[j], more, w);
          }
        }
      }
    }
  }

  /** Walking a non-excluded subdirectory and then the remaining entries misses nothing. */
  lemma SubdirComplete(fs: FileSystem, realPath: Path, i: nat, sub: Walked, more: Walked)
    requires realPath in fs.listing && i < |fs.listing[realPath]|
    requires fs.listing[realPath][i].kind == Directory && fs.listing[realPath][i].name !in ExcludedDirNames
    requires JoinPath(realPath, fs.listing[realPath][i].name) in fs.canonical
    requires fs.canonical[JoinPath(realPath, fs.listing[realPath][i].name)] in sub.visited
    requires Complete(fs, sub) && Complete(fs, more) && sub.visited <= more.visited
    requires forall j :: i + 1 <= j < |fs.listing[realPath]| ==> EntryCovered(fs, realPath, fs.listing[realPath][j], more)
    ensures var w := Walked(sub.files + more.files, more.visited, sub.expanded + more.expanded);
            Complete(fs, w) && forall j :: i <= j < |fs.listing[realPath]| ==> EntryCovered(fs, realPath, fs.listing[realPath][j], w)
  {
    var w := Walked(sub.files + more.files, more.visited, sub.expanded + more.expanded);
    assert Covers(sub, w) && Covers(more, w);
    forall d, e | d in w.expanded && e in fs.listing[d] ensures EntryCovered(fs, d, e, w) {
      if d in sub.expanded { CoveredGrows(fs, d, e, sub, w); }
      else { CoveredGrows(fs, d, e, more, w); }
    }
    forall j | i + 1 <= j < |fs.listing[realPath]| ensures EntryCovered(fs, realPath, fs.listing[realPath][j], w) {
      CoveredGrows(fs, realPath, fs.listing[realPath][j], more, w);
    }
  }

  /**
   * The walk from `dir` starting at `v0` has expanded `dir`'s canonical path
   * `realPath`, listed `files` and expanded `expanded` so far, and continues
   * with the entries of `realPath` from index `i` on under visited set `visited`.
   */
  ghost predicate Midway(fs: FileSystem, dir: Path, v0: set<Path>, realPath: Path, i: nat,
                         visited: set<Path>, files: seq<Path>, expanded: seq<Path>)
    requires realPath in fs.listing && i <= |fs.listing[realPath]|
  {
    match WalkEntries(fs, realPath, i, visited)
    case Success(w) => WalkDir(fs, dir, v0) == Success(Walked(files + w.files, w.visited, expanded + w.expanded))
    case Failure(e) => WalkDir(fs, dir, v0) == Failure(e)
  }

  lemma MidwayStart(fs: FileSystem, dir: Path, v0: set<Path>)
    requires dir in fs.canonical && fs.canonical[dir] !in v0 && fs.canonical[dir] in fs.listing
    ensures Midway(fs, dir, v0, fs.canonical[dir], 0, v0 + {fs.canonical[dir]}, [], [fs.canonical[dir]])
  {
    var realPath := fs.canonical[dir];
    match WalkEntries(fs, realPath, 0, v0 + {realPath}) {
      case Success(w) => assert [] + w.files == w.files;
      case Failure(_) =>
    }
  }

  lemma MidwayEnd(fs: FileSystem, dir: Path, v0: set<Path>, realPath: Path,
                  visited: set<Path>, files: seq<Path>, expanded: seq<Path>)
    requires realPath in fs.listing
    requires Midway(fs, dir, v0, realPath, |fs.listing[realPath]|, visited, files, expanded)
    ensures WalkDir(fs, dir, v0) == Success(Walked(files, visited, expanded))
  {
    assert files + [] == files && expanded + [] == expanded;
  }

  /** An excluded directory, or an entry that is neither directory nor regular file, is passed over. */
  lemma MidwaySkip(fs: FileSystem, dir: Path, v0: set<Path>, realPath: Path, i: nat,
                   visited: set<Path>, files: seq<Path>, expanded: seq<Path>)
    requires realPath in fs.listing && i < |fs.listing[realPath]|
    requires var e := fs.listing[realPath][i];
             (e.kind == Directory && e.name in ExcludedDirNames) || e.kind == Other
    requires Midway(fs, dir, v0, realPath, i, visited, files, expanded)
    ensures Midway(fs, dir, v0, realPath, i + 1, visited, files, expanded)
  {
    assert WalkEntries(fs, realPath, i, visited) == WalkEntries(fs, realPath, i + 1, visited);
  }

  /** A regular file is appended to the list. */
  lemma MidwayFile(fs: FileSystem, dir: Path, v0: set<Path>, realPath: Path, i: nat,
                   visited: set<Path>, files: seq<Path>, expanded: seq<Path>)
    requires realPath in fs.listing && i < |fs.listing[realPath]|
    requires fs.listing[realPath][i].kind == RegularFile
    requires Midway(fs, dir, v0, realPath, i, visited, files, expanded)
    ensures Midway(fs, dir, v0, realPath, i + 1, visited,
                   files + [JoinPath(realPath, fs.listing[realPath][i].name)], expanded)
  {
    var fullPath := JoinPath(realPath, fs.listing[realPath][i].name);
    match WalkEntries(fs, realPath, i + 1, visited) {
      case Success(more) =>
        assert files + ([fullPath] + more.files) == (files + [fullPath]) + more.files;
      case Failure(_) =>
    }
  }

  /** A walked subdirectory splices its files in, or its failure ends the whole walk. */
  lemma MidwaySubdir(fs: FileSystem, dir: Path, v0: set<Path>, realPath: Path, i: nat,
                     visited: set<Path>, files: seq<Path>, expanded: seq<Path>)
    requires realPath in fs.listing && i < |fs.listing[realPath]|
    requires fs.listing[realPath][i].kind == Directory && fs.listing[realPath][i].name !in ExcludedDirNames
    requires Midway(fs, dir, v0, realPath, i, visited, files, expanded)
    ensures match WalkDir(fs, JoinPath(realPath, fs.listing[realPath][i].name), visited)
            case Failure(e) => WalkDir(fs, dir, v0) == Failure(e)
            case Success(sub) =>
              Midway(fs, dir, v0, realPath, i + 1, sub.visited, files + sub.files, expanded + sub.expanded)
  {
    match WalkDir(fs, JoinPath(realPath, fs.listing[realPath][i].name), visited) {
      case Failure(_) =>
      case Success(sub) =>
        match WalkEntries(fs, realPath, i + 1, sub.visited) {
          case Success(more) =>
            assert files + (sub.files + more.files) == (files + sub.files) + more.files;
            assert expanded + (sub.expanded + more.expanded) == (expanded + sub.expanded) + more.expanded;
          case Failure(_) =>
        }
    }
  }

  /**
   * A directory entry of `/r` whose canonical path is `/r` itself, a path
   * already visited: the second arrival at `/r` is cut off by the visited
   * set, and the walk ends with the one file.
   */
  lemma ExampleCycle()
    ensures var fs := FileSystem(map["/r" := "/r", "/r/loop" := "/r"],
                                 map["/r" := [Entry("loop", Directory), Entry("a.ts", RegularFile)]],
                                 map[]);
            ListFiles(fs, "/r") == Success(["/r/a.ts"])
  {
    var fs := FileSystem(map["/r" := "/r", "/r/loop" := "/r"],
                         map["/r" := [Entry("loop", Directory), Entry("a.ts", RegularFile)]],
                         map[]);
    var v := {"/r"};
    var entries := fs.listing["/r"];
    assert |entries| == 2;
    assert entries[0] == Entry("loop", Directory) && entries[1] == Entry("a.ts", RegularFile);
    assert "loop" !in ExcludedDirNames;
    assert JoinPath("/r", "loop") == "/r/loop";
    assert JoinPath("/r", "a.ts") == "/r/a.ts";
    assert WalkEntries(fs, "/r", 2, v) == Success(Walked([], v, []));
    var r1 := WalkEntries(fs, "/r", 1, v);
    assert r1.Success? && r1.value.files == ["/r/a.ts"] && r1.value.visited == v && r1.value.expanded == [];
    assert fs.canonical["/r/loop"] == "/r";
    assert WalkDir(fs, "/r/loop", v) == Success(Walked([], v, []));
    var r0 := WalkEntries(fs, "/r", 0, v);
    assert r0.Success? && r0.value.files == ["/r/a.ts"];
    assert fs.canonical["/r"] == "/r" && {} + {"/r"} == v;
    var w := WalkDir(fs, "/r", {});
    assert w.Success? && w.value.files == ["/r/a.ts"];
  }

  /**
   * A symbolic link back to `/r` is an entry of neither kind the walk acts
   * on: it is neither listed nor followed, so the visited set never sees it.
   */
  lemma ExampleLinkIgnored()
    ensures var fs := FileSystem(map["/r" := "/r", "/r/loop" := "/r"],
                                 map["/r" := [Entry("loop", Other), Entry("a.ts", RegularFile)]],
                                 map[]);
            WalkDir(fs, "/r", {}) == Success(Walked(["/r/a.ts"], {"/r"}, ["/r"]))
  {
    var fs := FileSystem(map["/r" := "/r", "/r/loop" := "/r"],
                         map["/r" := [Entry("loop", Other), Entry("a.ts", RegularFile)]],
                         map[]);
    var v := {"/r"};
    var entries := fs.listing["/r"];
    assert |entries| == 2;
    assert entries[0] == Entry("loop", Other) && entries[1] == Entry("a.ts", RegularFile);
    assert JoinPath("/r", "a.ts") == "/r/a.ts";
    assert WalkEntries(fs, "/r", 2, v) == Success(Walked([], v, []));
    var r1 := WalkEntries(fs, "/r", 1, v);
    assert r1.Success? && r1.value.files == ["/r/a.ts"] && r1.value.visited == v && r1.value.expanded == [];
    var r0 := WalkEntries(fs, "/r", 0, v);
    assert r0 == r1;
    assert fs.canonical["/r"] == "/r" && {} + {"/r"} == v;
    var w := WalkDir(fs, "/r", {});
    assert w.Success? && w.value.files == ["/r/a.ts"] && w.value.visited == v;
    assert ["/r"] + r0.value.expanded == ["/r"];
    assert w.value.expanded == ["/r"];
    assert w.value == Walked(["/r/a.ts"], {"/r"}, ["/r"]);
  }

  /**
   * A root holding a file named like an excluded directory, `.git`, `src`,
   * and a symbolic link to `/r/lib`, a directory reachable no other way.
   */
  function ExclusionsTree(): FileSystem {
    FileSystem(
      map["/r" := "/r", "/r/.git" := "/r/.git", "/r/src" := "/r/src", "/r/link" := "/r/lib"],
      map["/r" := [Entry("node_modules", RegularFile), Entry(".git", Directory),
                   Entry("src", Directory), Entry("link", Other)],
          "/r/.git" := [Entry("HEAD", RegularFile)],
          "/r/src" := [Entry("main.ts", RegularFile)],
          "/r/lib" := [Entry("util.ts", RegularFile)]],
      map[])
  }

  /**
   * A regular file named `node_modules` is listed, a `.git` directory is
   * not entered, a subdirectory is, and a symbolic link is neither listed
   * nor followed: `/r/lib/util.ts` is not among the files.
   */
  lemma ExampleExclusions()
    ensures ListFiles(ExclusionsTree(), "/r") == Success(["/r/node_modules", "/r/src/main.ts"])
  {
    var fs := ExclusionsTree();
    var v := {"/r"};
    ExclusionsRoot(fs, v);
    assert fs.canonical["/r"] == "/r" && {} + {"/r"} == v;
    var w := WalkDir(fs, "/r", {});
    assert w.Success? && w.value.files == ["/r/node_modules", "/r/src/main.ts"];
  }

  /** All the entries of `/r`: the file `node_modules` comes first. */
  lemma ExclusionsRoot(fs: FileSystem, v: set<Path>)
    requires fs == ExclusionsTree() && v == {"/r"}
    ensures WalkEntries(fs, "/r", 0, v).Success?
    ensures WalkEntries(fs, "/r", 0, v).value.files == ["/r/node_modules", "/r/src/main.ts"]
  {
    ExclusionsEntries(fs, v);
    var top := fs.listing["/r"];
    assert |top| == 4 && top[0] == Entry("node_modules", RegularFile);
    assert JoinPath("/r", "node_modules") == "/r/node_modules";
    var r0 := WalkEntries(fs, "/r", 0, v);
    assert r0.Success? && r0.value.files == ["/r/node_modules", "/r/src/main.ts"];
  }

  /** From the `.git` entry on: `.git` is skipped, `src` is walked, the link ignored. */
  lemma ExclusionsEntries(fs: FileSystem, v: set<Path>)
    requires fs == ExclusionsTree() && v == {"/r"}
    ensures WalkEntries(fs, "/r", 1, v).Success?
    ensures WalkEntries(fs, "/r", 1, v).value.files == ["/r/src/main.ts"]
  {
    var v' := {"/r", "/r/src"};
    var top := fs.listing["/r"];
    assert |top| == 4;
    assert top[1] == Entry(".git", Directory);
    assert top[2] == Entry("src", Directory) && top[3] == Entry("link", Other);
    assert JoinPath("/r", "src") == "/r/src";
    assert ".git" in ExcludedDirNames;
    assert "src" !in ExcludedDirNames;
    ExampleSrc(fs, v, v');
    var r3 := WalkEntries(fs, "/r", 3, v');
    assert r3.Success? && r3.value.files == [] && r3.value.visited == v' && r3.value.expanded == [];
    var r2 := WalkEntries(fs, "/r", 2, v);
    assert r2.Success? && r2.value.files == ["/r/src/main.ts"];
    var r1 := WalkEntries(fs, "/r", 1, v);
    assert r1 == r2;
  }

  lemma ExampleSrc(fs: FileSystem, v: set<Path>, v': set<Path>)
    requires "/r/src" in fs.canonical && fs.canonical["/r/src"] == "/r/src"
    requires fs.listing.Keys == {"/r", "/r/.git", "/r/src", "/r/lib"}
    requires fs.listing["/r/src"] == [Entry("main.ts", RegularFile)]
    requires v == {"/r"} && v' == {"/r", "/r/src"}
    ensures WalkDir(fs, "/r/src", v) == Success(Walked(["/r/src/main.ts"], v', ["/r/src"]))
  {
    assert JoinPath("/r/src", "main.ts") == "/r/src/main.ts";
    assert "/r/src" !in v;
    assert v + {"/r/src"} == v';
    assert WalkEntries(fs, "/r/src", 1, v') == Success(Walked([], v', []));
    var r := WalkEntries(fs, "/r/src", 0, v');
    assert r.Success? && r.value.files == ["/r/src/main.ts"] && r.value.visited == v' && r.value.expanded == [];
    assert "/r/src" in fs.listing;
    assert ["/r/src"] + r.value.expanded == ["/r/src"];
    var w := WalkDir(fs, "/r/src", v);
    assert w.Success? && w.value.files == ["/r/src/main.ts"] && w.value.visited == v';
    assert w.value.expanded == ["/r/src"];
  }

  /**
   * The mutable state of one walk: the filesystem it reads and the set of
   * canonical directory paths already expanded, which every recursive call
   * of the walk shares.
   */
  class Walker {
    const fs: FileSystem
    var visited: set<Path>

    constructor (fs: FileSystem)
      ensures this.fs == fs && visited == {}
    {
      this.fs := fs;
      visited := {};
    }

    /**
     * listFilesRecursively(dir, this.visited): returns the walk's files and
     * leaves in `visited` the visited set the walk ends with.
     */
    method ListFilesRecursively(dir: Path) returns (r: Result<seq<Path>, FsError>)
      modifies this
      decreases |fs.listing.Keys - visited|
      ensures old(visited) <= visited
      ensures match WalkDir(fs, dir, old(visited))
              case Success(w) => r == Success(w.files) && visited == w.visited
              case Failure(e) => r == Failure(e)
    {
      if dir !in fs.canonical {
        return Failure(RealpathFailed(dir));
      }
      var realPath := fs.canonical[dir];
      if realPath in visited {
        return Success([]);
      }
      visited := visited + {realPath};
      if realPath !in fs.listing {
        return Failure(ReaddirFailed(realPath));
      }
      var entries := fs.listing[realPath];
      var files: seq<Path> := [];
      ghost var expanded := [realPath];
      MidwayStart(fs, dir, old(visited));
      for i := 0 to |entries|
        invariant old(visited) + {realPath} <= visited
        invariant Midway(fs, dir, old(visited), realPath, i, visited, files, expanded)
      {
        var entry := entries[i];
        var fullPath := JoinPath(realPath, entry.name);
        if entry.kind == Directory && entry.name in ExcludedDirNames {
          MidwaySkip(fs, dir, old(visited), realPath, i, visited, files, expanded);
        } else if entry.kind == Directory {
          MidwaySubdir(fs, dir, old(visited), realPath, i, visited, files, expanded);
          ghost var walked := WalkDir(fs, fullPath, visited);
          UnvisitedShrinks(fs.listing.Keys, old(visited), visited, realPath);
          var sub := ListFilesRecursively(fullPath);
          if sub.Failure? {
            return sub;
          }
          files := files + sub.value;
          expanded := expanded + walked.value.expanded;
        } else if entry.kind == RegularFile {
          MidwayFile(fs, dir, old(visited), realPath, i, visited, files, expanded);
          files := files + [fullPath];
        } else {
          MidwaySkip(fs, dir, old(visited), realPath, i, visited, files, expanded);
        }
      }
      MidwayEnd(fs, dir, old(visited), realPath, visited, files, expanded);
      return Success(files);
    }
  }
}
