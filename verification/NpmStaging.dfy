/** Staging of the npm runtime: a worklist copies a directory tree, refusing links and anything over its limits. */
module NpmStaging {
  import opened Strings

  const MAXIMUM_STAGED_NPM_FILES := 4096
  const MAXIMUM_STAGED_NPM_DIRECTORIES := 1024
  const MAXIMUM_STAGED_NPM_FILE_BYTES := 16 * 1024 * 1024
  const MAXIMUM_STAGED_NPM_TOTAL_BYTES := 64 * 1024 * 1024

  /** A path below the root that is copied; the root itself is the empty path. */
  type Path = seq<string>

  datatype Entry = Folder | File(bytes: seq<byte>) | Link | Special

  type Tree = map<Path, Entry>

  function Parent(p: Path): Path
    requires p != []
  {
    p[..|p| - 1]
  }

  function Last(p: Path): string
    requires p != []
  {
    p[|p| - 1]
  }

  /** Entries are listed only inside folders. */
  predicate WellFormed(t: Tree) {
    forall p <- t :: p != [] ==> Parent(p) in t && t[Parent(p)].Folder?
  }

  function Names(t: Tree, dir: Path): (r: set<string>)
    ensures forall n :: n in r <==> dir + [n] in t
  {
    var names := set p | p in t && p != [] && Parent(p) == dir :: Last(p);
    forall n ensures n in names <==> dir + [n] in t {
      if dir + [n] in t {
        assert Parent(dir + [n]) == dir && Last(dir + [n]) == n;
      }
      if n in names {
        var p :| p in t && p != [] && Parent(p) == dir && Last(p) == n;
        assert p == dir + [n];
      }
    }
    names
  }

  function Folders(t: Tree): set<Path> {
    set p <- t | t[p].Folder?
  }

  function Files(t: Tree): set<Path> {
    set p <- t | t[p].File?
  }

  function Length(t: Tree, p: Path): nat {
    if p in t && t[p].File? then |t[p].bytes| else 0
  }

  ghost function Total(t: Tree, paths: set<Path>): nat {
    if paths == {} then 0
    else
      var p :| p in paths;
      Length(t, p) + Total(t, paths - {p})
  }

  lemma {:induction false} TotalRemove(t: Tree, paths: set<Path>, p: Path)
    requires p in paths
    ensures Total(t, paths) == Length(t, p) + Total(t, paths - {p})
    decreases |paths|
  {
    var q :| q in paths && Total(t, paths) == Length(t, q) + Total(t, paths - {q});
    if q != p {
      TotalRemove(t, paths - {q}, p);
      TotalRemove(t, paths - {p}, q);
      assert paths - {q} - {p} == paths - {p} - {q};
    }
  }

  lemma {:induction false} TotalOfSubset(t: Tree, some: set<Path>, all: set<Path>)
    requires some <= all
    ensures Total(t, some) <= Total(t, all) && |some| <= |all|
  {
    if p :| p in some {
      TotalRemove(t, some, p);
      TotalRemove(t, all, p);
      TotalOfSubset(t, some - {p}, all - {p});
    }
  }

  /** The trees that may be staged, without regard to how they are walked. */
  ghost predicate Stageable(t: Tree) {
    && [] in t && t[[]].Folder?
    && (forall p <- t :: t[p].Folder? || (t[p].File? && |t[p].bytes| <= MAXIMUM_STAGED_NPM_FILE_BYTES))
    && |Folders(t)| <= MAXIMUM_STAGED_NPM_DIRECTORIES
    && 0 < |Files(t)| <= MAXIMUM_STAGED_NPM_FILES
    && Total(t, Files(t)) <= MAXIMUM_STAGED_NPM_TOTAL_BYTES
    && ["bin", "npm-cli.js"] in Files(t) && ["package.json"] in Files(t)
  }

  // ---- The state of the walk ----

  /** Folders `done` are copied with all their entries, and of folder `dir` the entries named in `seen`. */
  predicate Copied(source: Tree, dest: Tree, done: set<Path>, dir: Path, seen: set<string>) {
    && (forall p <- dest :: p in source && dest[p] == source[p])
    && (forall p <- source :: p in dest <==> p == [] || Parent(p) in done || (Parent(p) == dir && Last(p) in seen))
  }

  /** Every copied folder is done, waiting on the worklist, or being copied now. */
  predicate Waiting(dest: Tree, done: set<Path>, pending: seq<Path>, current: set<Path>) {
    && (forall i :: 0 <= i < |pending| ==> pending[i] in Folders(dest) && pending[i] !in done && pending[i] !in current)
    && (forall i, j :: 0 <= i < j < |pending| ==> pending[i] != pending[j])
    && done <= Folders(dest) && current <= Folders(dest) && done !! current
    && (forall p <- Folders(dest) :: p in done || p in current || p in pending)
  }

  ghost predicate Counted(source: Tree, dest: Tree, failing: set<Path>, fileCount: nat, totalBytes: nat) {
    && fileCount == |Files(dest)| <= MAXIMUM_STAGED_NPM_FILES
    && totalBytes == Total(source, Files(dest)) <= MAXIMUM_STAGED_NPM_TOTAL_BYTES
    && (forall p <- dest :: p !in failing)
    && (forall p <- dest :: dest[p].Folder? || (dest[p].File? && |dest[p].bytes| <= MAXIMUM_STAGED_NPM_FILE_BYTES))
  }

  lemma {:induction false} EverythingIsReached(source: Tree, dest: Tree, done: set<Path>, p: Path)
    requires WellFormed(source) && Copied(source, dest, done, [], {}) && done == Folders(dest) && p in source
    ensures p in dest
  {
    if p != [] {
      EverythingIsReached(source, dest, done, Parent(p));
    }
  }

  /** An empty worklist means the copy is the whole tree. */
  lemma DoneMeansEqual(source: Tree, dest: Tree, done: set<Path>)
    requires WellFormed(source) && Copied(source, dest, done, [], {}) && Waiting(dest, done, [], {})
    ensures dest == source
  {
    assert done == Folders(dest) by {
      forall p <- Folders(dest) ensures p in done {}
    }
    forall p <- source ensures p in dest {
      EverythingIsReached(source, dest, done, p);
    }
    hide Copied, WellFormed, Waiting;
    SameTree(source, dest);
  }

  lemma SameTree(source: Tree, dest: Tree)
    requires forall p <- source :: p in dest
    requires forall p <- dest :: p in source && dest[p] == source[p]
    ensures dest == source
  {}

  lemma PartsOfCopy(source: Tree, dest: Tree, path: Path)
    requires (forall q <- dest :: q in source && dest[q] == source[q]) && path in source && path !in dest
    ensures source[path].File? ==>
              && |Files(dest)| + 1 <= |Files(source)|
              && Total(source, Files(dest)) + |source[path].bytes| <= Total(source, Files(source))
  {
    if source[path].File? {
      var more := Files(dest) + {path};
      TotalRemove(source, more, path);
      assert more - {path} == Files(dest);
      TotalOfSubset(source, more, Files(source));
    }
  }

  predicate Unhindered(t: Tree, failing: set<Path>) {
    forall p <- t :: p !in failing
  }

  // ---- Steps of the walk ----

  lemma StartsAtRoot(source: Tree, failing: set<Path>)
    requires [] in source && source[[]].Folder? && [] !in failing
    ensures Copied(source, map[[] := Folder], {}, [], {})
    ensures Waiting(map[[] := Folder], {}, [[]], {})
    ensures Counted(source, map[[] := Folder], failing, 0, 0)
  {
    var dest: Tree := map[[] := Folder];
    assert Folders(dest) == {[]} && Files(dest) == {};
  }

  lemma TakesLast(source: Tree, dest: Tree, done: set<Path>, pending: seq<Path>)
    requires pending != [] && Copied(source, dest, done, [], {}) && Waiting(dest, done, pending, {})
    ensures var dir := pending[|pending| - 1];
            && dir !in done && |done| + 1 <= |Folders(source)|
            && Copied(source, dest, done, dir, {})
            && Waiting(dest, done, pending[..|pending| - 1], {dir})
  {
    var dir := pending[|pending| - 1];
    LastIsCurrent(dest, done, pending);
    assert done + {dir} <= Folders(dest);
    CopiedIsPart(source, dest, done, [], {});
    hide Waiting;
    FoldersOfPart(source, dest);
    TotalOfSubset(source, done + {dir}, Folders(source));
  }

  lemma FoldersOfPart(source: Tree, dest: Tree)
    requires forall p <- dest :: p in source && dest[p] == source[p]
    ensures Folders(dest) <= Folders(source)
  {}

  lemma LastIsCurrent(dest: Tree, done: set<Path>, pending: seq<Path>)
    requires pending != [] && Waiting(dest, done, pending, {})
    ensures Waiting(dest, done, pending[..|pending| - 1], {pending[|pending| - 1]})
  {
    var dir := pending[|pending| - 1];
    var rest := pending[..|pending| - 1];
    forall p <- Folders(dest) ensures p in done || p == dir || p in rest {
      if p in pending && p != dir {
        var i :| 0 <= i < |pending| && pending[i] == p;
        assert rest[i] == p;
      }
    }
  }

  lemma AddsEntry(source: Tree, dest: Tree, done: set<Path>, dir: Path, seen: set<string>, name: string)
    requires Copied(source, dest, done, dir, seen) && dir !in done && name !in seen && dir + [name] in source
    ensures dir + [name] !in dest
    ensures Copied(source, dest[dir + [name] := source[dir + [name]]], done, dir, seen + {name})
  {
    var path := dir + [name];
    assert Parent(path) == dir && Last(path) == name;
    var dest' := dest[path := source[path]];
    forall p <- source
      ensures p in dest' <==> p == [] || Parent(p) in done || (Parent(p) == dir && Last(p) in seen + {name})
    {
      if p != [] && Parent(p) == dir && Last(p) == name {
        assert p == path;
      }
    }
  }

  lemma AddsFolder(dest: Tree, done: set<Path>, pending: seq<Path>, dir: Path, path: Path, entry: Entry)
    requires Waiting(dest, done, pending, {dir}) && path !in dest && entry.Folder?
    ensures Waiting(dest[path := entry], done, pending + [path], {dir})
  {
    var dest', pending' := dest[path := entry], pending + [path];
    assert Folders(dest') == Folders(dest) + {path};
    forall p <- Folders(dest') ensures p in done || p == dir || p in pending' {
      if p == path {
        assert pending'[|pending|] == path;
      } else if p in pending {
        var i :| 0 <= i < |pending| && pending[i] == p;
        assert pending'[i] == p;
      }
    }
  }

  lemma AddsFile(dest: Tree, done: set<Path>, pending: seq<Path>, dir: Path, path: Path, file: Entry)
    requires Waiting(dest, done, pending, {dir}) && path !in dest && file.File?
    ensures Waiting(dest[path := file], done, pending, {dir})
  {
    assert Folders(dest[path := file]) == Folders(dest);
  }

  lemma CountsFolder(source: Tree, dest: Tree, failing: set<Path>, files: nat, bytes: nat, path: Path, entry: Entry)
    requires Counted(source, dest, failing, files, bytes) && path !in dest && path !in failing && entry.Folder?
    ensures Counted(source, dest[path := entry], failing, files, bytes)
  {
    assert Files(dest[path := entry]) == Files(dest);
  }

  lemma CountsFile(source: Tree, dest: Tree, failing: set<Path>, files: nat, bytes: nat, path: Path)
    requires Counted(source, dest, failing, files, bytes) && path !in dest && path !in failing
    requires path in source && source[path].File? && |source[path].bytes| <= MAXIMUM_STAGED_NPM_FILE_BYTES
    requires files + 1 <= MAXIMUM_STAGED_NPM_FILES && bytes + |source[path].bytes| <= MAXIMUM_STAGED_NPM_TOTAL_BYTES
    ensures Counted(source, dest[path := source[path]], failing, files + 1, bytes + |source[path].bytes|)
  {
    hide Total;
    var dest' := dest[path := source[path]];
    assert Files(dest') == Files(dest) + {path};
    TotalRemove(source, Files(dest'), path);
    assert Files(dest') - {path} == Files(dest);
  }

  lemma ClosesFolder(source: Tree, dest: Tree, done: set<Path>, pending: seq<Path>, dir: Path)
    requires Copied(source, dest, done, dir, Names(source, dir)) && Waiting(dest, done, pending, {dir})
    ensures Copied(source, dest, done + {dir}, [], {}) && Waiting(dest, done + {dir}, pending, {})
  {
    forall p <- source | p != [] && Parent(p) == dir ensures Last(p) in Names(source, dir) {
      assert p == dir + [Last(p)];
    }
  }

  /** Whatever entry the copy stops at, the tree was not one that may be staged. */
  lemma RefusedIsNotStageable(source: Tree, dest: Tree, failing: set<Path>, files: nat, bytes: nat, path: Path)
    requires Counted(source, dest, failing, files, bytes) && path in source && path !in dest
    requires forall p <- dest :: p in source && dest[p] == source[p]
    requires || path in failing || source[path].Link? || source[path].Special?
             || (source[path].File? && ExceedsLimits(files, bytes, |source[path].bytes|))
    ensures !(Stageable(source) && Unhindered(source, failing))
  {
    PartsOfCopy(source, dest, path);
  }

  lemma StageableExactly(source: Tree, failing: set<Path>, directories: nat, files: nat, bytes: nat)
    requires Counted(source, source, failing, files, bytes) && [] in source && source[[]].Folder?
    requires |Folders(source)| == directories <= MAXIMUM_STAGED_NPM_DIRECTORIES
    ensures Stageable(source) && Unhindered(source, failing) <==>
              files > 0 && ["bin", "npm-cli.js"] in Files(source) && ["package.json"] in Files(source)
  {}

  lemma CopiedIsPart(source: Tree, dest: Tree, done: set<Path>, dir: Path, seen: set<string>)
    requires Copied(source, dest, done, dir, seen)
    ensures forall p <- dest :: p in source && dest[p] == source[p]
  {}

  lemma AllFoldersDone(dest: Tree, done: set<Path>)
    requires Waiting(dest, done, [], {})
    ensures done == Folders(dest)
  {
    forall p <- Folders(dest) ensures p in done {}
  }

  /** The inner loop of `copy_npm_runtime`: every entry of one folder, in any order. */
  method CopyFolder(source: Tree, failing: set<Path>, ghost done: set<Path>, dir: Path,
                    destination0: Tree, pending0: seq<Path>, fileCount0: nat, totalBytes0: nat)
    returns (ok: bool, destination: Tree, pending: seq<Path>, fileCount: nat, totalBytes: nat)
    requires dir !in done && Copied(source, destination0, done, dir, {}) && Waiting(destination0, done, pending0, {dir})
    requires Counted(source, destination0, failing, fileCount0, totalBytes0)
    ensures ok ==> Copied(source, destination, done + {dir}, [], {}) && Waiting(destination, done + {dir}, pending, {})
    ensures ok ==> Counted(source, destination, failing, fileCount, totalBytes)
    ensures !ok ==> !(Stageable(source) && Unhindered(source, failing))
  {
    hide Copied, Waiting, Counted, Stageable, Unhindered;
    ok, destination, pending, fileCount, totalBytes := true, destination0, pending0, fileCount0, totalBytes0;
    var todo := Names(source, dir);
    ghost var seen: set<string> := {};
    while todo != {}
      invariant Copied(source, destination, done, dir, seen)
      invariant Waiting(destination, done, pending, {dir})
      invariant Counted(source, destination, failing, fileCount, totalBytes)
      invariant seen !! todo && seen + todo == Names(source, dir)
      decreases todo
    {
      var name :| name in todo;
      todo := todo - {name};
      var path := dir + [name];
      var entry := source[path];
      AddsEntry(source, destination, done, dir, seen, name);
      CopiedIsPart(source, destination, done, dir, seen);
      if path in failing || entry.Link? || entry.Special?
         || (entry.File? && ExceedsLimits(fileCount, totalBytes, |entry.bytes|)) {
        RefusedIsNotStageable(source, destination, failing, fileCount, totalBytes, path);
        ok := false;
        return;
      }
      if entry.Folder? {
        AddsFolder(destination, done, pending, dir, path, entry);
        CountsFolder(source, destination, failing, fileCount, totalBytes, path, entry);
        pending := pending + [path];
      } else {
        AddsFile(destination, done, pending, dir, path, entry);
        CountsFile(source, destination, failing, fileCount, totalBytes, path);
        fileCount := fileCount + 1;
        totalBytes := totalBytes + |entry.bytes|;
      }
      destination := destination[path := entry];
      seen := seen + {name};
    }
    assert seen == Names(source, dir);
    ClosesFolder(source, destination, done, pending, dir);
  }

  predicate ExceedsLimits(fileCount: nat, totalBytes: nat, length: nat) {
    || fileCount + 1 > MAXIMUM_STAGED_NPM_FILES
    || length > MAXIMUM_STAGED_NPM_FILE_BYTES
    || totalBytes + length > MAXIMUM_STAGED_NPM_TOTAL_BYTES
  }

  /**
   `copy_npm_runtime`. Any operation on a path in `failing` is refused by the system; the source does not
   change meanwhile.
   */
  method CopyNpmRuntime(source: Tree, destinationExists: bool, failing: set<Path>) returns (ok: bool, destination: Tree)
    requires WellFormed(source)
    ensures ok <==> Stageable(source) && !destinationExists && Unhindered(source, failing)
    ensures ok ==> destination == source
  {
    destination := map[];
    if [] !in source || !source[[]].Folder? || destinationExists || [] in failing {
      return false, destination;
    }
    hide Copied, Waiting, Counted, Stageable, Unhindered, WellFormed, Files, Folders;
    destination := map[[] := Folder];
    StartsAtRoot(source, failing);
    var pending: seq<Path> := [[]];
    var fileCount: nat, directoryCount: nat, totalBytes: nat := 0, 0, 0;
    ghost var done: set<Path> := {};
    while pending != []
      invariant Copied(source, destination, done, [], {})
      invariant Waiting(destination, done, pending, {})
      invariant Counted(source, destination, failing, fileCount, totalBytes)
      invariant directoryCount == |done| <= MAXIMUM_STAGED_NPM_DIRECTORIES
      decreases MAXIMUM_STAGED_NPM_DIRECTORIES - directoryCount
    {
      TakesLast(source, destination, done, pending);
      var dir := pending[|pending| - 1];
      pending := pending[..|pending| - 1];
      directoryCount := directoryCount + 1;
      if directoryCount > MAXIMUM_STAGED_NPM_DIRECTORIES {
        TooManyFolders(source);
        return false, destination;
      }
      ok, destination, pending, fileCount, totalBytes :=
        CopyFolder(source, failing, done, dir, destination, pending, fileCount, totalBytes);
      if !ok {
        return;
      }
      done := done + {dir};
    }
    DoneMeansEqual(source, destination, done);
    AllFoldersDone(destination, done);
    StageableExactly(source, failing, directoryCount, fileCount, totalBytes);
    ok := fileCount > 0 && ["bin", "npm-cli.js"] in Files(destination) && ["package.json"] in Files(destination);
  }

  lemma TooManyFolders(source: Tree)
    requires |Folders(source)| > MAXIMUM_STAGED_NPM_DIRECTORIES
    ensures !Stageable(source)
  {}
}
