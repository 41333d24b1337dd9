/**
 * The filesystem's two operations: resolving a directory path from the root
 * (`changeDirectory` and its recursive helper `changeDirectoryDFS`) and
 * collecting the files of a subtree that a criterion accepts (`find`).
 */
module FileSystem {
  import opened Wrappers
  import opened Tree
  import opened Filters
  import opened Criteria
  import opened Paths

  /**
   * Why `find` fails: the path names no directory (the Java code then
   * dereferences `null`), or it splits into no segments at all (the Java code
   * then indexes an empty array).
   */
  datatype Error = PathNotFound | MalformedPath

  // ---------------------------------------------------------------- find

  /** The files of `fs` that `sc` accepts, in their order in `fs`. */
  function Select(fs: seq<Node>, sc: SearchCriteria): (r: seq<Node>)
    requires forall k :: 0 <= k < |fs| ==> fs[k].File?
    ensures |r| <= |fs|
    ensures forall k :: 0 <= k < |r| ==> r[k].File?
  {
    if fs == [] then []
    else
      var last := fs[|fs| - 1];
      Select(fs[..|fs| - 1], sc) + (if Accepts(sc, last) then [last] else [])
  }

  /** A file is selected exactly when it is in the list and the criterion accepts it. */
  lemma {:induction false} SelectMembers(fs: seq<Node>, sc: SearchCriteria, f: Node)
    requires forall k :: 0 <= k < |fs| ==> fs[k].File?
    ensures f in Select(fs, sc) <==> f in fs && Accepts(sc, f)
  {
    if fs != [] {
      var init := fs[..|fs| - 1];
      SelectMembers(init, sc, f);
      assert fs == init + [fs[|fs| - 1]];
    }
  }

  /** Selecting from two lists one after the other is selecting from their concatenation. */
  lemma {:induction false} SelectAppend(a: seq<Node>, b: seq<Node>, sc: SearchCriteria)
    requires forall k :: 0 <= k < |a| ==> a[k].File?
    requires forall k :: 0 <= k < |b| ==> b[k].File?
    ensures Select(a + b, sc) == Select(a, sc) + Select(b, sc)
  {
    if b == [] {
      assert a + b == a;
    } else {
      var init := b[..|b| - 1];
      assert (a + b)[..|a + b| - 1] == a + init;
      assert (a + b)[|a + b| - 1] == b[|b| - 1];
      SelectAppend(a, init, sc);
    }
  }

  /** A criterion that accepts every file selects the whole list. */
  lemma {:induction false} SelectEverything(fs: seq<Node>, sc: SearchCriteria)
    requires forall k :: 0 <= k < |fs| ==> fs[k].File? && Accepts(sc, fs[k])
    ensures Select(fs, sc) == fs
  {
    if fs != [] {
      SelectEverything(fs[..|fs| - 1], sc);
    }
  }

  /** One more child searched extends the accumulated list by that child's selected files. */
  lemma SelectNextChild(files: seq<Node>, before: seq<Node>, after: seq<Node>, cs: seq<Node>, i: nat, sc: SearchCriteria)
    requires i < |cs|
    requires before == files + Select(FilesOf(cs[..i]), sc)
    requires after == before + Select(Files(cs[i]), sc)
    ensures after == files + Select(FilesOf(cs[..i + 1]), sc)
  {
    var done, next := FilesOf(cs[..i]), Files(cs[i]);
    FilesOfPrefix(cs, i);
    SelectAppend(done, next, sc);
    ConcatAssoc(files, Select(done, sc), Select(next, sc));
  }

  lemma ConcatAssoc(a: seq<Node>, b: seq<Node>, c: seq<Node>)
    ensures (a + b) + c == a + (b + c)
  {
  }

  lemma SelectFile(file: Node, sc: SearchCriteria)
    requires file.File?
    ensures Select(Files(file), sc) == if Accepts(sc, file) then [file] else []
  {
    assert [file][..0] == [];
  }

  /**
   * `find(FD dir, SearchCriteria sc, List<File> files)`: appends to `files`,
   * in pre-order and children in stored order, every file under `dir` that
   * `sc` accepts. The list is passed and returned by value.
   */
  method FindInto(dir: Node, sc: SearchCriteria, files: seq<Node>) returns (files': seq<Node>)
    ensures files' == files + Select(Files(dir), sc)
    decreases dir
  {
    if dir.File? {
      var ok := ValidateFilters(sc, dir);
      SelectFile(dir, sc);
      if ok {
        files' := files + [dir];
      } else {
        files' := files;
        assert files + [] == files;
      }
      return;
    }
    var cs := dir.children;
    files' := files;
    var i := 0;
    assert cs[..0] == [] && files + [] == files;
    while i < |cs|
      invariant 0 <= i <= |cs|
      invariant files' == files + Select(FilesOf(cs[..i]), sc)
    {
      ghost var before := files';
      files' := FindInto(cs[i], sc, files');
      SelectNextChild(files, before, files', cs, i, sc);
      i := i + 1;
    }
    assert cs[..i] == cs;
    assert Files(dir) == FilesOf(cs);
  }

  /** A file is found exactly when it occurs in the subtree and the criterion accepts it. */
  lemma FoundIff(dir: Node, sc: SearchCriteria, f: Node)
    ensures f in Select(Files(dir), sc) <==> Contains(dir, f) && f.File? && Accepts(sc, f)
  {
    FilesContains(dir, f);
    SelectMembers(Files(dir), sc, f);
  }

  /** How many times the file `f` occurs in the tree rooted at `n`. */
  ghost function Occurrences(n: Node, f: Node): nat
    decreases n, 1
  {
    match n
    case File(_, _, _) => if n == f then 1 else 0
    case Directory(_, cs) => OccurrencesIn(cs, f)
  }

  ghost function OccurrencesIn(cs: seq<Node>, f: Node): nat
    decreases cs, 0
  {
    if cs == [] then 0 else Occurrences(cs[0], f) + OccurrencesIn(cs[1..], f)
  }

  lemma {:induction false} OccurrencesInSplit(cs: seq<Node>, f: Node)
    requires cs != []
    ensures OccurrencesIn(cs, f) == OccurrencesIn(cs[..|cs| - 1], f) + Occurrences(cs[|cs| - 1], f)
    decreases |cs|
  {
    if |cs| > 1 {
      OccurrencesInSplit(cs[1..], f);
      assert cs[1..][..|cs[1..]| - 1] == cs[..|cs| - 1][1..];
    }
  }

  /** The pre-order list holds each file of the tree exactly as often as it occurs there. */
  lemma {:induction false} FilesCountsOccurrences(n: Node, f: Node)
    ensures multiset(Files(n))[f] == Occurrences(n, f)
    decreases n, 1
  {
    match n
    case File(_, _, _) =>
    case Directory(_, cs) => FilesOfCountsOccurrences(cs, f);
  }

  lemma {:induction false} FilesOfCountsOccurrences(cs: seq<Node>, f: Node)
    ensures multiset(FilesOf(cs))[f] == OccurrencesIn(cs, f)
    decreases cs, 0
  {
    if cs != [] {
      FilesOfCountsOccurrences(cs[..|cs| - 1], f);
      FilesCountsOccurrences(cs[|cs| - 1], f);
      OccurrencesInSplit(cs, f);
    }
  }

  /**
   * With a criterion that accepts every file, `find` returns every file of
   * the subtree, each as often as it occurs there, and nothing else.
   */
  lemma FindEverything(dir: Node, sc: SearchCriteria, f: Node)
    requires forall g :: Contains(dir, g) ==> g.File? && Accepts(sc, g)
    ensures Select(Files(dir), sc) == Files(dir)
    ensures multiset(Select(Files(dir), sc))[f] == Occurrences(dir, f)
  {
    var fs := Files(dir);
    forall k | 0 <= k < |fs| ensures Accepts(sc, fs[k]) {
      FilesContains(dir, fs[k]);
    }
    SelectEverything(fs, sc);
    FilesCountsOccurrences(dir, f);
  }

  // ---------------------------------------------------------- changeDirectory

  /** `c` is a directory whose name is the segment `seg`. */
  predicate Matches(c: Node, seg: string)
  {
    c.Directory? && c.name == seg
  }

  /** The index of the last child in `cs` that is a directory named `seg`. */
  function LastMatch(cs: seq<Node>, seg: string): (r: Option<nat>)
    ensures r.Some? ==> r.value < |cs| && Matches(cs[r.value], seg)
    ensures r.Some? ==> forall k :: r.value < k < |cs| ==> !Matches(cs[k], seg)
    ensures r.None? ==> forall k :: 0 <= k < |cs| ==> !Matches(cs[k], seg)
  {
    if cs == [] then None
    else if Matches(cs[|cs| - 1], seg) then Some(|cs| - 1)
    else LastMatch(cs[..|cs| - 1], seg)
  }

  /**
   * Descending from `n` through the segments `segs`: at each step into the
   * last child that is a directory named by the next segment. Only
   * directories are ever reached.
   */
  function Walk(n: Node, segs: seq<string>): (r: Option<Node>)
    ensures r.Some? ==> r.value.Directory?
    decreases n
  {
    match n
    case File(_, _, _) => None
    case Directory(_, cs) =>
      if segs == [] then Some(n)
      else
        match LastMatch(cs, segs[0])
        case None => None
        case Some(j) => Walk(cs[j], segs[1..])
  }

  /** There is a chain of directories from `n` to `d` whose names are `segs` in order. */
  ghost predicate Reaches(n: Node, segs: seq<string>, d: Node)
    decreases n
  {
    n.Directory? &&
    if segs == [] then d == n
    else exists i :: 0 <= i < |n.children| && Matches(n.children[i], segs[0])
                     && Reaches(n.children[i], segs[1..], d)
  }

  /** No directory in the tree has two directory children of the same name. */
  ghost predicate UniqueDirectoryNames(n: Node)
    decreases n
  {
    match n
    case File(_, _, _) => true
    case Directory(_, cs) =>
      (forall i, j :: 0 <= i < |cs| && 0 <= j < |cs| && cs[i].Directory? && Matches(cs[j], cs[i].name) ==> i == j)
      && (forall i :: 0 <= i < |cs| ==> UniqueDirectoryNames(cs[i]))
  }

  /** Whatever the walk reaches is reached by descending through directories named by the segments. */
  lemma {:induction false} WalkSound(n: Node, segs: seq<string>, d: Node)
    requires Walk(n, segs) == Some(d)
    ensures Reaches(n, segs, d)
    decreases n
  {
    if segs != [] {
      var j := LastMatch(n.children, segs[0]).value;
      WalkSound(n.children[j], segs[1..], d);
    }
  }

  /** When sibling directories have distinct names, the walk finds every directory the segments name. */
  lemma {:induction false} WalkComplete(n: Node, segs: seq<string>, d: Node)
    requires UniqueDirectoryNames(n)
    requires Reaches(n, segs, d)
    ensures Walk(n, segs) == Some(d)
    decreases n
  {
    if segs != [] {
      var cs := n.children;
      var i :| 0 <= i < |cs| && Matches(cs[i], segs[0]) && Reaches(cs[i], segs[1..], d);
      var j := LastMatch(cs, segs[0]).value;
      assert i == j;
      WalkComplete(cs[i], segs[1..], d);
    }
  }

  /** Among several sibling directories of the segment's name, the last one decides. */
  lemma LastSiblingDecides(n: Node, segs: seq<string>, j: nat)
    requires n.Directory? && segs != [] && j < |n.children|
    requires Matches(n.children[j], segs[0])
    requires forall k :: j < k < |n.children| ==> !Matches(n.children[k], segs[0])
    ensures Walk(n, segs) == Walk(n.children[j], segs[1..])
  {
    var r := LastMatch(n.children, segs[0]);
    assert r.Some? && r.value == j;
  }

  /** A segment naming no directory child, a file child included, ends the walk with nothing. */
  lemma NoMatchingChild(n: Node, segs: seq<string>)
    requires n.Directory? && segs != []
    requires forall k :: 0 <= k < |n.children| ==> !Matches(n.children[k], segs[0])
    ensures Walk(n, segs) == None
  {
    assert LastMatch(n.children, segs[0]).None?;
  }

  /**
   * `changeDirectoryDFS(fd, paths, depth)`: `fd` is returned when it is a
   * directory at the last depth whose name is the last segment; otherwise
   * every directory child named by the current segment is searched and the
   * last such search overwrites `answer`. The two requires exclude exactly
   * the calls where the Java code reads outside `paths`: a directory with an
   * empty `paths` (the name test reads `paths[-1]`), and a directory with
   * children that is not returned at a depth past the last segment (the
   * child loop reads `paths[depth]`). A file, or a childless directory, is
   * answered with nothing at any depth.
   */
  method ChangeDirectoryDfs(fd: Node, paths: seq<string>, depth: nat) returns (answer: Option<Node>)
    requires fd.Directory? ==> 0 < |paths|
    requires fd.Directory? && fd.children != [] && !(fd.name == paths[|paths| - 1] && depth == |paths|)
             ==> depth < |paths|
    ensures depth <= |paths| && (depth == |paths| && fd.Directory? ==> fd.name == paths[depth - 1])
            ==> answer == Walk(fd, paths[depth..])
    ensures depth > |paths| || (depth == |paths| && fd.Directory? && fd.name != paths[depth - 1])
            ==> answer == None
    decreases fd
  {
    answer := None;
    if fd.Directory? && fd.name == paths[|paths| - 1] && depth == |paths| {
      return Some(fd);
    }
    if fd.Directory? {
      var cs := fd.children;
      var i := 0;
      while i < |cs|
        invariant 0 <= i <= |cs|
        invariant depth >= |paths| ==> answer == None
        invariant depth < |paths| ==>
                    answer == match LastMatch(cs[..i], paths[depth])
                              case None => None
                              case Some(j) => Walk(cs[j], paths[depth + 1..])
      {
        var c := cs[i];
        if c.name == paths[depth] && c.Directory? {
          answer := ChangeDirectoryDfs(c, paths, depth + 1);
        }
        assert cs[..i + 1][..i] == cs[..i];
        i := i + 1;
      }
      if depth < |paths| {
        assert cs[..i] == cs;
        assert paths[depth..][1..] == paths[depth + 1..];
      }
    }
  }

  /**
   * What `changeDirectory(path)` resolves to, from the root `root`. Only a
   * directory root with no segments to look up is malformed; a file root
   * resolves nothing, whatever the path.
   */
  function Resolve(root: Node, path: string): (r: Result<Node, Error>)
    ensures r.Success? ==> r.value.Directory?
    ensures r == Failure(MalformedPath) ==> root.Directory? && Segments(path) == []
    ensures root.File? ==> r == Failure(PathNotFound)
  {
    var segs := Segments(path);
    if segs == [] && root.Directory? then Failure(MalformedPath)
    else
      match Walk(root, segs)
      case None => Failure(PathNotFound)
      case Some(d) => Success(d)
  }

  /**
   * `changeDirectory(path)`: strips one leading '/', splits the rest on '/'
   * and descends from the root at depth 0.
   */
  method ChangeDirectory(root: Node, path: string) returns (r: Result<Node, Error>)
    ensures r == Resolve(root, path)
  {
    var paths := Split(StripLeadingSlash(path));
    if |paths| == 0 && root.Directory? {
      return Failure(MalformedPath);
    }
    var dir := ChangeDirectoryDfs(root, paths, 0);
    assert paths[0..] == paths;
    match dir
    case None => r := Failure(PathNotFound);
    case Some(d) => r := Success(d);
  }

  /** A file at the root resolves no path, the all-'/' paths included. */
  lemma FileRootResolvesNothing(name: string, ext: string, size: int, path: string)
    ensures Resolve(File(name, ext, size), path) == Failure(PathNotFound)
  {
  }

  /** A path fails as malformed exactly when the root is a directory and the path is two or more '/' and nothing else. */
  lemma ResolveMalformedIff(root: Node, path: string)
    ensures Resolve(root, path) == Failure(MalformedPath) <==> root.Directory? && |path| >= 2 && AllSlashes(path)
  {
    SegmentsEmptyIff(path);
  }

  /** A resolved path is a directory reached through directories named by its segments. */
  lemma ResolveSound(root: Node, path: string)
    requires Resolve(root, path).Success?
    ensures Resolve(root, path).value.Directory?
    ensures Reaches(root, Segments(path), Resolve(root, path).value)
  {
    WalkSound(root, Segments(path), Resolve(root, path).value);
  }

  /** With distinct sibling directory names, every directory the segments name is resolved. */
  lemma ResolveComplete(root: Node, path: string, d: Node)
    requires UniqueDirectoryNames(root)
    requires Segments(path) != [] && Reaches(root, Segments(path), d)
    ensures Resolve(root, path) == Success(d)
  {
    WalkComplete(root, Segments(path), d);
  }

  /**
   * `find(directoryPath, searchCriteria)`: the accepted files of the resolved
   * directory's subtree in pre-order, or the reason the path did not resolve.
   */
  method Find(root: Node, path: string, sc: SearchCriteria) returns (r: Result<seq<Node>, Error>)
    ensures Resolve(root, path).Failure? ==> r == Failure(Resolve(root, path).error)
    ensures Resolve(root, path).Success? ==> r == Success(Select(Files(Resolve(root, path).value), sc))
  {
    var dp := ChangeDirectory(root, path);
    match dp
    case Failure(e) => r := Failure(e);
    case Success(d) =>
      var files := FindInto(d, sc, []);
      assert [] + Select(Files(d), sc) == Select(Files(d), sc);
      r := Success(files);
  }
}
