/**
 * The in-memory filesystem tree: a node is either a file (a leaf with a name,
 * an extension and a size) or a directory with an ordered list of children.
 * The Java original's `isDirectory` flag and downcasts become the two
 * constructors of one datatype and a `match`.
 */
module Tree {

  datatype Node =
    | File(name: string, ext: string, size: int)
    | Directory(name: string, children: seq<Node>)

  /** The files of the tree rooted at `n`, in pre-order, children in stored order. */
  function Files(n: Node): (r: seq<Node>)
    ensures forall k :: 0 <= k < |r| ==> r[k].File?
    decreases n, 1
  {
    match n
    case File(_, _, _) => [n]
    case Directory(_, cs) => FilesOf(cs)
  }

  /** The files of the trees `cs`, one after the other. */
  function FilesOf(cs: seq<Node>): (r: seq<Node>)
    ensures forall k :: 0 <= k < |r| ==> r[k].File?
    decreases cs, 0
  {
    if cs == [] then [] else FilesOf(cs[..|cs| - 1]) + Files(cs[|cs| - 1])
  }

  /** `f` is a file that occurs somewhere in the tree rooted at `n`. */
  ghost predicate Contains(n: Node, f: Node)
    decreases n
  {
    match n
    case File(_, _, _) => n == f
    case Directory(_, cs) => exists i :: 0 <= i < |cs| && Contains(cs[i], f)
  }

  /** The pre-order list holds exactly the files that occur in the tree. */
  lemma {:induction false} FilesContains(n: Node, f: Node)
    ensures f in Files(n) <==> Contains(n, f)
    decreases n, 1
  {
    match n
    case File(_, _, _) =>
    case Directory(_, cs) => FilesOfContains(cs, f);
  }

  lemma {:induction false} FilesOfContains(cs: seq<Node>, f: Node)
    ensures f in FilesOf(cs) <==> exists i :: 0 <= i < |cs| && Contains(cs[i], f)
    decreases cs, 0
  {
    if cs != [] {
      var last := |cs| - 1;
      var init := cs[..last];
      FilesOfContains(init, f);
      FilesContains(cs[last], f);
      if f in FilesOf(cs) {
        if f in FilesOf(init) {
          var i :| 0 <= i < |init| && Contains(init[i], f);
          assert cs[i] == init[i];
        }
      }
      if exists i :: 0 <= i < |cs| && Contains(cs[i], f) {
        var i :| 0 <= i < |cs| && Contains(cs[i], f);
        if i < last {
          assert init[i] == cs[i];
        }
      }
    }
  }

  /** Splitting the children after the `k`-th one splits their file list the same way. */
  lemma {:induction false} FilesOfPrefix(cs: seq<Node>, k: nat)
    requires k < |cs|
    ensures FilesOf(cs[..k + 1]) == FilesOf(cs[..k]) + Files(cs[k])
  {
    assert cs[..k + 1][..k] == cs[..k];
  }
}
