/**
 * The demonstration tree built by `UnixFindApi.main` and the queries it
 * supports. Files are made with the two-argument Java constructor, which
 * never sets a size, so every size here is 0.
 *
 *             ""
 *     /        |        \
 *  examples   josh    test.png
 *  /   |   \     \
 * learn f1.xml f2.xml  hello.java
 *  /    \
 * book1.pdf book2.pdf
 */
module Demo {
  import opened Wrappers
  import opened Tree
  import opened Filters
  import opened Criteria
  import opened Paths
  import opened FileSystem

  const Book1 := File("book1", "pdf", 0)
  const Book2 := File("book2", "pdf", 0)
  const Learn := Directory("learn", [Book1, Book2])
  const Examples := Directory("examples", [Learn, File("f1", "xml", 0), File("f2", "xml", 0)])
  const Josh := Directory("josh", [File("hello", "java", 0)])
  const Root := Directory("", [Examples, Josh, File("test", "png", 0)])

  /** The query of `main`: extension "pdf" under AND. */
  const PdfQuery := SearchCriteria([ExtensionFilter("pdf")], And)

  lemma SegmentsExamplesLearn()
    ensures Segments("/examples/learn") == ["examples", "learn"]
  {
    var ws := ["examples", "learn"];
    assert Join(ws) == "examples/learn" by {
      assert ws[1..] == ["learn"];
    }
    SplitJoin(ws);
  }

  lemma WalkExamplesLearn()
    ensures Walk(Root, ["examples", "learn"]) == Some(Learn)
  {
    var top := Root.children;
    assert top[..2][..1] == [Examples] && top[..2][1] == Josh;
    assert LastMatch(top[..2], "examples") == LastMatch([Examples], "examples") == Some(0);
    assert top[..2] == top[..|top| - 1];
    assert LastMatch(top, "examples") == Some(0);
    var under := Examples.children;
    assert under[..2][..1] == [Learn] && under[..2][1].File?;
    assert LastMatch(under[..2], "learn") == LastMatch([Learn], "learn") == Some(0);
    assert under[..2] == under[..|under| - 1];
    assert LastMatch(under, "learn") == Some(0);
    assert ["examples", "learn"][1..] == ["learn"];
    assert ["learn"][1..] == [];
    assert Walk(Learn, []) == Some(Learn);
    assert Walk(Examples, ["learn"]) == Some(Learn);
  }

  lemma FilesOfLearn()
    ensures Files(Learn) == [Book1, Book2]
  {
    assert Learn.children[..1] == [Book1];
    assert [Book1][..0] == [];
    assert FilesOf([Book1]) == [Book1];
    assert FilesOf(Learn.children) == FilesOf([Book1]) + Files(Book2);
  }

  /** "/examples/learn" resolves to `learn`, and the pdf query finds both books in order. */
  lemma FindPdfInLearn()
    ensures Resolve(Root, "/examples/learn") == Success(Learn)
    ensures Select(Files(Learn), PdfQuery) == [Book1, Book2]
  {
    SegmentsExamplesLearn();
    WalkExamplesLearn();
    FilesOfLearn();
    SingleFilter(ExtensionFilter("pdf"), And, Book1);
    SingleFilter(ExtensionFilter("pdf"), And, Book2);
    var books := [Book1, Book2];
    assert books[..1] == [Book1] && [Book1][..0] == [];
    assert Select([Book1], PdfQuery) == [Book1];
  }

  /** "/josh" resolves, and the pdf query finds nothing there: an empty success, not a failure. */
  lemma FindPdfInJosh()
    ensures Resolve(Root, "/josh") == Success(Josh)
    ensures Select(Files(Josh), PdfQuery) == []
  {
    SegmentsOfWord("josh");
    assert "/" + "josh" == "/josh";
    var top := Root.children;
    assert top[..2][1] == Josh && top[..2] == top[..|top| - 1];
    assert LastMatch(top, "josh") == Some(1);
    assert ["josh"][1..] == [];
    assert Walk(Josh, []) == Some(Josh);
    assert Walk(Root, ["josh"]) == Some(Josh);
    var hello := Josh.children[0];
    assert Josh.children[..0] == [] && !IsValid(ExtensionFilter("pdf"), hello);
    SingleFilter(ExtensionFilter("pdf"), And, hello);
    assert Files(Josh) == [hello];
    assert [hello][..0] == [];
  }

  /** "/" does not resolve to the root: its one segment is "", and no child is a directory named "". */
  lemma RootPathNotFound()
    ensures Resolve(Root, "/") == Failure(PathNotFound)
  {
    SegmentsOfWord("");
    assert "/" + "" == "/";
    NoMatchingChild(Root, [""]);
  }

  /** A name that no child carries does not resolve. */
  lemma NonexistentNotFound()
    ensures Resolve(Root, "/nonexistent") == Failure(PathNotFound)
  {
    SegmentsOfWord("nonexistent");
    assert "/" + "nonexistent" == "/nonexistent";
    NoMatchingChild(Root, ["nonexistent"]);
  }

  /** A segment naming a file does not resolve either. */
  lemma FileSegmentNotFound()
    ensures Resolve(Root, "/test") == Failure(PathNotFound)
  {
    SegmentsOfWord("test");
    assert "/" + "test" == "/test";
    NoMatchingChild(Root, ["test"]);
  }

  /** "//" has no segments, where the Java code would index an empty array. */
  lemma DoubleSlashMalformed()
    ensures Resolve(Root, "//") == Failure(MalformedPath)
  {
    ResolveMalformedIff(Root, "//");
  }
}
