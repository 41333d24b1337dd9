/**
 * Single predicates over a file: by name, by extension, or by size against a
 * threshold under one of four comparators. The Java class hierarchy becomes
 * one closed datatype with one evaluation function.
 */
module Filters {
  import opened Tree

  datatype SizeComparator = GreaterThan | LessThan | GreaterEqualThan | LessEqualThan

  datatype Filter =
    | NameFilter(rName: string)
    | ExtensionFilter(rExt: string)
    | SizeFilter(rSize: int, comparator: SizeComparator)

  /**
   * Whether `filter` accepts `file`; names and extensions compare as values,
   * and a size filter decides by the ordering its comparator denotes.
   */
  function IsValid(filter: Filter, file: Node): (r: bool)
    requires file.File?
    ensures filter.SizeFilter? ==> (r <==> Compares(filter.comparator, file.size, filter.rSize))
  {
    match filter
    case NameFilter(n) => file.name == n
    case ExtensionFilter(e) => file.ext == e
    case SizeFilter(s, c) =>
      match c
      case GreaterThan => file.size > s
      case GreaterEqualThan => file.size >= s
      case LessThan => file.size < s
      case LessEqualThan => file.size <= s
  }

  /** The ordering that a size comparator denotes, stated on its own. */
  predicate Compares(c: SizeComparator, x: int, y: int)
  {
    (c == GreaterThan && x > y) || (c == GreaterEqualThan && (x > y || x == y))
    || (c == LessThan && y > x) || (c == LessEqualThan && !(x > y))
  }

  /** A size filter accepts exactly the files whose size compares to the threshold. */
  lemma SizeFilterCompares(s: int, c: SizeComparator, file: Node)
    requires file.File?
    ensures IsValid(SizeFilter(s, c), file) <==> Compares(c, file.size, s)
  {
  }

  /** "Less than" accepts exactly what "greater or equal" rejects, and similarly for the other pair. */
  lemma SizeFilterComplements(s: int, file: Node)
    requires file.File?
    ensures IsValid(SizeFilter(s, LessThan), file) <==> !IsValid(SizeFilter(s, GreaterEqualThan), file)
    ensures IsValid(SizeFilter(s, LessEqualThan), file) <==> !IsValid(SizeFilter(s, GreaterThan), file)
  {
  }

  /** A name filter accepts a file exactly when the names are equal. */
  lemma NameFilterMatches(n: string, file: Node)
    requires file.File?
    ensures IsValid(NameFilter(n), file) <==> file.name == n
  {
  }

  /** An extension filter accepts a file exactly when the extensions are equal. */
  lemma ExtensionFilterMatches(e: string, file: Node)
    requires file.File?
    ensures IsValid(ExtensionFilter(e), file) <==> file.ext == e
  {
  }

  /**
   * The Java constructor `SizeFilter(int size, SizeComparator c)` as written:
   * it assigns its own parameter (`size = rSize`), so the threshold field keeps
   * its default value 0 whatever size the caller passes.
   */
  function NewSizeFilterAsWritten(size: int, c: SizeComparator): (f: Filter)
    ensures f.SizeFilter? && f.comparator == c && f.rSize == 0
  {
    SizeFilter(0, c)
  }

  /** The constructor as intended: the caller's size becomes the threshold. */
  function NewSizeFilter(size: int, c: SizeComparator): (f: Filter)
    ensures f.SizeFilter? && f.comparator == c && f.rSize == size
  {
    SizeFilter(size, c)
  }

  /** With the constructor as written, "size > 15" accepts a file of size 10. */
  lemma SizeFilterAsWrittenIgnoresSize()
    ensures IsValid(NewSizeFilterAsWritten(15, GreaterThan), File("book1", "pdf", 10))
    ensures !IsValid(NewSizeFilter(15, GreaterThan), File("book1", "pdf", 10))
  {
  }

  /** With the corrected constructor, the filter compares against the caller's size. */
  lemma NewSizeFilterCompares(size: int, c: SizeComparator, file: Node)
    requires file.File?
    ensures IsValid(NewSizeFilter(size, c), file) <==> Compares(c, file.size, size)
  {
  }
}
