# UnixFindApi in Dafny

A model of a small in-memory filesystem with a Unix-`find`-like query
(`src/UnixFindApi.java`). A tree of files and directories is searched from a
directory named by a `/`-separated path; every file in that directory's
subtree that a search criterion accepts is returned, in pre-order, children in
stored order. A criterion is an ordered list of filters (by name, by
extension, by size against a threshold) combined under AND or OR.

Layout, one module per component:

- `wrappers.dfy` — `Option` (`None` stands for Java `null`) and `Result`.
- `tree.dfy` — `Tree.Node`, the files of a tree in pre-order (`Files`), and membership (`Contains`).
- `filters.dfy` — `Filters.Filter` with its single evaluation `IsValid`, and the `SizeFilter` constructor as written and as intended.
- `criteria.dfy` — `Criteria.SearchCriteria` and the three evaluation loops as methods.
- `paths.dfy` — the leading-`/` strip and Java's `String.split("/")`.
- `filesystem.dfy` — `find` (both overloads), `changeDirectory` and `changeDirectoryDFS`, with the walk they implement and what it reaches.
- `demo.dfy` — the demonstration tree of `main` and the queries on it.

Modelling choices:

- The `isDirectory` flag and the downcasts become the constructors `File` and `Directory` of one datatype, and a `match`.
- `FileSystem` never changes its root and `SearchCriteria` never changes its fields, so both become values. The root is passed to each operation.
- `find(dir, sc, files)` appends to a list that the caller passes in. The model takes that list as a value and returns the extended list.
- `changeDirectoryDFS` overwrites `answer` for every matching directory child. So the LAST matching sibling decides, even when its search fails and an earlier sibling's would have succeeded. `Walk` states this rule, and `LastSiblingDecides` proves it.
- A `null` result from `changeDirectory` becomes `Failure(PathNotFound)`; the Java `find` would then dereference `null`. A path that splits into no segments (`"//"`, `"///"`) from a directory root becomes `Failure(MalformedPath)`; the Java code would index an empty array. From a file root the Java code reads nothing and returns `null`, so every path, these included, becomes `Failure(PathNotFound)`.

In three places the code behaves differently from what a reader might expect. The model follows the code:

- `"/"` does not resolve to the root. After the strip its one segment is `""`. The root is only returned at depth equal to the number of segments, and depth 0 is not 1. No child is a directory named `""`. `Demo.RootPathNotFound` proves the result.
- The demonstration files are built with the two-argument `File` constructor. That constructor never sets a size, so every size in `Demo` is 0, not 10 and 20.
- Sibling directories with equal names resolve to the last one. They do not resolve to the first, and they are not rejected.

## Model

| member | source | states |
|---|---|---|
| `Tree.Files` | src/UnixFindApi.java:166-183 | the pre-order list of a tree holds files only, never a directory |
| `Tree.FilesContains` | src/UnixFindApi.java:166-183 | a file is in the pre-order list of a tree exactly when it occurs somewhere in that tree |
| `Tree.FilesOfPrefix` | src/UnixFindApi.java:179-182 | (definitional: `FilesOf` unfolded once) searching one more child appends that child's files after those of the earlier children |
| `Filters.IsValid` | src/UnixFindApi.java:47-97 | the single evaluation of the three filters; a size filter decides by the separately written ordering `Compares` of its comparator |
| `Filters.NameFilterMatches` | src/UnixFindApi.java:47-50 | (definitional) a name filter accepts a file exactly when the file's name equals the target (value equality) |
| `Filters.ExtensionFilterMatches` | src/UnixFindApi.java:60-63 | (definitional) an extension filter accepts a file exactly when the file's extension equals the target (value equality) |
| `Filters.SizeFilterCompares` | src/UnixFindApi.java:83-97 | a size filter accepts exactly the files whose size is `>`, `>=`, `<` or `<=` the threshold, as its comparator says; the comparator set is closed, so the fallback `return false` never happens |
| `Filters.SizeFilterComplements` | src/UnixFindApi.java:86-95 | LESS_THAN accepts exactly what GREATER_EQUAL_THAN rejects, and LESS_EQUAL_THAN exactly what GREATER_THAN rejects |
| `Filters.NewSizeFilterAsWritten` | src/UnixFindApi.java:74-81 | (definitional) the constructor as written keeps the comparator but leaves the threshold at 0 whatever size is passed |
| `Filters.NewSizeFilter` | src/UnixFindApi.java:74-81 | (definitional) the intended constructor stores the caller's size as the threshold and keeps the comparator |
| `Filters.SizeFilterAsWrittenIgnoresSize` | src/UnixFindApi.java:78-88 | as written, "size > 15" accepts a file of size 10; as intended it does not |
| `Filters.NewSizeFilterCompares` | src/UnixFindApi.java:78-97 | as intended, a size filter compares the file's size with the size given to the constructor |
| `Criteria.ValidateAndOperator` | src/UnixFindApi.java:125-134 | scanning every filter without stopping returns true exactly when every filter accepts the file (true for no filters) |
| `Criteria.ValidateOrOperator` | src/UnixFindApi.java:136-143 | returning at the first accepting filter gives true exactly when some filter accepts the file (false for no filters) |
| `Criteria.ValidateFilters` | src/UnixFindApi.java:114-123 | the operator selects the rule: AND means every filter accepts, OR means some filter accepts |
| `Criteria.EmptyCriteria` | src/UnixFindApi.java:114-143 | with no filters, AND accepts every file and OR accepts none |
| `Criteria.ShortCircuitAndAgrees` | src/UnixFindApi.java:125-134 | stopping at the first rejecting filter decides the same as scanning them all |
| `Criteria.ShortCircuitOrAgrees` | src/UnixFindApi.java:136-143 | a left-to-right `||` chain that stops at the first acceptance decides the same as "some filter accepts" |
| `Criteria.SingleFilter` | src/UnixFindApi.java:114-143 | with one filter, AND and OR both decide as that filter does |
| `Paths.StripLeadingSlash` | src/UnixFindApi.java:187-190 | exactly one leading `/` is removed when there is one, and otherwise the path is left unchanged |
| `Paths.Pieces` | src/UnixFindApi.java:192 | splitting yields at least one piece and no piece contains `/` |
| `Paths.Join` | src/UnixFindApi.java:192 | joining two or more pieces puts a `/` right after the first piece |
| `Paths.JoinPieces` | src/UnixFindApi.java:192 | joining the pieces with `/` gives back the split string |
| `Paths.PiecesJoin` | src/UnixFindApi.java:192 | splitting words that contain no `/`, after joining them with `/`, gives back the words |
| `Paths.DropTrailingEmpty` | src/UnixFindApi.java:192 | Java's split drops the trailing empty segments and nothing else: what remains is a prefix ending in a non-empty segment |
| `Paths.Split` | src/UnixFindApi.java:192 | Java's `split("/")`: no segment contains `/`; `SplitEmptyIff` and `SplitJoin` pin down when it is empty and that it undoes joining |
| `Paths.Segments` | src/UnixFindApi.java:187-192 | the segments looked up for a path contain no `/`; `SegmentsEmptyIff` and `SegmentsOfWord` say when there are none and what a one-word path gives |
| `Paths.SplitEmptyIff` | src/UnixFindApi.java:192 | the split has no segments exactly when the string is non-empty and consists only of `/` |
| `Paths.SegmentsEmptyIff` | src/UnixFindApi.java:185-192 | a path has no segments exactly when it is two or more `/` and nothing else |
| `Paths.SplitJoin` | src/UnixFindApi.java:192 | two or more slash-free words ending in a non-empty one split back into themselves |
| `Paths.SegmentsOfWord` | src/UnixFindApi.java:185-192 | `/w` for a slash-free `w`, `""` included, has the single segment `w` |
| `FileSystem.Select` | src/UnixFindApi.java:166-175 | selecting keeps only files and never lengthens the list |
| `FileSystem.SelectMembers` | src/UnixFindApi.java:166-175 | a file is selected exactly when it is in the list and the criterion accepts it |
| `FileSystem.SelectAppend` | src/UnixFindApi.java:179-182 | selecting from two lists in turn is selecting from their concatenation |
| `FileSystem.SelectEverything` | src/UnixFindApi.java:166-175 | a criterion that accepts every file selects the whole list |
| `FileSystem.FindInto` | src/UnixFindApi.java:166-183 | the list afterwards is the list before, unchanged, followed by the subtree's accepted files in pre-order with children in stored order |
| `FileSystem.FoundIff` | src/UnixFindApi.java:166-183 | a file is found exactly when it occurs in the subtree and the criterion accepts it; directories are never found |
| `FileSystem.FilesCountsOccurrences` | src/UnixFindApi.java:166-183 | the traversal lists each file of the tree exactly as many times as it occurs there |
| `FileSystem.FindEverything` | src/UnixFindApi.java:166-183 | with a criterion that accepts every file, find returns every file of the subtree, each exactly as often as it occurs |
| `FileSystem.LastMatch` | src/UnixFindApi.java:206-211 | the index found is a directory child named by the segment with no such child after it; when none is found there is no such child at all |
| `FileSystem.Walk` | src/UnixFindApi.java:196-216 | only directories are ever reached |
| `FileSystem.WalkSound` | src/UnixFindApi.java:196-216 | whatever is reached lies at the end of a chain of directories whose names are the segments in order |
| `FileSystem.WalkComplete` | src/UnixFindApi.java:196-216 | when sibling directories have distinct names, every directory at the end of such a chain is reached |
| `FileSystem.LastSiblingDecides` | src/UnixFindApi.java:206-211 | among several sibling directories named by the segment, the last one in stored order decides the result |
| `FileSystem.NoMatchingChild` | src/UnixFindApi.java:204-215 | a segment that names no directory child, including one that names a file, resolves to nothing |
| `FileSystem.ChangeDirectoryDfs` | src/UnixFindApi.java:196-216 | the recursive descent with its overwriting loop returns exactly what the walk from `fd` along the remaining segments reaches; past the last segment, or at it with a directory of another name, it returns nothing |
| `FileSystem.Resolve` | src/UnixFindApi.java:185-216 | what `changeDirectory` answers: only directories are resolved, only a directory root with no segments is malformed, and a file root resolves nothing |
| `FileSystem.ChangeDirectory` | src/UnixFindApi.java:185-194 | strips one leading `/`, splits, and descends from the root at depth 0; fails as malformed when a directory root has no segments to look up and as not found when nothing is reached |
| `FileSystem.ResolveMalformedIff` | src/UnixFindApi.java:185-199 | resolution fails as malformed exactly for a directory root and a path of two or more `/` and nothing else |
| `FileSystem.FileRootResolvesNothing` | src/UnixFindApi.java:192-215 | from a file root every path, `//` included, is not found: the name test stops at `isDirectory` and nothing is indexed |
| `FileSystem.ResolveSound` | src/UnixFindApi.java:185-216 | a resolved path is a directory reached through directories named by its segments |
| `FileSystem.ResolveComplete` | src/UnixFindApi.java:185-216 | with distinct sibling directory names, every directory named by the segments is resolved |
| `FileSystem.Find` | src/UnixFindApi.java:155-164 | fails exactly when the path does not resolve, with the same reason; otherwise returns the resolved directory's accepted files in pre-order |
| `Demo.SegmentsExamplesLearn` | src/UnixFindApi.java:185-192 | `/examples/learn` has the segments `examples` and `learn` |
| `Demo.WalkExamplesLearn` | src/UnixFindApi.java:231-241 | on the demonstration tree the walk along `examples`, `learn` reaches `learn` |
| `Demo.FindPdfInLearn` | src/UnixFindApi.java:231-247 | the query of `main` resolves `/examples/learn` and finds `book1` then `book2` |
| `Demo.FindPdfInJosh` | src/UnixFindApi.java:237-238 | `/josh` resolves and the pdf query there is an empty success |
| `Demo.RootPathNotFound` | src/UnixFindApi.java:185-215 | `/` does not resolve to the root of the demonstration tree |
| `Demo.NonexistentNotFound` | src/UnixFindApi.java:196-215 | `/nonexistent` does not resolve |
| `Demo.FileSegmentNotFound` | src/UnixFindApi.java:204-215 | `/test`, the name of a file, does not resolve |
| `Demo.DoubleSlashMalformed` | src/UnixFindApi.java:187-199 | `//` has no segments and fails as malformed |

## Findings

| source | as written | input that shows it | evidently intended | confidence | as-written member | corrected member |
|---|---|---|---|---|---|---|
| src/UnixFindApi.java:78-81 | `size = rSize` assigns the field's default 0 to the parameter, so the threshold stays 0 | `new SizeFilter(15, GREATER_THAN)` on a file of size 10 accepts it | `rSize = size`, so the caller's size is the threshold | high; not executed | `Filters.SizeFilterAsWrittenIgnoresSize` | `Filters.NewSizeFilterCompares` |

The rest of the model uses the corrected constructor, `SizeFilter(threshold, comparator)`.

## Left out

- `main` and the demonstration tree are not modelled as code (lines 221-253). The tree appears only as constants in `Demo`, with the queries as lemmas.
- `File.content` (line 19) is left out because no operation reads it.
- Java compares names and extensions with `==` (lines 49, 62), which is reference identity. The model uses value equality instead; Dafny strings are values.
- A `Directory` whose `fileDirectories` list was never assigned is `null` in Java, and a traversal of it faults. The model's children are always a sequence, so this case is not modelled. A `null` root is not modelled either.
- The abstract base `Filter.isValid` (lines 35-37) is not a variant. It is never instantiated, and the filter set is closed.
- The `return false` fallbacks at lines 96 and 122 are not modelled. Both switches cover every enum value, so the `match` is exhaustive.
- `FindInto` receives its list by value and returns the extended list. Aliasing of the caller's `ArrayList` is not modelled.
- `ChangeDirectoryDfs`: its preconditions rule out exactly the calls where the Java code would index outside `paths`. These are a directory with an empty `paths`, and a directory with children, not returned by the name test, at a depth at or past the number of segments. Every other call, a file or a childless directory at any depth included, is modelled. `ChangeDirectory` and every recursive call meet the preconditions. For a directory root with an empty split, `ChangeDirectory` reports `MalformedPath`.
- Java `String.split` is modelled only for the single-character pattern `/` with the default limit. General regular expressions are left out.
- Sizes are unbounded integers rather than 32-bit `int`. They are only compared, never computed, so no wrap-around can arise.
