/**
 * A search criterion: an ordered list of filters combined under AND or OR.
 * The Java evaluation loops become methods proved equal to "every filter
 * accepts" and "some filter accepts".
 */
module Criteria {
  import opened Tree
  import opened Filters

  datatype FilterLogicalOperator = And | Or

  datatype SearchCriteria = SearchCriteria(filters: seq<Filter>, op: FilterLogicalOperator)

  /** Every filter of `fs` accepts `file`. */
  predicate AllAccept(fs: seq<Filter>, file: Node)
    requires file.File?
  {
    forall i :: 0 <= i < |fs| ==> IsValid(fs[i], file)
  }

  /** Some filter of `fs` accepts `file`. */
  predicate SomeAccepts(fs: seq<Filter>, file: Node)
    requires file.File?
  {
    exists i :: 0 <= i < |fs| && IsValid(fs[i], file)
  }

  /** What the criterion decides for `file`: the operator picks the combination rule. */
  predicate Accepts(sc: SearchCriteria, file: Node)
    requires file.File?
  {
    match sc.op
    case And => AllAccept(sc.filters, file)
    case Or => SomeAccepts(sc.filters, file)
  }

  /** `validateAndOperator`: scans every filter, clearing `answer` on each rejection. */
  method ValidateAndOperator(sc: SearchCriteria, file: Node) returns (answer: bool)
    requires file.File?
    ensures answer <==> AllAccept(sc.filters, file)
  {
    answer := true;
    var i := 0;
    while i < |sc.filters|
      invariant 0 <= i <= |sc.filters|
      invariant answer <==> AllAccept(sc.filters[..i], file)
    {
      if !IsValid(sc.filters[i], file) {
        answer := false;
      }
      assert sc.filters[..i + 1] == sc.filters[..i] + [sc.filters[i]];
      i := i + 1;
    }
    assert sc.filters[..i] == sc.filters;
  }

  /** `validateOrOperator`: returns true at the first filter that accepts. */
  method ValidateOrOperator(sc: SearchCriteria, file: Node) returns (answer: bool)
    requires file.File?
    ensures answer <==> SomeAccepts(sc.filters, file)
  {
    var i := 0;
    while i < |sc.filters|
      invariant 0 <= i <= |sc.filters|
      invariant forall k :: 0 <= k < i ==> !IsValid(sc.filters[k], file)
    {
      if IsValid(sc.filters[i], file) {
        return true;
      }
      i := i + 1;
    }
    return false;
  }

  /** `validateFilters`: dispatches on the operator. */
  method ValidateFilters(sc: SearchCriteria, file: Node) returns (answer: bool)
    requires file.File?
    ensures answer <==> Accepts(sc, file)
  {
    match sc.op
    case And => answer := ValidateAndOperator(sc, file);
    case Or => answer := ValidateOrOperator(sc, file);
  }

  /** AND over no filters accepts every file; OR over no filters accepts none. */
  lemma EmptyCriteria(op: FilterLogicalOperator, file: Node)
    requires file.File?
    ensures Accepts(SearchCriteria([], op), file) <==> op == And
  {
  }

  /** An AND criterion accepts exactly when no filter rejects, one filter at a time. */
  lemma {:induction false} AndUnfolds(f: Filter, fs: seq<Filter>, file: Node)
    requires file.File?
    ensures AllAccept([f] + fs, file) <==> IsValid(f, file) && AllAccept(fs, file)
  {
    var s := [f] + fs;
    if IsValid(f, file) && AllAccept(fs, file) {
      forall i | 0 <= i < |s| ensures IsValid(s[i], file) {
        if i > 0 { assert s[i] == fs[i - 1]; }
      }
    }
    if AllAccept(s, file) {
      assert s[0] == f;
      forall i | 0 <= i < |fs| ensures IsValid(fs[i], file) {
        assert s[i + 1] == fs[i];
      }
    }
  }

  /** An OR criterion accepts exactly when the first or a later filter accepts. */
  lemma {:induction false} OrUnfolds(f: Filter, fs: seq<Filter>, file: Node)
    requires file.File?
    ensures SomeAccepts([f] + fs, file) <==> IsValid(f, file) || SomeAccepts(fs, file)
  {
    var s := [f] + fs;
    if SomeAccepts(s, file) {
      var i :| 0 <= i < |s| && IsValid(s[i], file);
      if i > 0 { assert s[i] == fs[i - 1]; }
    }
    if SomeAccepts(fs, file) {
      var i :| 0 <= i < |fs| && IsValid(fs[i], file);
      assert s[i + 1] == fs[i];
    }
    if IsValid(f, file) {
      assert s[0] == f;
    }
  }

  /** AND and OR agree on a single filter: both are that filter. */
  lemma SingleFilter(f: Filter, op: FilterLogicalOperator, file: Node)
    requires file.File?
    ensures Accepts(SearchCriteria([f], op), file) <==> IsValid(f, file)
  {
    assert [f][0] == f;
  }

  /** AND evaluated with short-circuit, as a left-to-right `&&` chain. */
  predicate ShortCircuitAnd(fs: seq<Filter>, file: Node)
    requires file.File?
  {
    fs == [] || (IsValid(fs[0], file) && ShortCircuitAnd(fs[1..], file))
  }

  /** Since filters have no side effects, stopping at the first rejection decides the same. */
  lemma {:induction false} ShortCircuitAndAgrees(fs: seq<Filter>, file: Node)
    requires file.File?
    ensures ShortCircuitAnd(fs, file) <==> AllAccept(fs, file)
  {
    if fs != [] {
      assert [fs[0]] + fs[1..] == fs;
      AndUnfolds(fs[0], fs[1..], file);
      ShortCircuitAndAgrees(fs[1..], file);
    }
  }

  /** OR evaluated left to right as a `||` chain, stopping at the first acceptance. */
  predicate ShortCircuitOr(fs: seq<Filter>, file: Node)
    requires file.File?
  {
    fs != [] && (IsValid(fs[0], file) || ShortCircuitOr(fs[1..], file))
  }

  /** Stopping at the first accepting filter decides the same as asking whether any accepts. */
  lemma {:induction false} ShortCircuitOrAgrees(fs: seq<Filter>, file: Node)
    requires file.File?
    ensures ShortCircuitOr(fs, file) <==> SomeAccepts(fs, file)
  {
    if fs != [] {
      assert [fs[0]] + fs[1..] == fs;
      OrUnfolds(fs[0], fs[1..], file);
      ShortCircuitOrAgrees(fs[1..], file);
    }
  }
}
