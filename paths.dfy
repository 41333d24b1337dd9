/**
 * Turning a directory path into its segments: at most one leading '/' is
 * removed, and the rest is split on '/' the way Java's `String.split("/")`
 * does it (with the default limit): trailing empty segments are dropped, and
 * an input without any '/' comes back as the one segment it is.
 */
module Paths {

  /** The path with one leading '/' removed, if it has one. */
  function StripLeadingSlash(p: string): (r: string)
    ensures if |p| > 0 && p[0] == '/' then p == ['/'] + r else r == p
  {
    if |p| > 0 && p[0] == '/' then p[1..] else p
  }

  /** `s` consists of '/' characters only. */
  predicate AllSlashes(s: string)
  {
    forall i :: 0 <= i < |s| ==> s[i] == '/'
  }

  /** Every piece between two separators, empty pieces included, before Java drops any. */
  function Pieces(s: string): (r: seq<string>)
    ensures |r| >= 1
    ensures forall i :: 0 <= i < |r| ==> '/' !in r[i]
  {
    if s == [] then [""]
    else
      var rest := Pieces(s[1..]);
      if s[0] == '/' then [""] + rest else [[s[0]] + rest[0]] + rest[1..]
  }

  /** The pieces glued back together with '/' between consecutive ones. */
  function Join(ps: seq<string>): (r: string)
    requires |ps| >= 1
    ensures |ps| > 1 ==> |r| > |ps[0]| && r[|ps[0]|] == '/'
  {
    if |ps| == 1 then ps[0] else ps[0] + "/" + Join(ps[1..])
  }

  /** Splitting loses nothing: the pieces joined by '/' give back the input. */
  lemma {:induction false} JoinPieces(s: string)
    ensures Join(Pieces(s)) == s
  {
    if s != [] {
      var rest := Pieces(s[1..]);
      JoinPieces(s[1..]);
      if s[0] != '/' {
        var r := [[s[0]] + rest[0]] + rest[1..];
        assert r[1..] == rest[1..];
        if |rest| > 1 {
          assert Join(rest) == rest[0] + "/" + Join(rest[1..]);
        }
      } else {
        assert ([""] + rest)[1..] == rest;
      }
      assert [s[0]] + s[1..] == s;
    }
  }

  /** The pieces with the trailing empty ones removed. */
  function DropTrailingEmpty(ps: seq<string>): (r: seq<string>)
    ensures r <= ps
    ensures r == [] || r[|r| - 1] != ""
    ensures forall i :: |r| <= i < |ps| ==> ps[i] == ""
  {
    if ps == [] || ps[|ps| - 1] != "" then ps else DropTrailingEmpty(ps[..|ps| - 1])
  }

  /** Java's `s.split("/")`. */
  function Split(s: string): (r: seq<string>)
    ensures forall i :: 0 <= i < |r| ==> '/' !in r[i]
  {
    if '/' !in s then [s] else DropTrailingEmpty(Pieces(s))
  }

  /** The segments `changeDirectory` walks for `path`. */
  function Segments(path: string): (r: seq<string>)
    ensures forall i :: 0 <= i < |r| ==> '/' !in r[i]
  {
    Split(StripLeadingSlash(path))
  }

  lemma {:induction false} JoinOfEmpties(ps: seq<string>)
    requires |ps| >= 1
    requires forall i :: 0 <= i < |ps| ==> ps[i] == ""
    ensures AllSlashes(Join(ps))
  {
    if |ps| > 1 {
      JoinOfEmpties(ps[1..]);
    }
  }

  lemma {:induction false} PiecesOfSlashes(s: string)
    requires AllSlashes(s)
    ensures forall i :: 0 <= i < |Pieces(s)| ==> Pieces(s)[i] == ""
  {
    if s != [] {
      PiecesOfSlashes(s[1..]);
    }
  }

  /** Java's split gives no segments exactly for a non-empty string of separators only. */
  lemma SplitEmptyIff(s: string)
    ensures Split(s) == [] <==> |s| > 0 && AllSlashes(s)
  {
    if |s| > 0 && AllSlashes(s) {
      assert s[0] == '/';
      PiecesOfSlashes(s);
    }
    if Split(s) == [] {
      assert '/' in s;
      JoinPieces(s);
      JoinOfEmpties(Pieces(s));
    }
  }

  /** A path has no segments exactly when it is two or more separators and nothing else. */
  lemma SegmentsEmptyIff(path: string)
    ensures Segments(path) == [] <==> |path| >= 2 && AllSlashes(path)
  {
    var t := StripLeadingSlash(path);
    SplitEmptyIff(t);
    if |path| > 0 && path[0] == '/' {
      assert forall i :: 0 <= i < |t| ==> t[i] == path[i + 1];
      if AllSlashes(t) {
        assert forall i :: 1 <= i < |path| ==> path[i] == t[i - 1];
      }
    }
  }

  /** A string without separators is a single piece. */
  lemma {:induction false} PiecesOfWord(w: string)
    requires '/' !in w
    ensures Pieces(w) == [w]
  {
    if w != [] {
      PiecesOfWord(w[1..]);
      assert [w[0]] + w[1..] == w;
    }
  }

  /** Splitting at the first separator: the word before it is the first piece. */
  lemma {:induction false} PiecesAfterWord(w: string, rest: string)
    requires '/' !in w
    ensures Pieces(w + "/" + rest) == [w] + Pieces(rest)
  {
    if w == [] {
      assert w + "/" + rest == ['/'] + rest;
      assert (['/'] + rest)[1..] == rest;
    } else {
      var s := w + "/" + rest;
      assert s[1..] == w[1..] + "/" + rest;
      PiecesAfterWord(w[1..], rest);
      assert [w[0]] + w[1..] == w;
    }
  }

  /** Splitting never cuts inside a word: the pieces of words joined by '/' are those words. */
  lemma {:induction false} PiecesJoin(ps: seq<string>)
    requires |ps| >= 1
    requires forall i :: 0 <= i < |ps| ==> '/' !in ps[i]
    ensures Pieces(Join(ps)) == ps
  {
    if |ps| == 1 {
      PiecesOfWord(ps[0]);
    } else {
      PiecesJoin(ps[1..]);
      PiecesAfterWord(ps[0], Join(ps[1..]));
      assert [ps[0]] + ps[1..] == ps;
    }
  }

  /**
   * Split undoes Join for words without separators, provided there are at
   * least two words and the last is not empty (Java drops trailing empties).
   */
  lemma SplitJoin(ws: seq<string>)
    requires |ws| >= 2 && ws[|ws| - 1] != ""
    requires forall i :: 0 <= i < |ws| ==> '/' !in ws[i]
    ensures Split(Join(ws)) == ws
  {
    var s := Join(ws);
    assert s[|ws[0]|] == '/';
    PiecesJoin(ws);
  }

  /** A rooted path of one word, the empty word included, has that word as its one segment. */
  lemma SegmentsOfWord(w: string)
    requires '/' !in w
    ensures Segments("/" + w) == [w]
  {
    assert ("/" + w)[1..] == w;
  }
}
