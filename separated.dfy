/**
 * Lists written as their pieces with a separator character between them,
 * as the JSON-lines trace writes records and values and as configuration
 * key paths are written, and cut apart again.
 */
module Separated {

  /** Pieces separated by `sep`. */
  function Join(ss: seq<string>, sep: char): string
  {
    if |ss| == 0 then ""
    else if |ss| == 1 then ss[0]
    else Join(ss[..|ss| - 1], sep) + [sep] + ss[|ss| - 1]
  }

  /** A string cut at each `sep`. */
  function Split(s: string, sep: char): (r: seq<string>)
    ensures |r| >= 1
  {
    if s == [] then [[]]
    else
      var p := Split(s[..|s| - 1], sep);
      var c := s[|s| - 1];
      if c == sep then p + [[]] else p[..|p| - 1] + [p[|p| - 1] + [c]]
  }

  predicate NoSep(s: string, sep: char)
  {
    forall i :: 0 <= i < |s| ==> s[i] != sep
  }

  /** Text without the separator extends the last piece. */
  lemma {:induction false} SplitNoSep(a: string, b: string, sep: char)
    requires NoSep(b, sep)
    ensures var p := Split(a, sep);
            Split(a + b, sep) == p[..|p| - 1] + [p[|p| - 1] + b]
    decreases |b|
  {
    if b == [] {
      SplitNoSepEmpty(a, sep);
    } else {
      var b' := b[..|b| - 1];
      SplitNoSep(a, b', sep);
      SplitNoSepStep(a, b', b[|b| - 1], sep);
      SnocSplit(a, b);
    }
  }

  lemma SplitNoSepEmpty(a: string, sep: char)
    ensures var p := Split(a, sep);
            Split(a + [], sep) == p[..|p| - 1] + [p[|p| - 1] + []]
  {
    var p := Split(a, sep);
    assert a + [] == a;
    assert p[|p| - 1] + [] == p[|p| - 1];
    assert p[..|p| - 1] + [p[|p| - 1]] == p;
  }

  /** The inductive step of `SplitNoSep`: one more character that is not the separator. */
  lemma SplitNoSepStep(a: string, b: string, c: char, sep: char)
    requires c != sep
    requires var p := Split(a, sep);
             Split(a + b, sep) == p[..|p| - 1] + [p[|p| - 1] + b]
    ensures var p := Split(a, sep);
            Split((a + b) + [c], sep) == p[..|p| - 1] + [p[|p| - 1] + (b + [c])]
  {
    SplitLast(a + b, c, sep);
    ExtendLast(Split(a, sep), b, [c]);
  }

  /** A non-empty string is its front and its last character. */
  lemma SnocSplit(a: string, b: string)
    requires b != []
    ensures a + b == (a + b[..|b| - 1]) + [b[|b| - 1]]
    ensures b == b[..|b| - 1] + [b[|b| - 1]]
  {
  }

  /** Extending the last piece twice extends it by both. */
  lemma ExtendLast(p: seq<string>, x: string, y: string)
    requires |p| >= 1
    ensures var q := p[..|p| - 1] + [p[|p| - 1] + x];
            q[..|q| - 1] + [q[|q| - 1] + y] == p[..|p| - 1] + [p[|p| - 1] + (x + y)]
  {
    var q := p[..|p| - 1] + [p[|p| - 1] + x];
    assert q[..|q| - 1] == p[..|p| - 1];
    assert q[|q| - 1] + y == p[|p| - 1] + (x + y);
  }

  /** One more character: a separator starts a new piece, anything else extends the last. */
  lemma SplitLast(s: string, c: char, sep: char)
    ensures var p := Split(s, sep);
            Split(s + [c], sep) == if c == sep then p + [[]] else p[..|p| - 1] + [p[|p| - 1] + [c]]
  {
    assert (s + [c])[..|s|] == s;
  }

  /** Splitting undoes joining, for pieces without the separator. */
  lemma {:induction false} SplitJoin(ss: seq<string>, sep: char)
    requires |ss| >= 1 && forall i :: 0 <= i < |ss| ==> NoSep(ss[i], sep)
    ensures Split(Join(ss, sep), sep) == ss
  {
    if |ss| == 1 {
      SplitNoSep([], ss[0], sep);
      assert [] + ss[0] == ss[0];
    } else {
      var init := ss[..|ss| - 1];
      SplitJoin(init, sep);
      SplitJoinStep(init, ss[|ss| - 1], sep);
      assert init + [ss[|ss| - 1]] == ss;
    }
  }

  /** The inductive step of `SplitJoin`: one more piece after a separator. */
  lemma SplitJoinStep(init: seq<string>, last: string, sep: char)
    requires NoSep(last, sep) && Split(Join(init, sep), sep) == init
    ensures Split(Join(init, sep) + [sep] + last, sep) == init + [last]
  {
    SplitLast(Join(init, sep), sep, sep);
    SplitNoSep(Join(init, sep) + [sep], last, sep);
    assert (init + [[]])[..|init|] == init;
    assert [] + last == last;
  }

  /** Joining non-empty pieces gives a non-empty string exactly when there is a record. */
  lemma {:induction false} JoinNonEmpty(ss: seq<string>, sep: char)
    requires forall i :: 0 <= i < |ss| ==> ss[i] != []
    ensures Join(ss, sep) == [] <==> ss == []
  {
    if |ss| > 1 {
      JoinNonEmpty(ss[..|ss| - 1], sep);
    }
  }
}
