/** Rust's `str::split` with a single-character pattern, the way the query
    scanner in suc.rs uses it: `query.split("&")` and `param.split("=")`.
    The pieces are the maximal runs between separators, so there is always at
    least one piece (`"".split("=")` yields `[""]`) and no piece contains the
    separator. */
module RustStr {

  /** Position of the first `c` in `s`, or `|s|` when `c` does not occur. */
  function IndexOf(s: string, c: char): (i: nat)
    ensures i <= |s|
    ensures i < |s| ==> s[i] == c
    ensures c !in s[..i]
  {
    if s == [] then 0
    else if s[0] == c then 0
    else
      var i := 1 + IndexOf(s[1..], c);
      assert s[..i] == [s[0]] + s[1..][..i - 1];
      i
  }

  /** `s.split(sep).collect::<Vec<&str>>()`. */
  function Split(s: string, sep: char): (pieces: seq<string>)
    ensures |pieces| >= 1
    ensures forall k :: 0 <= k < |pieces| ==> sep !in pieces[k]
    ensures pieces[0] == s[..IndexOf(s, sep)]
    decreases |s|
  {
    var i := IndexOf(s, sep);
    if i == |s| then
      assert s[..i] == s;
      [s]
    else
      [s[..i]] + Split(s[i + 1..], sep)
  }

  /** There is more than one piece exactly when the separator occurs. */
  lemma SplitManyIff(s: string, sep: char)
    ensures |Split(s, sep)| >= 2 <==> sep in s
  {
  }

  /** The inverse of Split: the pieces glued back together with `sep`. */
  function Join(pieces: seq<string>, sep: char): string
    requires |pieces| >= 1
  {
    if |pieces| == 1 then pieces[0]
    else pieces[0] + [sep] + Join(pieces[1..], sep)
  }

  /** `v` occurs in `s` as a contiguous run. */
  ghost predicate IsSubstring(v: string, s: string)
  {
    exists a, b :: 0 <= a <= b <= |s| && s[a..b] == v
  }

  /** Splitting loses nothing: joining the pieces gives back the input. */
  lemma {:induction false} JoinSplit(s: string, sep: char)
    ensures Join(Split(s, sep), sep) == s
    decreases |s|
  {
    var i := IndexOf(s, sep);
    if i < |s| {
      var rest := s[i + 1..];
      var pieces := Split(s, sep);
      assert pieces == [s[..i]] + Split(rest, sep);
      assert |pieces| > 1 && pieces[1..] == Split(rest, sep);
      JoinSplit(rest, sep);
      calc {
        Join(pieces, sep);
        pieces[0] + [sep] + Join(pieces[1..], sep);
        s[..i] + [sep] + rest;
        { assert s == s[..i] + [sep] + rest; }
        s;
      }
    } else {
      assert Split(s, sep) == [s];
    }
  }

  /** Splitting is the inverse of joining pieces that are free of `sep`. */
  lemma {:induction false} SplitJoin(pieces: seq<string>, sep: char)
    requires |pieces| >= 1
    requires forall k :: 0 <= k < |pieces| ==> sep !in pieces[k]
    ensures Split(Join(pieces, sep), sep) == pieces
  {
    if |pieces| > 1 {
      SplitJoin(pieces[1..], sep);
      SplitCons(pieces[0], sep, Join(pieces[1..], sep));
      assert pieces == [pieces[0]] + pieces[1..];
    } else {
      SplitNoSep(pieces[0], sep);
    }
  }

  /** A string without the separator splits into itself alone. */
  lemma SplitNoSep(p: string, sep: char)
    requires sep !in p
    ensures Split(p, sep) == [p]
  {
    assert IndexOf(p, sep) == |p|;
  }

  /** A leading separator-free run followed by the separator is the first piece. */
  lemma SplitCons(p: string, sep: char, rest: string)
    requires sep !in p
    ensures Split(p + [sep] + rest, sep) == [p] + Split(rest, sep)
  {
    var s := p + [sep] + rest;
    IndexOfPrefix(p, sep, rest);
    assert s[..|p|] == p;
    assert s[|p| + 1..] == rest;
  }

  lemma {:induction false} IndexOfPrefix(p: string, sep: char, rest: string)
    requires sep !in p
    ensures IndexOf(p + [sep] + rest, sep) == |p|
  {
    var s := p + [sep] + rest;
    if p != [] {
      assert s[1..] == p[1..] + [sep] + rest;
      IndexOfPrefix(p[1..], sep, rest);
    }
  }

  /** Piece 1 is the text strictly between the first and the second `sep`
      (or the end of `s` when there is no second one). */
  lemma SplitSecondPiece(s: string, sep: char)
    requires |Split(s, sep)| >= 2
    ensures var rest := s[IndexOf(s, sep) + 1..];
            Split(s, sep)[1] == rest[..IndexOf(rest, sep)]
  {
  }

  /** Every piece of a split occurs in the split string. */
  lemma {:induction false} SplitPieceIsSubstring(s: string, sep: char, k: nat)
    requires k < |Split(s, sep)|
    ensures IsSubstring(Split(s, sep)[k], s)
    decreases |s|
  {
    var i := IndexOf(s, sep);
    if k == 0 {
      assert s[0..i] == Split(s, sep)[0];
    } else {
      var rest := s[i + 1..];
      assert Split(s, sep)[k] == Split(rest, sep)[k - 1];
      SplitPieceIsSubstring(rest, sep, k - 1);
      assert IsSubstring(rest, s) by {
        assert s[i + 1..|s|] == rest;
      }
      SubstringTransitive(Split(rest, sep)[k - 1], rest, s);
    }
  }

  lemma SubstringTransitive(u: string, v: string, w: string)
    requires IsSubstring(u, v) && IsSubstring(v, w)
    ensures IsSubstring(u, w)
  {
    var a, b :| 0 <= a <= b <= |v| && v[a..b] == u;
    var c, d :| 0 <= c <= d <= |w| && w[c..d] == v;
    forall j | 0 <= j < b - a
      ensures u[j] == w[c + a + j]
    {
      assert u[j] == v[a + j];
      assert v[a + j] == w[c..d][a + j];
    }
    assert w[c + a..c + b] == u;
  }

  /** A character absent from a string is absent from each of its substrings. */
  lemma SubstringExcludes(v: string, s: string, c: char)
    requires IsSubstring(v, s) && c !in s
    ensures c !in v
  {
  }
}
