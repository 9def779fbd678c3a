/**
 * split_source_prefixes: splits a search path on the platform's path
 * delimiter (':' on Linux and Darwin, ';' on Windows).
 */
module SourcePrefixes {
  import opened Common

  const LinuxDelimiter: char := ':'
  const WindowsDelimiter: char := ';'

  /** Each piece followed by the delimiter. */
  function Terminated(pieces: seq<string>, d: char): string
  {
    if pieces == [] then [] else pieces[0] + [d] + Terminated(pieces[1..], d)
  }

  /** The pieces with the delimiter between consecutive ones. */
  function Join(pieces: seq<string>, d: char): string
  {
    if pieces == [] then []
    else if |pieces| == 1 then pieces[0]
    else pieces[0] + [d] + Join(pieces[1..], d)
  }

  /** Number of occurrences of `d` in `s`. */
  function Occurrences(s: string, d: char): nat
  {
    if s == [] then 0 else (if s[0] == d then 1 else 0) + Occurrences(s[1..], d)
  }

  lemma {:induction false} OccurrencesAppend(a: string, b: string, d: char)
    ensures Occurrences(a + b, d) == Occurrences(a, d) + Occurrences(b, d)
  {
    if a != [] {
      assert (a + b)[0] == a[0];
      assert (a + b)[1..] == a[1..] + b;
      OccurrencesAppend(a[1..], b, d);
    } else {
      assert a + b == b;
    }
  }

  lemma {:induction false} OccurrencesAbsent(s: string, d: char)
    requires d !in s
    ensures Occurrences(s, d) == 0
  {
    if s != [] {
      OccurrencesAbsent(s[1..], d);
    }
  }

  /** `out` is the splitting of `s` on `d`. */
  ghost predicate IsSplit(s: string, d: char, out: seq<string>)
  {
    && Join(out, d) == s
    && (forall i :: 0 <= i < |out| ==> d !in out[i])
    && |out| == Occurrences(s, d) + 1
  }

  /** std::string::find(d, from). */
  function Find(s: string, d: char, from: nat): (r: Option<nat>)
    ensures r.Some? ==> from <= r.value < |s| && s[r.value] == d && d !in s[from..r.value]
    ensures r.None? ==> forall i :: from <= i < |s| ==> s[i] != d
    decreases |s| - from
  {
    if from >= |s| then None
    else if s[from] == d then Some(from)
    else Find(s, d, from + 1)
  }

  lemma {:induction false} TerminatedSnoc(pieces: seq<string>, x: string, d: char)
    ensures Terminated(pieces + [x], d) == Terminated(pieces, d) + x + [d]
  {
    if pieces != [] {
      assert (pieces + [x])[1..] == pieces[1..] + [x];
      TerminatedSnoc(pieces[1..], x, d);
    }
  }

  lemma {:induction false} JoinSnoc(pieces: seq<string>, t: string, d: char)
    ensures Join(pieces + [t], d) == Terminated(pieces, d) + t
  {
    if pieces != [] {
      assert (pieces + [t])[1..] == pieces[1..] + [t];
      JoinSnoc(pieces[1..], t, d);
    }
  }

  /** One turn of the loop: the piece up to the next delimiter is closed. */
  lemma SplitStep(s: string, d: char, out: seq<string>, last: nat, k: nat)
    requires last <= k < |s| && s[k] == d && d !in s[last..k]
    requires Terminated(out, d) == s[..last]
    requires |out| == Occurrences(s[..last], d)
    ensures Terminated(out + [s[last..k]], d) == s[..k + 1]
    ensures |out + [s[last..k]]| == Occurrences(s[..k + 1], d)
  {
    TerminatedSnoc(out, s[last..k], d);
    assert s[..k + 1] == s[..last] + s[last..k] + [d];
    OccurrencesAppend(s[..last], s[last..k], d);
    OccurrencesAppend(s[..last] + s[last..k], [d], d);
    OccurrencesAbsent(s[last..k], d);
    assert Occurrences([d], d) == 1;
  }

  /** After the loop: the rest of the string is the last piece. */
  lemma SplitFinish(s: string, d: char, out: seq<string>, last: nat)
    requires last <= |s| && forall i :: last <= i < |s| ==> s[i] != d
    requires Terminated(out, d) == s[..last]
    requires |out| == Occurrences(s[..last], d)
    ensures Join(out + [s[last..]], d) == s
    ensures d !in s[last..]
    ensures |out + [s[last..]]| == Occurrences(s, d) + 1
  {
    JoinSnoc(out, s[last..], d);
    assert s == s[..last] + s[last..];
    OccurrencesAppend(s[..last], s[last..], d);
    OccurrencesAbsent(s[last..], d);
  }

  /**
   * split_source_prefixes.  Every delimiter closes one piece; the text after
   * the last delimiter is always pushed as the final piece, because `last`
   * never exceeds the length of the string.
   */
  method SplitSourcePrefixes(s: string, d: char) returns (out: seq<string>)
    ensures Join(out, d) == s
    ensures forall i :: 0 <= i < |out| ==> d !in out[i]
    ensures |out| == Occurrences(s, d) + 1
  {
    out := [];
    var last: nat := 0;
    var next := Find(s, d, last);
    while next.Some?
      invariant last <= |s|
      invariant Terminated(out, d) == s[..last]
      invariant forall i :: 0 <= i < |out| ==> d !in out[i]
      invariant |out| == Occurrences(s[..last], d)
      invariant next == Find(s, d, last)
      decreases |s| - last
    {
      var k := next.value;
      SplitStep(s, d, out, last, k);
      out := out + [s[last..k]];
      last := k + 1;
      next := Find(s, d, last);
    }
    if last <= |s| {
      SplitFinish(s, d, out, last);
      out := out + [s[last..]];
    }
  }

  /** In a join of several pieces the first delimiter closes the first piece. */
  lemma FirstPieceEndsAtDelimiter(a: seq<string>, d: char)
    requires |a| > 1 && d !in a[0]
    ensures |a[0]| < |Join(a, d)| && Join(a, d)[|a[0]|] == d
    ensures forall i :: 0 <= i < |a[0]| ==> Join(a, d)[i] != d
  {
    assert Join(a, d) == a[0] + [d] + Join(a[1..], d);
  }

  /** Joining is injective on delimiter-free pieces. */
  lemma {:induction false} JoinInjective(a: seq<string>, b: seq<string>, d: char)
    requires |a| > 0 && |b| > 0
    requires forall i :: 0 <= i < |a| ==> d !in a[i]
    requires forall i :: 0 <= i < |b| ==> d !in b[i]
    requires Join(a, d) == Join(b, d)
    ensures a == b
  {
    var p, q := a[0], b[0];
    if |a| > 1 && |b| > 1 {
      var ja, jb := Join(a, d), Join(b, d);
      FirstPieceEndsAtDelimiter(a, d);
      FirstPieceEndsAtDelimiter(b, d);
      assert |p| == |q|;
      assert p == ja[..|p|] == jb[..|q|] == q;
      assert Join(a[1..], d) == ja[|p| + 1..] == jb[|q| + 1..] == Join(b[1..], d);
      JoinInjective(a[1..], b[1..], d);
      assert a == [p] + a[1..] && b == [q] + b[1..];
    }
  }

  /** A string has exactly one splitting, so the method's contract fixes its result. */
  lemma SplitIsUnique(s: string, d: char, a: seq<string>, b: seq<string>)
    requires IsSplit(s, d, a) && IsSplit(s, d, b)
    ensures a == b
  {
    JoinInjective(a, b, d);
  }

  /**
   * The empty string splits into one empty piece.  The doc comment above
   * split_source_prefixes lists "" --> [], which is not what the code does.
   */
  lemma EmptySplitsIntoOneEmptyPiece(out: seq<string>, d: char)
    ensures IsSplit("", d, out) <==> out == [""]
  {
    if IsSplit("", d, out) {
      assert |out| == 1;
    }
  }

  /** The remaining examples of the doc comment hold. */
  lemma DocCommentOneDelimiter()
    ensures IsSplit(":", ':', ["", ""])
  {
    assert Occurrences(":", ':') == 1;
  }

  lemma DocCommentTwoDelimiters()
    ensures IsSplit("::", ':', ["", "", ""])
  {
    assert Occurrences("::", ':') == 2;
  }

  lemma DocCommentOnePath()
    ensures IsSplit("/a/b/c", ':', ["/a/b/c"])
  {
    OccurrencesAbsent("/a/b/c", ':');
  }
}
