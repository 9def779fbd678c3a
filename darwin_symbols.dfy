/**
 * The Darwin backtrace_symbols backend.  Each line has the form
 *   <n>  <file>  <addr>  <mangled-name> + <offset>
 * where <file> may itself contain spaces, so the parser skips <n> from the
 * front and then finds the other fields by scanning backwards from the end.
 *
 * Cursors are integers into the line; the backward cursor starts at
 * strlen - 1 and can therefore sit one before the start of <file> when
 * nothing follows <n>.
 */
module DarwinSymbols {
  import opened Common

  predicate IsSpace(c: char)
  {
    c == ' '
  }

  /** `while (*q && (*q == ' ') == space) q++`. */
  function SkipForward(s: string, i: nat, space: bool): (r: nat)
    requires i <= |s|
    ensures i <= r <= |s|
    decreases |s| - i
  {
    if i < |s| && IsSpace(s[i]) == space then SkipForward(s, i + 1, space) else i
  }

  /** `while (p > lo && (*p == ' ') == space) p--`. */
  function SkipBack(s: string, p: int, lo: nat, space: bool): (r: int)
    requires p < |s|
    ensures r <= p && (p > lo ==> r >= lo)
    ensures p <= lo ==> r == p
    decreases p
  {
    if p > lo && IsSpace(s[p]) == space then SkipBack(s, p - 1, lo, space) else p
  }

  /** The cursor positions the parser computes on one line. */
  datatype Cursors = Cursors(filename: nat, filenameEnd: nat, funcname: nat, funcnameEnd: int)

  function Scan(s: string): (c: Cursors)
    ensures c.filename <= c.filenameEnd <= |s|
    ensures c.funcname < |s| ==> c.filename < c.funcname <= c.funcnameEnd < |s|
    ensures c.funcname >= |s| ==> c.funcname == c.filenameEnd == |s|
  {
    var f := SkipForward(s, SkipForward(s, 0, false), true);
    var p1 := SkipBack(s, |s| - 1, f, false);
    var p2 := SkipBack(s, p1, f, true);
    var p3 := SkipBack(s, p2, f, false);
    var p4 := SkipBack(s, p3, f, true);
    var p5 := SkipBack(s, p4, f, false);
    var p6 := SkipBack(s, p5, f, true);
    var p7 := SkipBack(s, p6, f, false);
    var p8 := SkipBack(s, p7, f, true);
    if p8 == f then Cursors(f, |s|, |s|, p4 + 1)
    else
      assert |s| - 1 > f ==> p2 < |s| - 1;
      Cursors(f, p8 + 1, p5 + 1, p4 + 1)
  }

  /** What resolve computes from one line, and the line as stored afterwards. */
  function Parse(line: string, t: ResolvedTrace, demangle: string -> string): (r: (ResolvedTrace, string))
    ensures var c := Scan(line); r.0.objectFilename == line[c.filename..c.filenameEnd]
    ensures r.0.(objectFilename := t.objectFilename, objectFunction := t.objectFunction, source := t.source) == t
    ensures r.0.source.(funcName := t.source.funcName) == t.source
    ensures r.0.objectFunction != t.objectFunction ==> r.0.source.funcName == r.0.objectFunction
    ensures |r.1| <= |line| && r.1 == line[..|r.1|]
  {
    Apply(line, Scan(line), t, demangle)
  }

  /** The fields resolve fills in once the cursors are known. */
  function Apply(line: string, c: Cursors, t: ResolvedTrace, demangle: string -> string): (r: (ResolvedTrace, string))
    requires c.filename <= c.filenameEnd <= |line|
    requires c.funcname < |line| ==> c.funcname <= c.funcnameEnd < |line|
    ensures r.0.objectFilename == line[c.filename..c.filenameEnd]
    ensures r.0.(objectFilename := t.objectFilename, objectFunction := t.objectFunction, source := t.source) == t
    ensures r.0.source.(funcName := t.source.funcName) == t.source
    ensures c.funcname < |line| ==> r.0.source.funcName == r.0.objectFunction && r.1 == line[..c.funcnameEnd]
    ensures c.funcname >= |line| ==> r.0.objectFunction == t.objectFunction && r.0.source == t.source && r.1 == line
  {
    var t1 := t.(objectFilename := line[c.filename..c.filenameEnd]);
    if c.funcname >= |line| then (t1, line)
    else
      var f := demangle(line[c.funcname..c.funcnameEnd]) + " " + line[c.funcnameEnd + 1..];
      (t1.(objectFunction := f, source := t1.source.(funcName := f)), line[..c.funcnameEnd])
  }

  /** TraceResolverDarwinImpl<backtrace_symbol>::resolve on one line. */
  method ParseLine(line: string, t: ResolvedTrace, demangle: string -> string)
    returns (r: ResolvedTrace, stored: string)
    ensures (r, stored) == Parse(line, t, demangle)
  {
    var c := ScanLine(line);
    r := t.(objectFilename := line[c.filename..c.filenameEnd]);
    stored := line;
    if c.funcname < |line| {
      var name := demangle(line[c.funcname..c.funcnameEnd]) + " " + line[c.funcnameEnd + 1..];
      r := r.(objectFunction := name, source := r.source.(funcName := name));
      stored := line[..c.funcnameEnd];
    }
  }

  /** The cursor loops of resolve. */
  method ScanLine(line: string) returns (c: Cursors)
    ensures c == Scan(line)
  {
    // skip "<n>  "
    var f := ForwardOver(line, 0, false);
    f := ForwardOver(line, f, true);
    // from the end: " + <offset>", then "<mangled-name>", then "  <addr>  "
    var p: int := |line| - 1;
    p := BackOver(line, p, f, false);
    p := BackOver(line, p, f, true);
    p := BackOver(line, p, f, false);
    p := BackOver(line, p, f, true);
    var funcnameEnd := p + 1;
    p := BackOver(line, p, f, false);
    var funcname := p + 1;
    p := BackOver(line, p, f, true);
    p := BackOver(line, p, f, false);
    p := BackOver(line, p, f, true);
    var filenameEnd := p + 1;
    if p == f {
      // something went wrong, give up
      filenameEnd := |line|;
      funcname := filenameEnd;
    }
    c := Cursors(f, filenameEnd, funcname, funcnameEnd);
  }

  /** One forward loop of the parser. */
  method ForwardOver(s: string, i0: nat, space: bool) returns (i: nat)
    requires i0 <= |s|
    ensures i == SkipForward(s, i0, space)
  {
    i := i0;
    while i < |s| && (s[i] == ' ') == space
      invariant i0 <= i <= |s|
      invariant SkipForward(s, i, space) == SkipForward(s, i0, space)
    {
      i := i + 1;
    }
  }

  /** One backward loop of the parser. */
  method BackOver(s: string, p0: int, lo: nat, space: bool) returns (p: int)
    requires p0 < |s|
    ensures p == SkipBack(s, p0, lo, space)
  {
    p := p0;
    while p > lo && (s[p] == ' ') == space
      invariant p <= p0
      invariant SkipBack(s, p, lo, space) == SkipBack(s, p0, lo, space)
      decreases p
    {
      p := p - 1;
    }
  }

  // -------------------------------------------------------------------
  // The line format.

  predicate NoSpace(w: string)
  {
    forall k :: 0 <= k < |w| ==> !IsSpace(w[k])
  }

  predicate Spaces(w: string)
  {
    |w| > 0 && forall k :: 0 <= k < |w| ==> IsSpace(w[k])
  }

  /** A field that may hold inner spaces but neither starts nor ends with one. */
  predicate Trimmed(w: string)
  {
    |w| > 0 && !IsSpace(w[0]) && !IsSpace(w[|w| - 1])
  }

  function Line(n: string, sp1: string, file: string, sp2: string, addr: string,
                sp3: string, name: string, off: string): string
  {
    n + sp1 + file + sp2 + addr + sp3 + name + " + " + off
  }

  ghost predicate WellFormed(n: string, sp1: string, file: string, sp2: string, addr: string,
                             sp3: string, name: string, off: string)
  {
    && NoSpace(n) && Spaces(sp1) && Trimmed(file) && Spaces(sp2) && |addr| > 0 && NoSpace(addr)
    && Spaces(sp3) && |name| > 0 && NoSpace(name) && |off| > 0 && NoSpace(off)
  }

  lemma {:induction false} SkipForwardIs(s: string, i: nat, space: bool, k: nat)
    requires i <= k <= |s|
    requires forall j :: i <= j < k ==> IsSpace(s[j]) == space
    requires k < |s| ==> IsSpace(s[k]) != space
    ensures SkipForward(s, i, space) == k
    decreases k - i
  {
    if i < k {
      SkipForwardIs(s, i + 1, space, k);
    }
  }

  lemma {:induction false} SkipBackIs(s: string, p: int, lo: nat, space: bool, k: int)
    requires lo < k <= p < |s|
    requires forall j :: k < j <= p ==> IsSpace(s[j]) == space
    requires IsSpace(s[k]) != space
    ensures SkipBack(s, p, lo, space) == k
    decreases p - k
  {
    if k < p {
      SkipBackIs(s, p - 1, lo, space, k);
    }
  }

  /** The characters in s[i..j] are all spaces (`space`) or all other characters. */
  predicate Uniform(s: string, i: nat, j: nat, space: bool)
    requires i <= j <= |s|
  {
    forall k :: i <= k < j ==> IsSpace(s[k]) == space
  }

  /** Field boundaries of a line: <n> ends at a1, <file> spans f..a2, <addr> a3..a4, <name> a5..a6. */
  predicate Layout(s: string, a1: nat, f: nat, a2: nat, a3: nat, a4: nat, a5: nat, a6: nat)
  {
    && a1 < f < a2 < a3 < a4 < a5 < a6 && a6 + 3 < |s|
    && Uniform(s, 0, a1, false) && Uniform(s, a1, f, true) && !IsSpace(s[f]) && !IsSpace(s[a2 - 1])
    && Uniform(s, a2, a3, true) && Uniform(s, a3, a4, false) && Uniform(s, a4, a5, true)
    && Uniform(s, a5, a6, false) && s[a6] == ' ' && s[a6 + 1] == '+' && s[a6 + 2] == ' '
    && Uniform(s, a6 + 3, |s|, false)
  }

  /** Appending keeps what is known about a prefix. */
  lemma Extend(t: string, u: string)
    ensures forall i: nat, j: nat, space: bool {:trigger Uniform(t + u, i, j, space)} ::
      i <= j <= |t| && Uniform(t, i, j, space) ==> Uniform(t + u, i, j, space)
    ensures forall k :: 0 <= k < |t| ==> (t + u)[k] == t[k]
  {
  }

  /** The appended part is uniform when the piece is. */
  lemma Append(t: string, u: string, space: bool)
    requires forall k :: 0 <= k < |u| ==> IsSpace(u[k]) == space
    ensures Uniform(t + u, |t|, |t| + |u|, space)
  {
    assert forall k :: |t| <= k < |t| + |u| ==> (t + u)[k] == u[k - |t|];
  }

  /** A line built from well-formed fields has the layout of its field lengths. */
  lemma LineLayout(n: string, sp1: string, file: string, sp2: string, addr: string,
                   sp3: string, name: string, off: string)
    requires WellFormed(n, sp1, file, sp2, addr, sp3, name, off)
    ensures var s := Line(n, sp1, file, sp2, addr, sp3, name, off);
      var f := |n| + |sp1|;
      var a3 := f + |file| + |sp2|;
      var a5 := a3 + |addr| + |sp3|;
      var a6 := a5 + |name|;
      && Layout(s, |n|, f, f + |file|, a3, a3 + |addr|, a5, a6)
      && s[f..f + |file|] == file && s[a5..a6] == name && s[a6 + 1..] == "+ " + off
  {
    var front := n + sp1 + file + sp2 + addr;
    FrontFields(n, sp1, file, sp2, addr);
    BackFields(front, |n|, |n| + |sp1|, |n| + |sp1| + |file|, |n| + |sp1| + |file| + |sp2|, file, sp3, name, off);
    assert front + sp3 + name + " + " + off == Line(n, sp1, file, sp2, addr, sp3, name, off);
  }

  /** What is known of the text up to the end of <addr>. */
  ghost predicate FrontLayout(s: string, a1: nat, f: nat, a2: nat, a3: nat, file: string)
  {
    && a1 < f < a2 < a3 < |s|
    && Uniform(s, 0, a1, false) && Uniform(s, a1, f, true) && !IsSpace(s[f]) && !IsSpace(s[a2 - 1])
    && Uniform(s, a2, a3, true) && Uniform(s, a3, |s|, false) && s[f..a2] == file
  }

  lemma FrontFields(n: string, sp1: string, file: string, sp2: string, addr: string)
    requires NoSpace(n) && Spaces(sp1) && Trimmed(file) && Spaces(sp2) && |addr| > 0 && NoSpace(addr)
    ensures FrontLayout(n + sp1 + file + sp2 + addr, |n|, |n| + |sp1|, |n| + |sp1| + |file|,
                        |n| + |sp1| + |file| + |sp2|, file)
  {
    var s1 := n + sp1;
    Append([], n, false);
    assert [] + n == n;
    Append(n, sp1, true);
    var s2 := s1 + file;
    Extend(s1, file);
    assert s2[|s1|] == file[0] && s2[|s2| - 1] == file[|file| - 1];
    assert s2[|s1|..] == file;
    var s3 := s2 + sp2;
    Extend(s2, sp2);
    Append(s2, sp2, true);
    var s4 := s3 + addr;
    Extend(s3, addr);
    Append(s3, addr, false);
    assert s4[|s1|..|s2|] == file;
  }

  lemma BackFields(front: string, a1: nat, f: nat, a2: nat, a3: nat,
                   file: string, sp3: string, name: string, off: string)
    requires FrontLayout(front, a1, f, a2, a3, file)
    requires Spaces(sp3) && |name| > 0 && NoSpace(name) && |off| > 0 && NoSpace(off)
    ensures var s := front + sp3 + name + " + " + off;
      var a5 := |front| + |sp3|;
      var a6 := a5 + |name|;
      && Layout(s, a1, f, a2, a3, |front|, a5, a6)
      && s[f..a2] == file && s[a5..a6] == name && s[a6 + 1..] == "+ " + off
  {
    var s5 := front + sp3;
    Extend(front, sp3);
    Append(front, sp3, true);
    var s6 := s5 + name;
    Extend(s5, name);
    Append(s5, name, false);
    var s7 := s6 + " + ";
    Extend(s6, " + ");
    var s := s7 + off;
    Extend(s7, off);
    Append(s7, off, false);
    assert s[f..a2] == front[f..a2];
    assert s[|s5|..|s6|] == name;
    assert s[|s6| + 1..] == "+ " + off;
  }

  /** The cursors resolve computes on a line of that layout. */
  lemma ScanLayout(s: string, a1: nat, f: nat, a2: nat, a3: nat, a4: nat, a5: nat, a6: nat)
    requires Layout(s, a1, f, a2, a3, a4, a5, a6)
    ensures a2 > f + 1 ==> Scan(s) == Cursors(f, a2, a5, a6)
    ensures a2 == f + 1 ==> Scan(s) == Cursors(f, |s|, |s|, a6)
  {
    SkipForwardIs(s, 0, false, a1);
    SkipForwardIs(s, a1, true, f);
    ScanOffset(s, a1, f, a2, a3, a4, a5, a6);
    ScanAddress(s, a1, f, a2, a3, a4, a5, a6);
    var p4 := SkipBack(s, SkipBack(s, SkipBack(s, SkipBack(s, |s| - 1, f, false), f, true), f, false), f, true);
    var p5 := SkipBack(s, p4, f, false);
    var p8 := SkipBack(s, SkipBack(s, SkipBack(s, p5, f, true), f, false), f, true);
    assert p4 == a6 - 1 && p5 == a5 - 1;
    assert Scan(s) == if p8 == f then Cursors(f, |s|, |s|, p4 + 1) else Cursors(f, p8 + 1, p5 + 1, p4 + 1);
  }

  /** The backward scan over " + <offset>" ends at the last character of <name>. */
  lemma ScanOffset(s: string, a1: nat, f: nat, a2: nat, a3: nat, a4: nat, a5: nat, a6: nat)
    requires Layout(s, a1, f, a2, a3, a4, a5, a6)
    ensures SkipBack(s, |s| - 1, f, false) == a6 + 2
    ensures SkipBack(s, a6 + 2, f, true) == a6 + 1
    ensures SkipBack(s, a6 + 1, f, false) == a6
    ensures SkipBack(s, a6, f, true) == a6 - 1
  {
    SkipBackIs(s, |s| - 1, f, false, a6 + 2);
    SkipBackIs(s, a6 + 2, f, true, a6 + 1);
    SkipBackIs(s, a6 + 1, f, false, a6);
    SkipBackIs(s, a6, f, true, a6 - 1);
  }

  /** The backward scan over <name>, <addr> and the spaces before it. */
  lemma ScanAddress(s: string, a1: nat, f: nat, a2: nat, a3: nat, a4: nat, a5: nat, a6: nat)
    requires Layout(s, a1, f, a2, a3, a4, a5, a6)
    ensures SkipBack(s, a6 - 1, f, false) == a5 - 1
    ensures SkipBack(s, a5 - 1, f, true) == a4 - 1
    ensures SkipBack(s, a4 - 1, f, false) == a3 - 1
    ensures a2 > f + 1 ==> SkipBack(s, a3 - 1, f, true) == a2 - 1
    ensures a2 == f + 1 ==> SkipBack(s, a3 - 1, f, true) == f
  {
    SkipBackIs(s, a6 - 1, f, false, a5 - 1);
    SkipBackIs(s, a5 - 1, f, true, a4 - 1);
    SkipBackIs(s, a4 - 1, f, false, a3 - 1);
    if a2 > f + 1 {
      SkipBackIs(s, a3 - 1, f, true, a2 - 1);
    } else {
      SkipBackToBound(s, a3 - 1, f);
    }
  }

  /** A run of spaces reaching down to the bound stops the scan at the bound. */
  lemma {:induction false} SkipBackToBound(s: string, p: int, lo: nat)
    requires lo <= p < |s|
    requires forall j :: lo < j <= p ==> IsSpace(s[j])
    ensures SkipBack(s, p, lo, true) == lo
    decreases p
  {
    if p > lo {
      SkipBackToBound(s, p - 1, lo);
    }
  }

  /**
   * A well-formed line yields <file> as the object file name, even when it
   * holds spaces, and "demangle(<name>) + <offset>" as both function names.
   * A one-character <file> is the exception (see ParseLayout).
   */
  lemma ParseWellFormed(n: string, sp1: string, file: string, sp2: string, addr: string,
                        sp3: string, name: string, off: string,
                        t: ResolvedTrace, demangle: string -> string)
    requires WellFormed(n, sp1, file, sp2, addr, sp3, name, off)
    requires |file| > 1
    ensures var r := Parse(Line(n, sp1, file, sp2, addr, sp3, name, off), t, demangle).0;
      && r.objectFilename == file
      && r.objectFunction == demangle(name) + " + " + off
      && r.source == t.source.(funcName := r.objectFunction)
      && r.addr == t.addr && r.idx == t.idx && r.inliners == t.inliners
  {
    LineLayout(n, sp1, file, sp2, addr, sp3, name, off);
    var f := |n| + |sp1|;
    var a3 := f + |file| + |sp2|;
    var a5 := a3 + |addr| + |sp3|;
    ParseFields(Line(n, sp1, file, sp2, addr, sp3, name, off), |n|, f, f + |file|, a3, a3 + |addr|, a5, a5 + |name|,
                file, name, off, t, demangle);
  }

  lemma ParseFields(s: string, a1: nat, f: nat, a2: nat, a3: nat, a4: nat, a5: nat, a6: nat,
                    file: string, name: string, off: string, t: ResolvedTrace, demangle: string -> string)
    requires Layout(s, a1, f, a2, a3, a4, a5, a6) && a2 > f + 1
    requires s[f..a2] == file && s[a5..a6] == name && s[a6 + 1..] == "+ " + off
    ensures var r := Parse(s, t, demangle).0;
      && r.objectFilename == file
      && r.objectFunction == demangle(name) + " + " + off
      && r.source == t.source.(funcName := r.objectFunction)
      && r.addr == t.addr && r.idx == t.idx && r.inliners == t.inliners
  {
    ParseLayout(s, a1, f, a2, a3, a4, a5, a6, t, demangle);
    assert " " + ("+ " + off) == " + " + off;
  }

  /**
   * What resolve makes of a line of that layout.  When <file> is a single
   * character (a2 == f + 1) the backward scan ends at the start of <file>:
   * the parser then gives up, the whole text after <n> becomes the object
   * file name and the function fields are left alone.
   */
  lemma ParseLayout(s: string, a1: nat, f: nat, a2: nat, a3: nat, a4: nat, a5: nat, a6: nat,
                    t: ResolvedTrace, demangle: string -> string)
    requires Layout(s, a1, f, a2, a3, a4, a5, a6)
    ensures a2 > f + 1 ==> (
      var g := demangle(s[a5..a6]) + " " + s[a6 + 1..];
      Parse(s, t, demangle) ==
        (t.(objectFilename := s[f..a2], objectFunction := g, source := t.source.(funcName := g)), s[..a6]))
    ensures a2 == f + 1 ==> Parse(s, t, demangle) == (t.(objectFilename := s[f..]), s)
  {
    ScanLayout(s, a1, f, a2, a3, a4, a5, a6);
    assert s[f..|s|] == s[f..];
  }

  /**
   * Whenever the scan finds no function name (it gives up, or nothing
   * follows <n>), the whole text after <n> becomes the object file name,
   * and neither the function fields nor the stored line change.
   */
  lemma ParseGivesUp(s: string, t: ResolvedTrace, demangle: string -> string)
    requires Scan(s).funcname >= |s|
    ensures Parse(s, t, demangle) == (t.(objectFilename := s[Scan(s).filename..]), s)
  {
    assert s[Scan(s).filename..|s|] == s[Scan(s).filename..];
  }

  /** The backend object: the lines of the last batch (`_symbols`). */
  class Resolver {
    var symbols: seq<string>

    constructor ()
      ensures symbols == []
    {
      symbols := [];
    }

    method LoadAddresses(addresses: seq<U64>, lines: seq<string>)
      requires |lines| == |addresses|
      modifies this
      ensures symbols == if |addresses| == 0 then old(symbols) else lines
    {
      if |addresses| == 0 {
        return;
      }
      symbols := lines;
    }

    method Resolve(t: ResolvedTrace, demangle: string -> string) returns (r: ResolvedTrace)
      requires t.idx < |symbols|
      modifies this
      ensures r == Parse(old(symbols[t.idx]), t, demangle).0
      ensures symbols == old(symbols)[t.idx := Parse(old(symbols[t.idx]), t, demangle).1]
    {
      var stored;
      r, stored := ParseLine(symbols[t.idx], t, demangle);
      symbols := symbols[t.idx := stored];
    }
  }
}
