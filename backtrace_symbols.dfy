/**
 * The Linux backtrace_symbols backend.  load_addresses asks the platform
 * for one text line per address, of the form "module(symbol+offset) [addr]";
 * resolve parses the line of its trace's position into the object file name
 * and the demangled symbol.
 *
 * The platform call (backtrace_symbols) is a parameter: its lines are
 * passed to LoadAddresses.  A C string is modelled as the characters before
 * its terminator, so storing '\0' at position k truncates the string to k.
 */
module BacktraceSymbols {
  import opened Common

  /** The first position at or after `from` that holds a character of `stops`, or |s|. */
  function FirstOf(s: string, from: nat, stops: set<char>): (r: nat)
    requires from <= |s|
    ensures from <= r <= |s|
    ensures forall j :: from <= j < r ==> s[j] !in stops
    ensures r < |s| ==> s[r] in stops
    decreases |s| - from
  {
    if from == |s| || s[from] in stops then from else FirstOf(s, from + 1, stops)
  }

  const FunctionEnd: set<char> := {')', '+'}

  /**
   * What resolve computes from one line: the new trace, and the line as the
   * buffer holds it afterwards (the parser writes '\0' where the symbol ends).
   */
  function Parse(line: string, t: ResolvedTrace, demangle: string -> string): (r: (ResolvedTrace, string))
    ensures r.0.(objectFilename := t.objectFilename, objectFunction := t.objectFunction, source := t.source) == t
    ensures r.0.source.(funcName := t.source.funcName) == t.source
    ensures r.0.objectFunction != t.objectFunction ==> r.0.source.funcName == r.0.objectFunction
    ensures |r.1| <= |line| && r.1 == line[..|r.1|]
    ensures |r.0.objectFilename| <= |r.1| && r.0.objectFilename == r.1[..|r.0.objectFilename|]
  {
    var open := FirstOf(line, 0, {'('});
    var t1 := t.(objectFilename := line[..open]);
    if open == |line| then (t1, line)
    else
      var close := FirstOf(line, open + 1, FunctionEnd);
      var f := demangle(line[open + 1..close]);
      (t1.(objectFunction := f, source := t1.source.(funcName := f)), line[..close])
  }

  /**
   * TraceResolverLinuxImpl<backtrace_symbol>::resolve on one line: scan to
   * the first '(' for the object file name, then to the first ')' or '+'
   * for the mangled symbol.
   */
  method ParseLine(line: string, t: ResolvedTrace, demangle: string -> string)
    returns (r: ResolvedTrace, stored: string)
    ensures (r, stored) == Parse(line, t, demangle)
  {
    var i := 0;
    while i < |line| && line[i] != '('
      invariant i <= |line|
      invariant FirstOf(line, i, {'('}) == FirstOf(line, 0, {'('})
    {
      i := i + 1;
    }
    r := t.(objectFilename := line[..i]);
    stored := line;
    if i < |line| {
      var j := i + 1;
      while j < |line| && line[j] != ')' && line[j] != '+'
        invariant i + 1 <= j <= |line|
        invariant FirstOf(line, j, FunctionEnd) == FirstOf(line, i + 1, FunctionEnd)
      {
        j := j + 1;
      }
      var f := demangle(line[i + 1..j]);
      r := r.(objectFunction := f, source := r.source.(funcName := f));
      stored := line[..j];
    }
  }

  /** The object file name is the text before the first '(', or all of it. */
  lemma FilenameIsTextBeforeParen(line: string, t: ResolvedTrace, demangle: string -> string)
    ensures var r := Parse(line, t, demangle).0;
      && line[..|r.objectFilename|] == r.objectFilename
      && '(' !in r.objectFilename
      && (|r.objectFilename| < |line| ==> line[|r.objectFilename|] == '(')
  {
  }

  /** Without '(' only the object file name changes. */
  lemma NoParenKeepsFunction(line: string, t: ResolvedTrace, demangle: string -> string)
    requires '(' !in line
    ensures Parse(line, t, demangle) == (t.(objectFilename := line), line)
  {
    assert FirstOf(line, 0, {'('}) == |line|;
    assert line[..|line|] == line;
  }

  /**
   * A line "module(symbol" + rest, where rest is empty or starts with ')'
   * or '+', parses into the module and the demangled symbol, and both
   * function fields receive the same name.
   */
  lemma {:induction false} ParseWellFormed(module_: string, symbol: string, rest: string,
                                           t: ResolvedTrace, demangle: string -> string)
    requires '(' !in module_
    requires forall k :: 0 <= k < |symbol| ==> symbol[k] !in FunctionEnd
    requires rest == [] || rest[0] in FunctionEnd
    ensures var r := Parse(module_ + "(" + symbol + rest, t, demangle).0;
      && r.objectFilename == module_
      && r.objectFunction == demangle(symbol)
      && r.source.funcName == demangle(symbol)
      && r.source.(funcName := t.source.funcName) == t.source
      && r.addr == t.addr && r.idx == t.idx && r.inliners == t.inliners
  {
    var line := module_ + "(" + symbol + rest;
    var m := |module_|;
    assert line[m] == '(';
    assert forall j :: 0 <= j < m ==> line[j] == module_[j];
    FirstOfIs(line, 0, {'('}, m);
    assert forall j :: m + 1 <= j < m + 1 + |symbol| ==> line[j] == symbol[j - m - 1];
    assert m + 1 + |symbol| < |line| ==> line[m + 1 + |symbol|] == rest[0];
    FirstOfIs(line, m + 1, FunctionEnd, m + 1 + |symbol|);
    assert line[..m] == module_;
    assert line[m + 1..m + 1 + |symbol|] == symbol;
  }

  /** FirstOf is determined by its contract. */
  lemma {:induction false} FirstOfIs(s: string, from: nat, stops: set<char>, k: nat)
    requires from <= k <= |s|
    requires forall j :: from <= j < k ==> s[j] !in stops
    requires k < |s| ==> s[k] in stops
    ensures FirstOf(s, from, stops) == k
    decreases k - from
  {
    if from < k {
      FirstOfIs(s, from + 1, stops, k);
    }
  }

  /**
   * The '\0' that resolve stores is harmless: parsing the stored line again
   * gives the same trace.
   */
  lemma ReparseIsStable(line: string, t: ResolvedTrace, demangle: string -> string)
    ensures var (r, stored) := Parse(line, t, demangle);
      Parse(stored, t, demangle) == (r, stored)
  {
    var open := FirstOf(line, 0, {'('});
    if open < |line| {
      var close := FirstOf(line, open + 1, FunctionEnd);
      var stored := line[..close];
      FirstOfIs(stored, 0, {'('}, open);
      FirstOfIs(stored, open + 1, FunctionEnd, close);
      assert stored[..open] == line[..open];
      assert stored[open + 1..close] == line[open + 1..close];
      assert stored[..close] == stored;
    }
  }

  /** The backend object: the lines of the last batch (`_symbols`). */
  class Resolver {
    var symbols: seq<string>

    constructor ()
      ensures symbols == []
    {
      symbols := [];
    }

    /**
     * load_addresses: an empty batch leaves the previous lines in place;
     * otherwise the platform's lines for this batch replace them.
     */
    method LoadAddresses(addresses: seq<U64>, lines: seq<string>)
      requires |lines| == |addresses|
      modifies this
      ensures symbols == if |addresses| == 0 then old(symbols) else lines
    {
      if |addresses| == 0 {
        return;
      }
      symbols := lines;
    }

    /** resolve: parses the line at the trace's position, which the caller must have loaded. */
    method Resolve(t: ResolvedTrace, demangle: string -> string) returns (r: ResolvedTrace)
      requires t.idx < |symbols|
      modifies this
      ensures r == Parse(old(symbols[t.idx]), t, demangle).0
      ensures symbols == old(symbols)[t.idx := Parse(old(symbols[t.idx]), t, demangle).1]
    {
      var stored;
      r, stored := ParseLine(symbols[t.idx], t, demangle);
      symbols := symbols[t.idx := stored];
    }
  }
}
