/**
 * What the search callbacks (inliners_search_cb) write into the trace:
 * the function name of the enclosing subprogram and one source location
 * per inlined subroutine.  The libdwarf callback formats names with
 * set_function_parameters; the libdw one takes the bare DIE name.
 *
 * A callback run is a fold over the visit list of the search, in order.
 */
module DieNames {
  import opened Common
  import opened Dies
  import opened DieSearch

  // ---------------------------------------------------------------------
  // set_function_parameters (libdwarf)

  /** The completing DIE when there is one, else the DIE itself. */
  function SpecOf(d: Die): (s: Die)
    ensures d.spec.Some? ==> s == d.spec.value
    ensures d.spec.None? ==> s == d
  {
    if d.spec.Some? then d.spec.value else d
  }

  /** Each enclosing namespace or class name followed by "::", outermost first. */
  function NsPrefix(ns: seq<string>): string
  {
    if ns == [] then "" else NsPrefix(ns[..|ns| - 1]) + ns[|ns| - 1] + "::"
  }

  /** The return type and a space, from the DIE or else its completing DIE. */
  function ReturnPrefix(d: Die): (r: string)
    ensures d.typeName != "" ==> r == d.typeName + " "
    ensures d.typeName == "" && SpecOf(d).typeName != "" ==> r == SpecOf(d).typeName + " "
    ensures d.typeName == "" && SpecOf(d).typeName == "" ==> r == ""
  {
    var returnType := if d.typeName != "" then d.typeName else SpecOf(d).typeName;
    if returnType == "" then "" else returnType + " "
  }

  predicate IsParameter(c: Die)
  {
    c.tag == FormalParameter && !c.artificial
  }

  /**
   * The text of the parameters among the children, in order, skipping
   * artificial ones and ending after a child whose sibling cannot be read.
   */
  function ParamTexts(cs: seq<Die>): (r: seq<string>)
    ensures |r| <= |cs|
  {
    if cs == [] then []
    else
      (if IsParameter(cs[0]) then [cs[0].paramText] else [])
      + (if cs[0].siblingError then [] else ParamTexts(cs[1..]))
  }

  /** The strings separated by ", ". */
  function JoinComma(xs: seq<string>): string
  {
    if |xs| == 0 then ""
    else if |xs| == 1 then xs[0]
    else JoinComma(xs[..|xs| - 1]) + ", " + xs[|xs| - 1]
  }

  /** The parameter string so far: empty, or "(" and the texts joined. */
  function Open(xs: seq<string>): string
  {
    if xs == [] then "" else "(" + JoinComma(xs)
  }

  /** One child's contribution: "(" before the first parameter, ", " before the others. */
  function AddParam(parameters: string, c: Die): string
  {
    if IsParameter(c) then (if parameters == "" then "(" else parameters + ", ") + c.paramText else parameters
  }

  /** The closing step: "(" if nothing was opened, then ")". */
  function Close(parameters: string): string
  {
    (if parameters == "" then "(" else parameters) + ")"
  }

  /** The loop over the children of the completing DIE from child i on, then the closing parenthesis. */
  function ParamsFrom(cs: seq<Die>, i: nat, parameters: string): string
    requires i <= |cs|
    decreases |cs| - i
  {
    if i == |cs| then Close(parameters)
    else
      var p := AddParam(parameters, cs[i]);
      if cs[i].siblingError then Close(p) else ParamsFrom(cs, i + 1, p)
  }

  /** The parameter list: "(" + the texts joined with ", " + ")", so "()" without parameters. */
  function ParameterList(cs: seq<Die>): (r: string)
    ensures r == "(" + JoinComma(ParamTexts(cs)) + ")"
  {
    ParamsFromJoins(cs, 0, []);
    assert cs[0..] == cs;
    assert Open([]) == "";
    assert [] + ParamTexts(cs) == ParamTexts(cs);
    ParamsFrom(cs, 0, "")
  }

  lemma OpenSnoc(xs: seq<string>, c: Die)
    ensures AddParam(Open(xs), c) == Open(xs + (if IsParameter(c) then [c.paramText] else []))
  {
    if IsParameter(c) {
      var ys := xs + [c.paramText];
      assert ys[..|xs|] == xs;
      if xs != [] {
        assert Open(xs) != "";
      }
    } else {
      assert xs + [] == xs;
    }
  }

  lemma CloseOpen(xs: seq<string>)
    ensures Close(Open(xs)) == "(" + JoinComma(xs) + ")"
  {
  }

  lemma ParamTextsAt(cs: seq<Die>, i: nat)
    requires i < |cs|
    ensures ParamTexts(cs[i..]) == (if IsParameter(cs[i]) then [cs[i].paramText] else [])
      + (if cs[i].siblingError then [] else ParamTexts(cs[i + 1..]))
  {
    assert cs[i..][0] == cs[i] && cs[i..][1..] == cs[i + 1..];
  }

  lemma {:induction false} ParamsFromJoins(cs: seq<Die>, i: nat, xs: seq<string>)
    requires i <= |cs|
    ensures ParamsFrom(cs, i, Open(xs)) == "(" + JoinComma(xs + ParamTexts(cs[i..])) + ")"
    decreases |cs| - i
  {
    if i == |cs| {
      assert xs + ParamTexts(cs[i..]) == xs;
      CloseOpen(xs);
    } else if cs[i].siblingError {
      ParamsFromStops(cs, i, xs);
    } else {
      var ys := xs + (if IsParameter(cs[i]) then [cs[i].paramText] else []);
      ParamsFromSteps(cs, i, xs);
      TextsStep(cs, i, xs);
      ParamsFromJoins(cs, i + 1, ys);
    }
  }

  /** A child whose sibling cannot be read ends the list. */
  lemma ParamsFromStops(cs: seq<Die>, i: nat, xs: seq<string>)
    requires i < |cs| && cs[i].siblingError
    ensures ParamsFrom(cs, i, Open(xs)) == "(" + JoinComma(xs + ParamTexts(cs[i..])) + ")"
  {
    var own := if IsParameter(cs[i]) then [cs[i].paramText] else [];
    OpenSnoc(xs, cs[i]);
    ParamTextsAt(cs, i);
    CloseOpen(xs + own);
    assert ParamTexts(cs[i..]) == own + [];
  }

  /** Any other child adds its text, if it is a parameter, and the loop goes on. */
  lemma ParamsFromSteps(cs: seq<Die>, i: nat, xs: seq<string>)
    requires i < |cs| && !cs[i].siblingError
    ensures ParamsFrom(cs, i, Open(xs)) == ParamsFrom(cs, i + 1, Open(xs + (if IsParameter(cs[i]) then [cs[i].paramText] else [])))
  {
    assert ParamsFrom(cs, i, Open(xs)) == ParamsFrom(cs, i + 1, AddParam(Open(xs), cs[i]));
    OpenSnoc(xs, cs[i]);
  }

  lemma TextsStep(cs: seq<Die>, i: nat, xs: seq<string>)
    requires i < |cs| && !cs[i].siblingError
    ensures xs + ParamTexts(cs[i..]) == xs + (if IsParameter(cs[i]) then [cs[i].paramText] else []) + ParamTexts(cs[i + 1..])
  {
    ParamTextsAt(cs, i);
  }

  /**
   * set_function_parameters: "<return type> " + ns1::ns2:: + name + the
   * parameter list of the completing DIE.
   */
  function FunctionSignature(functionName: string, ns: seq<string>, d: Die): (r: string)
    ensures |r| > 0 && r[|r| - 1] == ')'
  {
    ReturnPrefix(d) + (NsPrefix(ns) + functionName) + ParameterList(SpecOf(d).children)
  }

  /** The signature spelled out: the parameter texts of the completing DIE, joined. */
  lemma SignatureShape(functionName: string, ns: seq<string>, d: Die)
    ensures FunctionSignature(functionName, ns, d)
      == ReturnPrefix(d) + (NsPrefix(ns) + functionName) + ("(" + JoinComma(ParamTexts(SpecOf(d).children)) + ")")
  {
  }

  /** set_function_parameters as written. */
  method SetFunctionParameters(functionName: string, ns: seq<string>, d: Die) returns (r: string)
    ensures r == FunctionSignature(functionName, ns, d)
  {
    var specDie := if d.spec.Some? then d.spec.value else d;
    var nsName := NamespacePrefix(ns);
    r := nsName + functionName;
    var returnType := d.typeName;
    if returnType == "" {
      returnType := specDie.typeName;
    }
    if returnType != "" {
      r := (returnType + " ") + r;
    } else {
      assert "" + r == r;
    }
    var parameters := Parameters(specDie.children);
    r := r + parameters;
  }

  /** The loop that appends each namespace name and "::". */
  method NamespacePrefix(ns: seq<string>) returns (nsName: string)
    ensures nsName == NsPrefix(ns)
  {
    nsName := "";
    var k := 0;
    while k < |ns|
      invariant k <= |ns|
      invariant nsName == NsPrefix(ns[..k])
    {
      assert ns[..k + 1][..k] == ns[..k];
      nsName := nsName + ns[k] + "::";
      k := k + 1;
    }
    assert ns[..k] == ns;
  }

  /** The loop over the children of the completing DIE. */
  method Parameters(cs: seq<Die>) returns (parameters: string)
    ensures parameters == ParameterList(cs)
  {
    parameters := "";
    var i := 0;
    while i < |cs|
      invariant i <= |cs|
      invariant ParamsFrom(cs, i, parameters) == ParamsFrom(cs, 0, "")
    {
      var c := cs[i];
      if c.tag == FormalParameter && !c.artificial {
        if parameters == "" {
          parameters := "(";
        } else {
          parameters := parameters + ", ";
        }
        parameters := parameters + c.paramText;
      }
      if c.siblingError {
        break;
      }
      i := i + 1;
    }
    if parameters == "" {
      parameters := "(";
    }
    parameters := parameters + ")";
  }

  /** A parameter DIE with the given text, used by the examples. */
  function Param(text: string, artificial: bool): Die
  {
    Die(FormalParameter, None, false, None, None, false, None, NoDwAddrs, None, "", "", "", artificial, text, 0, 0, 0, None, false, [])
  }

  /** "<ret> ns1::ns2::name(p1, p2)", the artificial `this` left out. */
  lemma SignatureExample(d: Die)
    requires d.typeName == "int" && d.spec.None?
    requires d.children == [Param("int x", false), Param("Foo *this", true), Param("char y", false)]
    ensures FunctionSignature("f", ["a", "b"], d) == "int a::b::f(int x, char y)"
  {
    ExampleList(d.children);
    ExampleNs();
    assert ReturnPrefix(d) == "int ";
  }

  lemma ExampleNs()
    ensures NsPrefix(["a", "b"]) + "f" == "a::b::f"
  {
    assert ["a", "b"][..1] == ["a"];
    assert ["a"][..0] == [];
  }

  lemma ExampleList(cs: seq<Die>)
    requires cs == [Param("int x", false), Param("Foo *this", true), Param("char y", false)]
    ensures ParameterList(cs) == "(int x, char y)"
  {
    ExampleTexts(cs);
    assert ["int x", "char y"][..1] == ["int x"];
  }

  lemma ExampleTexts(cs: seq<Die>)
    requires cs == [Param("int x", false), Param("Foo *this", true), Param("char y", false)]
    ensures ParamTexts(cs) == ["int x", "char y"]
  {
    var last := [Param("char y", false)];
    assert cs[1..][1..] == last;
    assert ParamTexts(last) == ["char y"] by {
      assert last[1..] == [];
    }
    assert ParamTexts(cs[1..]) == ["char y"];
  }

  /** Without parameters (or with only artificial ones) the list is "()". */
  lemma NoParametersGiveEmptyList(cs: seq<Die>)
    requires forall i :: 0 <= i < |cs| ==> !IsParameter(cs[i])
    ensures ParameterList(cs) == "()"
  {
    NoParameterTexts(cs);
  }

  lemma {:induction false} NoParameterTexts(cs: seq<Die>)
    requires forall i :: 0 <= i < |cs| ==> !IsParameter(cs[i])
    ensures ParamTexts(cs) == []
  {
    if cs != [] {
      NoParameterTexts(cs[1..]);
    }
  }

  /** The namespace names appear outermost first, each followed by "::". */
  lemma {:induction false} NsPrefixAppend(a: seq<string>, b: seq<string>)
    ensures NsPrefix(a + b) == NsPrefix(a) + NsPrefix(b)
    decreases |b|
  {
    if b == [] {
      assert a + b == a;
    } else {
      var n := |b| - 1;
      assert (a + b)[..|a + b| - 1] == a + b[..n];
      NsPrefixAppend(a, b[..n]);
    }
  }

  // ---------------------------------------------------------------------
  // The libdwarf callback

  /** The name of a subprogram: its own, else that of its abstract origin, else that of its specification. */
  function SubprogramName(d: Die): (n: string)
    ensures d.name.Some? ==> n == d.name.value
    ensures d.name.None? ==> n == d.originName || n == d.specName
    ensures d.name.None? && n == "" ==> d.originName == ""
  {
    if d.name.Some? then d.name.value else if d.originName != "" then d.originName else d.specName
  }

  /** The name of an inlined subroutine: its own, else that of its abstract origin. */
  function InlinedName(d: Die): (n: string)
    ensures d.name.Some? ==> n == d.name.value
    ensures d.name.None? ==> n == d.originName
  {
    if d.name.Some? then d.name.value else d.originName
  }

  /** SourceLoc::line and ::col are `unsigned`: the 64-bit DWARF numbers are truncated. */
  const Word32: nat := 0x1_0000_0000

  /** The location one inlined subroutine contributes (libdwarf). */
  function InlinedLoc(v: Visit, files: Option<seq<string>>): (loc: SourceLoc)
    ensures loc.line < Word32 && loc.col < Word32
  {
    SourceLoc(CallFile(v.die, files), FunctionSignature(InlinedName(v.die), v.ns, v.die),
              v.die.callLine % Word32, v.die.callColumn % Word32)
  }

  /**
   * inliners_search_cb of the libdwarf backend.  A subprogram sets the
   * function name only while it is still empty, and fills an empty object
   * function from the demangled linkage name; an inlined subroutine appends
   * its location.
   */
  function DwarfCallback(t: ResolvedTrace, v: Visit, files: Option<seq<string>>, demangle: string -> string): (r: ResolvedTrace)
    ensures r.addr == t.addr && r.idx == t.idx && r.objectFilename == t.objectFilename
    ensures t.source.funcName != "" ==> r.source == t.source
    ensures v.die.tag != InlinedSubroutine ==> r.inliners == t.inliners
    ensures v.die.tag != Subprogram ==> r.source == t.source && r.objectFunction == t.objectFunction
    ensures t.source.funcName != "" ==> r.objectFunction == t.objectFunction
    ensures r.objectFunction != t.objectFunction ==>
      t.objectFunction == "" && v.die.linkageName.Some? && r.objectFunction == demangle(v.die.linkageName.value)
  {
    match v.die.tag
    case Subprogram =>
      if t.source.funcName != "" then t
      else
        var t1 := t.(source := t.source.(funcName := FunctionSignature(SubprogramName(v.die), v.ns, v.die)));
        if t1.objectFunction == "" && v.die.linkageName.Some? then t1.(objectFunction := demangle(v.die.linkageName.value))
        else t1
    case InlinedSubroutine => t.(inliners := t.inliners + [InlinedLoc(v, files)])
    case _ => t
  }

  /** The callback applied to each visit in order. */
  function DwarfCallbacks(t: ResolvedTrace, vs: seq<Visit>, files: Option<seq<string>>, demangle: string -> string): (r: ResolvedTrace)
    ensures r.addr == t.addr && r.idx == t.idx && r.objectFilename == t.objectFilename
    ensures t.source.funcName != "" ==> r.source == t.source && r.objectFunction == t.objectFunction
    ensures |r.inliners| >= |t.inliners| && r.inliners[..|t.inliners|] == t.inliners
    decreases |vs|
  {
    if vs == [] then t else DwarfCallbacks(DwarfCallback(t, vs[0], files, demangle), vs[1..], files, demangle)
  }

  /** The formatted name of the first subprogram visited, or "" if there is none. */
  function FirstName(vs: seq<Visit>): string
  {
    if vs == [] then ""
    else if vs[0].die.tag == Subprogram then FunctionSignature(SubprogramName(vs[0].die), vs[0].ns, vs[0].die)
    else FirstName(vs[1..])
  }

  /** The linkage name of the first subprogram visited, if it has one. */
  function FirstLinkage(vs: seq<Visit>): Option<string>
  {
    if vs == [] then None
    else if vs[0].die.tag == Subprogram then vs[0].die.linkageName
    else FirstLinkage(vs[1..])
  }

  /** The visits of inlined subroutines, in order. */
  function InlinedVisits(vs: seq<Visit>): (ws: seq<Visit>)
    ensures forall i :: 0 <= i < |ws| ==> ws[i].die.tag == InlinedSubroutine
  {
    if vs == [] then []
    else (if vs[0].die.tag == InlinedSubroutine then [vs[0]] else []) + InlinedVisits(vs[1..])
  }

  function DwarfLocs(ws: seq<Visit>, files: Option<seq<string>>): (locs: seq<SourceLoc>)
    ensures |locs| == |ws|
    ensures forall i :: 0 <= i < |ws| ==> locs[i] == InlinedLoc(ws[i], files)
  {
    if ws == [] then [] else [InlinedLoc(ws[0], files)] + DwarfLocs(ws[1..], files)
  }

  /** One run of the libdwarf callback. */
  lemma DwarfCallbackStep(t: ResolvedTrace, v: Visit, files: Option<seq<string>>, demangle: string -> string)
    ensures DwarfCallback(t, v, files, demangle).source.funcName
      == if t.source.funcName == "" && v.die.tag == Subprogram then FunctionSignature(SubprogramName(v.die), v.ns, v.die)
         else t.source.funcName
    ensures DwarfCallback(t, v, files, demangle).inliners
      == t.inliners + (if v.die.tag == InlinedSubroutine then [InlinedLoc(v, files)] else [])
    ensures DwarfCallback(t, v, files, demangle).source.(funcName := t.source.funcName) == t.source
    ensures DwarfCallback(t, v, files, demangle).(source := t.source, inliners := t.inliners, objectFunction := t.objectFunction) == t
    ensures DwarfCallback(t, v, files, demangle).objectFunction
      == if t.source.funcName == "" && v.die.tag == Subprogram && t.objectFunction == "" && v.die.linkageName.Some?
         then demangle(v.die.linkageName.value) else t.objectFunction
  {
    if v.die.tag != InlinedSubroutine {
      assert t.inliners + [] == t.inliners;
    }
  }

  /**
   * The libdwarf callbacks set an empty function name to the first
   * subprogram's formatted name, and never change a non-empty one.
   */
  lemma {:induction false} DwarfFunctionName(t: ResolvedTrace, vs: seq<Visit>, files: Option<seq<string>>, demangle: string -> string)
    ensures DwarfCallbacks(t, vs, files, demangle).source.funcName
      == if t.source.funcName != "" then t.source.funcName else FirstName(vs)
    decreases |vs|
  {
    if vs != [] {
      DwarfCallbackStep(t, vs[0], files, demangle);
      DwarfFunctionName(DwarfCallback(t, vs[0], files, demangle), vs[1..], files, demangle);
    }
  }

  /**
   * While the function name is empty, the first subprogram fills an empty
   * object function from its demangled linkage name; later subprograms find
   * the name set and leave the object function alone.
   */
  lemma {:induction false} DwarfObjectFunction(t: ResolvedTrace, vs: seq<Visit>, files: Option<seq<string>>, demangle: string -> string)
    ensures DwarfCallbacks(t, vs, files, demangle).objectFunction
      == if t.source.funcName == "" && t.objectFunction == "" && FirstLinkage(vs).Some?
         then demangle(FirstLinkage(vs).value) else t.objectFunction
    decreases |vs|
  {
    if vs != [] {
      var t1 := DwarfCallback(t, vs[0], files, demangle);
      DwarfCallbackStep(t, vs[0], files, demangle);
      DwarfObjectFunction(t1, vs[1..], files, demangle);
    }
  }

  /** They append the location of every inlined subroutine, in visit order. */
  lemma {:induction false} DwarfInliners(t: ResolvedTrace, vs: seq<Visit>, files: Option<seq<string>>, demangle: string -> string)
    ensures DwarfCallbacks(t, vs, files, demangle).inliners == t.inliners + DwarfLocs(InlinedVisits(vs), files)
    decreases |vs|
  {
    if vs != [] {
      var t1 := DwarfCallback(t, vs[0], files, demangle);
      DwarfCallbackStep(t, vs[0], files, demangle);
      DwarfInliners(t1, vs[1..], files, demangle);
      if vs[0].die.tag == InlinedSubroutine {
        var ws := InlinedVisits(vs[1..]);
        assert InlinedVisits(vs) == [vs[0]] + ws;
        assert ([vs[0]] + ws)[1..] == ws;
        assert DwarfLocs(InlinedVisits(vs), files) == [InlinedLoc(vs[0], files)] + DwarfLocs(ws, files);
        ConcatAssociative(t.inliners, [InlinedLoc(vs[0], files)], DwarfLocs(ws, files));
      } else {
        assert InlinedVisits(vs) == InlinedVisits(vs[1..]);
      }
    }
  }

  /**
   * And they change nothing else: the rest of the source location, the
   * address and the object file stay, and a non-empty object function too.
   */
  lemma {:induction false} DwarfCallbacksFrame(t: ResolvedTrace, vs: seq<Visit>, files: Option<seq<string>>, demangle: string -> string)
    ensures DwarfCallbacks(t, vs, files, demangle).source.(funcName := t.source.funcName) == t.source
    ensures DwarfCallbacks(t, vs, files, demangle).(source := t.source, inliners := t.inliners, objectFunction := t.objectFunction) == t
    ensures t.objectFunction != "" ==> DwarfCallbacks(t, vs, files, demangle).objectFunction == t.objectFunction
    decreases |vs|
  {
    if vs != [] {
      DwarfCallbackStep(t, vs[0], files, demangle);
      DwarfCallbacksFrame(DwarfCallback(t, vs[0], files, demangle), vs[1..], files, demangle);
    }
  }

  /**
   * The first subprogram wins, and it is the innermost: in a post-order
   * visit list no other visited subprogram lies below it.
   */
  lemma FirstSubprogramIsInnermost(vs: seq<Visit>, k: nat)
    requires PostOrder(vs)
    requires k < |vs| && vs[k].die.tag == Subprogram
    requires forall j :: 0 <= j < k ==> vs[j].die.tag != Subprogram
    ensures FirstName(vs) == FunctionSignature(SubprogramName(vs[k].die), vs[k].ns, vs[k].die)
    ensures FirstLinkage(vs) == vs[k].die.linkageName
    ensures forall j :: 0 <= j < |vs| && j != k && vs[j].die.tag == Subprogram ==> !IsPrefix(vs[k].path, vs[j].path)
  {
    FirstNameAt(vs, k);
  }

  lemma {:induction false} FirstNameAt(vs: seq<Visit>, k: nat)
    requires k < |vs| && vs[k].die.tag == Subprogram
    requires forall j :: 0 <= j < k ==> vs[j].die.tag != Subprogram
    ensures FirstName(vs) == FunctionSignature(SubprogramName(vs[k].die), vs[k].ns, vs[k].die)
    ensures FirstLinkage(vs) == vs[k].die.linkageName
  {
    if k > 0 {
      FirstNameAt(vs[1..], k - 1);
    }
  }

  /** The inlined subroutines keep the post-order of the search: innermost first. */
  lemma {:induction false} InlinedKeepPostOrder(vs: seq<Visit>)
    requires PostOrder(vs)
    ensures PostOrder(InlinedVisits(vs))
  {
    if vs != [] {
      PostOrderUncons(vs);
      InlinedKeepPostOrder(vs[1..]);
      if vs[0].die.tag == InlinedSubroutine {
        InlinedKeepNotAbove(vs[0], vs[1..]);
        PostOrderCons(vs[0], InlinedVisits(vs[1..]));
      }
    }
  }

  /** No visit of ws lies at or below v. */
  ghost predicate NotAbove(v: Visit, ws: seq<Visit>)
  {
    forall b :: 0 <= b < |ws| ==> !IsPrefix(v.path, ws[b].path)
  }

  lemma PostOrderUncons(vs: seq<Visit>)
    requires vs != [] && PostOrder(vs)
    ensures NotAbove(vs[0], vs[1..]) && PostOrder(vs[1..])
  {
    var tail := vs[1..];
    forall a, b | 0 <= a < b < |tail|
      ensures !IsPrefix(tail[a].path, tail[b].path)
    {
      assert tail[a] == vs[a + 1] && tail[b] == vs[b + 1];
    }
    forall b | 0 <= b < |tail|
      ensures !IsPrefix(vs[0].path, tail[b].path)
    {
      assert tail[b] == vs[b + 1];
    }
  }

  lemma PostOrderCons(v: Visit, ws: seq<Visit>)
    requires NotAbove(v, ws) && PostOrder(ws)
    ensures PostOrder([v] + ws)
  {
    var all := [v] + ws;
    forall a, b | 0 <= a < b < |all|
      ensures !IsPrefix(all[a].path, all[b].path)
    {
      assert all[b] == ws[b - 1];
      if a > 0 {
        assert all[a] == ws[a - 1];
      }
    }
  }

  lemma {:induction false} InlinedKeepNotAbove(v: Visit, vs: seq<Visit>)
    requires NotAbove(v, vs)
    ensures NotAbove(v, InlinedVisits(vs))
  {
    if vs != [] {
      assert NotAbove(v, vs[1..]) by {
        forall b | 0 <= b < |vs[1..]|
          ensures !IsPrefix(v.path, vs[1..][b].path)
        {
          assert vs[1..][b] == vs[b + 1];
        }
      }
      InlinedKeepNotAbove(v, vs[1..]);
      var rest := InlinedVisits(vs[1..]);
      if vs[0].die.tag == InlinedSubroutine {
        forall b | 0 <= b < |[vs[0]] + rest|
          ensures !IsPrefix(v.path, ([vs[0]] + rest)[b].path)
        {
          if b > 0 {
            assert ([vs[0]] + rest)[b] == rest[b - 1];
          }
        }
      } else {
        assert InlinedVisits(vs) == rest;
      }
    }
  }

  // ---------------------------------------------------------------------
  // The libdw callback

  /** The location one inlined subroutine contributes (libdw): bare name, no parameters. */
  function DwInlinedLoc(d: Die, files: Option<seq<string>>): (loc: SourceLoc)
    ensures loc.line < Word32 && loc.col < Word32
    ensures loc.funcName == (if d.name.Some? then d.name.value else "")
  {
    var file := CallFileDw(d, files);
    SourceLoc(if file.Some? then file.value else "", if d.name.Some? then d.name.value else "",
              d.callLine % Word32, d.callColumn % Word32)
  }

  function DwLocs(ws: seq<Visit>, files: Option<seq<string>>): (locs: seq<SourceLoc>)
    ensures |locs| == |ws|
    ensures forall i :: 0 <= i < |ws| ==> locs[i] == DwInlinedLoc(ws[i].die, files)
  {
    if ws == [] then [] else [DwInlinedLoc(ws[0].die, files)] + DwLocs(ws[1..], files)
  }

  /** inliners_search_cb of the libdw backend: a named subprogram overwrites the function name. */
  function DwCallback(t: ResolvedTrace, d: Die, files: Option<seq<string>>): (r: ResolvedTrace)
    ensures r.(source := t.source, inliners := t.inliners) == t
    ensures r.source.(funcName := t.source.funcName) == t.source
    ensures d.tag != InlinedSubroutine ==> r.inliners == t.inliners
    ensures d.tag == InlinedSubroutine ==> r.inliners == t.inliners + [DwInlinedLoc(d, files)]
  {
    match d.tag
    case Subprogram =>
      if d.name.Some? then t.(source := t.source.(funcName := d.name.value)) else t
    case InlinedSubroutine => t.(inliners := t.inliners + [DwInlinedLoc(d, files)])
    case _ => t
  }

  function DwCallbacks(t: ResolvedTrace, vs: seq<Visit>, files: Option<seq<string>>): (r: ResolvedTrace)
    ensures r.addr == t.addr && r.idx == t.idx && r.objectFilename == t.objectFilename && r.objectFunction == t.objectFunction
    ensures |r.inliners| >= |t.inliners| && r.inliners[..|t.inliners|] == t.inliners
    decreases |vs|
  {
    if vs == [] then t else DwCallbacks(DwCallback(t, vs[0].die, files), vs[1..], files)
  }

  predicate NamedSubprogram(v: Visit)
  {
    v.die.tag == Subprogram && v.die.name.Some?
  }

  /** The name of the last named subprogram visited. */
  function LastName(vs: seq<Visit>): Option<string>
  {
    if vs == [] then None
    else if NamedSubprogram(vs[|vs| - 1]) then Some(vs[|vs| - 1].die.name.value)
    else LastName(vs[..|vs| - 1])
  }

  /** After the search: an empty function name falls back to the object function. */
  function DwFallback(t: ResolvedTrace): (r: ResolvedTrace)
    ensures r.source.funcName != ""  || r.objectFunction == ""
    ensures t.source.funcName != "" ==> r == t
  {
    if t.source.funcName == "" then t.(source := t.source.(funcName := t.objectFunction)) else t
  }

  /** The libdw callbacks overwrite: the last named subprogram gives the name. */
  lemma {:induction false} DwCallbacksEffect(t: ResolvedTrace, vs: seq<Visit>, files: Option<seq<string>>)
    ensures var r := DwCallbacks(t, vs, files);
      && r.source.funcName == (if LastName(vs).Some? then LastName(vs).value else t.source.funcName)
      && r.source.(funcName := t.source.funcName) == t.source
      && r.(source := t.source, inliners := t.inliners) == t
      && r.inliners == t.inliners + DwLocs(InlinedVisits(vs), files)
    decreases |vs|
  {
    if vs != [] {
      var n := |vs| - 1;
      DwCallbacksSnoc(t, vs[..n], vs[n], files);
      assert vs[..n] + [vs[n]] == vs;
      DwCallbacksEffect(t, vs[..n], files);
    }
    DwCallbacksInliners(t, vs, files);
  }

  /** They append the location of every inlined subroutine, in visit order. */
  lemma {:induction false} DwCallbacksInliners(t: ResolvedTrace, vs: seq<Visit>, files: Option<seq<string>>)
    ensures DwCallbacks(t, vs, files).inliners == t.inliners + DwLocs(InlinedVisits(vs), files)
    decreases |vs|
  {
    if vs != [] {
      var n := |vs| - 1;
      DwCallbacksSnoc(t, vs[..n], vs[n], files);
      assert vs[..n] + [vs[n]] == vs;
      DwCallbacksInliners(t, vs[..n], files);
      InlinedVisitsSnoc(vs[..n], vs[n]);
      var ws := InlinedVisits(vs[..n]);
      if vs[n].die.tag == InlinedSubroutine {
        DwLocsSnoc(ws, vs[n], files);
        ConcatAssociative(t.inliners, DwLocs(ws, files), [DwInlinedLoc(vs[n].die, files)]);
      } else {
        assert ws + [] == ws;
      }
    }
  }

  lemma DwLocsSnoc(ws: seq<Visit>, v: Visit, files: Option<seq<string>>)
    ensures DwLocs(ws + [v], files) == DwLocs(ws, files) + [DwInlinedLoc(v.die, files)]
  {
    var a := DwLocs(ws + [v], files);
    var b := DwLocs(ws, files) + [DwInlinedLoc(v.die, files)];
    assert |a| == |b|;
    forall i | 0 <= i < |a| ensures a[i] == b[i] {
      if i < |ws| {
        assert (ws + [v])[i] == ws[i];
      }
    }
  }

  lemma {:induction false} DwCallbacksSnoc(t: ResolvedTrace, vs: seq<Visit>, v: Visit, files: Option<seq<string>>)
    ensures DwCallbacks(t, vs + [v], files) == DwCallback(DwCallbacks(t, vs, files), v.die, files)
    decreases |vs|
  {
    if vs == [] {
      assert (vs + [v])[1..] == [];
    } else {
      assert (vs + [v])[1..] == vs[1..] + [v];
      DwCallbacksSnoc(DwCallback(t, vs[0].die, files), vs[1..], v, files);
    }
  }

  lemma {:induction false} InlinedVisitsSnoc(vs: seq<Visit>, v: Visit)
    ensures InlinedVisits(vs + [v]) == InlinedVisits(vs) + (if v.die.tag == InlinedSubroutine then [v] else [])
    decreases |vs|
  {
    if vs == [] {
      assert (vs + [v])[1..] == [];
    } else {
      assert (vs + [v])[1..] == vs[1..] + [v];
      InlinedVisitsSnoc(vs[1..], v);
    }
  }

  /**
   * The last named subprogram wins, and it is the outermost: in a
   * post-order visit list no other named subprogram visited lies above it.
   */
  lemma LastSubprogramIsOutermost(vs: seq<Visit>, k: nat)
    requires PostOrder(vs)
    requires k < |vs| && NamedSubprogram(vs[k])
    requires forall j :: k < j < |vs| ==> !NamedSubprogram(vs[j])
    ensures LastName(vs) == Some(vs[k].die.name.value)
    ensures forall j :: 0 <= j < |vs| && j != k && NamedSubprogram(vs[j]) ==> !IsPrefix(vs[j].path, vs[k].path)
  {
    LastNameAt(vs, k);
  }

  lemma {:induction false} LastNameAt(vs: seq<Visit>, k: nat)
    requires k < |vs| && NamedSubprogram(vs[k])
    requires forall j :: k < j < |vs| ==> !NamedSubprogram(vs[j])
    ensures LastName(vs) == Some(vs[k].die.name.value)
    decreases |vs|
  {
    if k < |vs| - 1 {
      LastNameAt(vs[..|vs| - 1], k);
    }
  }

  // ---------------------------------------------------------------------
  // Search and callbacks together

  /** The libdwarf resolve: search the unit from an empty namespace stack and run the callback on each hit. */
  function DwarfNames(t: ResolvedTrace, cu: Die, pc: U64, files: Option<seq<string>>, demangle: string -> string): (r: ResolvedTrace)
    ensures r.source.funcName
      == if t.source.funcName != "" then t.source.funcName else FirstName(Dfs(Libdwarf, cu, pc, [], []).visits)
    ensures r.objectFunction
      == var linkage := FirstLinkage(Dfs(Libdwarf, cu, pc, [], []).visits);
         if t.source.funcName == "" && t.objectFunction == "" && linkage.Some? then demangle(linkage.value) else t.objectFunction
    ensures r.source.(funcName := t.source.funcName) == t.source
    ensures r.(source := t.source, inliners := t.inliners, objectFunction := t.objectFunction) == t
  {
    DwarfFunctionName(t, Dfs(Libdwarf, cu, pc, [], []).visits, files, demangle);
    DwarfObjectFunction(t, Dfs(Libdwarf, cu, pc, [], []).visits, files, demangle);
    DwarfCallbacksFrame(t, Dfs(Libdwarf, cu, pc, [], []).visits, files, demangle);
    DwarfCallbacks(t, Dfs(Libdwarf, cu, pc, [], []).visits, files, demangle)
  }

  /** Inlined locations are appended innermost first. */
  lemma DwarfInlinersInnermostFirst(t: ResolvedTrace, cu: Die, pc: U64, files: Option<seq<string>>, demangle: string -> string)
    ensures var ws := InlinedVisits(Dfs(Libdwarf, cu, pc, [], []).visits);
      && DwarfNames(t, cu, pc, files, demangle).inliners == t.inliners + DwarfLocs(ws, files)
      && PostOrder(ws)
  {
    var vs := Dfs(Libdwarf, cu, pc, [], []).visits;
    DfsPostOrder(Libdwarf, cu, pc, [], []);
    InlinedKeepPostOrder(vs);
    DwarfInliners(t, vs, files, demangle);
  }

  /**
   * The libdw resolve: the search, the callback on each hit, then the
   * fallback to the object function. The name is that of the last (the
   * outermost) named subprogram visited, else the one the trace had, else
   * the object function.
   */
  function DwNames(t: ResolvedTrace, cu: Die, pc: U64, files: Option<seq<string>>): (r: ResolvedTrace)
    ensures var last := LastName(Dfs(Libdw, cu, pc, [], []).visits);
      r.source.funcName == if last.Some? && last.value != "" then last.value
                           else if last.None? && t.source.funcName != "" then t.source.funcName
                           else t.objectFunction
    ensures r.(source := t.source, inliners := t.inliners) == t
  {
    DwCallbacksEffect(t, Dfs(Libdw, cu, pc, [], []).visits, files);
    DwFallback(DwCallbacks(t, Dfs(Libdw, cu, pc, [], []).visits, files))
  }

  /** Inlined locations are appended innermost first (libdw). */
  lemma DwInlinersInnermostFirst(t: ResolvedTrace, cu: Die, pc: U64, files: Option<seq<string>>)
    ensures var ws := InlinedVisits(Dfs(Libdw, cu, pc, [], []).visits);
      && DwNames(t, cu, pc, files).inliners == t.inliners + DwLocs(ws, files)
      && PostOrder(ws)
  {
    var vs := Dfs(Libdw, cu, pc, [], []).visits;
    DfsPostOrder(Libdw, cu, pc, [], []);
    InlinedKeepPostOrder(vs);
    DwCallbacksEffect(t, vs, files);
  }

  /** Without a named subprogram on the path the name stays, or falls back to the object function. */
  lemma DwNamesWithoutSubprogram(t: ResolvedTrace, cu: Die, pc: U64, files: Option<seq<string>>)
    requires LastName(Dfs(Libdw, cu, pc, [], []).visits).None?
    ensures DwNames(t, cu, pc, files).source.funcName
      == (if t.source.funcName != "" then t.source.funcName else t.objectFunction)
  {
    DwCallbacksEffect(t, Dfs(Libdw, cu, pc, [], []).visits, files);
  }
}
