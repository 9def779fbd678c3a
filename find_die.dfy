/**
 * How the libdwarf backend finds the compilation unit of an address
 * (find_die): the .debug_aranges table first, then the units whose own
 * range covers the address, then every unit that holds a function DIE
 * covering it.  The last tier searches the unit with find_fundie_by_pc.
 */
module FindDie {
  import opened Common
  import opened Dies
  import opened DieSearch

  predicate IsFunction(d: Die)
  {
    d.tag == Subprogram || d.tag == InlinedSubroutine
  }

  /** A function DIE that covers pc. */
  predicate FunctionHasPc(d: Die, pc: U64)
  {
    IsFunction(d) && DieHasPc(d, pc)
  }

  // ---------------------------------------------------------------------
  // find_fundie_by_pc, as written

  /**
   * find_fundie_by_pc as the libdwarf backend has it.  A match among the
   * children is returned; but when the search below a child succeeds, the
   * function returns its local die_mem, which is still 0: the caller sees
   * no match, and this level stops searching.
   */
  function FunDieAsWritten(parent: Die, pc: U64): (r: Option<Die>)
    ensures r.Some? ==> FunctionHasPc(r.value, pc) && r.value in parent.children
    decreases parent, 1
  {
    FunDieAsWrittenFrom(parent, 0, pc)
  }

  function FunDieAsWrittenFrom(parent: Die, i: nat, pc: U64): (r: Option<Die>)
    requires i <= |parent.children|
    ensures r.Some? ==> FunctionHasPc(r.value, pc) && r.value in parent.children[i..]
    decreases parent, 0, |parent.children| - i
  {
    if i == |parent.children| then None
    else
      var c := parent.children[i];
      if FunctionHasPc(c, pc) then Some(c)
      else if !c.declaration && FunDieAsWritten(c, pc).Some? then None
      else if c.siblingError then None
      else FunDieAsWrittenFrom(parent, i + 1, pc)
  }

  // ---------------------------------------------------------------------
  // find_fundie_by_pc, as intended

  /**
   * The search that returns the match found below a child, as the libdw
   * backend's find_fundie_by_pc does over its own die_has_pc.
   */
  function FunDie(parent: Die, pc: U64): (r: Option<Die>)
    ensures r.Some? ==> FunctionHasPc(r.value, pc)
    decreases parent, 1
  {
    FunDieFrom(parent, 0, pc)
  }

  function FunDieFrom(parent: Die, i: nat, pc: U64): (r: Option<Die>)
    requires i <= |parent.children|
    ensures r.Some? ==> FunctionHasPc(r.value, pc)
    decreases parent, 0, |parent.children| - i
  {
    if i == |parent.children| then None
    else
      var c := parent.children[i];
      if FunctionHasPc(c, pc) then Some(c)
      else if !c.declaration && FunDie(c, pc).Some? then FunDie(c, pc)
      else if c.siblingError then None
      else FunDieFrom(parent, i + 1, pc)
  }

  /** x lies below d on a path that does not pass through a declaration. */
  ghost predicate Searchable(d: Die, x: Die)
    decreases d
  {
    exists i :: 0 <= i < |d.children| && (d.children[i] == x || (!d.children[i].declaration && Searchable(d.children[i], x)))
  }

  /** Soundness: what the search returns is a function DIE covering pc, below the parent. */
  lemma {:induction false} FunDieSound(parent: Die, pc: U64)
    ensures FunDie(parent, pc).Some? ==>
      FunctionHasPc(FunDie(parent, pc).value, pc) && Searchable(parent, FunDie(parent, pc).value)
    decreases parent, 1
  {
    FunDieFromSound(parent, 0, pc);
  }

  lemma {:induction false} FunDieFromSound(parent: Die, i: nat, pc: U64)
    requires i <= |parent.children|
    ensures FunDieFrom(parent, i, pc).Some? ==>
      FunctionHasPc(FunDieFrom(parent, i, pc).value, pc) && Searchable(parent, FunDieFrom(parent, i, pc).value)
    decreases parent, 0, |parent.children| - i
  {
    if i < |parent.children| {
      var c := parent.children[i];
      if FunctionHasPc(c, pc) {
        assert parent.children[i] == c;
      } else if !c.declaration && FunDie(c, pc).Some? {
        FunDieSound(c, pc);
        assert !parent.children[i].declaration && Searchable(parent.children[i], FunDie(c, pc).value);
      } else if !c.siblingError {
        FunDieFromSound(parent, i + 1, pc);
      }
    }
  }

  /**
   * Completeness: when no sibling chain breaks off, a function DIE covering
   * pc below the parent is always found.
   */
  lemma {:induction false} FunDieComplete(parent: Die, pc: U64, x: Die)
    requires NoSiblingErrors(parent)
    requires Searchable(parent, x) && FunctionHasPc(x, pc)
    ensures FunDie(parent, pc).Some?
    decreases parent, 1
  {
    var i :| 0 <= i < |parent.children| && (parent.children[i] == x || (!parent.children[i].declaration && Searchable(parent.children[i], x)));
    FunDieFromComplete(parent, 0, pc, x, i);
  }

  lemma {:induction false} FunDieFromComplete(parent: Die, j: nat, pc: U64, x: Die, i: nat)
    requires NoSiblingErrors(parent)
    requires j <= i < |parent.children|
    requires parent.children[i] == x || (!parent.children[i].declaration && Searchable(parent.children[i], x))
    requires FunctionHasPc(x, pc)
    ensures FunDieFrom(parent, j, pc).Some?
    decreases parent, 0, |parent.children| - j
  {
    var c := parent.children[j];
    if !FunctionHasPc(c, pc) && !(!c.declaration && FunDie(c, pc).Some?) {
      if j == i {
        assert parent.children[i] != x;
        FunDieComplete(c, pc, x);
        assert false;
      } else {
        FunDieFromComplete(parent, j + 1, pc, x, i);
      }
    }
  }

  /** find_fundie_by_pc with the nested result returned, step by step. */
  method FindFunDieByPc(parent: Die, pc: U64) returns (result: Option<Die>)
    ensures result == FunDie(parent, pc)
    decreases parent
  {
    var i := 0;
    while i < |parent.children|
      invariant i <= |parent.children|
      invariant FunDieFrom(parent, i, pc) == FunDie(parent, pc)
    {
      var c := parent.children[i];
      if c.tag == Subprogram || c.tag == InlinedSubroutine {
        var has := HasPc(c, pc);
        if has {
          return Some(c);
        }
      }
      if !c.declaration {
        var inner := FindFunDieByPc(c, pc);
        if inner.Some? {
          return inner;
        }
      }
      if c.siblingError {
        return None;
      }
      i := i + 1;
    }
    return None;
  }

  /**
   * The discrepancy: a function covering pc inside a namespace (or any
   * other DIE that is not itself a matching function) is found by the
   * intended search but lost by the search as written.
   */
  lemma NestedFunctionLost(cu: Die, scope: Die, f: Die, pc: U64)
    requires cu.children == [scope]
    requires !FunctionHasPc(scope, pc) && !scope.declaration
    requires scope.children == [f] && FunctionHasPc(f, pc)
    ensures FunDieAsWritten(cu, pc).None?
    ensures FunDie(cu, pc) == Some(f)
  {
    assert FunDieAsWrittenFrom(scope, 0, pc) == Some(f);
    assert FunDieAsWritten(scope, pc) == Some(f);
    assert FunDieAsWrittenFrom(cu, 0, pc).None?;
    assert FunDieFrom(scope, 0, pc) == Some(f);
    assert FunDie(scope, pc) == Some(f);
    assert FunDieFrom(cu, 0, pc) == Some(f);
  }

  /** A witness that the premises can be met: main inside namespace app, pc at its low_pc. */
  lemma NestedFunctionExample()
    ensures var f := Die(Subprogram, Some("main"), false, Some(0x1000), Some(0x20), true, None, NoDwAddrs, None,
                         "", "", "", false, "", 0, 0, 0, None, false, []);
      var scope := Die(Namespace, Some("app"), false, None, None, false, None, NoDwAddrs, None,
                       "", "", "", false, "", 0, 0, 0, None, false, [f]);
      var cu := Die(CompileUnit, None, false, None, None, false, None, NoDwAddrs, None,
                    "", "", "", false, "", 0, 0, 0, None, false, [scope]);
      FunDieAsWritten(cu, 0x1000).None? && FunDie(cu, 0x1000) == Some(f)
  {
    var f := Die(Subprogram, Some("main"), false, Some(0x1000), Some(0x20), true, None, NoDwAddrs, None,
                 "", "", "", false, "", 0, 0, 0, None, false, []);
    var scope := Die(Namespace, Some("app"), false, None, None, false, None, NoDwAddrs, None,
                     "", "", "", false, "", 0, 0, 0, None, false, [f]);
    var cu := Die(CompileUnit, None, false, None, None, false, None, NoDwAddrs, None,
                  "", "", "", false, "", 0, 0, 0, None, false, [scope]);
    assert DieHasPc(f, 0x1000);
    assert !DieHasPc(scope, 0x1000);
    NestedFunctionLost(cu, scope, f, 0x1000);
  }

  // ---------------------------------------------------------------------
  // find_die

  /** Tier 2: a compile-unit DIE whose own range covers pc. */
  predicate CuHasPc(cu: Option<Die>, pc: U64)
  {
    cu.Some? && cu.value.tag == CompileUnit && DieHasPc(cu.value, pc)
  }

  /** Tier 3: a unit with a function DIE covering pc. */
  predicate CuHasFunction(cu: Option<Die>, pc: U64)
  {
    cu.Some? && FunDie(cu.value, pc).Some?
  }

  predicate CuHasFunctionAsWritten(cu: Option<Die>, pc: U64)
  {
    cu.Some? && FunDieAsWritten(cu.value, pc).Some?
  }

  /** The first unit from i on that passes tier 2. */
  function FirstCuWithPc(cus: seq<Option<Die>>, i: nat, pc: U64): (r: Option<nat>)
    requires i <= |cus|
    ensures r.Some? ==> i <= r.value < |cus| && CuHasPc(cus[r.value], pc)
    ensures r.Some? ==> forall j :: i <= j < r.value ==> !CuHasPc(cus[j], pc)
    ensures r.None? ==> forall j :: i <= j < |cus| ==> !CuHasPc(cus[j], pc)
    decreases |cus| - i
  {
    if i == |cus| then None
    else if CuHasPc(cus[i], pc) then Some(i)
    else FirstCuWithPc(cus, i + 1, pc)
  }

  /** The first unit from i on that passes tier 3. */
  function FirstCuWithFunction(cus: seq<Option<Die>>, i: nat, pc: U64): (r: Option<nat>)
    requires i <= |cus|
    ensures r.Some? ==> i <= r.value < |cus| && CuHasFunction(cus[r.value], pc)
    ensures r.Some? ==> forall j :: i <= j < r.value ==> !CuHasFunction(cus[j], pc)
    ensures r.None? ==> forall j :: i <= j < |cus| ==> !CuHasFunction(cus[j], pc)
    decreases |cus| - i
  {
    if i == |cus| then None
    else if CuHasFunction(cus[i], pc) then Some(i)
    else FirstCuWithFunction(cus, i + 1, pc)
  }

  function FirstCuWithFunctionAsWritten(cus: seq<Option<Die>>, i: nat, pc: U64): (r: Option<nat>)
    requires i <= |cus|
    ensures r.Some? ==> i <= r.value < |cus| && CuHasFunctionAsWritten(cus[r.value], pc)
    ensures r.Some? ==> forall j :: i <= j < r.value ==> !CuHasFunctionAsWritten(cus[j], pc)
    ensures r.None? ==> forall j :: i <= j < |cus| ==> !CuHasFunctionAsWritten(cus[j], pc)
    decreases |cus| - i
  {
    if i == |cus| then None
    else if CuHasFunctionAsWritten(cus[i], pc) then Some(i)
    else FirstCuWithFunctionAsWritten(cus, i + 1, pc)
  }

  /**
   * find_die.  `arange` is the unit the aranges lookup yields (None when
   * the table, the lookup, the unit offset or the DIE cannot be had); `cus`
   * holds one entry per unit header, None where its DIE cannot be read.
   */
  function FindDieSpec(arange: Option<Die>, cus: seq<Option<Die>>, pc: U64): (r: Option<Die>)
    ensures arange.Some? ==> r == arange
    ensures r.Some? && arange.None? ==> exists k :: 0 <= k < |cus| && cus[k] == r
    // Each tier is tried only when the ones before it failed: the first unit
    // whose own range covers pc, and only when there is none, the first unit
    // holding a covering function.
    ensures arange.None? ==>
      forall k :: (0 <= k < |cus| && CuHasPc(cus[k], pc) && (forall j :: 0 <= j < k ==> !CuHasPc(cus[j], pc)))
        ==> r == cus[k]
    ensures arange.None? && (forall j :: 0 <= j < |cus| ==> !CuHasPc(cus[j], pc)) ==>
      forall k :: (0 <= k < |cus| && CuHasFunction(cus[k], pc) && (forall j :: 0 <= j < k ==> !CuHasFunction(cus[j], pc)))
        ==> r == cus[k]
  {
    if arange.Some? then arange
    else
      var k2 := FirstCuWithPc(cus, 0, pc);
      if k2.Some? then cus[k2.value]
      else
        var k3 := FirstCuWithFunction(cus, 0, pc);
        if k3.Some? then cus[k3.value] else None
  }

  /** find_die with find_fundie_by_pc as written. */
  function FindDieAsWritten(arange: Option<Die>, cus: seq<Option<Die>>, pc: U64): (r: Option<Die>)
    ensures arange.Some? ==> r == arange
  {
    if arange.Some? then arange
    else
      var k2 := FirstCuWithPc(cus, 0, pc);
      if k2.Some? then cus[k2.value]
      else
        var k3 := FirstCuWithFunctionAsWritten(cus, 0, pc);
        if k3.Some? then cus[k3.value] else None
  }

  /** Nothing found: no aranges entry, no unit covering pc, no function covering pc. */
  lemma FindDieFails(arange: Option<Die>, cus: seq<Option<Die>>, pc: U64)
    ensures FindDieSpec(arange, cus, pc).None? <==>
      arange.None? && (forall j :: 0 <= j < |cus| ==> !CuHasPc(cus[j], pc) && !CuHasFunction(cus[j], pc))
  {
    if arange.None? && FirstCuWithPc(cus, 0, pc).None? && FirstCuWithFunction(cus, 0, pc).None? {
      assert forall j :: 0 <= j < |cus| ==> !CuHasPc(cus[j], pc) && !CuHasFunction(cus[j], pc);
    }
  }

  /**
   * The effect of the discrepancy on find_die: a unit whose only covering
   * function is nested is lost when its own range does not help.
   */
  lemma NestedFunctionLosesUnit(cu: Die, scope: Die, f: Die, pc: U64)
    requires cu.tag == CompileUnit && !DieHasPc(cu, pc)
    requires cu.children == [scope]
    requires !FunctionHasPc(scope, pc) && !scope.declaration
    requires scope.children == [f] && FunctionHasPc(f, pc)
    ensures FindDieAsWritten(None, [Some(cu)], pc).None?
    ensures FindDieSpec(None, [Some(cu)], pc) == Some(cu)
  {
    NestedFunctionLost(cu, scope, f, pc);
    assert !CuHasPc([Some(cu)][0], pc);
    assert CuHasFunction([Some(cu)][0], pc);
  }

  /** find_die: the aranges result, then the unit-range scan, then the full scan. */
  method FindDieScan(arange: Option<Die>, cus: seq<Option<Die>>, pc: U64) returns (r: Option<Die>)
    ensures r == FindDieSpec(arange, cus, pc)
  {
    if arange.Some? {
      return arange;
    }
    var found := false;
    var returnDie: Option<Die> := None;
    var i := 0;
    while !found && i < |cus|
      invariant i <= |cus|
      invariant !found ==> FirstCuWithPc(cus, i, pc) == FirstCuWithPc(cus, 0, pc)
      invariant found ==> i > 0 && FirstCuWithPc(cus, 0, pc) == Some(i - 1) && returnDie == cus[i - 1]
    {
      returnDie := cus[i];
      if returnDie.Some? && returnDie.value.tag == CompileUnit {
        var has := HasPc(returnDie.value, pc);
        if has {
          found := true;
        }
      }
      i := i + 1;
    }
    if found {
      return returnDie;
    }
    i := 0;
    while i < |cus|
      invariant i <= |cus|
      invariant FirstCuWithFunction(cus, i, pc) == FirstCuWithFunction(cus, 0, pc)
    {
      if cus[i].Some? {
        var resultDie := FindFunDieByPc(cus[i].value, pc);
        if resultDie.Some? {
          return cus[i];
        }
      }
      i := i + 1;
    }
    return None;
  }
}
