/**
 * The BFD backend's section walk (find_symbol_details / find_in_section):
 * every section of the object is visited in order; a loaded section whose
 * address range holds the address, directly or after subtracting the
 * module's load base, is asked for the nearest line, first through the
 * static symbol table and then through the dynamic one.  The first
 * section that answers wins.  bfd_find_nearest_line is a parameter.
 */
module BfdSections {
  import opened Common

  /** The section attributes the walk reads: SEC_ALLOC, vma and size. */
  datatype Section = Section(alloc: bool, vma: U64, size: U64)

  /** A successful bfd_find_nearest_line answer. */
  datatype LineInfo = LineInfo(filename: string, funcName: string, line: nat)

  datatype Table = Symtab | DynamicSymtab

  /** Which symbol tables the loaded object holds. */
  datatype BfdObject = BfdObject(hasSymtab: bool, hasDynamicSymtab: bool)

  /** bfd_find_nearest_line(table, section k, offset into section). */
  type Nearest = (Table, nat, U64) -> Option<LineInfo>

  /** The bounds test: sec_addr <= addr < sec_addr + size, the end wrapping at 2^64. */
  predicate InBounds(addr: U64, s: Section)
    ensures InBounds(addr, s) ==> s.vma + s.size < Word64 && s.vma <= addr < s.vma + s.size
    ensures s.vma + s.size < Word64 && s.vma <= addr < s.vma + s.size ==> InBounds(addr, s)
  {
    s.vma <= addr < Add64(s.vma, s.size)
  }

  /**
   * The offset into the section that the lookup uses: the address itself
   * when it is in bounds, else the address less the load base when that
   * is; None for a section that is not loaded or holds neither.
   */
  function SectionOffset(addr: U64, base: U64, s: Section): (r: Option<U64>)
    ensures r.Some? ==> s.alloc
    ensures !s.alloc ==> r.None?
  {
    if !s.alloc then None
    else if InBounds(addr, s) then Some(Sub64(addr, s.vma))
    else
      var relocated := Sub64(addr, base);
      if InBounds(relocated, s) then Some(Sub64(relocated, s.vma)) else None
  }

  /** A section whose end wraps past 2^64 holds no address at all. */
  lemma WrappingSectionHoldsNothing(addr: U64, s: Section)
    requires s.vma + s.size >= Word64
    ensures !InBounds(addr, s)
  {
  }

  /**
   * The offset lies inside the section, and the section's start plus the
   * offset is either the address or the address less the load base.
   */
  lemma OffsetInsideSection(addr: U64, base: U64, s: Section)
    ensures SectionOffset(addr, base, s).Some? ==>
      SectionOffset(addr, base, s).value < s.size &&
      (Add64(s.vma, SectionOffset(addr, base, s).value) == addr ||
       Add64(s.vma, SectionOffset(addr, base, s).value) == Sub64(addr, base))
  {
    if SectionOffset(addr, base, s).Some? {
      var a := if InBounds(addr, s) then addr else Sub64(addr, base);
      assert InBounds(a, s);
      assert s.vma + s.size < Word64;
    }
  }

  /** The relocated address is tried only when the address itself misses. */
  lemma DirectAddressFirst(addr: U64, base: U64, s: Section)
    requires s.alloc && InBounds(addr, s)
    ensures SectionOffset(addr, base, s) == Some(addr - s.vma)
  {
  }

  /** Any address of a loaded section is found at its own offset. */
  lemma EveryOffsetReachable(base: U64, s: Section, o: nat)
    requires s.alloc && s.vma + s.size < Word64 && o < s.size
    ensures SectionOffset(s.vma + o, base, s) == Some(o)
  {
  }

  /** The lookup in one loaded section: static symbols, then dynamic ones. */
  function Lookup(addr: U64, base: U64, obj: BfdObject, k: nat, s: Section, nearest: Nearest): (r: Option<LineInfo>)
    ensures SectionOffset(addr, base, s).None? ==> r.None?
    ensures r.Some? ==> exists t :: r == nearest(t, k, SectionOffset(addr, base, s).value)
  {
    match SectionOffset(addr, base, s)
    case None => None
    case Some(o) =>
      var fromStatic := if obj.hasSymtab then nearest(Symtab, k, o) else None;
      if fromStatic.Some? then fromStatic
      else if obj.hasDynamicSymtab then nearest(DynamicSymtab, k, o)
      else None
  }

  /** The static table is asked first; the dynamic one only when it fails. */
  lemma StaticTableFirst(addr: U64, base: U64, obj: BfdObject, k: nat, s: Section, nearest: Nearest)
    requires SectionOffset(addr, base, s).Some?
    ensures var o := SectionOffset(addr, base, s).value;
      Lookup(addr, base, obj, k, s, nearest) ==
        if obj.hasSymtab && nearest(Symtab, k, o).Some? then nearest(Symtab, k, o)
        else if obj.hasDynamicSymtab then nearest(DynamicSymtab, k, o)
        else None
  {
  }

  /** find_in_section: nothing more happens once a result was found. */
  function FindInSection(addr: U64, base: U64, obj: BfdObject, k: nat, s: Section, nearest: Nearest,
                         result: Option<LineInfo>): (r: Option<LineInfo>)
    ensures result.Some? ==> r == result
  {
    if result.Some? then result else Lookup(addr, base, obj, k, s, nearest)
  }

  /** bfd_map_over_sections applied to find_in_section from section i on. */
  function MapOverSections(addr: U64, base: U64, obj: BfdObject, sections: seq<Section>, nearest: Nearest,
                           i: nat, result: Option<LineInfo>): (r: Option<LineInfo>)
    requires i <= |sections|
    ensures result.Some? ==> r == result
    ensures r.Some? && result.None? ==>
      exists k :: i <= k < |sections| && r == Lookup(addr, base, obj, k, sections[k], nearest)
    decreases |sections| - i
  {
    if i == |sections| then result
    else MapOverSections(addr, base, obj, sections, nearest, i + 1,
                         FindInSection(addr, base, obj, i, sections[i], nearest, result))
  }

  /** The first section from i on whose lookup succeeds. */
  function FirstAnswering(addr: U64, base: U64, obj: BfdObject, sections: seq<Section>, nearest: Nearest,
                          i: nat): (r: Option<nat>)
    requires i <= |sections|
    ensures r.Some? ==> i <= r.value < |sections| && Lookup(addr, base, obj, r.value, sections[r.value], nearest).Some?
    ensures r.Some? ==> forall j :: i <= j < r.value ==> Lookup(addr, base, obj, j, sections[j], nearest).None?
    ensures r.None? ==> forall j :: i <= j < |sections| ==> Lookup(addr, base, obj, j, sections[j], nearest).None?
    decreases |sections| - i
  {
    if i == |sections| then None
    else if Lookup(addr, base, obj, i, sections[i], nearest).Some? then Some(i)
    else FirstAnswering(addr, base, obj, sections, nearest, i + 1)
  }

  /** Once found, the result is carried unchanged through the remaining sections. */
  lemma {:induction false} FoundIsKept(addr: U64, base: U64, obj: BfdObject, sections: seq<Section>, nearest: Nearest,
                                       i: nat, x: LineInfo)
    requires i <= |sections|
    ensures MapOverSections(addr, base, obj, sections, nearest, i, Some(x)) == Some(x)
    decreases |sections| - i
  {
    if i < |sections| {
      FoundIsKept(addr, base, obj, sections, nearest, i + 1, x);
    }
  }

  /** The walk yields the answer of the first section that gives one. */
  lemma {:induction false} FirstSectionWins(addr: U64, base: U64, obj: BfdObject, sections: seq<Section>, nearest: Nearest,
                                            i: nat)
    requires i <= |sections|
    ensures var k := FirstAnswering(addr, base, obj, sections, nearest, i);
      MapOverSections(addr, base, obj, sections, nearest, i, None) ==
        if k.Some? then Lookup(addr, base, obj, k.value, sections[k.value], nearest) else None
    decreases |sections| - i
  {
    if i < |sections| {
      var here := Lookup(addr, base, obj, i, sections[i], nearest);
      if here.Some? {
        FoundIsKept(addr, base, obj, sections, nearest, i + 1, here.value);
      } else {
        FirstSectionWins(addr, base, obj, sections, nearest, i + 1);
      }
    }
  }

  /** find_symbol_details: the result starts as not found and each section may fill it. */
  method FindSymbolDetails(addr: U64, base: U64, obj: BfdObject, sections: seq<Section>, nearest: Nearest)
    returns (result: Option<LineInfo>)
    ensures result == MapOverSections(addr, base, obj, sections, nearest, 0, None)
    ensures var k := FirstAnswering(addr, base, obj, sections, nearest, 0);
      result == if k.Some? then Lookup(addr, base, obj, k.value, sections[k.value], nearest) else None
  {
    result := None;
    var i := 0;
    while i < |sections|
      invariant i <= |sections|
      invariant MapOverSections(addr, base, obj, sections, nearest, i, result)
             == MapOverSections(addr, base, obj, sections, nearest, 0, None)
    {
      result := FindInSectionStep(addr, base, obj, i, sections[i], nearest, result);
      i := i + 1;
    }
    FirstSectionWins(addr, base, obj, sections, nearest, 0);
  }

  /** find_in_section, operating on the caller's result. */
  method FindInSectionStep(addr: U64, base: U64, obj: BfdObject, k: nat, s: Section, nearest: Nearest,
                           result: Option<LineInfo>) returns (r: Option<LineInfo>)
    ensures r == FindInSection(addr, base, obj, k, s, nearest, result)
  {
    r := result;
    if r.Some? {
      return;
    }
    if !s.alloc {
      return;
    }
    var a := addr;
    if a < s.vma || a >= Add64(s.vma, s.size) {
      a := Sub64(a, base);
      if a < s.vma || a >= Add64(s.vma, s.size) {
        return;
      }
    }
    if r.None? && obj.hasSymtab {
      r := nearest(Symtab, k, Sub64(a, s.vma));
    }
    if r.None? && obj.hasDynamicSymtab {
      r := nearest(DynamicSymtab, k, Sub64(a, s.vma));
    }
  }
}
