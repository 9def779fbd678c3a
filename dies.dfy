/**
 * Debugging information entries (DIEs) as the two DWARF backends see them,
 * and the test whether a DIE's code covers a program counter.
 *
 * A Die carries the answers of the DWARF library directly: attributes that
 * the library may fail to read are Options (None = absent or unreadable),
 * names of referenced DIEs are strings ("" = none), and the DIE that
 * get_spec_die finds for it (specification or abstract origin) is a field.
 * The two libraries answer the address queries differently (libdw tells
 * a missing attribute from one it cannot read, and applies the CU base
 * address to range entries itself), so libdw's answers are a record of
 * their own.
 */
module Dies {
  import opened Common

  datatype Tag =
    | CompileUnit
    | Subprogram
    | InlinedSubroutine
    | Namespace
    | ClassType
    | FormalParameter
    | OtherTag

  /** One entry of a DW_AT_ranges list (Dwarf_Ranges: dwr_addr1, dwr_addr2). */
  datatype RangeEntry = RangeEntry(addr1: U64, addr2: U64)

  /** What the libdw address queries report for a DIE. */
  datatype DwAddrs = DwAddrs(
    /** dwarf_hasattr of DW_AT_low_pc and of DW_AT_high_pc both hold */
    hasBounds: bool,
    /** dwarf_lowpc: None when it fails */
    low: Option<U64>,
    /** dwarf_highpc, the end address: None when it fails */
    high: Option<U64>,
    /** dwarf_formudata of DW_AT_high_pc, read when dwarf_highpc fails: None when it fails too */
    highOffset: Option<U64>,
    /** the (low, high) pairs dwarf_ranges yields, already absolute, until it returns 0 or -1 */
    ranges: seq<RangeEntry>)

  /** libdw reports no address attributes and an empty range list. */
  const NoDwAddrs: DwAddrs := DwAddrs(false, None, None, None, [])

  datatype Die = Die(
    tag: Tag,
    /** dwarf_diename */
    name: Option<string>,
    /** DW_AT_declaration is set */
    declaration: bool,
    /** dwarf_lowpc / dwarf_highpc */
    lowPc: Option<U64>,
    highPc: Option<U64>,
    /** DW_AT_high_pc has constant form class: an offset from low_pc */
    highIsConst: bool,
    /** the DW_AT_ranges list as libdwarf returns it (raw entries), when the attribute and the list can be read */
    ranges: Option<seq<RangeEntry>>,
    /** the same addresses as libdw reports them */
    dw: DwAddrs,
    /** get_spec_die: the completing DIE, if any */
    spec: Option<Die>,
    /** names of the DIEs referenced by DW_AT_type, DW_AT_abstract_origin, DW_AT_specification */
    typeName: string,
    originName: string,
    specName: string,
    /** DW_AT_artificial is set */
    artificial: bool,
    /** the text set_parameter_string builds for a formal parameter */
    paramText: string,
    /** DW_AT_call_file, DW_AT_call_line, DW_AT_call_column (0 when absent) */
    callFile: nat,
    callLine: nat,
    callColumn: nat,
    /** DW_AT_linkage_name or DW_AT_MIPS_linkage_name */
    linkageName: Option<string>,
    /** dwarf_siblingof reports an error after this DIE */
    siblingError: bool,
    children: seq<Die>)

  // ---------------------------------------------------------------------
  // libdwarf die_has_pc

  /** A range entry covers pc: entries starting at 0 are skipped, the others are offset by the base. */
  predicate RangeHit(e: RangeEntry, base: U64, pc: U64)
  {
    e.addr1 != 0 && Add64(e.addr1, base) <= pc < Add64(e.addr2, base)
  }

  predicate AnyRangeHit(rs: seq<RangeEntry>, base: U64, pc: U64)
  {
    exists i :: 0 <= i < |rs| && RangeHit(rs[i], base, pc)
  }

  /** The end of the continuous range [low_pc, high_pc) of a DIE with both bounds. */
  function HighOf(d: Die): (h: U64)
    requires d.lowPc.Some? && d.highPc.Some?
    ensures d.highIsConst && d.lowPc.value + d.highPc.value < Word64 ==> h == d.lowPc.value + d.highPc.value
    ensures !d.highIsConst ==> h == d.highPc.value
  {
    if d.highIsConst then Add64(d.lowPc.value, d.highPc.value) else d.highPc.value
  }

  /** The range list is present and not empty (has_ranges). */
  predicate HasRanges(d: Die)
  {
    d.ranges.Some? && |d.ranges.value| != 0
  }

  /**
   * die_has_pc of the libdwarf backend: the continuous range when both
   * bounds are known; otherwise the range list offset by low_pc (0 when
   * absent), then a lone low_pc, then the completing DIE when the DIE has
   * neither low_pc nor a range list.
   */
  function DieHasPc(d: Die, pc: U64): (r: bool)
    ensures r && d.lowPc.None? && !HasRanges(d) ==> d.spec.Some?
    ensures r && d.lowPc.Some? && d.highPc.None? && !HasRanges(d) ==> pc == d.lowPc.value != 0
    decreases d
  {
    if d.lowPc.Some? && d.highPc.Some? then
      d.lowPc.value <= pc < HighOf(d)
    else
      var low: U64 := if d.lowPc.Some? then d.lowPc.value else 0;
      var result := (d.ranges.Some? && AnyRangeHit(d.ranges.value, low, pc)) || (low != 0 && pc == low);
      if !result && d.lowPc.None? && !HasRanges(d) && d.spec.Some? then DieHasPc(d.spec.value, pc)
      else result
  }

  /** The loop over the range list, leaving at the first entry that covers pc. */
  method SearchRanges(rs: seq<RangeEntry>, low: U64, pc: U64) returns (result: bool)
    ensures result <==> AnyRangeHit(rs, low, pc)
  {
    result := false;
    var i := 0;
    while i < |rs|
      invariant i <= |rs|
      invariant !result
      invariant forall j :: 0 <= j < i ==> !RangeHit(rs[j], low, pc)
    {
      if rs[i].addr1 != 0 && pc >= Add64(rs[i].addr1, low) && pc < Add64(rs[i].addr2, low) {
        result := true;
        break;
      }
      i := i + 1;
    }
  }

  /** die_has_pc (libdwarf), step by step. */
  method HasPc(d: Die, pc: U64) returns (result: bool)
    ensures result == DieHasPc(d, pc)
    decreases d
  {
    var low: U64 := 0;
    var hasLowpc := false;
    var hasHighpc := false;
    var hasRanges := false;
    if d.lowPc.Some? {
      hasLowpc := true;
      low := d.lowPc.value;
      if d.highPc.Some? {
        hasHighpc := true;
        var high := d.highPc.value;
        if d.highIsConst {
          high := Add64(low, high);
        }
        return pc >= low && pc < high;
      }
    }
    result := false;
    if d.ranges.Some? {
      hasRanges := |d.ranges.value| != 0;
      result := SearchRanges(d.ranges.value, low, pc);
    }
    if !result && low != 0 && pc == low {
      result := true;
    }
    if !result && !hasLowpc && !hasHighpc && !hasRanges && d.spec.Some? {
      result := HasPc(d.spec.value, pc);
    }
  }

  /** [low_pc, high_pc) is half-open: low_pc is covered (when the range is not empty), high_pc is not. */
  lemma HalfOpen(d: Die)
    requires d.lowPc.Some? && d.highPc.Some?
    ensures !DieHasPc(d, HighOf(d))
    ensures d.lowPc.value < HighOf(d) ==> DieHasPc(d, d.lowPc.value)
    ensures forall pc: U64 :: DieHasPc(d, pc) ==> d.lowPc.value <= pc < HighOf(d)
  {
  }

  /** With both bounds known, neither the range list nor the completing DIE is consulted. */
  lemma BoundsDecideAlone(d: Die, pc: U64, rs: Option<seq<RangeEntry>>, spec: Option<Die>)
    requires d.lowPc.Some? && d.highPc.Some?
    ensures DieHasPc(d, pc) == DieHasPc(d.(ranges := rs, spec := spec), pc)
  {
  }

  /**
   * A high_pc of constant class is an offset from low_pc (section 2.17.2
   * of DWARF Version 4): [low, low + offset) when the sum fits in 64 bits.
   */
  lemma ConstantHighIsOffset(d: Die, pc: U64)
    requires d.lowPc.Some? && d.highPc.Some? && d.highIsConst
    requires d.lowPc.value + d.highPc.value < Word64
    ensures DieHasPc(d, pc) <==> d.lowPc.value <= pc < d.lowPc.value + d.highPc.value
  {
  }

  /** An offset that carries the end past 2^64 wraps it below low_pc: nothing is covered. */
  lemma WrappedOffsetCoversNothing(d: Die, pc: U64)
    requires d.lowPc.Some? && d.highPc.Some? && d.highIsConst
    requires d.lowPc.value + d.highPc.value >= Word64
    ensures !DieHasPc(d, pc)
  {
  }

  /** An address-class high_pc is the end address itself. */
  lemma AddressHighIsEnd(d: Die, pc: U64)
    requires d.lowPc.Some? && d.highPc.Some? && !d.highIsConst
    ensures DieHasPc(d, pc) <==> d.lowPc.value <= pc < d.highPc.value
  {
  }

  /** Without low_pc the high_pc attribute is never looked at. */
  lemma HighWithoutLowIgnored(d: Die, pc: U64)
    requires d.lowPc.None?
    ensures DieHasPc(d, pc) == DieHasPc(d.(highPc := None), pc)
  {
  }

  /**
   * A range entry that starts at 0 is skipped: adding one to a non-empty
   * list changes nothing.
   */
  lemma {:induction false} ZeroStartEntrySkipped(d: Die, pc: U64, before: seq<RangeEntry>, after: seq<RangeEntry>, end: U64)
    requires d.highPc.None? || d.lowPc.None?
    requires |before + after| != 0
    requires d.ranges == Some(before + after)
    ensures DieHasPc(d.(ranges := Some(before + [RangeEntry(0, end)] + after)), pc) == DieHasPc(d, pc)
  {
    var low: U64 := if d.lowPc.Some? then d.lowPc.value else 0;
    var rs := before + after;
    var rs' := before + [RangeEntry(0, end)] + after;
    assert AnyRangeHit(rs', low, pc) ==> AnyRangeHit(rs, low, pc) by {
      if AnyRangeHit(rs', low, pc) {
        var i :| 0 <= i < |rs'| && RangeHit(rs'[i], low, pc);
        if i < |before| {
          assert rs[i] == rs'[i];
        } else {
          assert i > |before|;
          assert rs[i - 1] == rs'[i];
        }
      }
    }
    assert AnyRangeHit(rs, low, pc) ==> AnyRangeHit(rs', low, pc) by {
      if AnyRangeHit(rs, low, pc) {
        var i :| 0 <= i < |rs| && RangeHit(rs[i], low, pc);
        if i < |before| {
          assert rs'[i] == rs[i];
        } else {
          assert rs'[i + 1] == rs[i];
        }
      }
    }
  }

  /**
   * Every range entry is offset by low_pc: the first address of a
   * non-degenerate entry, shifted by low_pc, is covered.
   */
  lemma RangeEntryOffsetByLow(d: Die, i: nat)
    requires d.highPc.None? || d.lowPc.None?
    requires d.ranges.Some? && i < |d.ranges.value|
    requires var e := d.ranges.value[i]; var low: U64 := if d.lowPc.Some? then d.lowPc.value else 0;
      e.addr1 != 0 && Add64(e.addr1, low) < Add64(e.addr2, low)
    ensures DieHasPc(d, Add64(d.ranges.value[i].addr1, if d.lowPc.Some? then d.lowPc.value else 0))
  {
    var low: U64 := if d.lowPc.Some? then d.lowPc.value else 0;
    assert RangeHit(d.ranges.value[i], low, Add64(d.ranges.value[i].addr1, low));
  }

  /** A lone low_pc other than 0 covers exactly that one address. */
  lemma LoneLowPc(d: Die, pc: U64)
    requires d.lowPc.Some? && d.lowPc.value != 0 && d.highPc.None?
    requires d.ranges.None? || d.ranges == Some([])
    ensures DieHasPc(d, pc) <==> pc == d.lowPc.value
  {
  }

  /** A lone low_pc of 0 covers nothing. */
  lemma LoneZeroLowPc(d: Die, pc: U64)
    requires d.lowPc == Some(0) && d.highPc.None?
    requires d.ranges.None? || d.ranges == Some([])
    ensures !DieHasPc(d, pc)
  {
  }

  /** The completing DIE is consulted only when low_pc and the range list are both absent. */
  lemma SpecOnlyWithoutPcInfo(d: Die, pc: U64, spec: Option<Die>)
    requires d.lowPc.Some? || HasRanges(d)
    ensures DieHasPc(d, pc) == DieHasPc(d.(spec := spec), pc)
  {
  }

  /** ... and then it decides alone. */
  lemma SpecDecidesWithoutPcInfo(d: Die, pc: U64)
    requires d.lowPc.None? && !HasRanges(d)
    ensures DieHasPc(d, pc) <==> d.spec.Some? && DieHasPc(d.spec.value, pc)
  {
    if d.ranges.Some? {
      assert !AnyRangeHit(d.ranges.value, 0, pc);
    }
  }

  // ---------------------------------------------------------------------
  // libdw die_has_pc

  predicate AbsoluteRangeHit(rs: seq<RangeEntry>, pc: U64)
  {
    exists i :: 0 <= i < |rs| && rs[i].addr1 <= pc < rs[i].addr2
  }

  /**
   * die_has_pc of the libdw backend: when both bound attributes are
   * present, the continuous range, with the end taken from dwarf_highpc or
   * else as low_pc plus the DW_AT_high_pc constant, and no hit when a bound
   * cannot be read; otherwise any pair of the range list.
   */
  function DieHasPcDw(d: Die, pc: U64): (r: bool)
    ensures d.dw.hasBounds && d.dw.low.None? ==> !r
    ensures d.dw.hasBounds && d.dw.high.None? && d.dw.highOffset.None? ==> !r
    ensures r && d.dw.hasBounds ==> d.dw.low.Some? && d.dw.low.value <= pc
    ensures r && !d.dw.hasBounds ==> |d.dw.ranges| != 0
  {
    var a := d.dw;
    if a.hasBounds then
      if a.low.None? then false
      else if a.high.Some? then a.low.value <= pc < a.high.value
      else if a.highOffset.None? then false
      else a.low.value <= pc < Add64(a.low.value, a.highOffset.value)
    else AbsoluteRangeHit(a.ranges, pc)
  }

  /** die_has_pc (libdw), step by step, with the dwarf_ranges loop. */
  method HasPcDw(d: Die, pc: U64) returns (result: bool)
    ensures result == DieHasPcDw(d, pc)
  {
    var a := d.dw;
    if a.hasBounds {
      if a.low.None? {
        return false;
      }
      var low := a.low.value;
      var high: U64;
      if a.high.Some? {
        high := a.high.value;
      } else {
        if a.highOffset.None? {
          return false;
        }
        high := Add64(low, a.highOffset.value);
      }
      return pc >= low && pc < high;
    }
    var rs := a.ranges;
    var i := 0;
    while i < |rs|
      invariant i <= |rs|
      invariant forall j :: 0 <= j < i ==> !(rs[j].addr1 <= pc < rs[j].addr2)
    {
      if pc >= rs[i].addr1 && pc < rs[i].addr2 {
        return true;
      }
      i := i + 1;
    }
    return false;
  }

  /** When dwarf_highpc fails, the DW_AT_high_pc constant is an offset from low_pc. */
  lemma HighOffsetFallback(d: Die, pc: U64)
    requires d.dw.hasBounds && d.dw.low.Some? && d.dw.high.None? && d.dw.highOffset.Some?
    requires d.dw.low.value + d.dw.highOffset.value < Word64
    ensures DieHasPcDw(d, pc) <==> d.dw.low.value <= pc < d.dw.low.value + d.dw.highOffset.value
  {
  }

  /** With both bound attributes present the range list is never read, even when a bound is unreadable. */
  lemma DwBoundsDecideAlone(d: Die, pc: U64, rs: seq<RangeEntry>)
    requires d.dw.hasBounds
    ensures DieHasPcDw(d, pc) == DieHasPcDw(d.(dw := d.dw.(ranges := rs)), pc)
  {
  }

  /** Without the bound attributes, every pair of the range list covers its own addresses. */
  lemma DwRangeCovers(d: Die, i: nat)
    requires !d.dw.hasBounds && i < |d.dw.ranges|
    requires d.dw.ranges[i].addr1 < d.dw.ranges[i].addr2
    ensures DieHasPcDw(d, d.dw.ranges[i].addr1)
  {
  }

  /**
   * Both backends agree on a DIE whose continuous range is known, when
   * libdw reads the same low_pc and the same end.
   */
  lemma BackendsAgreeOnBounds(d: Die, pc: U64)
    requires d.lowPc.Some? && d.highPc.Some?
    requires d.dw.hasBounds && d.dw.low == d.lowPc && d.dw.high == Some(HighOf(d))
    ensures DieHasPcDw(d, pc) == DieHasPc(d, pc)
  {
  }

  /**
   * Without low_pc both backends read the range list. libdwarf adds low_pc
   * (here 0) to raw entries and skips entries that start at 0; libdw
   * reports absolute pairs. When libdw's pairs are libdwarf's entries (a
   * unit whose base address is 0) and none starts at 0, they agree.
   */
  lemma {:induction false} BackendsAgreeOnRanges(d: Die, pc: U64)
    requires d.lowPc.None? && d.ranges.Some? && !d.dw.hasBounds
    requires d.dw.ranges == d.ranges.value
    requires forall i :: 0 <= i < |d.ranges.value| ==> d.ranges.value[i].addr1 != 0
    requires HasRanges(d)
    ensures DieHasPcDw(d, pc) == DieHasPc(d, pc)
  {
    var rs := d.ranges.value;
    assert AbsoluteRangeHit(rs, pc) ==> AnyRangeHit(rs, 0, pc) by {
      if AbsoluteRangeHit(rs, pc) {
        var i :| 0 <= i < |rs| && rs[i].addr1 <= pc < rs[i].addr2;
        assert RangeHit(rs[i], 0, pc);
      }
    }
    assert AnyRangeHit(rs, 0, pc) ==> AbsoluteRangeHit(rs, pc) by {
      if AnyRangeHit(rs, 0, pc) {
        var i :| 0 <= i < |rs| && RangeHit(rs[i], 0, pc);
        assert rs[i].addr1 <= pc < rs[i].addr2;
      }
    }
  }

  /**
   * When the unit's base address is not 0 they disagree: a nested DIE
   * with the raw entry [0x10, 0x20) under a unit based at 0x1000 covers
   * 0x1010 for libdw, but not for libdwarf, which offsets the entry by the
   * DIE's own (absent) low_pc.
   */
  lemma BackendsDifferOnUnitBase(d: Die)
    requires d.lowPc.None? && d.spec.None?
    requires d.ranges == Some([RangeEntry(0x10, 0x20)])
    requires d.dw == DwAddrs(false, None, None, None, [RangeEntry(0x1010, 0x1020)])
    ensures DieHasPcDw(d, 0x1010) && !DieHasPc(d, 0x1010)
  {
    assert d.dw.ranges[0].addr1 <= 0x1010 < d.dw.ranges[0].addr2;
  }

  // ---------------------------------------------------------------------
  // die_call_file

  /**
   * die_call_file of the libdwarf backend: DW_AT_call_file is a 1-based
   * index into the unit's file table (None when dwarf_srcfiles fails); 0 and
   * indices past the end give "".
   */
  function CallFile(d: Die, files: Option<seq<string>>): (r: string)
    ensures d.callFile == 0 || files.None? ==> r == ""
    ensures files.Some? && 1 <= d.callFile <= |files.value| ==> r == files.value[d.callFile - 1]
    ensures files.Some? && d.callFile > |files.value| ==> r == ""
  {
    if d.callFile == 0 then ""
    else if files.Some? && |files.value| > 0 && d.callFile <= |files.value| then files.value[d.callFile - 1]
    else ""
  }

  /**
   * die_call_file of the libdw backend: the index goes to dwarf_filesrc
   * unchanged; 0, a missing table or an index past the end give no name.
   */
  function CallFileDw(d: Die, files: Option<seq<string>>): (r: Option<string>)
    ensures r.Some? <==> d.callFile != 0 && files.Some? && d.callFile < |files.value|
    ensures r.Some? ==> r.value == files.value[d.callFile]
  {
    if d.callFile == 0 || files.None? || d.callFile >= |files.value| then None
    else Some(files.value[d.callFile])
  }

  /** The libdwarf index is one past the position it names: file k + 1 is entry k of the table. */
  lemma CallFileIsOneBased(d: Die, files: seq<string>, k: nat)
    requires k < |files| && d.callFile == k + 1
    ensures CallFile(d, Some(files)) == files[k]
  {
  }
}
