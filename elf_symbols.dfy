/**
 * The libdwarf backend's ELF pass: scan the section headers for the symbol
 * table to use and a .gnu_debuglink note, then cache the names of the
 * function symbols by address; and the lookup of a name in that cache.
 *
 * libelf is replaced by its results: a list of sections whose header and
 * name were (or were not) readable, each with its type, its sh_link, its
 * symbol entries and its data.  The symbol entries stand for the
 * sh_size / sh_entsize records of the data buffer.
 */
module ElfSymbols {
  import opened Common

  const ElfClass32: nat := 1
  const ElfClass64: nat := 2
  /** STT_FUNC, section 4 (Symbol Table) of the ELF gABI. */
  const SttFunc: nat := 2

  datatype SectionType = ShSymtab | ShDynsym | ShOther

  /** One Elf32_Sym / Elf64_Sym entry; `name` is its resolved string. */
  datatype ElfSym = ElfSym(info: nat, value: U64, name: string)

  /** ELF32_ST_TYPE / ELF64_ST_TYPE: the low four bits of st_info. */
  function SymType(s: ElfSym): (t: nat)
    ensures t < 16 && (s.info - t) % 16 == 0
  {
    s.info % 16
  }

  /** The symbols the cache keeps: functions with a non-zero value. */
  predicate Kept(s: ElfSym)
  {
    SymType(s) == SttFunc && s.value > 0
  }

  /**
   * A section: `name` is None when its header or its name cannot be read
   * (elf*_getshdr or elf_strptr returns NULL); `data` is None when
   * elf_getdata returns NULL.
   */
  datatype Section = Section(
    name: Option<string>,
    kind: SectionType,
    link: nat,
    symbols: seq<ElfSym>,
    data: Option<string>)

  /** The text of a C string buffer: everything before the first NUL. */
  function CString(buf: string): (s: string)
    ensures |s| <= |buf| && s == buf[..|s|] && '\0' !in s
    ensures |s| < |buf| ==> buf[|s|] == '\0'
  {
    if buf == [] || buf[0] == '\0' then [] else [buf[0]] + CString(buf[1..])
  }

  datatype Scan = Aborted | Scanned(chosen: Option<nat>, debuglink: string)

  /**
   * The section loop from section i on, with the symbol section chosen so
   * far and the debuglink read so far.
   */
  function ScanFrom(sections: seq<Section>, i: nat, chosen: Option<nat>, debuglink: string): (r: Scan)
    requires chosen.Some? ==> chosen.value < |sections|
    ensures r.Scanned? && r.chosen.Some? ==> r.chosen.value < |sections|
    decreases |sections| - i
  {
    if i >= |sections| then Scanned(chosen, debuglink)
    else
      var s := sections[i];
      if s.name.None? then Aborted
      else ScanFrom(sections, i + 1, NextChosen(sections, i, chosen), NextDebuglink(s, debuglink))
  }

  /** The section loop, as the code runs it. */
  method ScanSections(sections: seq<Section>) returns (aborted: bool, chosen: Option<nat>, debuglink: string)
    ensures aborted == ScanFrom(sections, 0, None, "").Aborted?
    ensures !aborted ==> ScanFrom(sections, 0, None, "") == Scanned(chosen, debuglink)
  {
    chosen, debuglink := None, "";
    var i := 0;
    while i < |sections|
      invariant i <= |sections|
      invariant chosen.Some? ==> chosen.value < |sections|
      invariant ScanFrom(sections, i, chosen, debuglink) == ScanFrom(sections, 0, None, "")
    {
      var s := sections[i];
      if s.name.None? {
        return true, chosen, debuglink;
      }
      if s.name.value == ".gnu_debuglink" {
        if s.data.Some? && |s.data.value| > 0 {
          debuglink := CString(s.data.value);
        }
      }
      match s.kind {
        case ShSymtab =>
          chosen := Some(i);
        case ShDynsym =>
          // .dynsym is the last resort; .symtab is preferred
          if chosen.None? {
            chosen := Some(i);
          }
        case ShOther =>
      }
      i := i + 1;
    }
    aborted := false;
  }

  // -------------------------------------------------------------------
  // Which section the scan chooses.

  predicate IsLastOfKind(sections: seq<Section>, from: nat, kind: SectionType, k: nat)
  {
    from <= k < |sections| && sections[k].kind == kind &&
    forall j :: k < j < |sections| ==> sections[j].kind != kind
  }

  predicate IsFirstOfKind(sections: seq<Section>, from: nat, kind: SectionType, k: nat)
  {
    from <= k < |sections| && sections[k].kind == kind &&
    forall j :: from <= j < k ==> sections[j].kind != kind
  }

  predicate NoneOfKind(sections: seq<Section>, from: nat, kind: SectionType)
  {
    forall j :: from <= j < |sections| ==> sections[j].kind != kind
  }

  /** The state after one readable section. */
  function NextChosen(sections: seq<Section>, i: nat, chosen: Option<nat>): (c: Option<nat>)
    requires i < |sections|
  {
    if sections[i].kind == ShSymtab then Some(i)
    else if sections[i].kind == ShDynsym && chosen.None? then Some(i)
    else chosen
  }

  function NextDebuglink(s: Section, debuglink: string): string
  {
    if s.name == Some(".gnu_debuglink") && s.data.Some? && |s.data.value| > 0
    then CString(s.data.value) else debuglink
  }

  lemma ScanStep(sections: seq<Section>, i: nat, chosen: Option<nat>, debuglink: string)
    requires chosen.Some? ==> chosen.value < |sections|
    requires i < |sections| && sections[i].name.Some?
    ensures ScanFrom(sections, i, chosen, debuglink) ==
      ScanFrom(sections, i + 1, NextChosen(sections, i, chosen), NextDebuglink(sections[i], debuglink))
  {
  }

  /** Once no .symtab follows, a section already chosen stays chosen. */
  lemma {:induction false} ScanKeepsChoice(sections: seq<Section>, i: nat, chosen: Option<nat>, debuglink: string)
    requires chosen.Some? && chosen.value < |sections|
    requires NoneOfKind(sections, i, ShSymtab)
    requires ScanFrom(sections, i, chosen, debuglink).Scanned?
    ensures ScanFrom(sections, i, chosen, debuglink).chosen == chosen
    decreases |sections| - i
  {
    if i < |sections| {
      ScanStep(sections, i, chosen, debuglink);
      ScanKeepsChoice(sections, i + 1, chosen, NextDebuglink(sections[i], debuglink));
    }
  }

  /** The last .symtab is chosen, whatever came before it. */
  lemma {:induction false} ScanChoosesLastSymtab(sections: seq<Section>, i: nat, chosen: Option<nat>, debuglink: string, k: nat)
    requires chosen.Some? ==> chosen.value < |sections|
    requires IsLastOfKind(sections, i, ShSymtab, k)
    requires ScanFrom(sections, i, chosen, debuglink).Scanned?
    ensures ScanFrom(sections, i, chosen, debuglink).chosen == Some(k)
    decreases |sections| - i
  {
    ScanStep(sections, i, chosen, debuglink);
    var next := NextChosen(sections, i, chosen);
    if i == k {
      ScanKeepsChoice(sections, i + 1, next, NextDebuglink(sections[i], debuglink));
    } else {
      ScanChoosesLastSymtab(sections, i + 1, next, NextDebuglink(sections[i], debuglink), k);
    }
  }

  /** Without any .symtab, the first .dynsym is chosen. */
  lemma {:induction false} ScanFallsBackToFirstDynsym(sections: seq<Section>, i: nat, debuglink: string, k: nat)
    requires NoneOfKind(sections, i, ShSymtab)
    requires IsFirstOfKind(sections, i, ShDynsym, k)
    requires ScanFrom(sections, i, None, debuglink).Scanned?
    ensures ScanFrom(sections, i, None, debuglink).chosen == Some(k)
    decreases |sections| - i
  {
    ScanStep(sections, i, None, debuglink);
    var next := NextChosen(sections, i, None);
    if i == k {
      ScanKeepsChoice(sections, i + 1, next, NextDebuglink(sections[i], debuglink));
    } else {
      ScanFallsBackToFirstDynsym(sections, i + 1, NextDebuglink(sections[i], debuglink), k);
    }
  }

  /** Without a .symtab or a .dynsym, nothing is chosen. */
  lemma {:induction false} ScanWithoutSymbolTables(sections: seq<Section>, i: nat, debuglink: string)
    requires NoneOfKind(sections, i, ShSymtab) && NoneOfKind(sections, i, ShDynsym)
    requires ScanFrom(sections, i, None, debuglink).Scanned?
    ensures ScanFrom(sections, i, None, debuglink).chosen.None?
    decreases |sections| - i
  {
    if i < |sections| {
      ScanStep(sections, i, None, debuglink);
      ScanWithoutSymbolTables(sections, i + 1, NextDebuglink(sections[i], debuglink));
    }
  }

  /**
   * The debuglink is the text of the last .gnu_debuglink section whose
   * data is non-empty, or stays as it was before.
   */
  lemma {:induction false} ScanKeepsLastDebuglink(sections: seq<Section>, i: nat, chosen: Option<nat>, debuglink: string)
    requires chosen.Some? ==> chosen.value < |sections|
    requires ScanFrom(sections, i, chosen, debuglink).Scanned?
    ensures var d := ScanFrom(sections, i, chosen, debuglink).debuglink;
      && (forall k :: (i <= k < |sections| && IsDebuglink(sections[k]) &&
            (forall j :: k < j < |sections| ==> !IsDebuglink(sections[j]))) ==>
            d == CString(sections[k].data.value))
      && ((forall j :: i <= j < |sections| ==> !IsDebuglink(sections[j])) ==> d == debuglink)
    decreases |sections| - i
  {
    if i < |sections| {
      ScanStep(sections, i, chosen, debuglink);
      var next := NextDebuglink(sections[i], debuglink);
      ScanKeepsLastDebuglink(sections, i + 1, NextChosen(sections, i, chosen), next);
      assert !IsDebuglink(sections[i]) ==> next == debuglink;
      assert IsDebuglink(sections[i]) ==> next == CString(sections[i].data.value);
    }
  }

  /** A readable .gnu_debuglink section with data the code reads. */
  predicate IsDebuglink(s: Section)
  {
    s.name == Some(".gnu_debuglink") && s.data.Some? && |s.data.value| > 0
  }

  /** Any unreadable section header or name ends the scan with nothing. */
  lemma {:induction false} UnreadableSectionAborts(sections: seq<Section>, i: nat, chosen: Option<nat>, debuglink: string, k: nat)
    requires chosen.Some? ==> chosen.value < |sections|
    requires i <= k < |sections| && sections[k].name.None?
    ensures ScanFrom(sections, i, chosen, debuglink) == Aborted
    decreases k - i
  {
    if i < k {
      var s := sections[i];
      if s.name.Some? {
        UnreadableSectionAborts(sections, i + 1, NextChosen(sections, i, chosen), NextDebuglink(s, debuglink), k);
      }
    }
  }

  // -------------------------------------------------------------------
  // The symbol cache.

  /** The names of a list of symbols. */
  function NamesOf(symbols: seq<ElfSym>): set<string>
  {
    set i | 0 <= i < |symbols| :: symbols[i].name
  }

  /** The cache after storing the kept symbols in order; a later one overwrites. */
  function SymbolCache(symbols: seq<ElfSym>): (m: map<nat, string>)
    ensures 0 !in m
    ensures forall a :: a in m ==> m[a] in NamesOf(symbols)
  {
    if symbols == [] then map[]
    else
      var m := SymbolCache(symbols[..|symbols| - 1]);
      var s := symbols[|symbols| - 1];
      if Kept(s) then m[s.value := s.name] else m
  }

  /**
   * An address is cached exactly when a kept symbol has that value, and it
   * holds the name of the last such symbol.
   */
  lemma {:induction false} SymbolCacheKeepsLast(symbols: seq<ElfSym>)
    ensures forall a :: a in SymbolCache(symbols) <==>
      exists i :: 0 <= i < |symbols| && Kept(symbols[i]) && symbols[i].value == a
    ensures forall i :: (0 <= i < |symbols| && Kept(symbols[i]) &&
      (forall j :: i < j < |symbols| ==> !(Kept(symbols[j]) && symbols[j].value == symbols[i].value))) ==>
      SymbolCache(symbols)[symbols[i].value] == symbols[i].name
  {
    if symbols != [] {
      var init := symbols[..|symbols| - 1];
      SymbolCacheKeepsLast(init);
      assert forall i :: 0 <= i < |init| ==> init[i] == symbols[i];
    }
  }

  /** The symbol loop over the chosen section. */
  method CacheSymbols(symbols: seq<ElfSym>) returns (cache: map<nat, string>)
    ensures cache == SymbolCache(symbols)
  {
    cache := map[];
    var i := 0;
    while i < |symbols|
      invariant i <= |symbols|
      invariant cache == SymbolCache(symbols[..i])
    {
      var s := symbols[i];
      var kind := s.info % 16;
      if kind == SttFunc && s.value > 0 {
        cache := cache[s.value := s.name];
      }
      assert symbols[..i + 1][..i] == symbols[..i];
      i := i + 1;
    }
    assert symbols[..i] == symbols;
  }

  /** What the ELF pass leaves behind: the symbol cache and the debuglink. */
  datatype ElfInfo = ElfInfo(aborted: bool, symbolCache: map<nat, string>, debuglink: string)

  /** The ELF pass for an ELF class: unknown classes, and 64-bit without libelf support, read nothing. */
  function ElfPass(elfClass: nat, libelf64: bool, sections: seq<Section>): (r: ElfInfo)
    ensures r.aborted ==> r.symbolCache == map[] && r.debuglink == ""
    ensures r.symbolCache != map[] ==>
      exists k :: 0 <= k < |sections| && sections[k].link != 0 && r.symbolCache == SymbolCache(sections[k].symbols)
  {
    if elfClass != ElfClass32 && !(elfClass == ElfClass64 && libelf64) then ElfInfo(false, map[], "")
    else
      match ScanFrom(sections, 0, None, "")
      case Aborted => ElfInfo(true, map[], "")
      case Scanned(chosen, debuglink) =>
        if chosen.Some? && |sections[chosen.value].symbols| != 0 && sections[chosen.value].link != 0
        then ElfInfo(false, SymbolCache(sections[chosen.value].symbols), debuglink)
        else ElfInfo(false, map[], debuglink)
  }

  /** ELF_GET_DATA(32) / ELF_GET_DATA(64) of load_object_with_dwarf. */
  method LoadElf(elfClass: nat, libelf64: bool, sections: seq<Section>) returns (info: ElfInfo)
    ensures info == ElfPass(elfClass, libelf64, sections)
  {
    info := ElfInfo(false, map[], "");
    if elfClass == ElfClass32 || (elfClass == ElfClass64 && libelf64) {
      var aborted, chosen, debuglink := ScanSections(sections);
      if aborted {
        return ElfInfo(true, map[], "");
      }
      var cache := map[];
      if chosen.Some? && |sections[chosen.value].symbols| != 0 && sections[chosen.value].link != 0 {
        cache := CacheSymbols(sections[chosen.value].symbols);
      }
      info := ElfInfo(false, cache, debuglink);
    }
  }

  /**
   * With readable sections and a usable .symtab, the cache comes from the
   * last .symtab even when a .dynsym is present.
   */
  lemma SymtabWinsOverDynsym(elfClass: nat, libelf64: bool, sections: seq<Section>, k: nat)
    requires elfClass == ElfClass32 || (elfClass == ElfClass64 && libelf64)
    requires forall j :: 0 <= j < |sections| ==> sections[j].name.Some?
    requires IsLastOfKind(sections, 0, ShSymtab, k)
    requires |sections[k].symbols| != 0 && sections[k].link != 0
    ensures ElfPass(elfClass, libelf64, sections).symbolCache == SymbolCache(sections[k].symbols)
  {
    ScanReadable(sections, 0, None, "");
    ScanChoosesLastSymtab(sections, 0, None, "", k);
  }

  /** A scan over readable sections always finishes. */
  lemma {:induction false} ScanReadable(sections: seq<Section>, i: nat, chosen: Option<nat>, debuglink: string)
    requires chosen.Some? ==> chosen.value < |sections|
    requires forall j :: i <= j < |sections| ==> sections[j].name.Some?
    ensures ScanFrom(sections, i, chosen, debuglink).Scanned?
    decreases |sections| - i
  {
    if i < |sections| {
      ScanReadable(sections, i + 1, NextChosen(sections, i, chosen), NextDebuglink(sections[i], debuglink));
    }
  }

  // -------------------------------------------------------------------
  // Looking a name up.

  /**
   * The cached name for an address: lower_bound, then one step back unless
   * the key matches exactly or lower_bound is the first key.  So an address
   * above every key has no name, and one below every key gets the name of
   * the lowest symbol.
   */
  function SymbolAt(cache: map<nat, string>, address: nat): (r: Option<string>)
    ensures r.None? <==> forall k :: k in cache ==> k < address
    ensures r.Some? && KeysAtMost(cache, address) != {} ==>
      r.value == cache[MaxOf(KeysAtMost(cache, address))]
    ensures r.Some? && KeysAtMost(cache, address) == {} ==>
      r.value == cache[MinOf(cache.Keys)]
  {
    var above := set k | k in cache && k >= address;
    assert forall k :: k in cache && k >= address ==> k in above;
    if above == {} then None
    else
      var it := MinOf(above);
      if it == address then Some(cache[address])
      else
        var below := KeysAtMost(cache, address);
        if below == {} then
          assert above == cache.Keys;
          Some(cache[it])
        else Some(cache[MaxOf(below)])
  }

  /**
   * The start of the libdwarf resolve: only an empty object_function is
   * filled in, with the demangled cached name.
   */
  function FillObjectFunction(t: ResolvedTrace, cache: map<nat, string>, address: nat,
                              demangle: string -> string): (r: ResolvedTrace)
    ensures t.objectFunction != "" ==> r == t
    ensures t.objectFunction == "" && SymbolAt(cache, address).None? ==> r == t
    ensures t.objectFunction == "" && SymbolAt(cache, address).Some? ==>
      r == t.(objectFunction := demangle(SymbolAt(cache, address).value))
  {
    if t.objectFunction != "" then t
    else
      match SymbolAt(cache, address)
      case None => t
      case Some(name) => t.(objectFunction := demangle(name))
  }
}
