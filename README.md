# Symbol resolution for captured stack traces

This project models, in Dafny, the part of `src/backward/resolve.cpp` that
turns raw return addresses into source locations. The file holds several
resolver backends (glibc `backtrace_symbols`, BFD, libdw, libdwarf, and the
Darwin `backtrace_symbols` format) and a cached entry point
`backward::resolve`. The model covers:

- the owning `handle` wrapper;
- the `PATH`-style splitter `split_source_prefixes`;
- how the executable path is chosen when `dladdr` reports `argv[0]`;
- the two text parsers of `backtrace_symbols` lines;
- the BFD section walk;
- the ELF section scan and function symbol cache of the libdwarf backend;
- that backend's line table and its floor lookups;
- the `die_has_pc` tests of both DWARF backends;
- the depth-first DIE search with its namespace stack, and the search for
  the function DIE that covers an address;
- the search for the compilation unit (CU) that covers an address;
- the function signature built from a subprogram DIE;
- the callbacks that fill the function name and the inliner chain;
- the address cache of `backward::resolve`.

Each backend is one module: `Handles`, `SourcePrefixes`, `ExecPath`,
`BacktraceSymbols`, `DarwinSymbols`, `BfdSections`, `ElfSymbols`,
`LineTable`, `Dies`, `DieSearch`, `DieNames`, `FindDie` and
`ResolveCache`. `Common` holds the shared types:
- `SourceLoc`, `Trace` and `ResolvedTrace`;
- unsigned 64-bit arithmetic that wraps explicitly;
- the floor lookup of a `std::map` keyed by address.

The model changes state where the source does:
- the handle, the `backtrace_symbols` resolvers and the cache are classes
  whose methods change fields;
- the loops of the source are `while` loops in methods, each proved equal
  to a recursive specification function. The exceptions are the
  as-written `find_fundie_by_pc` and the as-written CU scans of
  `find_die`: they are functions only (`FindDie.FunDieAsWritten`,
  `FindDie.FindDieAsWritten`), and the methods `FindDie.FindFunDieByPc`
  and `FindDie.FindDieScan` compute the corrected versions;
- properties of those functions are lemmas.

The libraries have no code here. Their answers are inputs:
- libelf, libdwarf and libdw appear as the DIE tree and section records
  they return;
- BFD's nearest-line query is a function parameter;
- the demangler is a `string -> string` parameter;
- `dladdr`, `readlink` and the contents of `/proc/self/cmdline` are string
  parameters.

The DIE search is written once, with a `Dialect` parameter for the two
places where libdw and libdwarf differ:
- namespace and class scopes are pushed only by libdwarf;
- after a sibling error, libdwarf reports "not found", while libdw keeps
  the branch result.

The callbacks run on the list of visits that the search records, in the
order the source makes them.

Where the code and its comments disagree, the model follows the code:
- The comment above `split_source_prefixes` (`src/backward/resolve.cpp:172-179`)
  says `""` splits into `[]`. The code pushes the final piece whenever
  `last <= s.length()`, so `""` splits into `[""]`. See
  `SourcePrefixes.EmptySplitsIntoOneEmptyPiece`.
- The other examples in that comment agree with the code. They are proved
  as `DocCommentOneDelimiter`, `DocCommentTwoDelimiters` and
  `DocCommentOnePath`.

## Model

| member | source | states |
|---|---|---|
| Common.Add64 | src/backward/resolve.cpp:1705-1707 | `Dwarf_Addr` addition wraps at 2^64: the plain sum when it fits, else the sum less 2^64 |
| Common.Sub64 | src/backward/resolve.cpp:715-728 | the `bfd_vma` subtractions of the section walk wrap at 2^64: a - b when b <= a, else a - b + 2^64 |
| Handles.Deleter.Apply | src/backward/resolve.cpp:48-50 | applying the deleter appends the released value to the log of releases |
| Handles.Handle.Empty | src/backward/resolve.cpp:74 | a default handle is empty and owns nothing |
| Handles.Handle.Own | src/backward/resolve.cpp:75-78 | a handle built from a value owns it unless the value is null |
| Handles.Handle.Move | src/backward/resolve.cpp:81 | move construction takes the source's value and ownership and leaves the source empty |
| Handles.Handle.Destroy | src/backward/resolve.cpp:68-72 | the destructor releases the value exactly once when the handle is not empty, and nothing otherwise |
| Handles.Handle.Swap | src/backward/resolve.cpp:119-124 | swap exchanges value and emptiness of the two handles |
| Handles.Handle.MoveAssign | src/backward/resolve.cpp:82-85 | move assignment is a swap: the source receives the target's old value and ownership |
| Handles.Handle.Reset | src/backward/resolve.cpp:98-101 | reset owns the new value (empty if null) and releases the old value exactly when it was owned |
| Handles.Handle.Update | src/backward/resolve.cpp:103-106 | update replaces the value without releasing the old one; emptiness follows the new value's nullness |
| Handles.Handle.Release | src/backward/resolve.cpp:115-118 | release returns the value and gives up ownership, so nothing is released later |
| Handles.Handle.Get | src/backward/resolve.cpp:114 | get returns the stored value |
| Handles.Handle.Holds | src/backward/resolve.cpp:108-113 | the boolean conversion is true exactly when the handle owns a non-null value |
| Handles.OwnThenDestroy | src/backward/resolve.cpp:68-78 | a handle that goes out of scope releases its non-null value once |
| Handles.MoveThenDestroyBoth | src/backward/resolve.cpp:68-85 | after a move, destroying the source releases nothing and destroying both releases the value once |
| Handles.ResetThenDestroy | src/backward/resolve.cpp:98-101 | reset releases the old value at the reset and the new one at destruction |
| Handles.ReleaseThenDestroy | src/backward/resolve.cpp:115-118 | a released value is handed back and never released by the handle |
| Handles.MoveAssignThenDestroy | src/backward/resolve.cpp:82-85 | after move assignment each value is released once, by the handle that ends up holding it |
| SourcePrefixes.Find | src/backward/resolve.cpp:185 | `find` returns the first delimiter position at or after `from`, or none when no delimiter follows |
| SourcePrefixes.SplitSourcePrefixes | src/backward/resolve.cpp:180-193 | the pieces joined with the delimiter give back the input, no piece holds the delimiter, and there is one piece more than there are delimiters |
| SourcePrefixes.JoinInjective | src/backward/resolve.cpp:180-193 | joining delimiter-free pieces is injective |
| SourcePrefixes.SplitIsUnique | src/backward/resolve.cpp:180-193 | exactly one list of delimiter-free pieces joins to a given string, so the splitter's result is determined |
| SourcePrefixes.EmptySplitsIntoOneEmptyPiece | src/backward/resolve.cpp:189-191 | the empty string splits into one empty piece, not into none as the comment says |
| SourcePrefixes.DocCommentOneDelimiter | src/backward/resolve.cpp:174 | ":" splits into two empty pieces |
| SourcePrefixes.DocCommentTwoDelimiters | src/backward/resolve.cpp:175 | "::" splits into three empty pieces |
| SourcePrefixes.DocCommentOnePath | src/backward/resolve.cpp:176 | a string without delimiter is its own single piece |
| ExecPath.ResolveExecPath | src/backward/resolve.cpp:274-295 | when dladdr reports argv[0], /proc/self/exe is opened and the link target is displayed; otherwise the reported name is both opened and displayed |
| ExecPath.OpenNameStable | src/backward/resolve.cpp:274-295 | resolving the opened name again opens the same file, unless argv[0] is itself /proc/self/exe |
| ExecPath.Argv0NeverDisplayed | src/backward/resolve.cpp:274-295 | the displayed name is the reported name or the link target, and never argv[0] unless the link target equals it |
| BacktraceSymbols.FirstOf | src/backward/resolve.cpp:348-350 | the scan stops at the first stop character, or at the end of the string |
| BacktraceSymbols.Parse | src/backward/resolve.cpp:345-366 | only the file name, the object function and the source function change; the object function, when changed, is also the source function; the stored line is a prefix of the line, and the file name a prefix of the stored line |
| BacktraceSymbols.ParseLine | src/backward/resolve.cpp:345-366 | the two scans of the `backtrace_symbols` line compute the parse specification |
| BacktraceSymbols.FilenameIsTextBeforeParen | src/backward/resolve.cpp:346-353 | the object file name is the text up to the first '(' |
| BacktraceSymbols.NoParenKeepsFunction | src/backward/resolve.cpp:351-365 | a line without '(' sets only the file name and leaves the function names alone |
| BacktraceSymbols.ParseWellFormed | src/backward/resolve.cpp:345-366 | for `module(symbol+...)` the file is the module, the object function and source function are the demangled symbol, and nothing else changes |
| BacktraceSymbols.ReparseIsStable | src/backward/resolve.cpp:356-361 | re-parsing the line as left truncated at ')' or '+' gives the same trace |
| BacktraceSymbols.Resolver.constructor | src/backward/resolve.cpp:369 | a new resolver has no symbol lines |
| BacktraceSymbols.Resolver.LoadAddresses | src/backward/resolve.cpp:338-343 | an empty batch keeps the previous lines; any other batch replaces them |
| BacktraceSymbols.Resolver.Resolve | src/backward/resolve.cpp:345-366 | resolve parses line idx, returns the parsed trace and stores the truncated line back |
| DarwinSymbols.SkipForward | src/backward/resolve.cpp:2512-2515 | skipping runs of spaces or non-spaces stays inside the line |
| DarwinSymbols.SkipBack | src/backward/resolve.cpp:2518-2541 | backward skipping never passes the start of the file name field |
| DarwinSymbols.Scan | src/backward/resolve.cpp:2509-2549 | the cursors are ordered: file name start <= end, a function name lies after the file name start, and when no function name is found the file name runs to the end of the line |
| DarwinSymbols.Parse | src/backward/resolve.cpp:2506-2563 | the file name is the text between the file cursors; only the file name and the function fields change; a changed object function is also the source function; the stored line is a prefix of the line |
| DarwinSymbols.Apply | src/backward/resolve.cpp:2541-2562 | with a function name, the object and source functions are equal and the line is cut at the end of the name; without one, the function fields and the line are left alone |
| DarwinSymbols.ScanLine | src/backward/resolve.cpp:2509-2549 | the pointer walk computes the cursor specification |
| DarwinSymbols.ForwardOver | src/backward/resolve.cpp:2512-2515 | each forward loop computes SkipForward |
| DarwinSymbols.BackOver | src/backward/resolve.cpp:2520-2541 | each backward loop computes SkipBack |
| DarwinSymbols.ParseLine | src/backward/resolve.cpp:2506-2563 | the Darwin parser computes the parse specification |
| DarwinSymbols.LineLayout | src/backward/resolve.cpp:2507-2508 | a line `<n> <file> <addr> <name> + <offset>` has its fields at the expected positions |
| DarwinSymbols.ScanLayout | src/backward/resolve.cpp:2517-2549 | on such a line the cursors land on the file and the mangled name; a one-character file triggers the give-up branch |
| DarwinSymbols.ParseLayout | src/backward/resolve.cpp:2506-2563 | on such a line the file name is the file field and the function is the demangled name, a space and the rest; with a one-character file only the file name is set, to the whole rest of the line |
| DarwinSymbols.ParseGivesUp | src/backward/resolve.cpp:2545-2554 | whenever no function name is found, for any line, the object file name is all the text after `<n>`, and nothing else, including the stored line, changes |
| DarwinSymbols.ParseWellFormed | src/backward/resolve.cpp:2506-2563 | for well-formed fields the object file is `<file>` (spaces inside allowed), the function is `demangle(<name>) + " + " + <offset>`, and the source function equals it |
| DarwinSymbols.Resolver.constructor | src/backward/resolve.cpp:2566 | a new resolver has no symbol lines |
| DarwinSymbols.Resolver.LoadAddresses | src/backward/resolve.cpp:2499-2504 | an empty batch keeps the previous lines; any other batch replaces them |
| DarwinSymbols.Resolver.Resolve | src/backward/resolve.cpp:2506-2563 | resolve parses line idx and stores the line truncated at the end of the name |
| BfdSections.SectionOffset | src/backward/resolve.cpp:699-720 | only loaded sections give an offset; the address is tried directly, then less the load base |
| BfdSections.InBounds | src/backward/resolve.cpp:715-720 | the bounds test holds exactly when the section end does not wrap past 2^64 and vma <= addr < vma + size |
| BfdSections.WrappingSectionHoldsNothing | src/backward/resolve.cpp:715-720 | a section whose end wraps past 2^64 holds no address |
| BfdSections.OffsetInsideSection | src/backward/resolve.cpp:715-728 | the offset is below the section size and, added to the section start, gives the address or the address less the base |
| BfdSections.DirectAddressFirst | src/backward/resolve.cpp:715-716 | an address inside the section is used without subtracting the base |
| BfdSections.EveryOffsetReachable | src/backward/resolve.cpp:715-720 | every offset of a loaded, non-wrapping section is reachable |
| BfdSections.Lookup | src/backward/resolve.cpp:726-736 | a section outside the bounds gives nothing; any answer comes from one of the symbol tables at the computed offset |
| BfdSections.StaticTableFirst | src/backward/resolve.cpp:726-736 | the static symbol table is asked first, and the dynamic one only when the static one gives nothing |
| BfdSections.FindInSection | src/backward/resolve.cpp:693-694 | once a result is found, later sections leave it alone |
| BfdSections.FirstAnswering | src/backward/resolve.cpp:678-679 | the first section whose lookup answers: all earlier ones give none |
| BfdSections.MapOverSections | src/backward/resolve.cpp:670-681 | a result found before section i is returned unchanged; a result found from section i on is the lookup answer of one of those sections |
| BfdSections.FoundIsKept | src/backward/resolve.cpp:691-694 | a found result survives the rest of the section walk unchanged |
| BfdSections.FirstSectionWins | src/backward/resolve.cpp:670-738 | the walk returns the answer of the first section that answers, or not found |
| BfdSections.FindSymbolDetails | src/backward/resolve.cpp:670-681 | find_symbol_details computes the section walk, which equals the first answering section's lookup |
| BfdSections.FindInSectionStep | src/backward/resolve.cpp:691-738 | find_in_section computes its specification |
| ElfSymbols.SymType | src/backward/resolve.cpp:1433 | ST_TYPE is the low four bits of st_info |
| ElfSymbols.CString | src/backward/resolve.cpp:1405-1408 | the debuglink name is the prefix of the data before the first NUL |
| ElfSymbols.ScanFrom | src/backward/resolve.cpp:1392-1427 | a chosen symbol section is a section index |
| ElfSymbols.ScanSections | src/backward/resolve.cpp:1392-1427 | the section loop computes the scan specification, including the abort |
| ElfSymbols.ScanChoosesLastSymtab | src/backward/resolve.cpp:1412-1416 | with SHT_SYMTAB sections present, the last one is chosen |
| ElfSymbols.ScanFallsBackToFirstDynsym | src/backward/resolve.cpp:1419-1425 | without SHT_SYMTAB, the first SHT_DYNSYM is chosen |
| ElfSymbols.ScanWithoutSymbolTables | src/backward/resolve.cpp:1411-1426 | without either kind, no symbol section is chosen |
| ElfSymbols.ScanKeepsLastDebuglink | src/backward/resolve.cpp:1403-1409 | the debuglink is that of the last non-empty `.gnu_debuglink` section, or the prior value when there is none |
| ElfSymbols.UnreadableSectionAborts | src/backward/resolve.cpp:1393-1401 | a section whose header or name cannot be read aborts the whole load |
| ElfSymbols.SymbolCache | src/backward/resolve.cpp:1429-1440 | address 0 is never cached, and every cached name is the name of one of the symbols |
| ElfSymbols.ScanReadable | src/backward/resolve.cpp:1392-1427 | when every section is readable the scan completes |
| ElfSymbols.SymbolCacheKeepsLast | src/backward/resolve.cpp:1429-1440 | the cache holds exactly the addresses of function symbols with a nonzero value, each mapped to the name of its last such symbol |
| ElfSymbols.CacheSymbols | src/backward/resolve.cpp:1429-1440 | the symbol loop computes the cache specification |
| ElfSymbols.ElfPass | src/backward/resolve.cpp:1442-1449 | an aborted scan leaves no cache and no debuglink; a non-empty cache is the symbol cache of one linked section |
| ElfSymbols.LoadElf | src/backward/resolve.cpp:1442-1449 | the ELF class selects the pass; a 64-bit object without 64-bit libelf is skipped |
| ElfSymbols.SymtabWinsOverDynsym | src/backward/resolve.cpp:1411-1440 | with readable sections and a usable last SHT_SYMTAB, the cache is built from that table's symbols |
| ElfSymbols.SymbolAt | src/backward/resolve.cpp:1182-1191 | nothing when every symbol is below the address; otherwise the greatest symbol at or below it, or the lowest symbol when none is below |
| ElfSymbols.FillObjectFunction | src/backward/resolve.cpp:1181-1192 | an already known object function is kept; otherwise the demangled floor symbol fills it, when there is one |
| LineTable.RowAddr | src/backward/resolve.cpp:1539-1543 | a row whose address cannot be read counts as address 0 |
| LineTable.LineMap | src/backward/resolve.cpp:1539-1545 | every row index in the map is a row of the table |
| LineTable.LineMapKeepsFirstRow | src/backward/resolve.cpp:1539-1545 | the map's keys are exactly the row addresses, each mapped to the FIRST row with that address (insert does not overwrite) |
| LineTable.BuildLineMap | src/backward/resolve.cpp:1539-1545 | the insertion loop computes the line map |
| LineTable.LineAt | src/backward/resolve.cpp:1208-1223 | a row only when some address is at or below the pc and some at or above it; then the row of the greatest address at or below |
| Dies.HighOf | src/backward/resolve.cpp:1698-1711 | a constant high pc is an offset from the low pc; an address-form high pc is the end itself |
| Dies.DieHasPc | src/backward/resolve.cpp:1682-1766 | libdwarf die_has_pc: a DIE without low pc and ranges can only hit through its specification DIE; a lone low pc hits only itself, and never when it is 0 |
| Dies.SearchRanges | src/backward/resolve.cpp:1725-1747 | the range loop answers exactly when a non-base entry offset by the low pc holds the address |
| Dies.HasPc | src/backward/resolve.cpp:1682-1766 | libdwarf die_has_pc computes its specification, including the specification DIE fallback |
| Dies.HalfOpen | src/backward/resolve.cpp:1698-1711 | a low/high range is half-open: the high end is excluded and the low end included when the range is not empty |
| Dies.BoundsDecideAlone | src/backward/resolve.cpp:1692-1712 | with both bounds, ranges and the specification DIE are never consulted |
| Dies.ConstantHighIsOffset | src/backward/resolve.cpp:1705-1711 | a constant high pc covers low <= pc < low + offset |
| Dies.WrappedOffsetCoversNothing | src/backward/resolve.cpp:1705-1711 | when low + offset wraps past 2^64 the DIE covers nothing |
| Dies.AddressHighIsEnd | src/backward/resolve.cpp:1704-1711 | an address-form high pc covers low <= pc < high |
| Dies.HighWithoutLowIgnored | src/backward/resolve.cpp:1692-1717 | a high pc without low pc is ignored |
| Dies.ZeroStartEntrySkipped | src/backward/resolve.cpp:1737-1739 | a range entry starting at 0 never matches |
| Dies.RangeEntryOffsetByLow | src/backward/resolve.cpp:1736-1743 | range entries are relative to the low pc (0 if absent) |
| Dies.LoneLowPc | src/backward/resolve.cpp:1749-1752 | a nonzero low pc alone covers exactly that address |
| Dies.LoneZeroLowPc | src/backward/resolve.cpp:1749-1752 | a zero low pc alone covers nothing |
| Dies.SpecOnlyWithoutPcInfo | src/backward/resolve.cpp:1754-1763 | the specification DIE is consulted only when the DIE has no pc information |
| Dies.SpecDecidesWithoutPcInfo | src/backward/resolve.cpp:1754-1763 | without pc information the answer is that of the specification DIE, or false without one |
| Dies.HasPcDw | src/backward/resolve.cpp:986-1015 | libdw die_has_pc, with its dwarf_ranges loop, computes its specification |
| Dies.DieHasPcDw | src/backward/resolve.cpp:986-1015 | libdw die_has_pc: with both bound attributes present, an unreadable low pc, or an unreadable high pc without a readable offset, gives false, and a hit is at or above the low pc; without them a hit needs a non-empty range list |
| Dies.HighOffsetFallback | src/backward/resolve.cpp:994-1002 | when dwarf_highpc fails, the DW_AT_high_pc constant is an offset from the low pc |
| Dies.DwBoundsDecideAlone | src/backward/resolve.cpp:990-1004 | with both bound attributes present the range list is never read |
| Dies.DwRangeCovers | src/backward/resolve.cpp:1006-1013 | the first address of a non-empty libdw range pair is covered |
| Dies.BackendsAgreeOnBounds | src/backward/resolve.cpp:986-1015 | when libdw reads the same low pc and end as libdwarf, the two backends agree |
| Dies.BackendsAgreeOnRanges | src/backward/resolve.cpp:1006-1013 | without low pc, when libdw's absolute pairs equal libdwarf's raw entries (unit base 0) and none starts at 0, the two backends agree |
| Dies.BackendsDifferOnUnitBase | src/backward/resolve.cpp:1006-1013 | under a unit based at 0x1000, a raw entry [0x10, 0x20) covers 0x1010 for libdw but not for libdwarf |
| Dies.CallFile | src/backward/resolve.cpp:2339-2372 | libdwarf's call file index is one-based; 0, an unreadable file table or an index past its end give "" |
| Dies.CallFileDw | src/backward/resolve.cpp:1083-1107 | libdw's call file index is used zero-based and must be below the file count; index 0 gives none |
| Dies.CallFileIsOneBased | src/backward/resolve.cpp:2353-2362 | libdwarf index k+1 names file k |
| DieSearch.Pop | src/backward/resolve.cpp:2326-2335 | popping the namespace stack removes its top, and an empty stack stays empty |
| DieSearch.Dfs | src/backward/resolve.cpp:2252-2337 | a hit is always handed to the callback; the libdw walk returns the namespace stack untouched |
| DieSearch.Child | src/backward/resolve.cpp:2286-2312 | a hit ends with the callback on this child, with its path and the namespace stack; a declaration inherits a previous hit; libdw leaves the stack alone |
| DieSearch.Siblings | src/backward/resolve.cpp:2265-2335 | a hit comes from an earlier sibling or from a callback run in this walk; libdw leaves the stack alone |
| DieSearch.DeepFirstSearchByPc | src/backward/resolve.cpp:2252-2337 | the DFS loop, with its namespace pushes and pops, computes the recursive search specification in both dialects |
| DieSearch.SearchChild | src/backward/resolve.cpp:2270-2312 | one child: push its scope, recurse or test its pc, call the callback when it has the pc |
| DieSearch.NsRestored | src/backward/resolve.cpp:2265-2335 | without sibling errors the namespace stack comes back as it went in |
| DieSearch.ErrorLeavesScopeOpen | src/backward/resolve.cpp:2314-2316 | a sibling error in libdwarf returns before the pop, leaving the namespace pushed, and reports no hit |
| DieSearch.DfsPostOrder | src/backward/resolve.cpp:2252-2337 | callbacks run on DIEs below the parent, every DIE after all its visited descendants |
| DieSearch.ChildPostOrder | src/backward/resolve.cpp:2298-2312 | a child's visits lie within its subtree, in post-order |
| DieSearch.SiblingsPostOrder | src/backward/resolve.cpp:2265-2331 | the sibling walk's visits lie below the parent, in post-order |
| DieSearch.DeclarationInheritsHit | src/backward/resolve.cpp:2286-2312 | a declaration DIE after a hit is reported with the hit of its earlier sibling |
| DieNames.ReturnPrefix | src/backward/resolve.cpp:2009-2017 | the return type prefix comes from the DIE, else from its specification DIE, followed by a space; empty when neither has one |
| DieNames.ParamTexts | src/backward/resolve.cpp:2019-2066 | only some of the children contribute parameter texts |
| DieNames.ParameterList | src/backward/resolve.cpp:2019-2069 | the parameter list is "(" + the non-artificial parameter texts joined by ", " + ")" |
| DieNames.FunctionSignature | src/backward/resolve.cpp:1981-2076 | the signature ends with ')' |
| DieNames.SignatureShape | src/backward/resolve.cpp:1981-2076 | signature = return prefix + namespace prefix + name + parameter list |
| DieNames.SetFunctionParameters | src/backward/resolve.cpp:1981-2076 | the loops compute the signature specification |
| DieNames.NamespacePrefix | src/backward/resolve.cpp:1997-2005 | the namespace loop appends "ns::" per stack entry |
| DieNames.Parameters | src/backward/resolve.cpp:2019-2069 | the child loop computes the parameter list |
| DieNames.SignatureExample | src/backward/resolve.cpp:1981-2076 | `int a::b::f(int x, char y)` for a method with an artificial `this` |
| DieNames.NoParametersGiveEmptyList | src/backward/resolve.cpp:2019-2069 | without formal parameters the list is "()" |
| DieNames.NsPrefixAppend | src/backward/resolve.cpp:1997-2005 | the namespace prefix of a concatenated stack is the concatenation of prefixes |
| DieNames.InlinedLoc | src/backward/resolve.cpp:2160-2176 | an inliner's line and column are truncated to 32 bits |
| DieNames.SubprogramName | src/backward/resolve.cpp:2094-2106 | a subprogram is named by its own name, else by its abstract origin's, else by its specification's |
| DieNames.InlinedName | src/backward/resolve.cpp:2142-2152 | an inlined subroutine is named by its own name, else by its abstract origin's |
| DieNames.DwarfCallback | src/backward/resolve.cpp:2080-2185 | one libdwarf callback keeps address, index and object file; never overwrites a set function name or, once the name is set, the object function; only an inlined subroutine adds inliners, only a subprogram touches the names; an object function changes only from empty to the demangled linkage name |
| DieNames.DwarfCallbacks | src/backward/resolve.cpp:2310-2312 | the callbacks in visit order keep address, index and object file, keep a set function name together with the object function, and only extend the inliner list |
| DieNames.DwarfCallbackStep | src/backward/resolve.cpp:2080-2185 | one callback: a subprogram sets the function only if it is still empty, and then fills an empty object function with its demangled linkage name when it has one; an inlined subroutine appends one inliner; nothing else changes |
| DieNames.DwarfFunctionName | src/backward/resolve.cpp:2091-2137 | the function name is the prior one if set, else the signature of the first subprogram visited |
| DieNames.DwarfObjectFunction | src/backward/resolve.cpp:2112-2135 | while the function name is empty, an empty object function becomes the demangled linkage name of the first subprogram visited, if it has one; otherwise the object function is kept |
| DieNames.DwarfInliners | src/backward/resolve.cpp:2139-2177 | inliners are appended in visit order, one per inlined subroutine |
| DieNames.DwarfCallbacksFrame | src/backward/resolve.cpp:2080-2185 | the callbacks change only the function name and the inliners, and keep an existing object function |
| DieNames.FirstSubprogramIsInnermost | src/backward/resolve.cpp:2091-2137 | in post-order the first subprogram visited gives the name and the linkage name, and has no other visited subprogram below it |
| DieNames.InlinedKeepPostOrder | src/backward/resolve.cpp:2139-2177 | the inliner chain keeps post-order, innermost first |
| DieNames.DwInlinedLoc | src/backward/resolve.cpp:961-979 | a libdw inliner takes the DIE's name and 32-bit line and column |
| DieNames.DwLocs | src/backward/resolve.cpp:961-979 | one libdw inliner location per inlined visit, in order |
| DieNames.DwCallback | src/backward/resolve.cpp:951-984 | one libdw callback changes only the function name and the inliners, and appends exactly one location for an inlined subroutine |
| DieNames.DwCallbacks | src/backward/resolve.cpp:1076-1078 | the libdw callbacks in visit order keep address, index, object file and object function, and only extend the inliner list |
| DieNames.DwFallback | src/backward/resolve.cpp:933-936 | an empty source function falls back to the object function; a set one is kept |
| DieNames.DwCallbacksEffect | src/backward/resolve.cpp:951-984 | libdw callbacks leave the LAST named subprogram's name, append the libdw location of each inlined visit in visit order, and change nothing else |
| DieNames.DwCallbacksInliners | src/backward/resolve.cpp:961-979 | the libdw callbacks append exactly the libdw locations of the inlined visits, in visit order |
| DieNames.LastSubprogramIsOutermost | src/backward/resolve.cpp:951-984 | in post-order the last named subprogram is not below any other |
| DieNames.DwarfInlinersInnermostFirst | src/backward/resolve.cpp:1249-1251 | the libdwarf resolve flow's inliners are the inlined visits of its DFS, in post-order |
| DieNames.DwarfNames | src/backward/resolve.cpp:1249-1251 | after the libdwarf search the function name is the prior one if set, else the first visited subprogram's signature; when both the name and the object function were empty, the object function is the first visited subprogram's demangled linkage name if it has one, and otherwise it is kept; the rest of the source location, the address, the index and the object file do not change |
| DieNames.DwNamesWithoutSubprogram | src/backward/resolve.cpp:931-936 | without a named subprogram the function is the prior one, or else the object function |
| DieNames.DwNames | src/backward/resolve.cpp:931-936 | after the libdw search the function name is the last named subprogram's if non-empty, else the prior one, else the object function; nothing but the name and the inliners changes |
| DieNames.DwInlinersInnermostFirst | src/backward/resolve.cpp:931-936 | the libdw resolve flow's inliners are the libdw locations of the inlined visits of its search, in post-order |
| FindDie.FunDieSound | src/backward/resolve.cpp:2187-2240 | corrected find_fundie_by_pc: a result is a function DIE holding the pc, reachable through non-declaration DIEs |
| FindDie.FunDieAsWritten | src/backward/resolve.cpp:2187-2249 | as written, any result is a function DIE holding the pc and a direct child of the parent |
| FindDie.FunDieAsWrittenFrom | src/backward/resolve.cpp:2198-2247 | as written, the loop from child i returns only a function DIE holding the pc among children i and later |
| FindDie.FunDie | src/backward/resolve.cpp:2187-2249 | corrected find_fundie_by_pc (as libdw's at 1017-1050): any result is a function DIE holding the pc |
| FindDie.FunDieFrom | src/backward/resolve.cpp:2198-2247 | the corrected loop from child i returns only a function DIE holding the pc |
| FindDie.FunDieComplete | src/backward/resolve.cpp:2187-2240 | corrected find_fundie_by_pc: without sibling errors it finds some function when one is reachable |
| FindDie.FindFunDieByPc | src/backward/resolve.cpp:2187-2240 | the corrected loop computes the corrected specification |
| FindDie.NestedFunctionLost | src/backward/resolve.cpp:2223-2230 | as written, a function nested in a namespace is not returned; the corrected version returns it |
| FindDie.NestedFunctionExample | src/backward/resolve.cpp:2223-2230 | `app::main` covering 0x1000 is lost as written and found when corrected |
| FindDie.FirstCuWithPc | src/backward/resolve.cpp:2422-2436 | the first CU whose own pc test holds; none earlier holds |
| FindDie.FirstCuWithFunction | src/backward/resolve.cpp:2454-2465 | the first CU holding a function with the pc; none earlier |
| FindDie.FirstCuWithFunctionAsWritten | src/backward/resolve.cpp:2454-2465 | as written, the first CU for which find_fundie_by_pc answers, with no earlier CU answering; none when no CU answers |
| FindDie.FindDieSpec | src/backward/resolve.cpp:2374-2477 | the aranges answer wins; otherwise the result is one of the scanned CUs: the first unit whose own range covers pc, and only when no unit covers it, the first unit holding a covering function |
| FindDie.FindDieAsWritten | src/backward/resolve.cpp:2374-2477 | as written, the aranges answer wins too |
| FindDie.FindDieFails | src/backward/resolve.cpp:2374-2477 | find_die fails exactly when aranges miss and no CU has the pc or a function with it |
| FindDie.NestedFunctionLosesUnit | src/backward/resolve.cpp:2454-2477 | as written, a CU whose only matching function is nested in a namespace is missed; corrected, it is found |
| FindDie.FindDieScan | src/backward/resolve.cpp:2374-2477 | the two CU loops compute the corrected find_die |
| ResolveCache.StubBackend.constructor | src/backward/resolve.cpp:236-248 | a backend starts with an empty call log |
| ResolveCache.StubBackend.LoadAddresses | src/backward/resolve.cpp:239-242 | load_addresses appends a Load of the batch to the call log |
| ResolveCache.StubBackend.Resolve | src/backward/resolve.cpp:248 | resolve answers through the backend's function and appends an Ask of the trace to the call log |
| ResolveCache.Misses | src/backward/resolve.cpp:2717-2726 | the requests a batch triggers |
| ResolveCache.RequestsOfAsks | src/backward/resolve.cpp:2717-2726 | the traces asked by a run of resolve calls are those traces, after the earlier ones |
| ResolveCache.MissesAreFirstOccurrences | src/backward/resolve.cpp:2717-2726 | the backend is asked once per uncached address, at its first position in the batch, in order |
| ResolveCache.MissesAreDistinct | src/backward/resolve.cpp:2717-2726 | no address is asked about twice within a batch |
| ResolveCache.MissesCoverUncached | src/backward/resolve.cpp:2717-2726 | the addresses asked about are exactly the batch's addresses not cached before |
| ResolveCache.MissesAllKnown | src/backward/resolve.cpp:2719-2720 | a batch of cached addresses asks nothing |
| ResolveCache.ReplayKeys | src/backward/resolve.cpp:2719-2722 | the cache holds exactly the addresses ever asked about |
| ResolveCache.ReplayEntries | src/backward/resolve.cpp:2719-2722 | each cached location is the source part of the backend's answer for that address |
| ResolveCache.Cache.constructor | src/backward/resolve.cpp:2704-2706 | the cache starts empty with a fresh backend |
| ResolveCache.Cache.Resolve | src/backward/resolve.cpp:2702-2729 | each result is the cached location of its address; old entries are kept; the keys are the old keys plus the batch; the call log grows by one Load of the batch followed by one Ask per first occurrence of an uncached address, in batch order |
| ResolveCache.Cache.AnswerAll | src/backward/resolve.cpp:2717-2726 | the loop answers every position from the cache and logs exactly the Asks of the misses, in order |
| ResolveCache.Cache.Visit | src/backward/resolve.cpp:2718-2725 | one loop turn keeps the call log consistent with the remaining misses |
| ResolveCache.Cache.Lookup | src/backward/resolve.cpp:2718-2725 | a hit is answered from the cache and logs nothing; a miss logs an Ask of Trace(addr, i) and stores its source |
| ResolveCache.ResolveTwice | src/backward/resolve.cpp:2702-2729 | resolving the same batch twice from a fresh cache gives the same locations; the backend log is Load, the Asks of the misses, then Load again |
| ResolveCache.ResolveCached | src/backward/resolve.cpp:2702-2729 | a batch of cached addresses leaves the cache alone and only logs a Load |

## Left out

- I/O and system calls are parameters or not part of this model:
  - `get_argv0`, `read_symlink`, `dladdr` and `dl_iterate_phdr`;
  - `stat`/`open` of object files and of `.debug` or debuglink candidates;
  - the libraries' file handles.
- The libraries themselves are not modelled:
  - BFD, libelf, libdwarf and libdw are represented by their answers (section records, a DIE tree, a nearest-line function);
  - memory allocation and `dwarf_dealloc` are left out;
  - the caching of opened objects per file name is left out.
- The demangler is a `string -> string` parameter.
- Locking, the function-local statics of `backward::resolve`, and the unused allocator argument are left out, because the model is sequential.
- The Windows backend (the `BACKWARD_SYSTEM_WINDOWS` branch from `src/backward/resolve.cpp:2575`) is left out: it is calls into DbgHelp and output only.
- Code the source disables is left out: the `#if 0` block at line 518, and the extra CU search under `BACKWARD_I_DO_NOT_RECOMMEND_TO_ENABLE_THIS_HORRIBLE_PIECE_OF_CODE` at line 879.
- The libdw `find_fundie_by_pc` (`src/backward/resolve.cpp:1017-1050`) belongs to the libdw resolve flow and is not modelled on its own; it has the shape of `FindDie.FunDie` over the libdw `die_has_pc`.
- The libdw range pairs are inputs as `dwarf_ranges` reports them, with the unit's base address already applied. How libdw computes them from the raw list is not modelled; `Dies.BackendsDifferOnUnitBase` shows where this makes the two backends differ.
- The module-relative address (`l_addr`) of the libdwarf backend is left out. Addresses reach the model already adjusted.
- BFD's `backtrace_inliners` loop, the `addr - 1` retry for the call site, and the internals of `bfd_find_nearest_line` are left out. The nearest-line query is a parameter.
- The libdw resolve flow outside the callbacks is left out: module lookup, `dwfl_module_getsrc` and the line/column extraction at `src/backward/resolve.cpp:792-930`. Only its DFS call and fallback at 931-936 are modelled.
- The glue of the libdwarf `resolve` between its steps (`dwarf_lineno`, `dwarf_linesrc`, `dwarf_lineaddr`) is a set of inputs, not a model. Exceptions: the symbol floor, the line floor and the callbacks, which are modelled.
- `get_type_by_signature` and `set_parameter_string` are left out. A parameter's type text is a field of the DIE, as those functions would compute it.
- The per-CU `spec_section` map is left out. The specification link is a field of the DIE.
- `sh_size / sh_entsize` is not modelled: a chosen symbol table is its list of symbols.
- The raw-pointer accessors of `handle` (`operator->`, `operator*`, `operator[]`) and the C++98 copy forms are left out. They add no behaviour beyond Get and Move.
- The value a moved-from handle keeps and the order of destructor calls at scope exit are left out. Only which values are released, and how often, is modelled.

## Findings

| source | as written | input that shows it | evidently intended | confidence | as-written member | corrected member |
|---|---|---|---|---|---|---|
| src/backward/resolve.cpp:2223-2230 | the libdwarf `find_fundie_by_pc` returns `die_mem`, which is still 0, when a nested search succeeds, so only direct children of the parent are ever found | a CU with one namespace child that holds a subprogram covering the pc (FindDie.NestedFunctionExample: `app::main` at 0x1000) | return the nested result, as the libdw version does at src/backward/resolve.cpp:1041-1045 | not executed | FindDie.NestedFunctionLost | FindDie.FunDieSound |
