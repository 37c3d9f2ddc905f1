# A model of udynlink in Dafny

udynlink loads position-independent module images on 32-bit microcontrollers. This project models the
loader, the mover, the dependency manager, the thunk pool, the image codec and the two symbol indexes,
and proves what they promise.

**Memory and images.** `Words` defines 32-bit words and the loader's alignment tricks by bits, `Masks` shows
that the model's bit fields are those the code's masks read. `Image`
and `Sections` decode an image out of memory words and validate its section table. `AddressMap` is the
map from link-time addresses to sections, `Layout` the inside of the main block, `Placement` the words
of a loaded module named independently of where they are, and their addresses in each of the three load
modes.

**Relocation.** `Relocation` gives the three walks over the relocation table - loading, moving, linking
externs - as one function from memory to memory. `Loaded` says what it means that memory *represents* a
module: link-time contents, rendered for a placement and a resolver. `Renaming` proves that loading
establishes this and is a renaming of link-time to run-time addresses, with its frame; `Moving` exactly
which words a move preserves, so that moving commutes with loading on these; `Linking` what deferred linking adds
and what an external slot holds after any run of links;
`FlatImages` that images with and without a section table agree.

**The loader as it runs.** `Memory` is an array of words and a host allocator that may refuse any
request or return misaligned memory; its log is an account of blocks and of the requests made. `Handle`, `Walks`, `Tagged`,
`MainBlock`, `Staging`, `Ownership`, `Loader` and `Mover` hold the imperative code: every loop patches
the array in place and is proved equal to the specification above. `Loader.LoadModule` ties it together:
after a failure every block has gone back once, the handle is clear, and the error has its cause in the
plan, the buffer, a request or an entry; after a success the image's contents are rendered at a valid
placement and the module owns exactly the blocks it records; and nothing that anyone else uses is written.
`PaddedLoad` runs it on an image with a tagged section.
`Mover.RelocateModuleSections` is the move, `Lookup` and `Symbols` the symbol search.

**Around it.** `Deps` is the dependency manager: its recursion as a function of what the host decides,
and the re-entrant methods that refine it. `DepHistory` says what any load, ended well or not, leaves
registered, whatever the host does. `DepChains` proves what a load leaves behind on every library
its loading stack can cope with, `Forks` that these are exactly the libraries without a fork, `Runaway`
shows two small ones with. `Thumb` and `Thunks` are the emitted code on a small machine and the two-ended
pool, `Calls` the way from a symbol's name to a stub, `Bytes` and `Codec` the Python parser and serializer
on bytes. `Formats` ties that parser to the loader: of one image, as bytes and as the words they are stored in,
both decode the same header, relocations, symbols, sections and payloads. `HashIndex` and `TrieIndex` are the
host's symbol indexes. `Padding`, `WeakSymbols`, `MoveExamples`
and `PaddedModule` hold the inputs on which the loader, the mover and the linker fall short; the last two
run the methods in concrete memories.

Addresses are byte addresses, 0 is NULL, and a resolver is a function from names to words: 0 unresolved,
1 deferred, an address otherwise. `Contents` are a module's words before relocation.

## What the code relies on

Stated as predicates; what the code checks itself is no hypothesis.

- `Placement.WellFormed`: header `code_size` and section addresses are word multiples (section sizes are
  checked, udynlink/udynlink.c:300), in-place targets lie inside a section's own bytes, no two relocations
  patch one word. `Loader.TableReadable`: an accepted table has its three main entries; the code reads them
  whatever the count says.
- `Loader.CallerOk`: an image that passes every check is well formed, its symbol table is terminated and
  has fewer than 65536 entries (`Lookup.WellFormedTable`), and image and supplied buffer belong to the
  caller and do not overlap. The handle is zero before a load.
- `Mover.TargetOk`: payloads of moved sections have been copied to places of their own. `Mover.DestinationOk`:
  a buffer passed to a move is clear of everything the module keeps using. `Mover.KeptInUse` and `Mover.MainOwned`: the allocator's account covers
  what the module uses.
- `DepChains.NoFork`: the requirement graph is one the eight-entry stack can cope with; `DepChains.Ready`:
  the registry is closed and has room.
- `Thunks.Near`: a stub's gateway is within its branch; in a pool of up to `Thunks.REACH` bytes it always is.
- `HashIndex.WellFormed` and `TrieIndex.WellFormed`: tables as their generators emit them.

## Where the code falls short of its promise

Each with the condition under which it keeps it, and an input on which it does not.

- `link_incremental` never touches weak symbols, so deferring and linking later equals loading at once
  iff every weak symbol is settled (`Linking.DeferredLinkingConfluent`, `WeakSymbols.DeferredWeakExample`).
- A move recognises a module's own weak default by its value. A host override equal to that default is
  moved along (`Loaded.WeakMoveExact`, `MoveExamples.OverriddenWeakMove`).
- A move maps run-time addresses back by the sections' own bytes, although a load accepts pointers into the
  padding behind a main section and udynlink/udynlink.c:382-384 says boundary symbols sit there. Such a pointer
  moves right iff the section found for it, or none, is shifted as far as its own (`Loaded.InPlaceMoveExact`);
  a pointer to the end of .data is not (`PaddedModule.EndOfDataLost`). `Moving.MovePreserves` and
  `Moving.MovedWord` are the exact conditions for the whole module and for one word.
- The forward map covers the padding behind .text and .data, but link-time and run-time padding differ.
  The map is injective on all it covers iff the spans, padding included, are apart at run time
  (`Padding.PaddingAliasExact`, `Padding.PaddingAliasExample`); a front that is a multiple of the main
  alignment keeps the link-time layout (`Padding.AlignedFrontKeepsLayout`).
- Behind a full loading stack a push is dropped, but the pop that goes with it is not. Whatever the order of
  requirements, every load registers each module once iff the requirement graph has no fork
  (`Forks.StackSufficesExactly`): no chain so deep that coming back from it pops a module that is still being
  loaded and still required. Graphs of chains up to eight names and graphs without cycles have none. On one
  library of nine images the recursion never returns (`Runaway.NineImagesRunAway`), on another a module is
  registered twice (`Runaway.LostPopRegistersTwice`).
- The stub writer tests a distance it has already cast to 16 bits, so what it accepts repeats every
  0x20000 bytes; an accepted branch is right iff the gateway is within 2 KiB (`Thunks.BranchTest`). Pools of up
  to 0x1F81C bytes are safe (`Thunks.SmallPoolNear`); in one of a word more the first stub goes elsewhere
  (`Thunks.FirstStubMisses`).
- A stub is found by function address alone. A call's answer serves the module that asked iff the function had
  no stub or its stub's gateway is that module's (`Thunks.CallServes`); asking again for another base returns
  the first one's stub (`Thunks.SecondBaseIgnored`).
- An untagged move changes the ownership flag before its checks, and moving a block the loader owns onto itself
  frees it under the module. Flag and memory stay right iff a block moved onto itself is the caller's and a
  refused move would not have changed hands (`Mover.FlatMoveKeepsBooks`, `MoveExamples.OwnBlockFreed`,
  `MoveExamples.RefusedMoveDisowns`).
- A sectioned move onto the same block ignores the listed section moves; udynlink/udynlink.c:1734-1735 calls
  them no-ops. They are carried out iff the block moves too or they change nothing (`Mover.SectionMovesTaken`,
  `PaddedModule.SectionMoveIgnored`).
- No move looks at the alignment of the block it is given by the allocator, as a load does. Its sections are
  aligned iff the answer is (`Mover.MovedBlockAligned`, `Mover.SectionWithBlock` for one section in any mode,
  `PaddedModule.MisalignedBlockTaken`).
- The comment at udynlink/udynlink.c:559-564 says an unterminated name makes the comparison differ. It reads
  the order of two names exactly unless the current one is cut short by the end of the table
  (`Lookup.BoundLosesNothing`, `Lookup.UnterminatedPasses`).
- The parser's table reader says it rejects the same tables as the loader (scripts/udynlink_parser.py:866-872).
  It accepts more: the loader also asks that the main sections come first, marked and in order of class, that
  tagged ones have names, that names end inside the table, that the first address is 0, and that main sections
  match the header, and it caps the symbol table. They agree iff these hold (`Formats.TablesAgree`,
  `Formats.UnmarkedTable`).

## Model

| member | source | states |
|---|---|---|
| `Words.PowerOfTwoTest` | udynlink/udynlink.c:297 | the loader's test `n & (n - 1)` is zero exactly for powers of two |
| `Words.AlignUpLeast` | udynlink/udynlink.c:245-247 | rounding up with the mask gives the least aligned value that is not smaller |
| `Words.AlignedSum` | udynlink/udynlink.c:1236 | the alignment mask test passes through sums: base plus aligned offset is aligned iff the base is |
| `Masks.SymbolMasks` | udynlink/udynlink.c:609-613 | kind, location bit and name offset of a symbol are what shift and masks of the code read |
| `Masks.HeaderMasks` | udynlink/udynlink.c:160-166 | so are the table flag and the section count of a header |
| `Masks.SectionMasks` | udynlink/udynlink.c:312-316 | so is the MAIN marker of a section |
| `Masks.RelocationMasks` | udynlink/udynlink.c:863-893 | so are the two in-place forms of a relocation and the addend of the first |
| `Masks.TrieMasks` | udynlink/udynlink_trie.h:39-60 | so are character and leaf flag of a trie node |
| `Sections.CheckEntry` | udynlink/udynlink.c:293-330 | one table entry passes iff every field constraint holds |
| `Sections.GetSectab` | udynlink/udynlink.c:263-368 | the table is returned exactly when header, every entry, order and main sections agree; nothing otherwise |
| `Sections.HostFlagsMask` | udynlink/udynlink.c:230-234 | the flags the host sees are the entry's under the mask 0x7F00FFFF |
| `Sections.HostFlagsKept` | udynlink/udynlink.c:230-234 | of an accepted tagged section the host sees the flags as they are in the table |
| `AddressMap.AcceptedTable` | udynlink/udynlink.c:263-368 | an accepted table, of whatever length, has sorted disjoint spans without 32-bit wrap before the last section, and the main spans tile link addresses from 0 to the end of the last main section without holes |
| `AddressMap.FindByVa` | udynlink/udynlink.c:390-408 | the scan with its early exit computes the section map |
| `AddressMap.FindIsExact` | udynlink/udynlink.c:378-408 | the map answers i iff the address is in span i, and -1 iff it is in none, empty sections included |
| `AddressMap.MainsArePacked` | udynlink/udynlink.c:341-366 | unless an address passes 2^32, the main-section comparison holds iff .data is at the first aligned address past .text, .bss at the first one past .data, .text reaches up to .data and the sizes are the header's |
| `Layout.GetMainSectionOffset` | udynlink/udynlink.c:428-456 | the offset loop computes the specified layout |
| `Layout.GetRamSize` | udynlink/udynlink.c:782-812 | the separate sizing loop and the closed formulas compute the end of the same layout |
| `Layout.GetMainAlign` | udynlink/udynlink.c:472-484 | the maximum of 4 and the main alignments |
| `Layout.LayoutSound` | udynlink/udynlink.c:428-484 | main sections are disjoint and behind LOT, bases and metadata; the last one ends at the computed size; a base aligned to the maximum aligns every section |
| `Layout.LayoutPacked` | udynlink/udynlink.c:428-456 | no main section could start earlier: none of its aligned places lies between the end of the one before and its own |
| `Layout.MainBlockWalk` | scripts/udynlink_parser.py:1164-1185 | the parser's generic walk gives the loader's offsets and size for every valid table |
| `Layout.SynthesizedAgrees` | scripts/udynlink_parser.py:848-858 | for word-multiple sizes the made-up three-entry view lays out as the loader's closed formulas |
| `Codec.GeometryAgrees` | scripts/udynlink_parser.py:209-276 | the parser's metadata offsets are the loader's for every header the parser accepts |
| `Placement.SlotInjective` | udynlink/udynlink.c:653-668 | different words of a placed module have different addresses |
| `Placement.TargetsDistinct` | udynlink/udynlink.c:718-744 | distinct link-time targets are distinct words in every mode |
| `Placement.EveryWordIsTarget` | udynlink/udynlink.c:718-744 | every word of a code or data section is the target of the lot offset that counts words from the end of .text, going round at 2^32 |
| `Relocation.WalkAt` | udynlink/udynlink.c:830-1006 | a walk that succeeds gives every target the effect of its one entry on the word it held before the walk |
| `Relocation.WalkSucceeds` | udynlink/udynlink.c:830-1006 | conversely a walk succeeds when every entry can be applied to its original word |
| `Relocation.WalkFrame` | udynlink/udynlink.c:830-1006 | a word no entry targets is unchanged, also when the walk stops in the middle |
| `Loaded.LoadRenders` | udynlink/udynlink.c:830-1006 | relocating placed contents gives memory that represents the module: relocated words hold run-time values, all others their contents, the bases stay |
| `Loaded.LoadFailsAt` | udynlink/udynlink.c:830-1006 | a load-time walk over placed contents that fails stops at the first entry without a target or whose word, as the image gives it, does not resolve, with that entry's error |
| `Renaming.RuntimeOfByte` | udynlink/udynlink.c:699-709 | on a section's own bytes the run-time address is base plus offset, without wrap |
| `Renaming.RuntimeInjective` | udynlink/udynlink.c:699-709 | different bytes of the sections get different run-time addresses |
| `Padding.PaddingAliasExact` | udynlink/udynlink.c:398-402 | the renaming is injective on every address it covers, padding included, iff the run-time images of the spans do not meet |
| `Padding.PaddingAliasExample` | udynlink/udynlink.c:398-402 | an accepted image and a valid placement where an address in .data's padding and the first of .bss get one run-time address |
| `Padding.AlignedFrontKeepsLayout` | udynlink/udynlink.c:428-456 | if the front of the block is a multiple of the main alignment the main sections lie in it as they were linked, padding and all |
| `Renaming.LoadIsRenaming` | udynlink/udynlink.c:830-1006 | the word at the run-time address of link address v is the renamed word if v is relocated in place, the symbol's address if a symbol is bound there, the link-time word otherwise; .bss is never patched |
| `Renaming.LotSlotsBound` | udynlink/udynlink.c:830-1006 | each relocated LOT slot holds its symbol's run-time or host address |
| `Renaming.RelocationFrame` | udynlink/udynlink.c:718-744 | the load-time walk, complete or not, changes only LOT slots and words of CODE and DATA sections |
| `Renaming.MetadataSurvives` | udynlink/udynlink.c:653-673 | metadata copied by COPY_ALL or left in the image parses after the walk to the image validated before it |
| `Renaming.ImageFrame` | udynlink/udynlink.c:263-368 | decoding depends on the metadata words alone |
| `Handle.GetSectionBase` | udynlink/udynlink.c:653-668 | the base of any section of a described module, from block, image or base array |
| `Handle.GetCodePointer` | udynlink/udynlink.c:487-504 | the code base of a module without a table, in all modes |
| `Handle.GetDataPointer` | udynlink/udynlink.c:507-526 | the data base of a module without a table, in all modes |
| `Handle.ResolveRuntimeVa` | udynlink/udynlink.c:699-709 | computes the renaming |
| `Handle.RelocTargetOf` | udynlink/udynlink.c:718-744 | the word a relocation patches, or NULL out of range, in both kinds of image |
| `Walks.OwnAddress` | udynlink/udynlink.c:749-775 | the module's own address of a symbol |
| `Walks.BindSymbol` | udynlink/udynlink.c:932-1001 | the switch on the symbol type: value written or error, weak default before the host is asked |
| `Walks.ApplyRelocations` | udynlink/udynlink.c:830-1006 | the loop refines the walk: same error, same memory; only patchable words change |
| `Walks.RebaseModulePointers` | udynlink/udynlink.c:1016-1081 | the delta loop is the moving walk: every word becomes what the specification gives for the new place |
| `Walks.SectBaseOld` | udynlink/udynlink.c:1503-1513 | pre-move bases while the handle already points at the new block |
| `Walks.SectBaseNew` | udynlink/udynlink.c:1518-1525 | post-move bases: the first listed move of the section, else block and array |
| `Walks.FindByRuntime` | udynlink/udynlink.c:1529-1539 | the reverse map from pre-move run-time addresses |
| `Walks.RebaseSectionsPointers` | udynlink/udynlink.c:1549-1642 | the sectioned rebase loop is the moving walk |
| `Walks.ApplyExternRelocations` | udynlink/udynlink.c:2122-2159 | the link loop is the linking walk, incremental or from scratch |
| `Loaded.MoveIsReload` | udynlink/udynlink.c:1549-1642 | rebasing the word a load at the old place wrote gives the word a load at the new place writes, iff an in-place word's shift is seen by the reverse map and a weak override is not taken for the module's own address |
| `Loaded.InPlaceMoveExact` | udynlink/udynlink.c:1529-1590 | for in-place words: the word moves right iff the section that the reverse map, which looks at the sections' own bytes, finds for it (none: no shift) is shifted as far as the section its link address belongs to |
| `Loaded.InsideMoves` | udynlink/udynlink.c:1529-1590 | an address inside a section's own bytes always does |
| `PaddedModule.EndOfDataLost` | udynlink/udynlink.c:374-387 | a decoded image whose .data holds a pointer to the end of .data, in the padding: placed, relocated and moved in a concrete memory it is stale, and the memory no longer represents the module for any resolver |
| `Loaded.WeakMoveExact` | udynlink/udynlink.c:1614-1633 | for weak symbols: the word moves right iff the host override is not the module's own default, or the default does not move |
| `MoveExamples.OverriddenWeakMove` | udynlink/udynlink.c:1614-1633 | a decoded image, loaded and moved, whose overridden weak slot differs from that of the same image loaded at the target |
| `Moving.MovePreserves` | udynlink/udynlink.c:1679-1800 | a moved module represents the same contents at the new place iff every relocated word moves as it should; nothing is assumed of its words |
| `Moving.MoveCommutesWithLoad` | udynlink/udynlink.c:1724-1800 | load, copy, move against a fresh load at the target, in all modes: where the contents agree the words agree iff the word is no target or one that moves as it should; the bases always agree |
| `Moving.MovedWord` | udynlink/udynlink.c:1549-1642 | the same for one word, whatever happens to the others |
| `Mover.MovedSectionsFresh` | udynlink/udynlink.c:1724-1800 | after load and move a word of a section is what a fresh load of the same image at the target puts there iff no entry targets it or one whose word moves as it should |
| `Mover.MovedMetadataFresh` | udynlink/udynlink.c:1724-1800 | every word of the metadata COPY_ALL keeps in the block is, unread fields included, whatever happens to other words |
| `Mover.MovedSlotsFresh` | udynlink/udynlink.c:1724-1800 | a word bound to a symbol is, whatever was there before, iff it is not a weak one whose override is taken for the module's own address |
| `Moving.MoveChain` | udynlink/udynlink.c:1016-1081 | after any chain of moves, each of words that move as they should, the relocated words are those of one load at the last place and every other word is what the module last left there |
| `Mover.CheckMoves` | udynlink/udynlink.c:1819-1846 | the first objection to the list of section moves; which lists are accepted is the next row |
| `Mover.MovesAccepted` | udynlink/udynlink.c:1819-1846 | a list is accepted iff every move names a tagged section, none twice, a new base that is there and a multiple of the section's alignment |
| `Mover.FirstObjection` | udynlink/udynlink.c:1819-1846 | a refused list has a first entry that offends, the ones before it being good, and the error is the one for what is wrong with that entry |
| `Mover.MovesInAnyOrder` | udynlink/udynlink.c:1819-1846 | whether a list is accepted does not depend on its order |
| `Mover.PublishBases` | udynlink/udynlink.c:1786-1788 | the base array ends with every move published, nothing else touched |
| `Mover.RelocateFlat` | udynlink/udynlink.c:1648-1722 | untagged move in every outcome: the verdict as a function of request, size and the allocator's answer, what was asked of it, memory, handle, ownership flag and account; what a refused call leaves, what a move onto itself frees |
| `Mover.RelocateSectioned` | udynlink/udynlink.c:1724-1800 | sectioned move in every outcome, verdict and requests as above: a rejected call changes nothing; a move onto itself ignores the listed sections; else the moved module, one main block in and one out |
| `Mover.RelocateModuleSections` | udynlink/udynlink.c:1811-1849 | a rejected list changes nothing; otherwise the move, with verdict, requests, memory, handle, flag and account as above; nothing is written outside the new block, the sections' new places and .text patched in the image |
| `Mover.FlatMoveKeepsBooks` | udynlink/udynlink.c:1648-1722 | an untagged move leaves the ownership flag right and the module in memory that is not freed iff a block moved onto itself is the caller's and a refused move would not have changed hands |
| `MoveExamples.OwnBlockFreed` | udynlink/udynlink.c:1684-1689 | a loaded module moved onto its own block: nothing is outstanding, the allocator answers the next request with the block, and the module is still there |
| `MoveExamples.RefusedMoveDisowns` | udynlink/udynlink.c:1671-1676 | a loaded module refused a buffer that is too short: its block is still the loader's, the handle says it is the caller's |
| `Mover.SectionMovesTaken` | udynlink/udynlink.c:1733-1737 | the listed section moves are carried out iff the block moves too, or they change nothing |
| `PaddedModule.SectionMoveIgnored` | udynlink/udynlink.c:1733-1737 | a running module, its block given its own address and a section a new one: the call succeeds, the recorded base is the old one |
| `Mover.MovedBlockAligned` | udynlink/udynlink.c:1745-1763 | a sectioned move into a block from the allocator leaves every main section aligned iff the answer was aligned as requested |
| `Mover.CallersBlockTaken` | udynlink/udynlink.c:1738-1763 | a sectioned move takes a block the caller passes iff it is large enough and every main section is aligned in it |
| `Mover.SwapAccount` | udynlink/udynlink.c:1770-1800 | after a move the old block is out of the account iff it was the loader's, the new one in iff it is, and every other block as before |
| `PaddedModule.MisalignedBlockTaken` | udynlink/udynlink.c:1745-1763 | an answer that is a multiple of 4, not of 16: the move takes it and .bss is not aligned |
| `Mover.LoadedIsLoadable` | udynlink/udynlink.c:1020-1034 | a loaded module meets what the untagged rebase loop assumes about its entries |
| `Mover.LinkExterns` | udynlink/udynlink.c:2161-2171 | both link calls run the linking walk and keep the module attached |
| `Linking.DeferredLinkingConfluent` | udynlink/udynlink.c:2122-2171 | load deferring, then link incrementally, equals loading with the extended resolver iff every weak symbol is settled |
| `WeakSymbols.DeferredWeakExample` | udynlink/udynlink.c:2122-2171 | a decoded module, placement and resolvers for which it does not |
| `Linking.IncrementalKeepsBound` | udynlink/udynlink.c:2143-2145 | link_incremental never changes a non-zero word |
| `Linking.LinkIdempotent` | udynlink/udynlink.c:2122-2159 | linking twice with one resolver is linking once |
| `Linking.RelinkForgets` | udynlink/udynlink.c:2122-2159 | after relink_all an extern slot depends on the last resolver only; other words are kept |
| `Linking.LinkHistory` | udynlink/udynlink.c:2122-2171 | after any run of links, with any resolvers, an extern slot holds the first address given since the last relink_all, else 0, and never the deferral mark |
| `Memory.Host.Malloc` | udynlink/udynlink.c:1216 | any allocator, given by what it would answer at each call: refusal or any memory not in use; never asked for zero bytes; every request is on record with its answer |
| `Ownership.FreeNonmainSections` | udynlink/udynlink.c:679-695 | every recorded block goes back once, with its own arguments |
| `Ownership.GiveBack` | udynlink/udynlink.c:1395-1412 | the shared exit leaves exactly the blocks outstanding before the load and a cleared handle |
| `Tagged.FillSection` | udynlink/udynlink.c:1327-1332 | payload copied or zeros, nothing else touched |
| `Tagged.AllocateSection` | udynlink/udynlink.c:1315-1326 | one request, put on record; refused, misaligned or served, each with its error; a block is recorded before its alignment is judged; the account matches the base array in every outcome, and a served block is clear of everything in use |
| `Tagged.PlaceTagged` | udynlink/udynlink.c:1299-1333 | the requests are exactly one for each non-empty tagged section in order, up to the first that is refused or misaligned, which decides the error; whatever the allocator answers, the recorded blocks are the ones owed and no word in use outside the main block has changed; on success every section is placed and filled, in memory that was not in use |
| `Tagged.RequestsInOrder` | udynlink/udynlink.c:1299-1333 | request n is for the n-th non-empty tagged section and gets what the allocator answers after those before it; if sections are left over the last one was not served |
| `MainBlock.PlaceMain` | udynlink/udynlink.c:1262-1297 | main sections and metadata copied in each mode, the image untouched |
| `MainBlock.CopyFlatMetadata` | udynlink/udynlink.c:1341-1354 | the three metadata copies and the zero padding |
| `MainBlock.FlatImageFrame` | udynlink/udynlink.c:1341-1354 | that copy decodes to the same image |
| `MainBlock.PlaceFlat` | udynlink/udynlink.c:1340-1384 | code, data and zeroed .bss of an image without a table, and a handle that describes it |
| `Staging.StagedIsReady` | udynlink/udynlink.c:1262-1339 | after copies, tagged sections and .bss the module is a valid placement with the image's contents and safe metadata |
| `Loader.Plan` | udynlink/udynlink.c:1167-1212 | signature, version, table and size limits, in the order they are checked; what passes and why the rest is refused is the next row |
| `Loader.PlanExact` | udynlink/udynlink.c:1167-1212 | the plan accepts an image iff signature, version and table are right, payloads and metadata keep within the image limit, and the main block together with all tagged sections within the RAM limit; each refusal names the first of these that fails |
| `Loader.TakeMain` | udynlink/udynlink.c:1213-1256 | main block: out of memory, short buffer, misaligned and given back, or taken, as a function of the caller's buffer and the allocator's answer |
| `Loader.LoadModule` | udynlink/udynlink.c:1148-1413 | the plan decides what passes, and an image that does not leaves memory and allocator untouched; failure: all blocks back once, handle cleared, account as before, and the error explained by the buffer, a request or an entry; success: the image's contents rendered at a valid placement, ownership exact; either way the requests are exactly those the allocator's answers lead to, and no word in use by anyone else has changed, except .text of an XIP image with sections, which is patched in the image |
| `Loader.LoadWithinCap` | udynlink/udynlink.c:1185-1212 | a load asks the allocator, over all its requests, for no more than the RAM limit less a buffer the caller supplies |
| `PaddedLoad.LoadPadded` | udynlink/udynlink.c:1148-1413 | a whole load in a concrete memory: an image with a tagged section, the caller's block at 16, the allocator's at 56, ends well with that placement |
| `Loader.ExplainedOk` | udynlink/udynlink.c:1148-1413 | a load past its plan succeeds iff the buffer it is given fits and is aligned, every request was served, and every relocation entry can be applied |
| `Loader.ExplainedFailure` | udynlink/udynlink.c:1148-1413 | each error of such a load has its own cause: allocator, buffer size, alignment, the last section request, the first entry that cannot be applied; there are no others |
| `Loader.FirstRequest` | udynlink/udynlink.c:1213-1222 | a main block is asked for first, with no section's name, the image's main alignment and no flags; every other request is for a tagged section |
| `Loaded.EntryCauses` | udynlink/udynlink.c:830-1006 | an entry fails as an unknown symbol iff it binds an external symbol that the host does not know, and as a bad one iff it has no target, no symbol, a symbol without an address, or an in-place word of the LOT or outside every section |
| `Loader.UnloadModule` | udynlink/udynlink.c:1451-1473 | a load followed by an unload leaves the account as before the load; with a table that no longer parses only the main block goes back, as one of word alignment |
| `Lookup.BoundedOrder` | udynlink/udynlink.c:565-575 | strncmp bounded by the remaining table bytes reports an inversion iff the whole names are inverted and the current one is not cut short by the end of the table |
| `Lookup.BoundLosesNothing` | udynlink/udynlink.c:565-575 | so it agrees with full string order iff that name is not cut short, and a terminated one never is |
| `Lookup.UnterminatedPasses` | udynlink/udynlink.c:555-564 | two unterminated names out of order that compare equal, against the comment |
| `Lookup.ComputeNumNamed` | udynlink/udynlink.c:535-578 | n > 0 iff entries 1..n are exactly the named ones and sorted |
| `Lookup.BinarySearch` | udynlink/udynlink.c:1962-1991 | finds an entry with the name, or there is none |
| `Lookup.LinearScan` | udynlink/udynlink.c:1994-2010 | finds the first entry with the name, or there is none |
| `Lookup.FastIsSlow` | udynlink/udynlink.c:1958-2011 | both searches find the same names, and the same entry when names are unique |
| `Symbols.LookupSymbol` | udynlink/udynlink.c:1958-2011 | a name is found iff an entry has it; the value is own address, override or raw value by kind, with the location bit |
| `Symbols.ReportedIsBound` | udynlink/udynlink.c:1958-2011 | a lookup reports for the module's own symbols exactly the value its relocated words hold |
| `Symbols.ReportedPlace` | udynlink/udynlink.c:746-775 | an own symbol is reported in the section that has its address, whichever that is, and as 0 if none has |
| `Symbols.ReportedRaw` | udynlink/udynlink.c:746-775 | an external symbol and the module's name are reported as the raw value the parser decodes |
| `FlatImages.SymbolsAgree` | udynlink/udynlink.c:699-775 | for any accepted table of three 4-aligned main sections the section map and the location bit give the same offset from code or data base, .bss included |
| `FlatImages.InPlaceAgrees` | udynlink/udynlink.c:863-917 | both relocation forms write the word the section map gives, in XIP and COPY_CODE, and in COPY_ALL off by exactly the front table that the flat rule does not count |
| `FlatImages.TargetsAgree` | udynlink/udynlink.c:718-744 | a lot offset the flat rule accepts names the same LOT slot or .data word through the section map; the flat rule accepts exactly LOT and .data |
| `Deps.DepMgr.Unregister` | udynlink/udynlink_deps.c:92-99 | removes one entry, keeps all others (swap with last) |
| `Deps.DepMgr.Find` | udynlink/udynlink_deps.c:46-57 | finds a registered module iff one has the name |
| `Deps.DepMgr.ResolveDependency` | udynlink/udynlink_deps.c:113-133 | deferred iff being loaded; found if registered; otherwise what the host's load gives |
| `Deps.DeeperIsSame` | udynlink/udynlink_deps.c:258-294 | a recursion that ends does so in the same way whatever depth it is allowed |
| `DepChains.NotLooping` | udynlink/udynlink_deps.c:62-80 | without forks no module that is still being loaded is ever taken for new, although its name may have been popped |
| `DepChains.LoadGood` | udynlink/udynlink_deps.c:258-294 | by induction over the recursion: it ends, keeps registry and stack sound, and pops at most what the depth of its longest chain explains; a load that failed has not registered its module |
| `DepChains.OutermostLoad` | udynlink/udynlink_deps.c:258-294 | for every library without forks and every host the load ends with an empty stack; success leaves a closed registry with the root and no name twice; failure leaves neither the root's handle nor, if it was new, its name |
| `DepChains.ShallowHasNoFork` | udynlink/udynlink_deps.c:70-80 | chains of up to eight names are safe |
| `DepChains.AcyclicHasNoFork` | udynlink/udynlink_deps.c:70-80 | so are graphs without cycles, however deep |
| `Deps.DepMgr.DepLoad` | udynlink/udynlink_deps.c:258-294 | whenever the recursion ends, result, registry and stack are those of the function Load, for every host; what that function leaves registered is the next rows |
| `DepHistory.LoadRecorded` | udynlink/udynlink_deps.c:258-294 | for every world the registry after a load is the one before and, behind it as far as there is room, the modules whose own load ended well, in the order in which they ended, each numbered once |
| `DepHistory.FailedNotRegistered` | udynlink/udynlink_deps.c:278-283 | a load that failed leaves no entry for its module |
| `DepHistory.AddedEndedWell` | udynlink/udynlink_deps.c:258-294 | every entry a load adds is a module whose own load ended well during it |
| `DepHistory.LoadStops` | udynlink/udynlink_deps.c:258-294 | after a failure nothing ends well any more: only the loads that required it end, failing; a load that ends well had no failure inside |
| `DepChains.LoadRoot` | udynlink/udynlink_deps.c:258-294 | the method from an empty stack: what the registry holds after a success, and that a failure leaves nothing of the module that was to be loaded |
| `DepChains.ClosureIsTransitive` | udynlink/udynlink_deps.c:258-294 | a closed registry holds the whole transitive requirement closure |
| `Forks.ForkFails` | udynlink/udynlink_deps.c:70-80 | every fork has a permutation of the requirement lists under which no load from an empty registry ends well |
| `Forks.StackSufficesExactly` | udynlink/udynlink_deps.c:70-80 | under every permutation of the requirement lists every load ends with each module registered once iff the requirement graph has no fork |
| `Runaway.DeepCycleRunsAway` | udynlink/udynlink_deps.c:70-80 | behind a full stack a cycle is never cut: the load ends at no depth |
| `Runaway.NineImagesRunAway` | udynlink/udynlink_deps.c:70-80 | nine images suffice |
| `Runaway.LostPopRegistersTwice` | udynlink/udynlink_deps.c:70-80 | nine other images: the load ends with more entries than images, one module registered twice |
| `Thumb.MovRoundTrip` | udynlink/udynlink_thunk.c:24-48 | reading a written MOVW or MOVT on ip gives the immediate back |
| `Thumb.BranchRoundTrip` | udynlink/udynlink_thunk.c:170-173 | the branch encoding keeps every offset in range |
| `Thunks.EnterStub` | udynlink/udynlink_thunk.c:120-236 | entering a stub reaches the function with r9 the module's base, arguments unchanged, r9 and lr saved |
| `Thunks.ReturnThroughGateway` | udynlink/udynlink_thunk.c:120-126 | a balanced return is back at the caller with its r9 |
| `Thunks.BranchTest` | udynlink/udynlink_thunk.c:219-232 | for every distance: the cast test accepts it iff it is in range modulo 0x20000, and an accepted branch is right iff it is in range |
| `Thunks.StubReachesNear` | udynlink/udynlink_thunk.c:219-236 | a written stub reaches its gateway iff the gateway is near |
| `Thunks.SmallPoolNear` | udynlink/udynlink_thunk.c:177-280 | in a pool of up to 0x1F81C bytes every stub is near its gateway |
| `Thunks.FirstStubMisses` | udynlink/udynlink_thunk.c:219-280 | in a pool one word larger the first stub is accepted and is not near |
| `Thunks.Pool.constructor` | udynlink/udynlink_thunk.c:177-200 | word-aligned geometry, nothing written |
| `Thunks.PoolIsLargest` | udynlink/udynlink_thunk.c:177-197 | the pool is the largest part of the buffer that is word-aligned at both ends |
| `Thunks.Pool.WriteStub` | udynlink/udynlink_thunk.c:219-236 | the ten bytes, or 0 when the cast distance is out of range |
| `Thunks.Pool.WriteGateway` | udynlink/udynlink_thunk.c:213-217 | the eighteen bytes |
| `Thunks.Pool.FindStub` | udynlink/udynlink_thunk.c:53-73 | answers exactly the addresses thunked, reading the code back |
| `Thunks.Pool.FindGateway` | udynlink/udynlink_thunk.c:240-254 | answers exactly the bases with a gateway |
| `Thunks.Pool.AllocGateway` | udynlink/udynlink_thunk.c:256-265 | one more gateway from the top, or no room |
| `Thunks.Pool.AllocStub` | udynlink/udynlink_thunk.c:267-280 | one more stub from the bottom; 0 iff no room or the range test refuses |
| `Thunks.Pool.MakeCall` | udynlink/udynlink_thunk.c:283-305 | the part behind the lookup, exactly: an old stub, or a new one behind the module's gateway, made if need be; 0 iff there is no room for a missing gateway or the stub, or the range test refuses; branching to any other answer enters that stub and, where it is near its gateway, reaches the function with the gateway's base in r9 |
| `Thunks.AnswerCalls` | udynlink/udynlink_thunk.c:283-305 | an answer is a Thumb address: branching to it enters the stub and, for a Thumb function and a stub near its gateway, seven steps later control is at the function, with the gateway's base in r9 and r0-r3 as they were |
| `Thunks.CallRoom` | udynlink/udynlink_thunk.c:256-280 | when a fresh function is refused: no room for ten bytes more, eighteen with a new gateway, or the range test |
| `Thunks.CallServes` | udynlink/udynlink_thunk.c:283-305 | the stub a call answers with puts the asking module's base into r9 iff the function had no stub or its stub's gateway is that module's |
| `Thunks.SecondBaseIgnored` | udynlink/udynlink_thunk.c:283-305 | two bases, one function, a fresh pool: both calls get the stub of the first |
| `Calls.MakeCall` | udynlink/udynlink_thunk.c:283-305 | a name without a function symbol gets no stub and changes nothing; any other gets exactly what the pool answers for the address the lookup reports and the module's base, and branching to that answer is a call of that function as there |
| `Thunks.StubCalls` | udynlink/udynlink_thunk.c:120-236 | every stub near its gateway calls its function with the gateway's base |
| `Codec.ParseModule` | scripts/udynlink_parser.py:914-1035 | accepts exactly the well-formed blobs and decodes them as specified; what the decoded fields mean is tied to the loader below |
| `Codec.ToBytes` | scripts/udynlink_parser.py:775-802 | places every payload at its own offset behind the tables |
| `Codec.PayloadImageOffset` | scripts/udynlink_parser.py:804-816 | the payload's offset is the length of what precedes it |
| `Codec.ParseSerialized` | scripts/udynlink_parser.py:914-1035 | parsing a serialized image gives the image back, with or without a table |
| `Codec.SerializeParsed` | scripts/udynlink_parser.py:775-802 | serializing a parsed blob gives it back iff it has no trailing bytes and zero padding |
| `Codec.ParsedWellFormed` | scripts/udynlink_parser.py:914-1035 | what parsing gives meets everything serialization needs |
| `Formats.HeadersAgree` | scripts/udynlink_parser.py:914-960 | every header field the parser decodes from the bytes is the one the loader reads from the words they are stored in |
| `Formats.HeaderVerdicts` | scripts/udynlink_parser.py:930-960 | the headers the parser accepts are those with the signature, a 32-byte header, no unknown flag, and either a table whose header the loader accepts but for its cap on the symbol table, or no table and no sections counted |
| `Formats.RelocsAgree` | scripts/udynlink_parser.py:960-985 | so are the relocations |
| `Formats.SymtabAgrees` | scripts/udynlink_parser.py:960-985 | so is the symbol table, byte by byte |
| `Formats.SymbolsAgree` | scripts/udynlink_parser.py:960-1010 | a symbol has the loader's kind, location bit, value and name, and the loader reads it iff the parser has it with a name inside the table |
| `Formats.SectionsAgree` | scripts/udynlink_parser.py:880-905 | a section entry has the loader's name, address, size, alignment, class and flags |
| `Formats.TablesAgree` | scripts/udynlink_parser.py:861-905 | the loader accepts a table iff the parser does and the further conditions of LoaderOnly hold; its entries are then the parser's |
| `Formats.UnmarkedTable` | scripts/udynlink_parser.py:861-905 | a table of one section without MAIN marker, which the parser accepts and no loader does |
| `Formats.PayloadsAgree` | scripts/udynlink_parser.py:1010-1035 | every word of a section's payload is the one the loader copies for that section |
| `Formats.FlatPayloadsAgree` | scripts/udynlink_parser.py:1010-1035 | without a table .text and .data are read behind the metadata and behind .text |
| `Formats.PurposeAgrees` | udynlink/udynlink.c:1315-1326 | the allocator is asked for a section by the name and alignment the parser decodes, and by its flags under the mask 0x7F00FFFF |
| `HashIndex.MaskTest` | udynlink/udynlink_hash.h:36-39 | the filter's mask comparison is a test of both bits |
| `HashIndex.MaskIndex` | udynlink/udynlink_hash.h:37 | the mask index is the modulus |
| `HashIndex.ComputeHash` | udynlink/udynlink_hash.h:25-31 | the loop computes the hash |
| `HashIndex.HashPrefix` | udynlink/udynlink_hash.h:25-31 | one character further into a name the hash is the one so far times 33 plus the character, modulo 2^32 |
| `HashIndex.HashOfPrintf` | udynlink/udynlink_hash.h:25-31 | the empty name hashes to 5381, "printf" to the published 0x156B2BB8 |
| `HashIndex.Resolve` | udynlink/udynlink_hash.h:33-58 | in bounds, terminating, and equal to a plain map whatever empty buckets point at |
| `TrieIndex.Match` | udynlink/udynlink_trie.h:41-53 | the sibling walk finds the level's node for a character; its early exit loses nothing |
| `TrieIndex.OnePath` | udynlink/udynlink_trie.h:30-64 | a name is spelled by at most one root path |
| `TrieIndex.Resolve` | udynlink/udynlink_trie.h:30-64 | an address is returned iff some root path spells the name and ends in a leaf |

## Left out

- Walks.ApplyRelocations: the resolver is a function of the name; what a host does inside the callback (loading further modules into the same memory) is modelled in `Deps` without memory.
- Loader.Plan: tables of one or two entries are not planned; the scan accepts them and the code then reads three main entries whatever the count says (udynlink/udynlink.c:344-366), of which the missing ones were never checked.
- Loader.LoadModule: does not model images whose parts are not contiguous (`udynlink_module_image_t` with separate pointers); all parts are found from the image address.
- Mover.RelocateFlat: memory is words, so of a move to an address between two of them, which the code does not refuse, only the handle and the account are described; the same holds for `Mover.RelocateSectioned` when the allocator answers with one.
- Mover.RelocateModuleSections: does not account for tagged blocks after a move, which the documentation leaves to the host; only the main block is accounted for.
- Layout.GetRamSize: sums are unbounded integers; on a 64-bit host `size_t` cannot overflow here, and on a 32-bit one the size caps come after the sums.
- Deps.DepMgr.DepLoad: handles carry their image and loads touch no memory; thunk generation, the gateway field of an entry and `udynlink_dep_resolve_func` and `_data` are not part of this model.
- Forks.StackSufficesExactly: speaks of all permutations of the requirement lists at once; which permutations of a given fork hurt is not characterised beyond the one `Forks.ForkFails` arranges.
- Thumb: only the six instructions the thunks use; interworking with ARM state faults, as on M-profile cores.
- Codec.ParseModule: parses with validation on; names are bytes, not decoded text; error messages collapse to one error.
- Modules built for header version 2.0 have a 36-byte header in the loader's geometry, and the parser rejects them; both follow the code.
- `scripts/mkmodule`, `scripts/mkhostsyms`, ELF reading, inline assembly, the C++ wrappers, error strings, debug output, architecture tags: well-formedness predicates stand for what they produce.
- `udynlink_get_image_size_bounded` and the parser's header-only `data_offset` count `code_size` where a folded payload is longer; payload offsets here come from the table.
- Caches, interrupts, concurrency, string lifetimes and pointer provenance.
