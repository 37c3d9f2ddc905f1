// Loading and unloading a module: udynlink_load_module_image and udynlink_unload_module.

module Loader {
  import opened Words
  import opened Image
  import opened Sections
  import opened Layout
  import opened Placement
  import opened Relocation
  import opened Loaded
  import opened Renaming
  import opened Memory
  import opened Handle
  import opened Walks
  import opened Ownership
  import opened Tagged
  import opened MainBlock
  import opened Staging
  import opened Lookup

  // ----- planning: every check that needs no allocation -----

  /** sum_section_sizes over the tagged sections, counting .bss or not. */
  function TaggedTotal(tab: seq<Section>, k: int, withBss: bool): int
    decreases |tab| - k
  {
    if k < 3 || k >= |tab| then 0
    else (if withBss || Sec(tab, k).cls != BSS then Sec(tab, k).size else 0) + TaggedTotal(tab, k + 1, withBss)
  }

  method SumTagged(tab: seq<Section>, withBss: bool) returns (total: int)
    requires tab == [] || |tab| >= 3
    ensures total == TaggedTotal(tab, 3, withBss)
  {
    total := 0;
    if tab == [] {
      return;
    }
    var k := 3;
    while k < |tab|
      invariant 3 <= k <= |tab|
      invariant total + TaggedTotal(tab, k, withBss) == TaggedTotal(tab, 3, withBss)
    {
      if withBss || Sec(tab, k).cls != BSS {
        total := total + Sec(tab, k).size;
      }
      k := k + 1;
    }
  }

  /** The verdict on an image, its table parsed with names checked. */
  function PlanError(m: seq<Word>, src: nat, mode: Mode): Error {
    var hdr := HeaderAt(m, src / 4);
    if hdr.sign != SIGN then InvalidSign
    else if hdr.version > LOADER_VERSION then VersionMismatch
    else
      match Sectab(m, src / 4, true)
      case None => BadSectionTable
      case Some(tab) =>
        var extent := CodeOffset(hdr) + hdr.codeSize + hdr.dataSize + TaggedTotal(tab, 3, false);
        var ram := RamSize(hdr, tab, mode);
        if extent > MAX_IMAGE_SIZE then if tab == [] then BadRelocationTable else BadSectionTable
        else if ram > MAX_RAM_SIZE then BadRelocationTable
        else if tab != [] && ram + TaggedTotal(tab, 3, true) > MAX_RAM_SIZE then BadSectionTable
        else Ok
  }

  // What the plan accepts, and why it refuses.

  function Total(sizes: seq<int>): int {
    if sizes == [] then 0 else sizes[0] + Total(sizes[1..])
  }

  function TaggedSizes(tab: seq<Section>): seq<int> {
    seq<int>(NumTagged(tab), (j: int) => Sec(tab, j + 3).size)
  }

  /** The padding that .text's payload takes along, which the plan does not count. */
  function Folded(img: Image): int {
    if img.tab == [] then 0 else Sec(img.tab, 0).size - img.hdr.codeSize
  }

  predicate FitsImageCap(img: Image) {
    Extent(img) - Folded(img) <= MAX_IMAGE_SIZE
  }

  /** The main block and all tagged sections together. */
  function Footprint(img: Image, mode: Mode): int {
    RamSize(img.hdr, img.tab, mode) + Total(TaggedSizes(img.tab))
  }

  /** Signature, version and table are right, and the image keeps within both caps. */
  predicate Passes(m: seq<Word>, src: nat, mode: Mode) {
    var hdr := HeaderAt(m, src / 4);
    && hdr.sign == SIGN && hdr.version <= LOADER_VERSION && Sectab(m, src / 4, true).Some?
    && ImageAt(m, src).Some? && FitsImageCap(ImageAt(m, src).value) && Footprint(ImageAt(m, src).value, mode) <= MAX_RAM_SIZE
  }

  /** Each refusal of the plan has its own cause, in the order the causes are looked for. */
  predicate PlanRefusal(m: seq<Word>, src: nat, mode: Mode, error: Error) {
    var hdr, view := HeaderAt(m, src / 4), Sectab(m, src / 4, true);
    if hdr.sign != SIGN then error == InvalidSign
    else if hdr.version > LOADER_VERSION then error == VersionMismatch
    else if view.None? || ImageAt(m, src).None? then error == BadSectionTable
    else
      var img := ImageAt(m, src).value;
      if !FitsImageCap(img) then error == if img.tab == [] then BadRelocationTable else BadSectionTable
      else if RamSize(img.hdr, img.tab, mode) > MAX_RAM_SIZE then error == BadRelocationTable
      else Footprint(img, mode) > MAX_RAM_SIZE && error == BadSectionTable
  }

  lemma PlanExact(m: seq<Word>, src: nat, mode: Mode)
    requires TableReadable(m, src)
    ensures PlanError(m, src, mode) == Ok <==> Passes(m, src, mode)
    ensures PlanError(m, src, mode) != Ok ==> PlanRefusal(m, src, mode, PlanError(m, src, mode))
  {
    hide RamSize, CodeOffset, ImageAt, Sectab, HeaderAt, Extent, Folded, Total, TaggedSizes, TaggedTotal;
    if Sectab(m, src / 4, true).Some? && HeaderAt(m, src / 4).sign == SIGN && HeaderAt(m, src / 4).version <= LOADER_VERSION {
      var tab := Sectab(m, src / 4, true).value;
      TableOfSource(m, src, tab);
      var img := ImageAt(m, src).value;
      ExtentCounted(m, src, img);
      TaggedCounted(tab, 3);
      TaggedPositive(tab);
    }
  }

  lemma TaggedPositive(tab: seq<Section>)
    ensures Total(TaggedSizes(tab)) >= 0 && (|tab| <= 3 ==> Total(TaggedSizes(tab)) == 0)
  {
    TotalPositive(TaggedSizes(tab));
  }

  lemma {:induction false} TotalPositive(sizes: seq<int>)
    requires forall j :: 0 <= j < |sizes| ==> sizes[j] >= 0
    ensures Total(sizes) >= 0
    decreases |sizes|
  {
    if sizes == [] {
    } else {
      TotalPositive(sizes[1..]);
    }
  }

  lemma {:induction false} TaggedCounted(tab: seq<Section>, k: nat)
    requires 3 <= k && (k <= |tab| || (k == 3 && |tab| <= 3))
    ensures TaggedTotal(tab, k, true) == Total(TaggedSizes(tab)[k - 3..])
    decreases |tab| - k
  {
    if k >= |tab| {
    } else {
      TaggedCounted(tab, k + 1);
      assert TaggedSizes(tab)[k - 3..][1..] == TaggedSizes(tab)[k + 1 - 3..];
    }
  }

  lemma {:induction false} PayloadCounted(tab: seq<Section>, k: nat)
    requires 3 <= k <= |tab|
    ensures PayloadOffset(tab, |tab|) == PayloadOffset(tab, k) + TaggedTotal(tab, k, false)
    decreases |tab| - k
  {
    if k == |tab| {
    } else {
      PayloadCounted(tab, k + 1);
    }
  }

  lemma ExtentCounted(m: seq<Word>, src: nat, img: Image)
    requires ImageAt(m, src) == Some(img) && (img.tab == [] || ValidTable(img.tab))
    ensures Extent(img) - Folded(img) == CodeOffset(img.hdr) + img.hdr.codeSize + img.hdr.dataSize + TaggedTotal(img.tab, 3, false)
  {
    hide CodeOffset;
    if img.tab != [] {
      MainsOfTable(m, src, img);
      hide ImageAt, ValidTable;
      PayloadCounted(img.tab, 3);
      assert PayloadOffset(img.tab, 0) == 0 && PayloadOffset(img.tab, 1) == Sec(img.tab, 0).size;
      assert PayloadOffset(img.tab, 2) == Sec(img.tab, 0).size + Sec(img.tab, 1).size;
    }
  }

  lemma MainsOfTable(m: seq<Word>, src: nat, img: Image)
    requires ImageAt(m, src) == Some(img) && img.tab != [] && ValidTable(img.tab)
    ensures Sec(img.tab, 0).cls == CODE && Sec(img.tab, 1).cls == DATA && Sec(img.tab, 2).cls == BSS && Sec(img.tab, 1).size == img.hdr.dataSize
  {
    assert EntryOk(img.tab[0], 0) && EntryOk(img.tab[1], 1) && EntryOk(img.tab[2], 2);
    hide EntriesOk, ValidTable;
  }

  /** The main entries of an accepted table are there: the code reads three whatever the count is. */
  predicate TableReadable(m: seq<Word>, src: nat) {
    var hdr := HeaderAt(m, src / 4);
    hdr.sign == SIGN && hdr.version <= LOADER_VERSION && Sectab(m, src / 4, true).Some? ==>
      Sectab(m, src / 4, true).value == [] || |Sectab(m, src / 4, true).value| >= 3
  }

  ghost predicate GoodImage(m: seq<Word>, src: int, img: Image) {
    WellFormed(img) && src + Extent(img) <= 4 * |m| && WellFormedTable(img.symt, img.hdr.symtSize)
  }

  /** The image at src, if it passes every check, is well formed. */
  ghost predicate SourceOk(m: seq<Word>, src: int, mode: Mode) {
    && src > 0 && src % 4 == 0 && TableReadable(m, src)
    && (Passes(m, src, mode) ==> GoodImage(m, src, ImageAt(m, src).value))
  }

  lemma NamesOptional(m: seq<Word>, w: nat)
    requires Sectab(m, w, true).Some?
    ensures Sectab(m, w, false) == Sectab(m, w, true)
  {
    hide EntryOk, NameOk, MainsMatch;
  }

  lemma TableOfSource(m: seq<Word>, src: int, tab: seq<Section>)
    requires src >= 0 && Sectab(m, src / 4, true) == Some(tab) && (tab == [] || |tab| >= 3)
    ensures ImageAt(m, src).Some? && ImageAt(m, src).value.tab == tab && ImageAt(m, src).value.hdr == HeaderAt(m, src / 4)
    ensures ImageAt(m, src).value.symt == SymtWords(m, src / 4, HeaderAt(m, src / 4))
    ensures tab == [] || ValidTable(tab)
  {
    NamesOptional(m, src / 4);
    hide Sectab, ValidTable, Extent, HeaderAt;
  }

  /** The checks before the first allocation. */
  method Plan(mem: array<Word>, src: int, mode: Mode)
    returns (res: Error, hdr: Header, tab: seq<Section>, pool: seq<Byte>, align: int, ramSize: int)
    requires src >= 0 && TableReadable(mem[..], src)
    ensures res == PlanError(mem[..], src, mode)
    ensures hdr == HeaderAt(mem[..], src / 4)
    ensures res == Ok ==>
      && Sectab(mem[..], src / 4, true) == Some(tab)
      && pool == Pool(SymtWords(mem[..], src / 4, hdr), hdr.symtSize)
      && align == MainAlign(tab) && ramSize == RamSize(hdr, tab, mode)
  {
    hide HeaderAt, Sectab, RamSize, CodeOffset, TaggedTotal, SymtWords, ValidTable;
    hdr := HeaderAt(mem[..], src / 4);
    tab, pool, align, ramSize := [], [], 4, 0;
    if hdr.sign != SIGN {
      res := InvalidSign;
      return;
    }
    if hdr.version > LOADER_VERSION {
      res := VersionMismatch;
      return;
    }
    var view := GetSectab(mem, src / 4, true);
    if view.None? {
      res := BadSectionTable;
      return;
    }
    TableOfSource(mem[..], src, view.value);
    tab := view.value;
    TableLength(tab);
    pool := Pool(SymtWords(mem[..], src / 4, hdr), hdr.symtSize);
    align := GetMainAlign(tab);
    var payloads := SumTagged(tab, false);
    if CodeOffset(hdr) + hdr.codeSize + hdr.dataSize + payloads > MAX_IMAGE_SIZE {
      res := if tab == [] then BadRelocationTable else BadSectionTable;
      return;
    }
    ramSize := GetRamSize(hdr, tab, mode);
    if ramSize > MAX_RAM_SIZE {
      res := BadRelocationTable;
      return;
    }
    if tab != [] {
      var total := SumTagged(tab, true);
      if ramSize + total > MAX_RAM_SIZE {
        res := BadSectionTable;
        return;
      }
    }
    res := Ok;
  }

  lemma TableLength(tab: seq<Section>)
    requires tab == [] || ValidTable(tab)
    ensures tab == [] || |tab| >= 3
  {}

  // ----- the main block -----

  /** One request for the main block, unless there is nothing to place or the caller brings a buffer;
      `reply` is what the allocator would answer. */
  function MainAsked(size: int, align: int, loadAddr: Word, reply: Word): seq<Event> {
    if size == 0 || loadAddr != 0 then [] else [BlockAnswer(size, align, reply)]
  }

  /** What taking the main block comes to. */
  function MainVerdict(size: int, align: int, loadAddr: Word, loadSize: int, reply: Word): Error {
    if size == 0 then Ok
    else if loadAddr == 0 then if reply == 0 then OutOfMemory else if Aligned(reply, align) then Ok else RamUnaligned
    else if loadSize < size then RamLenLow
    else if Aligned(loadAddr, align) then Ok
    else RamUnaligned
  }

  /** Allocate the main block or take the caller's. A misaligned block of our own goes straight back. */
  method TakeMain(mod: Module, mem: array<Word>, host: Host, ramSize: int, align: int, loadAddr: Word, loadSize: int,
                  ghost heap: Heap) returns (res: Error)
    requires mod.ram == 0 && !mod.foreign && ramSize >= 0 && align >= 4 && 0 !in heap
    requires Outstanding(host.log) == Some(heap)
    modifies mod`ram, mod`foreign, host`log
    ensures var (asked, reply) := (AskedSince(old(host.log), host.log), old(host.Reply(ramSize, 4 * mem.Length)));
      && Asked(host.log) == Asked(old(host.log)) + asked && asked == MainAsked(ramSize, align, loadAddr, reply)
      && res == MainVerdict(ramSize, align, loadAddr, loadSize, reply)
      && (res == Ok ==> BlockGiven(mod.ram, mod.foreign, ramSize, loadAddr, reply) && host.log == old(host.log) + asked)
    ensures Outstanding(host.log) == Some(WithMain(heap, mod.ram, mod.foreign, ramSize, align))
    ensures mod.foreign || mod.ram !in heap
    ensures res != Ok ==> mod.ram == 0
    ensures res == Ok && ramSize == 0 ==> mod.ram == 0 && !mod.foreign
    ensures res == Ok && ramSize > 0 ==>
      && mod.ram > 0 && Aligned(mod.ram, align)
      && (if loadAddr == 0 then !mod.foreign && mod.ram + ramSize <= 4 * mem.Length
            && ClearOf(host.taken, heap, mod.ram, ramSize)
          else mod.foreign && mod.ram == loadAddr && ramSize <= loadSize)
  {
    hide Aligned, Outstanding, Asked;
    ghost var was, asked: seq<Event> := host.log, [];
    NothingAsked(was);
    if ramSize > 0 {
      var addr := loadAddr;
      if loadAddr == 0 {
        mod.foreign := false;
        addr := host.Malloc(ramSize, MainPurpose(align), 4 * mem.Length);
        asked := [BlockAnswer(ramSize, align, addr)];
        OutstandingStep(was, asked[0]);
        SinceIs(was, host.log, asked);
        if addr == 0 {
          return OutOfMemory;
        }
      } else {
        mod.foreign := true;
        if loadSize < ramSize {
          return RamLenLow;
        }
      }
      if !Aligned(addr, align) {
        if loadAddr == 0 {
          OutstandingStep(host.log, Freed(addr, MainPurpose(align)));
          host.Release(addr, MainPurpose(align));
          SinceIs(was, host.log, asked);
          assert heap[addr := HeapBlock(addr, ramSize, MainPurpose(align))] - {addr} == heap;
        }
        return RamUnaligned;
      }
      mod.ram := addr;
    } else {
      mod.ram := 0;
    }
    res := Ok;
  }

  // ----- section placement -----

  function NoBases(tab: seq<Section>): seq<int> {
    seq<int>(NumTagged(tab), (j: int) => 0)
  }

  /** Zero the base array, so that the error exits only ever see bases the loader recorded. */
  method ClearBases(mem: array<Word>, ram: int, numLot: int, tab: seq<Section>)
    requires 0 <= ram && ram % 4 == 0 && numLot >= 0 && ram + 4 * (numLot + NumTagged(tab)) <= 4 * mem.Length
    modifies mem
    ensures BaseArray(mem[..], ram, numLot, NoBases(tab))
    ensures SameOutside(old(mem[..]), mem[..], ram + 4 * numLot, 4 * NumTagged(tab))
  {
    assert BasesSize(tab) == 4 * NumTagged(tab);
    ZeroPart(mem, ram + numLot * 4, BasesSize(tab));
    ClearedBases(mem[..], ram, numLot, tab);
  }

  lemma ClearedBases(m: seq<Word>, ram: int, numLot: int, tab: seq<Section>)
    requires 0 <= ram && ram % 4 == 0 && numLot >= 0 && ram + 4 * (numLot + NumTagged(tab)) <= 4 * |m|
    requires ZeroRange(m, ram + numLot * 4, 4 * NumTagged(tab))
    ensures BaseArray(m, ram, numLot, NoBases(tab))
  {
    forall j | 0 <= j < NumTagged(tab)
      ensures BaseAt(m, ram, numLot, NoBases(tab), j)
    {
      assert WordZero(m, ram + numLot * 4, 4 * j);
      assert ram + numLot * 4 + 4 * j == ram + 4 * (numLot + j);
    }
  }

  lemma BaseArrayIn(m: seq<Word>, m': seq<Word>, ram: int, numLot: int, bases: seq<int>, front: int)
    requires BaseArray(m, ram, numLot, bases) && KeptIn(m, m', ram, ram + front) && ram % 4 == 0 && numLot >= 0
    requires 4 * (numLot + |bases|) <= front
    ensures BaseArray(m', ram, numLot, bases)
  {
    forall j | 0 <= j < |bases|
      ensures BaseAt(m', ram, numLot, bases, j)
    {
      assert BaseAt(m, ram, numLot, bases, j);
    }
  }

  /** What the load path has established once the main block is there. */
  ghost predicate BlockTaken(mod: Module, host: Host, img: Image, src: int, m: seq<Word>, heap: Heap)
    reads mod, host
  {
    && WellFormed(img) && 4 * |m| <= LIMIT && ImageAt(m, src) == Some(img)
    && RoomFor(img, Bare(mod, img, src), src, |m|)
    && (RamSize(img.hdr, img.tab, mod.mode) > 0 ==>
          mod.ram > 0 && BlockInUse(host.taken, heap, mod.ram, RamSize(img.hdr, img.tab, mod.mode)))
    && Range(src, Extent(img)) in host.taken && 0 !in heap
    && Outstanding(host.log) == Some(heap)
  }

  /** Nothing has been recorded. */
  lemma NothingYet(heap: Heap, tab: seq<Section>, pool: seq<Byte>)
    ensures |NoBases(tab)| == NumTagged(tab) && RecordedRun(tab, NoBases(tab), 0) && Distinct(heap, NoBases(tab))
    ensures WithTagged(heap, tab, pool, NoBases(tab), |NoBases(tab)|) == heap
  {
    hide Sec;
    NothingRecorded(heap, tab, pool, NoBases(tab), |NoBases(tab)|);
  }

  lemma PlacingStarts(mod: Module, host: Host, img: Image, src: int, m: seq<Word>, pool: seq<Byte>, heap: Heap)
    requires WellFormed(img) && |img.tab| > 3 && 4 * |m| <= LIMIT && RoomFor(img, Bare(mod, img, src), src, |m|)
    requires mod.ram > 0 && BlockInUse(host.taken, heap, mod.ram, RamSize(img.hdr, img.tab, mod.mode))
    requires Range(src, Extent(img)) in host.taken && 0 !in heap && Outstanding(host.log) == Some(heap)
    requires BaseArray(m, mod.ram, img.hdr.numLot, NoBases(img.tab))
    ensures Placing(img, mod, host, src, m, m, pool, heap, NoBases(img.tab), 3)
  {
    hide RamSize, Extent, CodeOffset, BlockInUse, BaseArray, RecordedRun, Distinct, WithTagged;
    ShapedTable(img);
    FrontFits(img, mod.mode);
    hide WellFormed, ValidTable, BlockFront;
    NothingYet(heap, img.tab, pool);
    hide Outstanding;
    assert OnlyTagged(img, mod.ram, m, m, NoBases(img.tab));
    assert Placed(img, mod.ram, mod.mode, src, m, m, NoBases(img.tab), 3);
  }

  /** With no tagged section there is nothing to place. */
  lemma NoneToPlace(img: Image, ram: int, mode: Mode, src: int, m: seq<Word>)
    requires |img.tab| == 3
    ensures NoBases(img.tab) == [] && OnlyTagged(img, ram, m, m, []) && Placed(img, ram, mode, src, m, m, [], 3)
    ensures RecordedRun(img.tab, [], 0) && Placed(img, ram, mode, src, m, m, [], |img.tab|)
  {}

  /** The placement, its tagged sections at `bases`. */
  function PlacedAt(mod: Module, img: Image, src: int, bases: seq<int>): Placement
    reads mod
  {
    Placement(mod.mode, mod.ram, src + CodeOffset(img.hdr), bases)
  }

  lemma SectionsStaged(mod: Module, host: Host, img: Image, src: int, m0: seq<Word>, m1: seq<Word>, m2: seq<Word>, m3: seq<Word>,
                       bases: seq<int>)
    requires WellFormed(img) && img.tab != [] && RoomFor(img, Bare(mod, img, src), src, |m0|)
    requires WroteBody(img, Bare(mod, img, src), m0, m1) && MainFilled(img, Bare(mod, img, src), src, m0, m1)
    requires RecordedRun(img.tab, bases, |img.tab| - 3)
    requires OnlyTagged(img, mod.ram, m1, m2, bases) && Placed(img, mod.ram, mod.mode, src, m1, m2, bases, |img.tab|)
    requires var p := PlacedAt(mod, img, src, bases);
      SameOutside(m2, m3, Base(img, p, 2), Sec(img.tab, 2).size) && ZeroRange(m3, Base(img, p, 2), Sec(img.tab, 2).size)
    ensures Staged(img, PlacedAt(mod, img, src, bases), src, m0, m1, m2, m3)
  {
    hide RamSize, Extent, CodeOffset, Placed, OnlyTagged, SameOutside, ZeroRange, Filled, MainOffset, ValidTable, BlockFront, Sec;
    assert Shaped(img);
    hide WellFormed, Shaped;
    RunLength(img.tab, bases, |img.tab| - 3);
    var p, bare := PlacedAt(mod, img, src, bases), Bare(mod, img, src);
    forall k | 0 <= k < 2 && InBlock(p, k)
      ensures Filled(img, m0, src, k, m1, Base(img, p, k))
    {
      assert InBlock(bare, k) && Base(img, bare, k) == Base(img, p, k);
    }
  }

  /** memset of main .bss at its aligned in-block offset. */
  method ClearBss(mod: Module, mem: array<Word>, hdr: Header, tab: seq<Section>, ghost img: Image, ghost p: Placement)
    requires Shaped(img) && img.tab != [] && hdr == img.hdr && tab == img.tab && p.ram == mod.ram && p.mode == mod.mode
    requires 0 <= p.ram && p.ram % 4 == 0 && p.ram + RamSize(img.hdr, img.tab, p.mode) <= 4 * mem.Length
    modifies mem
    ensures SameOutside(old(mem[..]), mem[..], Base(img, p, 2), Sec(img.tab, 2).size)
    ensures ZeroRange(mem[..], Base(img, p, 2), Sec(img.tab, 2).size)
  {
    hide RamSize, Base, ValidTable, SameOutside, ZeroRange, Shaped, Sec, BlockFront, MainOffset;
    TableShape(img);
    BssLast(img, p);
    FrontPositive(img);
    BaseIs(img, p, 2);
    var off := GetMainSectionOffset(hdr, tab, mod.mode, 2);
    ZeroPart(mem, mod.ram + off, Sec(tab, 2).size);
  }

  /** The tagged sections, if there are any. */
  method PlaceTaggedSections(mod: Module, mem: array<Word>, host: Host, hdr: Header, tab: seq<Section>, pool: seq<Byte>, src: int,
                             ghost img: Image, ghost heap: Heap)
    returns (res: Error, ghost bases: seq<int>, ghost upTo: int)
    requires WellFormed(img) && img.tab != [] && tab == img.tab && hdr == img.hdr && 4 * mem.Length <= LIMIT
    requires RoomFor(img, Bare(mod, img, src), src, mem.Length)
    requires RamSize(img.hdr, img.tab, mod.mode) > 0 ==>
      mod.ram > 0 && BlockInUse(host.taken, heap, mod.ram, RamSize(img.hdr, img.tab, mod.mode))
    requires Range(src, Extent(img)) in host.taken && 0 !in heap && Outstanding(host.log) == Some(heap)
    requires BaseArray(mem[..], mod.ram, img.hdr.numLot, NoBases(img.tab))
    modifies mem, host`log
    ensures InUseKept(host.taken, heap, mod.ram, RamSize(img.hdr, img.tab, mod.mode), old(mem[..]), mem[..])
    ensures res == Ok ==> TaggedClear(host.taken, heap, tab, bases)
    ensures AnsweredSince(tab, pool, old(host.As(4 * mem.Length)), old(host.log), host.log, res)
    ensures RecordedRun(tab, bases, upTo) && Distinct(heap, bases)
    ensures Outstanding(host.log) == Some(WithTagged(heap, tab, pool, bases, |bases|))
    ensures BaseArray(mem[..], mod.ram, hdr.numLot, bases) && |bases| == NumTagged(tab)
    ensures res == Ok ==>
      && upTo == |tab| - 3 && OnlyTagged(img, mod.ram, old(mem[..]), mem[..], bases)
      && Placed(img, mod.ram, mod.mode, src, old(mem[..]), mem[..], bases, |tab|)
  {
    hide RamSize, Extent, CodeOffset, BlockInUse, BaseArray, RecordedRun, Distinct, WithTagged, Outstanding, OnlyTagged, Placed,
      RoomFor, Shaped, ValidTable, WellFormed, AnsweredSince, InUseKept, TaggedClear;
    NothingYet(heap, tab, pool);
    NoneClear(host.taken, heap, tab);
    NothingLost(host.taken, heap, mod.ram, RamSize(hdr, tab, mod.mode), mem[..]);
    bases, upTo := NoBases(tab), 0;
    ShapedTable(img);
    TableLength(tab);
    if |tab| > 3 {
      FrontNeedsBlock(img, mod.mode);
      PlacingStarts(mod, host, img, src, mem[..], pool, heap);
      res, bases, upTo := PlaceTagged(mod, mem, host, tab, pool, hdr.numLot, src, CodeOffset(hdr), img, heap, bases);
      RunLength(tab, bases, upTo);
      if res == Ok {
        upTo := |tab| - 3;
        PlacingEnds(mod, host, img, src, old(mem[..]), mem[..], pool, heap, bases);
      }
    } else {
      NoneToPlace(img, mod.ram, mod.mode, src, mem[..]);
      NothingAnswered(tab, pool, host.As(4 * mem.Length), host.log);
      res := Ok;
    }
  }

  lemma NoneClear(taken: seq<Range>, heap: Heap, tab: seq<Section>)
    ensures TaggedClear(taken, heap, tab, NoBases(tab))
  {}

  lemma NothingLost(taken: seq<Range>, heap: Heap, base: int, size: int, m: seq<Word>)
    ensures InUseKept(taken, heap, base, size, m, m)
  {}

  lemma NothingAnswered(tab: seq<Section>, pool: seq<Byte>, a: Allocator, log: seq<Event>)
    requires |tab| <= 3
    ensures AnsweredSince(tab, pool, a, log, log, Ok)
  {
    NothingAsked(log);
  }

  lemma PlacingEnds(mod: Module, host: Host, img: Image, src: int, m: seq<Word>, m': seq<Word>, pool: seq<Byte>, heap: Heap, bases: seq<int>)
    requires Placing(img, mod, host, src, m, m', pool, heap, bases, |img.tab|)
    ensures RecordedRun(img.tab, bases, |img.tab| - 3) && OnlyTagged(img, mod.ram, m, m', bases)
    ensures Placed(img, mod.ram, mod.mode, src, m, m', bases, |img.tab|)
  {
    hide RamSize, Extent, CodeOffset, BlockInUse, BaseArray, RecordedRun, Distinct, WithTagged, Outstanding, OnlyTagged, Placed, ValidTable;
  }

  /** The front of the block, where the bases will be, is not touched by the main copies. */
  lemma FrontKept(img: Image, p: Placement, src: int, m: seq<Word>, m': seq<Word>)
    requires Shaped(img) && RoomFor(img, p, src, |m|) && WroteBody(img, p, m, m')
    ensures KeptIn(m, m', p.ram, p.ram + BlockFront(img))
  {
    hide RamSize, Extent, CodeOffset;
    FrontPositive(img);
    BlockWords(img, p.mode);
    hide Shaped;
    assert BlockFront(img) % 4 == 0;
    hide BlockFront;
    OutsideKept(m, m', p.ram + BlockFront(img), RamSize(img.hdr, img.tab, p.mode) - BlockFront(img), p.ram, p.ram + BlockFront(img));
  }

  lemma BssBehindFront(img: Image, p: Placement, m: seq<Word>, m': seq<Word>)
    requires Shaped(img) && img.tab != [] && 0 <= p.ram && p.ram % 4 == 0
    requires SameOutside(m, m', Base(img, p, 2), Sec(img.tab, 2).size)
    ensures KeptIn(m, m', p.ram, p.ram + BlockFront(img))
  {
    hide RamSize, Base, BlockFront, Sec, Shaped;
    BssLast(img, p);
    FrontPositive(img);
    OutsideKept(m, m', Base(img, p, 2), Sec(img.tab, 2).size, p.ram, p.ram + BlockFront(img));
  }

  lemma BodyKeeps(img: Image, p: Placement, src: int, taken: seq<Range>, heap: Heap, m: seq<Word>, m': seq<Word>)
    requires RoomFor(img, p, src, |m|) && WroteBody(img, p, m, m')
    ensures InUseKept(taken, heap, p.ram, RamSize(img.hdr, img.tab, p.mode), m, m')
  {
    hide RamSize, Extent, SameOutside, InUseKept, CodeOffset;
    FrontPositive(img);
    FrontIs(img);
    hide BlockFront;
    SameKeeps(taken, heap, p.ram, RamSize(img.hdr, img.tab, p.mode), p.ram + BlockFront(img),
              RamSize(img.hdr, img.tab, p.mode) - BlockFront(img), m, m');
  }

  lemma BssKeeps(img: Image, p: Placement, taken: seq<Range>, heap: Heap, m: seq<Word>, m': seq<Word>)
    requires Shaped(img) && img.tab != [] && 0 <= p.ram && p.ram % 4 == 0
    requires SameOutside(m, m', Base(img, p, 2), Sec(img.tab, 2).size)
    ensures InUseKept(taken, heap, p.ram, RamSize(img.hdr, img.tab, p.mode), m, m')
  {
    hide RamSize, Base, BlockFront, Sec, Shaped, SameOutside, InUseKept;
    BssLast(img, p);
    FrontPositive(img);
    SameKeeps(taken, heap, p.ram, RamSize(img.hdr, img.tab, p.mode), Base(img, p, 2), Sec(img.tab, 2).size, m, m');
  }

  /** The section-placement half of udynlink_load_module_image: main copies, tagged sections, main .bss. */
  method PlaceSections(mod: Module, mem: array<Word>, host: Host, hdr: Header, tab: seq<Section>, pool: seq<Byte>, src: int,
                       ghost img: Image, ghost heap: Heap)
    returns (res: Error, ghost bases: seq<int>, ghost upTo: int)
    requires BlockTaken(mod, host, img, src, mem[..], heap) && BaseArray(mem[..], mod.ram, img.hdr.numLot, NoBases(img.tab))
    requires img.tab != [] && tab == img.tab && hdr == img.hdr && mod.header == src
    modifies mem, mod`header, host`log
    ensures InUseKept(host.taken, heap, mod.ram, RamSize(img.hdr, img.tab, mod.mode), old(mem[..]), mem[..])
    ensures res == Ok ==> TaggedClear(host.taken, heap, tab, bases)
    ensures AnsweredSince(tab, pool, old(host.As(4 * mem.Length)), old(host.log), host.log, res)
    ensures RecordedRun(tab, bases, upTo) && Distinct(heap, bases) && |bases| == NumTagged(tab)
    ensures Outstanding(host.log) == Some(WithTagged(heap, tab, pool, bases, |bases|))
    ensures BaseArray(mem[..], mod.ram, hdr.numLot, bases)
    ensures res == Ok ==> upTo == |tab| - 3 && Ready(mod, img, PlacedAt(mod, img, src, bases), src, old(mem[..]), mem[..])
    ensures res == Ok ==> mod.header == HeaderOf(img, PlacedAt(mod, img, src, bases), src)
  {
    hide RamSize, Extent, CodeOffset, BlockInUse, BaseArray, RecordedRun, Distinct, WithTagged, Outstanding, OnlyTagged, Placed,
      AnsweredSince, RoomFor, WellFormed, ImageAt, WroteBody, MainFilled, MetaCopied, SameOutside, ZeroRange, Base, Ready, Sec, BlockFront,
      InUseKept, TaggedClear;
    ghost var m0, size := mem[..], RamSize(img.hdr, img.tab, mod.mode);
    ghost var bare := Bare(mod, img, src);
    RoomOfShaped(img, bare, src, mem.Length);
    PlaceMain(mod, mem, hdr, tab, src, img);
    ghost var m1 := mem[..];
    FrontKept(img, bare, src, m0, m1);
    BodyKeeps(img, bare, src, host.taken, heap, m0, m1);
    NothingYet(heap, tab, pool);
    FrontIs(img);
    BaseArrayIn(m0, m1, mod.ram, hdr.numLot, NoBases(tab), BlockFront(img));
    res, bases, upTo := PlaceTaggedSections(mod, mem, host, hdr, tab, pool, src, img, heap);
    InUseTwice(host.taken, heap, mod.ram, size, m0, m1, mem[..]);
    if res != Ok {
      return;
    }
    ghost var m2 := mem[..];
    ghost var p := PlacedAt(mod, img, src, bases);
    ClearBss(mod, mem, hdr, tab, img, p);
    BssBehindFront(img, p, m2, mem[..]);
    BssKeeps(img, p, host.taken, heap, m2, mem[..]);
    InUseTwice(host.taken, heap, mod.ram, size, m0, m2, mem[..]);
    BaseArrayIn(m2, mem[..], mod.ram, hdr.numLot, bases, BlockFront(img));
    SectionsStaged(mod, host, img, src, m0, m1, m2, mem[..], bases);
    BareHeader(mod, img, src, bases, m0, m1);
    StagedIsReady(mod, img, p, src, m0, m1, m2, mem[..]);
  }

  lemma RoomOfShaped(img: Image, p: Placement, src: int, n: int)
    requires WellFormed(img) && img.tab != [] && RoomFor(img, p, src, n)
    ensures Shaped(img) && 0 <= p.ram && p.ram % 4 == 0 && p.ram + RamSize(img.hdr, img.tab, p.mode) <= 4 * n
  {
    hide RamSize, Extent, CodeOffset, Shaped;
  }

  lemma BareHeader(mod: Module, img: Image, src: int, bases: seq<int>, m0: seq<Word>, m1: seq<Word>)
    requires mod.mode.CopyAll? ==> MetaCopied(img, Bare(mod, img, src), src, m0, m1)
    ensures mod.mode.CopyAll? ==> MetaCopied(img, PlacedAt(mod, img, src, bases), src, m0, m1)
    ensures HeaderOf(img, PlacedAt(mod, img, src, bases), src) == if mod.mode.CopyAll? then mod.ram + BlockFront(img) else src
  {
    hide CodeOffset, SameWords, BlockFront;
  }

  lemma PristineFromOriginal(img: Image, mode: Mode, src: int, m: seq<Word>, m0: seq<Word>, c: Contents)
    requires Shaped(img) && src % 4 == 0 && KeptIn(m, m0, src, src + Extent(img)) && Pristine(img, mode, src, m0, c)
    ensures Pristine(img, mode, src, m, c)
  {
    hide Shaped, Extent, CodeOffset, PayloadsPristine, Get, Cell, BlockFront;
    PayloadsFromOriginal(img, mode, src, m, m0, c);
    ExtentCovers(img);
    if mode.CopyAll? {
      forall off | 0 <= off < CodeOffset(img.hdr) && off % 4 == 0
        ensures MetaCell(img, src, m, c, off)
      {
        assert MetaCell(img, src, m0, c, off);
        assert (src + off) % 4 == 0;
      }
    }
  }

  lemma PayloadsFromOriginal(img: Image, mode: Mode, src: int, m: seq<Word>, m0: seq<Word>, c: Contents)
    requires Shaped(img) && src % 4 == 0 && KeptIn(m, m0, src, src + Extent(img)) && PayloadsPristine(img, mode, src, m0, c)
    ensures PayloadsPristine(img, mode, src, m, c)
  {
    hide Shaped, KeptIn, Extent, InitialWord, Sec, SectionLoc, Cell, CodeOffset, FlatCodeOffset, FlatDataOffset, FlatBssOffset, Get;
    if img.tab != [] {
      forall k, off | 0 <= k < |img.tab| && 0 <= off < Sec(img.tab, k).size && off % 4 == 0
        ensures Cell(c, SectionLoc(img, mode, k, off)) == InitialWord(img, m, src, k, off)
      {
        SameInitial(img, src, m, m0, k, off);
      }
    } else {
      FlatPayloadsPristine(img, mode, src, m, m0, c);
    }
  }

  lemma FlatPayloadsPristine(img: Image, mode: Mode, src: int, m: seq<Word>, m0: seq<Word>, c: Contents)
    requires Shaped(img) && img.tab == [] && src % 4 == 0 && KeptIn(m, m0, src, src + Extent(img)) && PayloadsPristine(img, mode, src, m0, c)
    ensures PayloadsPristine(img, mode, src, m, c)
  {
    hide Shaped, KeptIn, Extent, Cell, CodeOffset, FlatCodeOffset, FlatDataOffset, FlatBssOffset, Get;
    var payload := src + CodeOffset(img.hdr);
    FlatPayload(img, src, m, m0, 0, img.hdr.codeSize);
    FlatPayload(img, src, m, m0, img.hdr.codeSize, img.hdr.dataSize);
    forall off | 0 <= off < img.hdr.codeSize && off % 4 == 0
      ensures Get(m0, payload + off) == Get(m, payload + off)
    {
      assert Get(m0, payload + 0 + off) == Get(m, payload + 0 + off);
    }
  }

  lemma FlatPayload(img: Image, src: int, m: seq<Word>, m0: seq<Word>, at: int, size: int)
    requires Shaped(img) && img.tab == [] && src % 4 == 0 && KeptIn(m, m0, src, src + Extent(img))
    requires 0 <= at && at % 4 == 0 && at + size <= img.hdr.codeSize + img.hdr.dataSize
    ensures img.hdr.codeSize % 4 == 0
    ensures forall off :: 0 <= off < size && off % 4 == 0 ==>
      Get(m0, src + CodeOffset(img.hdr) + at + off) == Get(m, src + CodeOffset(img.hdr) + at + off)
  {
    hide Get, CodeOffset, ValidTable;
    assert img.hdr.codeSize % 4 == 0 && Extent(img) == CodeOffset(img.hdr) + img.hdr.codeSize + img.hdr.dataSize;
    hide Shaped, Extent;
    forall off | 0 <= off < size && off % 4 == 0
      ensures Get(m0, src + CodeOffset(img.hdr) + at + off) == Get(m, src + CodeOffset(img.hdr) + at + off)
    {
      WordSum(src, CodeOffset(img.hdr), at, off, 0);
    }
  }

  lemma SameInitial(img: Image, src: int, m: seq<Word>, m0: seq<Word>, k: int, off: int)
    requires Shaped(img) && img.tab != [] && src % 4 == 0 && KeptIn(m, m0, src, src + Extent(img))
    requires 0 <= k < |img.tab| && 0 <= off < Sec(img.tab, k).size && off % 4 == 0
    ensures InitialWord(img, m, src, k, off) == InitialWord(img, m0, src, k, off)
  {
    hide ValidTable, CodeOffset, PayloadOffset, Extent, Sec, Get;
    assert ValidTable(img.tab);
    hide Shaped;
    PayloadFits(img, k);
  }

  /** Everything between the main allocation and the relocations. */
  method Stage(mod: Module, mem: array<Word>, host: Host, hdr: Header, tab: seq<Section>, pool: seq<Byte>, src: int,
               ghost img: Image, ghost heap: Heap)
    returns (res: Error, ghost bases: seq<int>, ghost upTo: int)
    requires BlockTaken(mod, host, img, src, mem[..], heap) && tab == img.tab && hdr == img.hdr && mod.header == src
    modifies mem, mod`header, host`log
    ensures InUseKept(host.taken, heap, mod.ram, RamSize(img.hdr, img.tab, mod.mode), old(mem[..]), mem[..])
    ensures res == Ok ==> TaggedClear(host.taken, heap, tab, bases)
    ensures AnsweredSince(tab, pool, old(host.As(4 * mem.Length)), old(host.log), host.log, res)
    ensures RecordedRun(tab, bases, upTo) && Distinct(heap, bases) && |bases| == NumTagged(tab)
    ensures Outstanding(host.log) == Some(WithTagged(heap, tab, pool, bases, |bases|))
    ensures BaseArray(mem[..], mod.ram, hdr.numLot, bases)
    ensures res == Ok ==> upTo == |tab| - 3 && Ready(mod, img, PlacedAt(mod, img, src, bases), src, old(mem[..]), mem[..])
    ensures res == Ok ==> mod.header == HeaderOf(img, PlacedAt(mod, img, src, bases), src)
  {
    hide RamSize, Extent, CodeOffset, BlockInUse, BaseArray, RecordedRun, Distinct, WithTagged, Outstanding, AnsweredSince,
      RoomFor, ImageAt, WroteBody, SameOutside, ZeroRange, Base, Sec, BlockFront, FlatFilled, FlatMeta, Ready, WellFormed,
      InUseKept, TaggedClear;
    ghost var m := mem[..];
    if tab != [] {
      ClearedKeepsImage(img, Bare(mod, img, src), src, mem.Length);
      FrontIs(img);
      ClearBases(mem, mod.ram, hdr.numLot, tab);
      ClearedImage(img, Bare(mod, img, src), src, m, mem[..]);
      ghost var m0 := mem[..];
      ClearedKeeps(img, Bare(mod, img, src), src, host.taken, heap, m, m0);
      res, bases, upTo := PlaceSections(mod, mem, host, hdr, tab, pool, src, img, heap);
      InUseTwice(host.taken, heap, mod.ram, RamSize(hdr, tab, mod.mode), m, m0, mem[..]);
      if res == Ok {
        ReadyFromOriginal(mod, img, PlacedAt(mod, img, src, bases), src, m, m0, mem[..]);
      }
    } else {
      NothingYet(heap, tab, pool);
      bases, upTo := NoBases(tab), |tab| - 3;
      RunAnyway(tab, bases);
      WellFormedShaped(img);
      PlaceFlat(mod, mem, hdr, src, img);
      BodyKeeps(img, Bare(mod, img, src), src, host.taken, heap, m, mem[..]);
      NoneClear(host.taken, heap, tab);
      FlatIsReady(mod, img, Bare(mod, img, src), src, m, mem[..]);
      NoArray(mem[..], mod.ram, hdr.numLot, bases);
      NothingAnswered(tab, pool, host.As(4 * mem.Length), host.log);
      res := Ok;
    }
  }

  lemma ClearedKeeps(img: Image, p: Placement, src: int, taken: seq<Range>, heap: Heap, m: seq<Word>, m': seq<Word>)
    requires WellFormed(img) && RoomFor(img, p, src, |m|)
    requires SameOutside(m, m', p.ram + 4 * img.hdr.numLot, 4 * NumTagged(img.tab))
    ensures InUseKept(taken, heap, p.ram, RamSize(img.hdr, img.tab, p.mode), m, m')
  {
    hide RamSize, Extent, CodeOffset, Shaped, SameOutside, InUseKept;
    FrontFits(img, p.mode);
    FrontIs(img);
    hide BlockFront, WellFormed;
    SameKeeps(taken, heap, p.ram, RamSize(img.hdr, img.tab, p.mode), p.ram + 4 * img.hdr.numLot, 4 * NumTagged(img.tab), m, m');
  }

  lemma RunAnyway(tab: seq<Section>, bases: seq<int>)
    requires tab == [] && |bases| == 0
    ensures RecordedRun(tab, bases, |tab| - 3)
  {}

  lemma NoArray(m: seq<Word>, ram: int, numLot: int, bases: seq<int>)
    requires |bases| == 0
    ensures BaseArray(m, ram, numLot, bases)
  {}

  lemma ClearedKeepsImage(img: Image, p: Placement, src: int, n: int)
    requires WellFormed(img) && RoomFor(img, p, src, n)
    ensures 0 <= p.ram && p.ram % 4 == 0 && p.ram + BlockFront(img) <= 4 * n
  {
    hide RamSize, Extent, CodeOffset, Shaped, BlockFront;
    FrontFits(img, p.mode);
  }

  lemma ClearedImage(img: Image, p: Placement, src: int, m: seq<Word>, m': seq<Word>)
    requires WellFormed(img) && RoomFor(img, p, src, |m|) && ImageAt(m, src) == Some(img)
    requires SameOutside(m, m', p.ram + 4 * img.hdr.numLot, 4 * NumTagged(img.tab))
    ensures KeptIn(m, m', src, src + Extent(img)) && ImageAt(m', src) == Some(img) && |m'| == |m|
  {
    hide RamSize, Extent, CodeOffset, Shaped, ImageAt, SameOutside;
    FrontFits(img, p.mode);
    FrontIs(img);
    ExtentCovers(img);
    hide BlockFront, WellFormed;
    InsideApart(p.ram + 4 * img.hdr.numLot, 4 * NumTagged(img.tab), p.ram, RamSize(img.hdr, img.tab, p.mode), src, Extent(img), src, Extent(img));
    OutsideKept(m, m', p.ram + 4 * img.hdr.numLot, 4 * NumTagged(img.tab), src, src + Extent(img));
    ImageKeptDecodes(img, src, m, m');
  }

  lemma ReadyFromOriginal(mod: Module, img: Image, p: Placement, src: int, m: seq<Word>, m0: seq<Word>, m': seq<Word>)
    requires Ready(mod, img, p, src, m0, m') && KeptIn(m, m0, src, src + Extent(img))
    ensures Ready(mod, img, p, src, m, m')
  {
    hide Extent, Shaped, ValidPlacement, Attached, ImageAt, MetaApart, Holds, Pristine, Snapshot;
    assert Shaped(img);
    hide WellFormed;
    PristineFromOriginal(img, p.mode, src, m, m0, Snapshot(img, p, m'));
  }

  // ----- a loaded module -----

  function MainHeap(heap: Heap, mod: Module, img: Image): Heap
    reads mod
  {
    WithMain(heap, mod.ram, mod.foreign, RamSize(img.hdr, img.tab, mod.mode), MainAlign(img.tab))
  }

  /** `heap` and the module's blocks: one for each non-empty tagged section, one for the main block
      unless the caller supplied it. */
  function Owned(heap: Heap, mod: Module, img: Image, p: Placement): Heap
    reads mod
  {
    WithTagged(MainHeap(heap, mod, img), img.tab, Pool(img.symt, img.hdr.symtSize), p.tagged, |p.tagged|)
  }

  predicate Owns(heap: Heap, mod: Module, img: Image, p: Placement)
    reads mod
  {
    && 0 !in heap && (mod.foreign || mod.ram !in heap)
    && RecordedRun(img.tab, p.tagged, |img.tab| - 3) && Distinct(MainHeap(heap, mod, img), p.tagged)
  }

  ghost predicate IsLoaded(mod: Module, host: Host, img: Image, p: Placement, resolve: Resolver, c: Contents, m: seq<Word>, heap: Heap)
    reads mod, host
  {
    && WellFormed(img) && ValidPlacement(img, p, |m|) && Attached(mod, m, img, p)
    && Represents(img, p, resolve, c, m)
    && Owns(heap, mod, img, p) && Outstanding(host.log) == Some(Owned(heap, mod, img, p))
  }

  /** What the entries of the relocation table come to. */
  ghost predicate EntriesVerdict(img: Image, p: Placement, resolve: Resolver, c: Contents, res: Error) {
    if res == Ok then forall i: nat, error :: i < |img.rels| ==> !EntryFails(img, p, resolve, c, i, error)
    else exists i: nat :: i < |img.rels| && FirstFails(img, p, resolve, c, i, res)
  }

  /** Why a load came to `res` once its plan had passed: the main block, then the tagged sections, then the
      relocations, up to the first that stands in the way. The requests are the ones that the allocator's
      answers since `was` lead to. */
  ghost predicate Explained(img: Image, p: Placement, resolve: Resolver, c: Contents, loadAddr: Word, loadSize: int,
                            a: Allocator, was: seq<Event>, asked: seq<Event>, res: Error) {
    var size, align := RamSize(img.hdr, img.tab, p.mode), MainAlign(img.tab);
    var reply := Answer(a, was, size);
    var first, main := MainAsked(size, align, loadAddr, reply), MainVerdict(size, align, loadAddr, loadSize, reply);
    && first <= asked
    && if main != Ok then res == main && asked == first
       else SectionsExplained(img, p, resolve, c, a, was + first, asked[|first|..], res)
  }

  ghost predicate SectionsExplained(img: Image, p: Placement, resolve: Resolver, c: Contents, a: Allocator, was: seq<Event>,
                                    asked: seq<Event>, res: Error) {
    && asked == Requests(a, was, img.tab, Pool(img.symt, img.hdr.symtSize), 3)
    && if SectionsVerdict(asked) != Ok then res == SectionsVerdict(asked) else EntriesVerdict(img, p, resolve, c, res)
  }

  /** A load past its plan succeeds exactly if the buffer the caller brings fits and is aligned, every
      request was served, and every entry of the relocation table can be applied: nothing else makes it fail. */
  lemma ExplainedOk(img: Image, p: Placement, resolve: Resolver, c: Contents, loadAddr: Word, loadSize: int,
                    a: Allocator, was: seq<Event>, asked: seq<Event>, res: Error)
    requires Explained(img, p, resolve, c, loadAddr, loadSize, a, was, asked, res)
    ensures res == Ok <==>
      && BufferServes(RamSize(img.hdr, img.tab, p.mode), MainAlign(img.tab), loadAddr, loadSize)
      && (forall ev :: ev in asked ==> Served(ev))
      && forall i: nat, error :: i < |img.rels| ==> !EntryFails(img, p, resolve, c, i, error)
  {
    hide RamSize, MainAlign, EntryFails, Pool, Aligned, MainAsked, MainVerdict, BufferServes, Requests, SectionsVerdict, Served, Answer;
    EntryErrors(img, p, resolve, c);
    var size, align := RamSize(img.hdr, img.tab, p.mode), MainAlign(img.tab);
    var reply := Answer(a, was, size);
    var first := MainAsked(size, align, loadAddr, reply);
    MainServed(size, align, loadAddr, loadSize, reply);
    if MainVerdict(size, align, loadAddr, loadSize, reply) == Ok {
      RequestsServed(a, was + first, img.tab, Pool(img.symt, img.hdr.symtSize), 3);
      assert asked == first + asked[|first|..];
    }
  }

  /** The caller's buffer, if it brings one and there is a block to place, fits and is aligned. */
  predicate BufferServes(size: int, align: int, loadAddr: Word, loadSize: int) {
    size == 0 || loadAddr == 0 || (size <= loadSize && Aligned(loadAddr, align))
  }

  lemma MainServed(size: int, align: int, loadAddr: Word, loadSize: int, reply: Word)
    ensures MainVerdict(size, align, loadAddr, loadSize, reply) == Ok <==>
      && BufferServes(size, align, loadAddr, loadSize)
      && forall ev :: ev in MainAsked(size, align, loadAddr, reply) ==> Served(ev)
    ensures MainVerdict(size, align, loadAddr, loadSize, reply) in {Ok, OutOfMemory, RamLenLow, RamUnaligned}
  {
    hide Aligned;
    var asked := MainAsked(size, align, loadAddr, reply);
    assert asked != [] ==> asked[0] in asked;
  }

  /** Each refusal has its own cause. */
  lemma ExplainedFailure(img: Image, p: Placement, resolve: Resolver, c: Contents, loadAddr: Word, loadSize: int,
                         a: Allocator, was: seq<Event>, asked: seq<Event>, res: Error)
    requires Explained(img, p, resolve, c, loadAddr, loadSize, a, was, asked, res)
    ensures res in {Ok, OutOfMemory, RamLenLow, RamUnaligned, SectionUnresolved, SectionUnaligned, BadRelocationTable, UnknownSymbol}
    ensures var size := RamSize(img.hdr, img.tab, p.mode); var at := if loadAddr != 0 then loadAddr else Answer(a, was, size);
      && (res == OutOfMemory <==> size != 0 && at == 0)
      && (res == RamLenLow <==> size != 0 && loadAddr != 0 && loadSize < size)
      && (res == RamUnaligned <==> size != 0 && at != 0 && (loadAddr != 0 ==> size <= loadSize) && !Aligned(at, MainAlign(img.tab)))
    ensures res in {SectionUnresolved, SectionUnaligned} ==>
      asked != [] && SectionRequest(img.tab, Pool(img.symt, img.hdr.symtSize), asked[|asked| - 1])
        && !Served(asked[|asked| - 1]) && (res == SectionUnresolved <==> asked[|asked| - 1].Refused?)
    ensures res in {BadRelocationTable, UnknownSymbol} ==>
      exists i: nat :: i < |img.rels| && FirstFails(img, p, resolve, c, i, res)
  {
    hide RamSize, MainAlign, EntryFails, SectionRequest, Requests, Pool, Aligned, Answer;
    EntryErrors(img, p, resolve, c);
    var size := RamSize(img.hdr, img.tab, p.mode);
    var first := MainAsked(size, MainAlign(img.tab), loadAddr, Answer(a, was, size));
    RequestsAreForSections(a, was + first, img.tab, Pool(img.symt, img.hdr.symtSize), 3);
    if asked != first {
      assert asked[|asked| - 1] == asked[|first|..][|asked| - |first| - 1];
    }
  }

  /** The main block, where the caller brings none, is asked for first: no section's name, the image's main
      alignment, no flags. The sections' requests follow. */
  lemma FirstRequest(img: Image, p: Placement, resolve: Resolver, c: Contents, loadAddr: Word, loadSize: int,
                     a: Allocator, was: seq<Event>, asked: seq<Event>, res: Error)
    requires Explained(img, p, resolve, c, loadAddr, loadSize, a, was, asked, res)
    ensures var size, purpose := RamSize(img.hdr, img.tab, p.mode), Purpose(None, MainAlign(img.tab), 0);
      var main := loadAddr == 0 && size != 0;
      && (main ==> asked != [] && (asked[0] == Refused(size, purpose) || (asked[0].Allocated? && asked[0].block == HeapBlock(asked[0].block.addr, size, purpose))))
      && (forall i :: (if main then 1 else 0) <= i < |asked| ==> SectionRequest(img.tab, Pool(img.symt, img.hdr.symtSize), asked[i]))
  {
    hide RamSize, MainAlign, SectionRequest, Requests, Pool, Answer, EntriesVerdict, Aligned;
    var size := RamSize(img.hdr, img.tab, p.mode);
    var first := MainAsked(size, MainAlign(img.tab), loadAddr, Answer(a, was, size));
    RequestsAreForSections(a, was + first, img.tab, Pool(img.symt, img.hdr.symtSize), 3);
    forall i | |first| <= i < |asked|
      ensures SectionRequest(img.tab, Pool(img.symt, img.hdr.symtSize), asked[i])
    {
      assert asked[i] == asked[|first|..][i - |first|];
    }
  }

  lemma EntryErrors(img: Image, p: Placement, resolve: Resolver, c: Contents)
    ensures forall i: nat, error :: i < |img.rels| && EntryFails(img, p, resolve, c, i, error) ==>
      error in {BadRelocationTable, UnknownSymbol}
  {
    hide RelLoc, Cell, Default, InPlaceWord, ImageSym;
  }

  /** Process the relocations of a staged module; the base array survives either way. */
  method Relocate(mod: Module, mem: array<Word>, tab: seq<Section>, src: int, resolve: Resolver,
                  ghost img: Image, ghost p: Placement, ghost m0: seq<Word>) returns (res: Error)
    requires Ready(mod, img, p, src, m0, mem[..]) && tab == img.tab
    modifies mem
    ensures ValidPlacement(img, p, mem.Length) && Attached(mod, mem[..], img, p)
    ensures BaseArray(mem[..], p.ram, img.hdr.numLot, p.tagged)
    ensures (res, mem[..]) == Walk(img, Loading(p, resolve), old(mem[..]), 0)
    ensures res == Ok ==> Represents(img, p, resolve, Snapshot(img, p, old(mem[..])), mem[..])
    ensures EntriesVerdict(img, p, resolve, Snapshot(img, p, old(mem[..])), res)
    ensures Untouched(img, p, old(mem[..]), mem[..])
  {
    hide WellFormed, ValidPlacement, MetaIn, Holds, EntryFails, Pristine, Snapshot, BasesIn, Represents, BaseArray, Untouched, ImageAt, RamSize, MetaApart, Walk;
    ghost var m := mem[..];
    res := ApplyRelocations(mod, mem, tab, src, resolve, img, p);
    AttachedStays(mod, img, p, m, mem[..]);
    ReadIsRecorded(img, p, mem[..]);
    if res == Ok {
      LoadRenders(img, p, resolve, Snapshot(img, p, m), m);
      forall i: nat, error | i < |img.rels|
        ensures !EntryFails(img, p, resolve, Snapshot(img, p, m), i, error)
      {
        LoadedNoneFails(img, p, resolve, Snapshot(img, p, m), mem[..], i, error);
      }
    } else {
      ghost var i := LoadFailsAt(img, p, resolve, Snapshot(img, p, m), m);
    }
  }

  /** What the caller of a load guarantees: the image and any buffer it passes are its own, apart. */
  ghost predicate CallerOk(m: seq<Word>, src: int, mode: Mode, loadAddr: int, loadSize: int, taken: seq<Range>) {
    && 4 * |m| <= LIMIT && SourceOk(m, src, mode)
    && (Passes(m, src, mode) ==> CallersOwn(m, src, ImageAt(m, src).value, loadAddr, loadSize, taken))
  }

  ghost predicate CallersOwn(m: seq<Word>, src: int, img: Image, loadAddr: int, loadSize: int, taken: seq<Range>) {
    && Range(src, Extent(img)) in taken
    && (loadAddr != 0 ==>
          && loadSize >= 0 && loadAddr + loadSize <= 4 * |m| && Range(loadAddr, loadSize) in taken
          && Apart(loadAddr, loadSize, src, Extent(img)))
  }

  lemma RoomInOwnBlock(img: Image, mod: Module, src: int, n: int, ram: int, size: int, align: int)
    requires WellFormed(img) && src > 0 && src % 4 == 0 && src + Extent(img) <= 4 * n
    requires ram == mod.ram && size == RamSize(img.hdr, img.tab, mod.mode) && align == MainAlign(img.tab)
    requires size > 0 ==> ram > 0 && Aligned(ram, align) && ram + size <= 4 * n && Apart(ram, size, src, Extent(img))
    requires size == 0 ==> ram == 0
    ensures size >= 0 && RoomFor(img, Bare(mod, img, src), src, n)
  {
    hide RamSize, Extent, CodeOffset, Aligned, MainAlign;
    FrontFits(img, mod.mode);
    FrontPositive(img);
    hide BlockFront;
    if size > 0 { BlockWordAligned(img, ram); }
    assert 0 <= Extent(img) by { ExtentCovers(img); }
  }

  lemma BlockWordAligned(img: Image, ram: int)
    requires WellFormed(img) && ram > 0 && Aligned(ram, MainAlign(img.tab))
    ensures ram % 4 == 0
  {
    hide Aligned, IsPow2, MaxAlign, CodeOffset;
    assert IsPow2(4) by { FourIsPow2(); }
    if img.tab != [] {
      ShapedTable(img);
      hide WellFormed, ValidTable;
      MaxAlignBounds(img.tab, 3);
    }
    AlignedFour(ram, MainAlign(img.tab));
  }

  /** The main block is in use: the allocator's record or the caller's buffer covers it. */
  lemma BlockTakenFacts(mod: Module, host: Host, img: Image, src: int, m: seq<Word>, heap: Heap, loadAddr: int, loadSize: int)
    requires src > 0 && src % 4 == 0 && 4 * |m| <= LIMIT && GoodImage(m, src, img) && CallersOwn(m, src, img, loadAddr, loadSize, host.taken)
    requires ImageAt(m, src) == Some(img) && mod.ram >= 0
    requires var size := RamSize(img.hdr, img.tab, mod.mode);
      && (size == 0 ==> mod.ram == 0)
      && (size > 0 ==>
            && mod.ram > 0 && Aligned(mod.ram, MainAlign(img.tab))
            && (if mod.foreign then loadAddr != 0 && mod.ram == loadAddr && size <= loadSize
                else mod.ram + size <= 4 * |m| && ClearOf(host.taken, heap, mod.ram, size)))
    requires 0 !in heap && Outstanding(host.log) == Some(MainHeap(heap, mod, img))
    ensures BlockTaken(mod, host, img, src, m, MainHeap(heap, mod, img))
  {
    hide RamSize, Extent, CodeOffset, Aligned, MainAlign, ImageAt, WellFormed, WellFormedTable;
    var size := RamSize(img.hdr, img.tab, mod.mode);
    if size > 0 && mod.foreign {
      CallersPart(loadAddr, loadSize, size, src, Extent(img)) by { assert 0 <= Extent(img) by { WellFormedShaped(img); ExtentCovers(img); } }
    }
    RoomInOwnBlock(img, mod, src, |m|, mod.ram, size, MainAlign(img.tab)) by { WellFormedShaped(img); FrontFits(img, mod.mode); FrontPositive(img); }
  }

  lemma CallersPart(addr: int, room: int, size: int, src: int, extent: int)
    requires Apart(addr, room, src, extent) && 0 < size <= room && extent >= 0
    ensures Apart(addr, size, src, extent)
  {}

  lemma LedgerEmpty(mod: Module, host: Host, m: seq<Word>, tab: seq<Section>, pool: seq<Byte>, numLot: int, align: int,
                    size: int, heap: Heap)
    requires mod.ram == 0 && 0 !in heap && Outstanding(host.log) == Some(heap)
    ensures Ledger(mod, host, m, tab, pool, numLot, align, size, heap, NoBases(tab), 0)
  {
    hide WithTagged, Outstanding, RecordedRun, Distinct;
    NothingYet(heap, tab, pool);
  }

  /** The books once every section has been asked for, or the first refusal. */
  lemma LedgerStaged(mod: Module, host: Host, m: seq<Word>, img: Image, heap: Heap, bases: seq<int>, upTo: int)
    requires BaseArray(m, mod.ram, img.hdr.numLot, bases) && |bases| == NumTagged(img.tab)
    requires 0 !in heap && (mod.foreign || mod.ram !in heap)
    requires RecordedRun(img.tab, bases, upTo) && Distinct(MainHeap(heap, mod, img), bases)
    requires Outstanding(host.log)
      == Some(WithTagged(MainHeap(heap, mod, img), img.tab, Pool(img.symt, img.hdr.symtSize), bases, |bases|))
    requires mod.ram >= 0 && mod.ram % 4 == 0 && (mod.ram == 0 ==> NumTagged(img.tab) == 0)
    ensures Ledger(mod, host, m, img.tab, Pool(img.symt, img.hdr.symtSize), img.hdr.numLot, MainAlign(img.tab),
                   RamSize(img.hdr, img.tab, mod.mode), heap, bases, upTo)
  {
    hide WithTagged, Outstanding, RecordedRun, Distinct, BaseArray, RamSize, MainAlign, Pool;
  }

  // ----- memory that the load does not own -----

  /** The main block, if the caller supplies it. */
  function OwnBuffer(img: Image, mode: Mode, loadAddr: int): Range {
    Range(loadAddr, if loadAddr == 0 then 0 else RamSize(img.hdr, img.tab, mode))
  }

  /** .text, where it stays in the image and is patched there. */
  function TextInImage(img: Image, mode: Mode, src: int): Range {
    Range(src + CodeOffset(img.hdr), TextSize(img, mode))
  }

  /** Every word in use has kept its value, except in the two ranges. */
  ghost predicate LeavesOthers(own: Range, text: Range, taken: seq<Range>, heap: Heap, m: seq<Word>, m': seq<Word>) {
    && |m'| == |m|
    && forall a :: 0 <= a < |m| && InUse(taken, heap, a) && !InRange(a, own.addr, own.size) && !InRange(a, text.addr, text.size) ==>
         m'[a] == m[a]
  }

  lemma SizeInWords(img: Image, k: int)
    requires Shaped(img) && 0 <= k < |img.tab|
    ensures Sec(img.tab, k).size % 4 == 0
  {
    EntryFacts(img.tab, k);
  }

  lemma OthersAreOutside(img: Image, p: Placement, n: int, taken: seq<Range>, heap: Heap, a: int)
    requires Shaped(img) && ValidPlacement(img, p, n) && TaggedClear(taken, heap, img.tab, p.tagged) && InUse(taken, heap, a)
    requires !InRange(a, p.ram, RamSize(img.hdr, img.tab, p.mode)) && !InRange(a, p.text, TextSize(img, p.mode))
    ensures Outside(img, p, 4 * a)
  {
    hide RamSize, CodeOffset, Shaped, InUse, ClearOf, Sec, Apart;
    BlockWords(img, p.mode);
    if img.tab != [] { SizeInWords(img, 0); }
    forall k | 3 <= k < |img.tab|
      ensures !(TaggedBase(p, k) <= 4 * a < TaggedBase(p, k) + Sec(img.tab, k).size)
    {
      SizeInWords(img, k);
      if TaggedBase(p, k) <= 4 * a < TaggedBase(p, k) + Sec(img.tab, k).size {
        assert TaggedPlaced(img, p, n, k) && p.tagged[k - 3] != 0;
        ClearNotInUse(taken, heap, TaggedBase(p, k), Sec(img.tab, k).size, a);
      }
    }
  }

  /** Relocation writes nothing else. */
  lemma RelocationLeaves(img: Image, p: Placement, src: int, taken: seq<Range>, heap: Heap, m: seq<Word>, m1: seq<Word>, m2: seq<Word>)
    requires WellFormed(img) && ValidPlacement(img, p, |m1|) && TaggedClear(taken, heap, img.tab, p.tagged) && p.text == src + CodeOffset(img.hdr)
    requires InUseKept(taken, heap, p.ram, RamSize(img.hdr, img.tab, p.mode), m, m1) && Untouched(img, p, m1, m2)
    ensures LeavesOthers(Range(p.ram, RamSize(img.hdr, img.tab, p.mode)), TextInImage(img, p.mode, src), taken, heap, m, m2)
  {
    hide RamSize, CodeOffset, ValidPlacement, InUse, TaggedClear, TextSize, Shaped, InRange, Outside, Patchable;
    assert Shaped(img);
    hide WellFormed;
    forall a | 0 <= a < |m| && InUse(taken, heap, a) && !InRange(a, p.ram, RamSize(img.hdr, img.tab, p.mode)) && !InRange(a, p.text, TextSize(img, p.mode))
      ensures m2[a] == m[a]
    {
      OthersAreOutside(img, p, |m1|, taken, heap, a);
      NotPatchable(img, p, |m1|, 4 * a);
      assert Get(m2, 4 * a) == Get(m1, 4 * a);
    }
  }

  lemma StagingLeaves(img: Image, p: Placement, src: int, taken: seq<Range>, heap: Heap, m: seq<Word>, m': seq<Word>)
    requires InUseKept(taken, heap, p.ram, RamSize(img.hdr, img.tab, p.mode), m, m')
    ensures LeavesOthers(Range(p.ram, RamSize(img.hdr, img.tab, p.mode)), TextInImage(img, p.mode, src), taken, heap, m, m')
  {
    hide RamSize, CodeOffset, InUse, InRange;
  }

  /** A block added to the heap only adds to what is in use. */
  lemma LeavesFewer(own: Range, text: Range, taken: seq<Range>, heap: Heap, more: Heap, m: seq<Word>, m': seq<Word>)
    requires LeavesOthers(own, text, taken, more, m, m') && forall b :: b in heap ==> b in more && more[b] == heap[b]
    ensures LeavesOthers(own, text, taken, heap, m, m')
  {
    hide InRange;
  }

  lemma LeavesAll(own: Range, text: Range, taken: seq<Range>, heap: Heap, m: seq<Word>)
    ensures LeavesOthers(own, text, taken, heap, m, m)
  {}

  /** A main block is the caller's, or fresh from the allocator, or not there. */
  lemma LeavesBlock(mod: Module, img: Image, src: int, loadAddr: int, taken: seq<Range>, heap: Heap, m: seq<Word>, m': seq<Word>)
    requires var size := RamSize(img.hdr, img.tab, mod.mode);
      && LeavesOthers(Range(mod.ram, size), TextInImage(img, mod.mode, src), taken, heap, m, m')
      && (size > 0 ==> if loadAddr == 0 then mod.ram > 0 && Aligned(mod.ram, MainAlign(img.tab)) && ClearOf(taken, heap, mod.ram, size) else mod.ram == loadAddr)
    requires GoodImage(m, src, img) && RamSize(img.hdr, img.tab, mod.mode) >= 0
    ensures LeavesOthers(OwnBuffer(img, mod.mode, loadAddr), TextInImage(img, mod.mode, src), taken, heap, m, m')
  {
    hide RamSize, InUse, TextInImage, MainAlign, ClearOf, Aligned, WellFormed, WellFormedTable, ImageAt;
    var size := RamSize(img.hdr, img.tab, mod.mode);
    if size > 0 && loadAddr == 0 {
      BlockWordAligned(img, mod.ram);
      LeavesFresh(Range(mod.ram, size), TextInImage(img, mod.mode, src), taken, heap, m, m');
    }
  }

  lemma LeavesBefore(mod: Module, img: Image, text: Range, taken: seq<Range>, heap: Heap, m: seq<Word>, m': seq<Word>)
    requires LeavesOthers(Range(mod.ram, RamSize(img.hdr, img.tab, mod.mode)), text, taken, MainHeap(heap, mod, img), m, m')
    requires mod.foreign || mod.ram !in heap
    ensures LeavesOthers(Range(mod.ram, RamSize(img.hdr, img.tab, mod.mode)), text, taken, heap, m, m')
  {
    hide RamSize, LeavesOthers, MainAlign;
    LeavesFewer(Range(mod.ram, RamSize(img.hdr, img.tab, mod.mode)), text, taken, heap, MainHeap(heap, mod, img), m, m');
  }

  /** A block fresh from the allocator was not in use. */
  lemma LeavesFresh(own: Range, text: Range, taken: seq<Range>, heap: Heap, m: seq<Word>, m': seq<Word>)
    requires LeavesOthers(own, text, taken, heap, m, m') && ClearOf(taken, heap, own.addr, own.size) && own.addr % 4 == 0
    ensures LeavesOthers(Range(0, 0), text, taken, heap, m, m')
  {
    hide InUse, ClearOf;
    forall a | 0 <= a < |m| && InUse(taken, heap, a) && !InRange(a, text.addr, text.size)
      ensures m'[a] == m[a]
    {
      if InRange(a, own.addr, own.size) { ClearNotInUse(taken, heap, own.addr, own.size, a); }
    }
  }

  lemma NoBlockNoTagged(mod: Module, host: Host, img: Image, src: int, m: seq<Word>, heap: Heap)
    requires BlockTaken(mod, host, img, src, m, heap)
    ensures mod.ram >= 0 && mod.ram % 4 == 0 && (mod.ram == 0 ==> NumTagged(img.tab) == 0)
  {
    hide RamSize, Extent, CodeOffset, ImageAt, BlockInUse, Outstanding;
    if |img.tab| > 3 { FrontNeedsBlock(img, mod.mode); }
  }

  /** Stage, relocate, count the named symbols. */
  method LoadIntoBlock(mod: Module, mem: array<Word>, host: Host, hdr: Header, tab: seq<Section>, pool: seq<Byte>, src: int,
                       resolve: Resolver, ghost img: Image, ghost heap: Heap)
    returns (res: Error, ghost bases: seq<int>, ghost upTo: int, ghost c: Contents)
    requires BlockTaken(mod, host, img, src, mem[..], MainHeap(heap, mod, img)) && 0 !in heap && (mod.foreign || mod.ram !in heap)
    requires tab == img.tab && hdr == img.hdr && mod.header == src && pool == Pool(img.symt, img.hdr.symtSize)
    requires WellFormedTable(img.symt, img.hdr.symtSize)
    modifies mem, mod`header, mod`numNamed, host`log
    ensures LeavesOthers(Range(mod.ram, RamSize(img.hdr, img.tab, mod.mode)), TextInImage(img, mod.mode, src), host.taken, heap, old(mem[..]), mem[..])
    ensures Ledger(mod, host, mem[..], tab, pool, hdr.numLot, MainAlign(tab), RamSize(hdr, tab, mod.mode), heap, bases, upTo)
    ensures var asked := AskedSince(old(host.log), host.log);
      && Asked(host.log) == Asked(old(host.log)) + asked
      && SectionsExplained(img, PlacedAt(mod, img, src, bases), resolve, c, old(host.As(4 * mem.Length)), old(host.log), asked, res)
      && (SectionsVerdict(asked) == Ok ==>
            ValidPlacement(img, PlacedAt(mod, img, src, bases), mem.Length) && Pristine(img, mod.mode, src, old(mem[..]), c))
    ensures res == Ok ==>
      && IsLoaded(mod, host, img, PlacedAt(mod, img, src, bases), resolve, c, mem[..], heap)
      && Pristine(img, mod.mode, src, old(mem[..]), c) && IsNumNamed(img.symt, img.hdr.symtSize, mod.numNamed)
      && mod.header == HeaderOf(img, PlacedAt(mod, img, src, bases), src)
  {
    hide RamSize, Extent, CodeOffset, BlockInUse, BaseArray, RecordedRun, Distinct, WithTagged, Outstanding, RoomFor, ImageAt,
      WellFormed, ValidPlacement, Pristine, Snapshot, Walk, WithMain, Pool, Holds, Ledger, MetaApart, BasesIn, BlockFront, Rendered, MetaIn, MainAlign,
      BlockTaken, WellFormedTable, IsNumNamed, HeaderAt, SymtWords, Asked, AskedSince, Requests, EntriesVerdict,
      LeavesOthers, InUseKept, TaggedClear, Untouched;
    NoBlockNoTagged(mod, host, img, src, mem[..], MainHeap(heap, mod, img));
    ghost var owned := MainHeap(heap, mod, img);
    res, bases, upTo := Stage(mod, mem, host, hdr, tab, pool, src, img, owned);
    LedgerStaged(mod, host, mem[..], img, heap, bases, upTo);
    StagingLeaves(img, PlacedAt(mod, img, src, bases), src, host.taken, owned, old(mem[..]), mem[..]);
    LeavesBefore(mod, img, TextInImage(img, mod.mode, src), host.taken, heap, old(mem[..]), mem[..]);
    c := Snapshot(img, PlacedAt(mod, img, src, bases), mem[..]);
    if res != Ok {
      return;
    }
    ghost var p := PlacedAt(mod, img, src, bases);
    ghost var staged := mem[..];
    res := Relocate(mod, mem, tab, src, resolve, img, p, old(mem[..]));
    RelocationLeaves(img, p, src, host.taken, owned, old(mem[..]), staged, mem[..]);
    LeavesBefore(mod, img, TextInImage(img, mod.mode, src), host.taken, heap, old(mem[..]), mem[..]);
    LedgerStaged(mod, host, mem[..], img, heap, bases, upTo);
    if res != Ok {
      return;
    }
    AttachedDecodes(mod, img, p, mem[..]);
    var own := HeaderAt(mem[..], mod.header / 4);
    mod.numNamed := ComputeNumNamed(SymtWords(mem[..], mod.header / 4, own), own.symtSize);
    LedgerStaged(mod, host, mem[..], img, heap, bases, upTo);
  }

  /** The contents were in place when the relocations began. */
  ghost predicate ReachedEntries(res: Error) {
    res !in {OutOfMemory, RamLenLow, RamUnaligned, SectionUnresolved, SectionUnaligned}
  }

  /** A load that has passed its plan is explained by what it asked for and what it was to relocate. */
  ghost predicate Accounted(m: seq<Word>, src: int, img: Image, p: Placement, resolve: Resolver, c: Contents,
                            loadAddr: Word, loadSize: int, a: Allocator, was: seq<Event>, now: seq<Event>, res: Error) {
    && ImageAt(m, src) == Some(img) && Asked(now) == Asked(was) + AskedSince(was, now)
    && Explained(img, p, resolve, c, loadAddr, loadSize, a, was, AskedSince(was, now), res)
    && (ReachedEntries(res) ==> ValidPlacement(img, p, |m|) && Pristine(img, p.mode, src, m, c))
  }

  /** Where the main block is and whose it is. */
  predicate BlockGiven(ram: int, foreign: bool, size: int, loadAddr: int, reply: int) {
    size > 0 ==> foreign == (loadAddr != 0) && ram == if loadAddr != 0 then loadAddr else reply
  }

  /** Plan, main block, contents: the body of the load up to its shared exit. */
  method TryLoad(mod: Module, mem: array<Word>, host: Host, src: int, loadAddr: Word, loadSize: int, resolve: Resolver,
                 ghost heap: Heap)
    returns (res: Error, tab: seq<Section>, pool: seq<Byte>, numLot: int, align: int,
             ghost size: int, ghost bases: seq<int>, ghost upTo: int, ghost img: Image, ghost c: Contents)
    requires mod.ram == 0 && !mod.foreign && mod.header == src
    requires CallerOk(mem[..], src, mod.mode, loadAddr, loadSize, host.taken)
    requires 0 !in heap && Outstanding(host.log) == Some(heap)
    modifies mem, mod`header, mod`ram, mod`foreign, mod`numNamed, host`log
    ensures Ledger(mod, host, mem[..], tab, pool, numLot, align, size, heap, bases, upTo)
    ensures Passes(old(mem[..]), src, mod.mode) ==>
      && img == ImageAt(old(mem[..]), src).value
      && LeavesOthers(OwnBuffer(img, mod.mode, loadAddr), TextInImage(img, mod.mode, src), host.taken, heap, old(mem[..]), mem[..])
    ensures !Passes(old(mem[..]), src, mod.mode) ==>
      && res != Ok && PlanRefusal(old(mem[..]), src, mod.mode, res)
      && mem[..] == old(mem[..]) && host.log == old(host.log) && mod.ram == 0
    ensures Passes(old(mem[..]), src, mod.mode) ==>
      Accounted(old(mem[..]), src, img, PlacedAt(mod, img, src, bases), resolve, c, loadAddr, loadSize,
                old(host.As(4 * mem.Length)), old(host.log), host.log, res)
    ensures res == Ok ==>
      && ImageAt(old(mem[..]), src) == Some(img)
      && IsLoaded(mod, host, img, PlacedAt(mod, img, src, bases), resolve, c, mem[..], heap)
      && Pristine(img, mod.mode, src, old(mem[..]), c) && IsNumNamed(img.symt, img.hdr.symtSize, mod.numNamed)
      && mod.header == HeaderOf(img, PlacedAt(mod, img, src, bases), src)
      && BlockGiven(mod.ram, mod.foreign, RamSize(img.hdr, img.tab, mod.mode), loadAddr,
                 old(host.Reply(RamSize(img.hdr, img.tab, mod.mode), 4 * mem.Length)))
  {
    hide *;
    SourceIsOk(mem[..], src, mod.mode, loadAddr, loadSize, host.taken);
    c, bases, upTo, size := Contents([], [], []), [], 0, 0;
    var hdr;
    var ramSize;
    res, hdr, tab, pool, align, ramSize := Plan(mem, src, mod.mode);
    PlanExact(mem[..], src, mod.mode);
    numLot, img := hdr.numLot, Image(hdr, [], [], tab);
    if res != Ok {
      bases := NoBases(tab);
      LedgerEmpty(mod, host, mem[..], tab, pool, numLot, align, size, heap);
      return;
    }
    TableOfPlan(mem[..], src, mod.mode, tab);
    img := ImageAt(mem[..], src).value;
    SourceFacts(mem[..], src, loadAddr, loadSize, host.taken, img, mod.mode);
    ghost var was, a := host.log, host.As(4 * mem.Length);
    host.ReplyIs(ramSize, 4 * mem.Length);
    res := TakeMain(mod, mem, host, ramSize, align, loadAddr, loadSize, heap);
    LeavesAll(OwnBuffer(img, mod.mode, loadAddr), TextInImage(img, mod.mode, src), host.taken, heap, mem[..]);
    if res != Ok {
      bases := NoBases(tab);
      PlacedMode(mod, img, src, bases);
      MainExplains(mem[..], src, img, PlacedAt(mod, img, src, bases), resolve, c, loadAddr, loadSize, a, was, host.log, res, mod);
      EmptyMain(mod, heap, ramSize, align);
      LedgerEmpty(mod, host, mem[..], tab, pool, numLot, align, size, heap);
      return;
    }
    size := ramSize;
    MainIsOwned(mod, heap, img, ramSize, align);
    BlockTakenFacts(mod, host, img, src, mem[..], heap, loadAddr, loadSize);
    ghost var taken := host.log;
    res, bases, upTo, c := LoadIntoBlock(mod, mem, host, hdr, tab, pool, src, resolve, img, heap);
    LeavesBlock(mod, img, src, loadAddr, host.taken, heap, old(mem[..]), mem[..]);
    PlacedMode(mod, img, src, bases);
    SectionsExplain(old(mem[..]), src, img, PlacedAt(mod, img, src, bases), resolve, c, loadAddr, loadSize, a,
                    was, taken, host.log, res, mod);
  }

  lemma MainExplains(m: seq<Word>, src: int, img: Image, p: Placement, resolve: Resolver, c: Contents, loadAddr: Word, loadSize: int,
                     a: Allocator, was: seq<Event>, now: seq<Event>, res: Error, mod: Module)
    requires ImageAt(m, src) == Some(img) && Asked(now) == Asked(was) + AskedSince(was, now) && p.mode == mod.mode && res != Ok
    requires var size, align := RamSize(img.hdr, img.tab, p.mode), MainAlign(img.tab); var reply := Answer(a, was, size);
      AskedSince(was, now) == MainAsked(size, align, loadAddr, reply) && res == MainVerdict(size, align, loadAddr, loadSize, reply)
    ensures Accounted(m, src, img, p, resolve, c, loadAddr, loadSize, a, was, now, res)
  {
    hide RamSize, MainAlign, ImageAt, Asked, Aligned, SectionsExplained, AskedSince, Answer;
  }

  lemma SectionsExplain(m: seq<Word>, src: int, img: Image, p: Placement, resolve: Resolver, c: Contents, loadAddr: Word, loadSize: int,
                        a: Allocator, was: seq<Event>, taken: seq<Event>, now: seq<Event>, res: Error, mod: Module)
    requires ImageAt(m, src) == Some(img) && p.mode == mod.mode
    requires Asked(taken) == Asked(was) + AskedSince(was, taken) && Asked(now) == Asked(taken) + AskedSince(taken, now)
    requires var size, align := RamSize(img.hdr, img.tab, p.mode), MainAlign(img.tab); var reply := Answer(a, was, size);
      && AskedSince(was, taken) == MainAsked(size, align, loadAddr, reply) && taken == was + AskedSince(was, taken)
      && MainVerdict(size, align, loadAddr, loadSize, reply) == Ok
    requires SectionsExplained(img, p, resolve, c, a, taken, AskedSince(taken, now), res)
    requires SectionsVerdict(AskedSince(taken, now)) == Ok ==> ValidPlacement(img, p, |m|) && Pristine(img, p.mode, src, m, c)
    ensures Accounted(m, src, img, p, resolve, c, loadAddr, loadSize, a, was, now, res)
  {
    hide RamSize, MainAlign, ImageAt, Asked, Aligned, Pristine, ValidPlacement, Requests, EntriesVerdict, AskedSince, Pool,
      MainVerdict, MainAsked, Answer;
    var main, rest := AskedSince(was, taken), AskedSince(taken, now);
    assert Asked(now) == Asked(was) + (main + rest);
    SinceIs(was, now, main + rest);
    assert main <= main + rest && (main + rest)[|main|..] == rest;
  }

  lemma SourceIsOk(m: seq<Word>, src: int, mode: Mode, loadAddr: int, loadSize: int, taken: seq<Range>)
    requires CallerOk(m, src, mode, loadAddr, loadSize, taken)
    ensures src > 0 && src % 4 == 0 && TableReadable(m, src) && 4 * |m| <= LIMIT
  {
    hide ImageAt, GoodImage, CallersOwn, TableReadable, Passes;
  }

  lemma TableOfPlan(m: seq<Word>, src: int, mode: Mode, tab: seq<Section>)
    requires src >= 0 && Passes(m, src, mode) && TableReadable(m, src) && Sectab(m, src / 4, true) == Some(tab)
    ensures ImageAt(m, src).Some? && ImageAt(m, src).value.tab == tab && ImageAt(m, src).value.hdr == HeaderAt(m, src / 4)
    ensures ImageAt(m, src).value.symt == SymtWords(m, src / 4, HeaderAt(m, src / 4))
    ensures tab == [] || ValidTable(tab)
  {
    hide Sectab, ValidTable, HeaderAt, RamSize, CodeOffset, TaggedTotal, ImageAt, SymtWords;
    TableOfSource(m, src, tab);
  }

  lemma EmptyMain(mod: Module, heap: Heap, size: int, align: int)
    requires mod.ram == 0
    ensures WithMain(heap, mod.ram, mod.foreign, size, align) == heap
  {}

  lemma SourceFacts(m: seq<Word>, src: int, loadAddr: int, loadSize: int, taken: seq<Range>, img: Image, mode: Mode)
    requires CallerOk(m, src, mode, loadAddr, loadSize, taken) && Passes(m, src, mode) && ImageAt(m, src) == Some(img)
    ensures GoodImage(m, src, img) && CallersOwn(m, src, img, loadAddr, loadSize, taken)
    ensures RamSize(img.hdr, img.tab, mode) >= 0 && MainAlign(img.tab) >= 4 && WellFormedTable(img.symt, img.hdr.symtSize)
  {
    hide ImageAt, Extent, WellFormedTable, RamSize, MaxAlign, BlockFront, CodeOffset, Passes, TableReadable, CallersOwn;
    FrontFits(img, mode);
    FrontPositive(img);
    if img.tab != [] {
      ShapedTable(img);
      hide WellFormed, ValidTable, IsPow2;
      MaxAlignBounds(img.tab, 3);
    }
  }

  lemma MainIsOwned(mod: Module, heap: Heap, img: Image, size: int, align: int)
    requires size == RamSize(img.hdr, img.tab, mod.mode) && align == MainAlign(img.tab)
    ensures WithMain(heap, mod.ram, mod.foreign, size, align) == MainHeap(heap, mod, img)
  {}

  /** udynlink.c udynlink_load_module_image. A load that fails gives back every block it was given, once,
      with the arguments of its request, and clears the handle. A load that succeeds leaves the image's
      contents, rendered for where they are, and owns exactly the blocks its base array records. */
  method LoadModule(mod: Module, mem: array<Word>, host: Host, src: int, loadAddr: Word, loadSize: int, mode: Mode,
                    resolve: Resolver, ghost heap: Heap)
    returns (res: Error, ghost img: Image, ghost p: Placement, ghost c: Contents)
    requires mod.IsFree() && CallerOk(mem[..], src, mode, loadAddr, loadSize, host.taken)
    requires 0 !in heap && Outstanding(host.log) == Some(heap)
    modifies mod, mem, host`log
    ensures res != Ok ==> mod.IsFree() && Outstanding(host.log) == Some(heap)
    ensures !Passes(old(mem[..]), src, mode) ==>
      res != Ok && PlanRefusal(old(mem[..]), src, mode, res) && mem[..] == old(mem[..]) && host.log == old(host.log)
    ensures Passes(old(mem[..]), src, mode) ==>
      p.mode == mode && Accounted(old(mem[..]), src, img, p, resolve, c, loadAddr, loadSize,
                                  old(host.As(4 * mem.Length)), old(host.log), host.log, res)
    ensures Passes(old(mem[..]), src, mode) ==>
      && img == ImageAt(old(mem[..]), src).value
      && LeavesOthers(OwnBuffer(img, mode, loadAddr), TextInImage(img, mode, src), host.taken, heap, old(mem[..]), mem[..])
    ensures res == Ok ==>
      && ImageAt(old(mem[..]), src) == Some(img) && p.mode == mode && p.text == src + CodeOffset(img.hdr)
      && mod.header == HeaderOf(img, p, src) && IsLoaded(mod, host, img, p, resolve, c, mem[..], heap)
      && Pristine(img, mode, src, old(mem[..]), c)
      && BlockGiven(mod.ram, mod.foreign, RamSize(img.hdr, img.tab, mode), loadAddr, old(host.Reply(RamSize(img.hdr, img.tab, mode), 4 * mem.Length)))
      && IsNumNamed(img.symt, img.hdr.symtSize, mod.numNamed)
  {
    assert mod.ram == 0 && !mod.foreign;
    hide *;
    mod.header, mod.mode := src, mode;
    var tab, pool, numLot, align;
    ghost var size, bases, upTo;
    res, tab, pool, numLot, align, size, bases, upTo, img, c :=
      TryLoad(mod, mem, host, src, loadAddr, loadSize, resolve, heap);
    p := PlacedAt(mod, img, src, bases);
    PlacedMode(mod, img, src, bases);
    if res != Ok {
      ghost var now := host.log;
      GiveBack(mod, mem, host, tab, pool, numLot, align, size, heap, bases, upTo);
      if Passes(old(mem[..]), src, mode) {
        StillAccounted(old(mem[..]), src, img, p, resolve, c, loadAddr, loadSize,
                       old(host.As(4 * mem.Length)), old(host.log), now, host.log, res);
      }
    }
  }

  lemma StillAccounted(m: seq<Word>, src: int, img: Image, p: Placement, resolve: Resolver, c: Contents, loadAddr: Word, loadSize: int,
                       a: Allocator, was: seq<Event>, now: seq<Event>, later: seq<Event>, res: Error)
    requires Accounted(m, src, img, p, resolve, c, loadAddr, loadSize, a, was, now, res) && Asked(later) == Asked(now)
    ensures Accounted(m, src, img, p, resolve, c, loadAddr, loadSize, a, was, later, res)
  {
    hide ImageAt, Explained, ReachedEntries, Asked;
  }

  /** A load past its plan never asks for more than the cap, the block the caller brings included. */
  lemma LoadWithinCap(m: seq<Word>, src: nat, img: Image, p: Placement, resolve: Resolver, c: Contents, loadAddr: Word, loadSize: int,
                           a: Allocator, was: seq<Event>, now: seq<Event>, res: Error)
    requires Accounted(m, src, img, p, resolve, c, loadAddr, loadSize, a, was, now, res) && Passes(m, src, p.mode)
    ensures (if loadAddr != 0 then RamSize(img.hdr, img.tab, p.mode) else 0) + BytesAsked(AskedSince(was, now)) <= MAX_RAM_SIZE
  {
    hide RamSize, MainAlign, ImageAt, AskedSince, Answer, Requests, Pool, MainVerdict, EntriesVerdict, SectionsVerdict, Total, TaggedSizes,
      HeaderAt, Sectab, FitsImageCap;
    var asked, size := AskedSince(was, now), RamSize(img.hdr, img.tab, p.mode);
    var first := MainAsked(size, MainAlign(img.tab), loadAddr, Answer(a, was, size));
    BytesJoin(first, asked[|first|..]);
    assert asked == first + asked[|first|..];
    TaggedPositive(img.tab);
    RequestsWithin(a, was + first, img.tab, Pool(img.symt, img.hdr.symtSize), 3);
    assert TaggedSizes(img.tab)[0..] == TaggedSizes(img.tab);
    assert BytesAsked([]) == 0;
  }

  lemma {:induction false} BytesJoin(x: seq<Event>, y: seq<Event>)
    ensures BytesAsked(x + y) == BytesAsked(x) + BytesAsked(y)
    decreases |x|
  {
    if x == [] {
      assert x + y == y;
    } else {
      BytesJoin(x[1..], y);
      assert (x + y)[1..] == x[1..] + y;
    }
  }

  lemma {:induction false} RequestsWithin(a: Allocator, log: seq<Event>, tab: seq<Section>, pool: seq<Byte>, k: nat)
    requires 3 <= k && (k <= |tab| || (k == 3 && |tab| <= 3))
    ensures BytesAsked(Requests(a, log, tab, pool, k)) <= Total(TaggedSizes(tab)[k - 3..])
    decreases |tab| - k
  {
    hide Served, SectPurpose, Answer;
    if k >= |tab| {
      TotalPositive(TaggedSizes(tab)[k - 3..]);
    } else {
      assert TaggedSizes(tab)[k - 3..][1..] == TaggedSizes(tab)[k + 1 - 3..];
      TotalPositive(TaggedSizes(tab)[k + 1 - 3..]);
      if Sec(tab, k).size == 0 {
        RequestsWithin(a, log, tab, pool, k + 1);
      } else {
        var ev := SectionAnswer(Sec(tab, k), pool, Answer(a, log, Sec(tab, k).size));
        RequestsWithin(a, log + [ev], tab, pool, k + 1);
        var rest := if Served(ev) then Requests(a, log + [ev], tab, pool, k + 1) else [];
        assert ([ev] + rest)[1..] == rest && BytesAsked([]) == 0;
      }
    }
  }

  lemma PlacedMode(mod: Module, img: Image, src: int, bases: seq<int>)
    ensures PlacedAt(mod, img, src, bases).mode == mod.mode && PlacedAt(mod, img, src, bases).text == src + CodeOffset(img.hdr)
  {}

  // ----- unloading -----

  /** udynlink.c udynlink_unload_module, whatever the module has done to its own words since. With metadata
      and base array intact everything goes back; with a table that no longer parses only the main block
      does, as one of word alignment, and the tagged blocks are forgotten. */
  method UnloadModule(mod: Module, mem: array<Word>, host: Host, ghost img: Image, ghost p: Placement, ghost heap: Heap)
    returns (res: Error)
    requires mod.header >= 0 && (mod.header != 0 && Sectab(mem[..], mod.header / 4, false).Some? ==>
      && WellFormed(img) && ValidPlacement(img, p, mem.Length) && Described(mod, mem[..], img, p)
      && Owns(heap, mod, img, p) && Outstanding(host.log) == Some(Owned(heap, mod, img, p)))
    modifies mod, host`log
    ensures res == if old(mod.header) == 0 then InvalidModule else Ok
    ensures res == Ok ==> mod.IsFree()
    ensures res == Ok && Sectab(mem[..], old(mod.header) / 4, false).Some? ==> Outstanding(host.log) == Some(heap)
    ensures res == Ok && Sectab(mem[..], old(mod.header) / 4, false).None? ==>
      host.log == old(host.log) + (if old(mod.ram) != 0 && !old(mod.foreign) then [Freed(old(mod.ram), MainPurpose(4))] else [])
    ensures res != Ok ==> host.log == old(host.log) && mod.Now() == old(mod.Now())
  {
    hide *;
    if mod.header == 0 {
      return InvalidModule;
    }
    var view := GetSectab(mem, mod.header / 4, false);
    if view.None? {
      if mod.ram != 0 && !mod.foreign {
        host.Release(mod.ram, MainPurpose(4));
      }
      mod.header, mod.ram, mod.mode, mod.foreign, mod.numNamed := 0, 0, CopyAll, false, 0;
      Cleared(mod);
      return Ok;
    }
    UnloadFacts(mod, host, mem[..], img, p, heap);
    var hdr := HeaderAt(mem[..], mod.header / 4);
    var tab := view.value;
    var align := GetMainAlign(tab);
    var pool := Pool(SymtWords(mem[..], mod.header / 4, hdr), hdr.symtSize);
    GiveBack(mod, mem, host, tab, pool, hdr.numLot, align, RamSize(img.hdr, img.tab, mod.mode), heap, p.tagged, |img.tab| - 3);
    res := Ok;
  }

  lemma Cleared(mod: Module)
    requires mod.header == 0 && mod.ram == 0 && mod.mode == CopyAll && !mod.foreign && mod.numNamed == 0
    ensures mod.IsFree()
  {}

  lemma UnloadFacts(mod: Module, host: Host, m: seq<Word>, img: Image, p: Placement, heap: Heap)
    requires WellFormed(img) && ValidPlacement(img, p, |m|) && Described(mod, m, img, p)
    requires Owns(heap, mod, img, p) && Outstanding(host.log) == Some(Owned(heap, mod, img, p))
    ensures mod.header >= 0 && HeaderAt(m, mod.header / 4) == img.hdr && Sectab(m, mod.header / 4, false) == Some(img.tab)
    ensures SymtWords(m, mod.header / 4, img.hdr) == img.symt && (img.tab == [] || ValidTable(img.tab))
    ensures Ledger(mod, host, m, img.tab, Pool(img.symt, img.hdr.symtSize), img.hdr.numLot, MainAlign(img.tab),
                   RamSize(img.hdr, img.tab, mod.mode), heap, p.tagged, |img.tab| - 3)
  {
    hide RamSize, ImageAt, WithTagged, Outstanding, RecordedRun, Distinct, BaseArray, MainAlign, Pool, HeaderAt, Sectab, SymtWords, ValidTable, CodeOffset;
    MetaDecodes(img, m, mod.header);
    if img.tab != [] { ShapedTable(img); }
    ReadIsRecorded(img, p, m);
    if |img.tab| > 3 { FrontNeedsBlock(img, p.mode); }
    hide WellFormed;
    RunLength(img.tab, p.tagged, |img.tab| - 3);
    LedgerStaged(mod, host, m, img, heap, p.tagged, |img.tab| - 3);
  }
}
