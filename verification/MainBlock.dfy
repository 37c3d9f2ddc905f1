// Filling the main block: metadata (COPY_ALL), .text and .data, with and without section placement.

module MainBlock {
  import opened Words
  import opened Image
  import opened Sections
  import opened Layout
  import opened Placement
  import opened Relocation
  import opened Loaded
  import opened Renaming
  import opened Memory
  import opened Handle
  import opened Tagged

  /** The placement before the tagged sections have addresses. */
  function Bare(mod: Module, img: Image, src: int): Placement
    reads mod
  {
    Placement(mod.mode, mod.ram, src + CodeOffset(img.hdr), [])
  }

  /** The block and the image are in memory, apart from each other. */
  predicate RoomFor(img: Image, p: Placement, src: int, n: int) {
    && 0 <= p.ram && p.ram % 4 == 0 && p.ram + RamSize(img.hdr, img.tab, p.mode) <= 4 * n
    && 0 <= src && src % 4 == 0 && src + Extent(img) <= 4 * n
    && Apart(p.ram, RamSize(img.hdr, img.tab, p.mode), src, Extent(img))
    && p.text == src + CodeOffset(img.hdr)
  }

  /** The part of the block behind the LOT and the base array. */
  predicate WroteBody(img: Image, p: Placement, m: seq<Word>, m': seq<Word>) {
    SameOutside(m, m', p.ram + BlockFront(img), RamSize(img.hdr, img.tab, p.mode) - BlockFront(img))
  }

  lemma MainSectionRoom(img: Image, p: Placement, k: int)
    requires Shaped(img) && img.tab != [] && 0 <= k < 3 && InBlock(p, k) && 0 <= p.ram && p.ram % 4 == 0
    ensures var base := Base(img, p, k);
      && base % 4 == 0 && Sec(img.tab, k).size % 4 == 0 && Sec(img.tab, k).cls == k
      && p.ram + MainStart(img.hdr, img.tab, p.mode) <= base
      && base + Sec(img.tab, k).size <= p.ram + RamSize(img.hdr, img.tab, p.mode)
      && BlockFront(img) <= MainStart(img.hdr, img.tab, p.mode)
      && (p.mode.CopyAll? ==> BlockFront(img) + CodeOffset(img.hdr) == MainStart(img.hdr, img.tab, p.mode))
  {
    StartFacts(img, p.mode);
    hide RamSize, MainOffset, ValidTable, CodeOffset, MainStart, BlockFront, Sec;
    assert ValidTable(img.tab);
    hide Shaped;
    SectionPlaced(img.hdr, img.tab, p.mode, k);
    EntryFacts(img.tab, k);
    WordSum(p.ram, MainOffset(img.hdr, img.tab, p.mode, k), 0, 0, 0);
  }

  lemma StartFacts(img: Image, mode: Mode)
    ensures BlockFront(img) <= MainStart(img.hdr, img.tab, mode)
    ensures mode.CopyAll? ==> BlockFront(img) + CodeOffset(img.hdr) == MainStart(img.hdr, img.tab, mode)
  {
    hide CodeOffset;
  }

  /** Whole words [base, base + size) are inside [lo, lo + room) and so apart from the image. */
  lemma InsideApart(base: int, size: int, lo: int, room: int, src: int, extent: int, at: int, n: int)
    requires lo <= base && base + size <= lo + room && Apart(lo, room, src, extent) && size >= 0
    requires src <= at && at + n <= src + extent && n >= 0
    ensures Apart(base, size, at, n)
  {}

  lemma WroteBodyStep(img: Image, p: Placement, m: seq<Word>, m1: seq<Word>, m2: seq<Word>, base: int, size: int)
    requires WroteBody(img, p, m, m1) && SameOutside(m1, m2, base, size)
    requires p.ram + BlockFront(img) <= base && base + size <= p.ram + RamSize(img.hdr, img.tab, p.mode)
    requires base % 4 == 0 && size % 4 == 0 && p.ram % 4 == 0
    ensures WroteBody(img, p, m, m2)
  {
    hide RamSize;
    var lo, room := p.ram + BlockFront(img), RamSize(img.hdr, img.tab, p.mode) - BlockFront(img);
    forall a | 0 <= a < |m| && !InRange(a, lo, room)
      ensures m2[a] == m[a]
    {
      assert !InRange(a, base, size);
    }
  }

  /** Writes to the block leave the image as it was. */
  lemma ImageWordsKept(img: Image, p: Placement, src: int, m: seq<Word>, m': seq<Word>, addr: int)
    requires RoomFor(img, p, src, |m|) && WroteBody(img, p, m, m') && BlockFront(img) <= RamSize(img.hdr, img.tab, p.mode)
    requires src <= addr < src + Extent(img) && addr % 4 == 0
    ensures Get(m', addr) == Get(m, addr)
  {
    hide RamSize, Extent, CodeOffset;
  }

  /** memcpy of main section k's payload to its place in the block. */
  method CopySection(mem: array<Word>, e: Section, k: int, base: int, payload: int,
                     ghost img: Image, ghost p: Placement, ghost src: int, ghost m: seq<Word>)
    requires Shaped(img) && img.tab != [] && 0 <= k < 2 && InBlock(p, k) && e == Sec(img.tab, k)
    requires RoomFor(img, p, src, mem.Length) && WroteBody(img, p, m, mem[..])
    requires base == Base(img, p, k) && payload == src + CodeOffset(img.hdr) + PayloadOffset(img.tab, k)
    modifies mem
    ensures Filled(img, m, src, k, mem[..], base)
    ensures SameOutside(old(mem[..]), mem[..], base, e.size)
    ensures WroteBody(img, p, m, mem[..])
  {
    hide RamSize, MainOffset, Extent, CodeOffset, PayloadOffset, Base, MainStart, BlockFront, Filled, FilledFrom, SameOutside, Sec, WroteBody, ValidTable;
    MainSectionRoom(img, p, k);
    SectionPayload(img, k);
    hide Shaped;
    ghost var before := mem[..];
    SameLengthBody(img, p, m, before);
    InsideApart(base, e.size, p.ram, RamSize(img.hdr, img.tab, p.mode), src, Extent(img), payload, e.size);
    FillSection(mem, e, base, payload);
    forall addr | payload <= addr < payload + PayloadSize(e) && addr % 4 == 0
      ensures Get(before, addr) == Get(m, addr)
    {
      ImageWordsKept(img, p, src, m, before, addr);
    }
    FilledTransfers(img, m, src, k, before, mem[..], base);
    WroteBodyStep(img, p, m, before, mem[..], base, e.size);
  }

  lemma SameLengthBody(img: Image, p: Placement, m: seq<Word>, m': seq<Word>)
    requires WroteBody(img, p, m, m')
    ensures |m'| == |m|
  {
    hide RamSize;
  }

  lemma SectionPayload(img: Image, k: int)
    requires Shaped(img) && img.tab != [] && 0 <= k < 2
    ensures 0 <= PayloadOffset(img.tab, k) && PayloadOffset(img.tab, k) % 4 == 0 && PayloadSize(Sec(img.tab, k)) == Sec(img.tab, k).size
    ensures CodeOffset(img.hdr) + PayloadOffset(img.tab, k) + Sec(img.tab, k).size <= Extent(img)
  {
    hide ValidTable, CodeOffset, PayloadOffset, Extent;
    assert ValidTable(img.tab);
    hide Shaped;
    EntryFacts(img.tab, k);
    PayloadFits(img, k);
  }

  /** What placing the main sections leaves in memory. */
  ghost predicate MainFilled(img: Image, p: Placement, src: int, m: seq<Word>, m': seq<Word>) {
    forall k :: 0 <= k < 2 && InBlock(p, k) ==> Filled(img, m, src, k, m', Base(img, p, k))
  }

  predicate MetaCopied(img: Image, p: Placement, src: int, m: seq<Word>, m': seq<Word>) {
    SameWords(m, src / 4, m', (p.ram + BlockFront(img)) / 4, CodeOffset(img.hdr) / 4)
  }

  lemma MetaCopiedKept(img: Image, p: Placement, src: int, m: seq<Word>, m1: seq<Word>, m2: seq<Word>, base: int, size: int)
    requires MetaCopied(img, p, src, m, m1) && SameOutside(m1, m2, base, size)
    requires p.ram >= 0 && p.ram % 4 == 0 && base % 4 == 0
    requires p.ram + BlockFront(img) + CodeOffset(img.hdr) <= base
    ensures MetaCopied(img, p, src, m, m2)
  {
    hide CodeOffset;
    var w, w' := src / 4, (p.ram + BlockFront(img)) / 4;
    forall j | 0 <= j < CodeOffset(img.hdr) / 4
      ensures SameWord(m, w, m2, w', j)
    {
      assert SameWord(m, w, m1, w', j);
      assert !InRange(w' + j, base, size);
    }
  }

  /** The metadata copy of COPY_ALL: one region covers header, relocations, symbols and section table. */
  method CopyMetadata(mem: array<Word>, dst: int, src: int, size: int, ghost img: Image, ghost p: Placement)
    requires Shaped(img) && img.tab != [] && p.mode.CopyAll? && RoomFor(img, p, src, mem.Length)
    requires dst == p.ram + BlockFront(img) && size == CodeOffset(img.hdr)
    modifies mem
    ensures MetaCopied(img, p, src, old(mem[..]), mem[..]) && WroteBody(img, p, old(mem[..]), mem[..])
  {
    hide RamSize, MainOffset, Extent, CodeOffset, Base, MainStart, ValidTable;
    MainSectionRoom(img, p, 0);
    ExtentCovers(img);
    hide Shaped;
    InsideApart(dst, size, p.ram, RamSize(img.hdr, img.tab, p.mode), src, Extent(img), src, size);
    ghost var m := mem[..];
    CopyWords(mem, dst, src, size);
    forall j | 0 <= j < size / 4
      ensures SameWord(m, src / 4, mem[..], dst / 4, j)
    {
      assert mem[dst / 4 + j] == m[src / 4 + j];
    }
  }

  lemma ExtentCovers(img: Image)
    requires Shaped(img)
    ensures CodeOffset(img.hdr) <= Extent(img)
  {
    hide CodeOffset, ValidTable;
    if img.tab != [] {
      hide PayloadOffset;
      assert ValidTable(img.tab);
      PayloadGrows(img.tab, 0, |img.tab|);
    }
  }

  lemma FilledOutside(img: Image, p: Placement, m: seq<Word>, src: int, m1: seq<Word>, m2: seq<Word>, k: int, base: int, size: int)
    requires Shaped(img) && img.tab != [] && 0 <= k < 3 && InBlock(p, k) && 0 <= p.ram && p.ram % 4 == 0
    requires Filled(img, m, src, k, m1, Base(img, p, k)) && SameOutside(m1, m2, base, size)
    requires Apart(Base(img, p, k), Sec(img.tab, k).size, base, size) && base % 4 == 0 && size % 4 == 0
    ensures Filled(img, m, src, k, m2, Base(img, p, k))
  {
    hide RamSize, MainOffset, ValidTable, Base, CodeOffset, MainStart, Filled, Sec;
    MainSectionRoom(img, p, k);
    hide Shaped;
    FilledKept(img, m, src, k, m1, m2, Base(img, p, k));
  }

  /** The main-section copies of the sectioned load path, mode by mode. */
  method PlaceMain(mod: Module, mem: array<Word>, hdr: Header, tab: seq<Section>, src: int, ghost img: Image)
    requires Shaped(img) && tab == img.tab && tab != [] && hdr == img.hdr && mod.header == src
    requires RoomFor(img, Bare(mod, img, src), src, mem.Length)
    modifies mem, mod`header
    ensures WroteBody(img, Bare(mod, img, src), old(mem[..]), mem[..])
    ensures MainFilled(img, Bare(mod, img, src), src, old(mem[..]), mem[..])
    ensures mod.header == if mod.mode.CopyAll? then mod.ram + BlockFront(img) else src
    ensures mod.mode.CopyAll? ==> MetaCopied(img, Bare(mod, img, src), src, old(mem[..]), mem[..])
  {
    hide RamSize, MainOffset, Extent, CodeOffset, Base, MainStart, ValidTable, Filled, MetaCopied, WroteBody, SameOutside, BlockFront, PayloadOffset, Shaped, RoomFor;
    ghost var m, p := mem[..], Bare(mod, img, src);
    NothingWritten(img, p, m);
    TableShape(img);
    RoomFacts(img, p, src, mem.Length);
    if mod.mode.CopyAll? {
      var front := 4 * hdr.numLot + BasesSize(tab);
      FrontIs(img);
      CopyMetadata(mem, mod.ram + front, src, CodeOffset(hdr), img, p);
      mod.header := mod.ram + front;
    }
    var textSize := PayloadOffset(tab, 1);
    TextPayload(img);
    if mod.mode.Xip? {
    } else {
      var textOff := GetMainSectionOffset(hdr, tab, mod.mode, 0);
      BaseIs(img, p, 0);
      ghost var m1 := mem[..];
      CopySection(mem, Sec(tab, 0), 0, mod.ram + textOff, src + CodeOffset(hdr), img, p, src, m);
      MainSectionRoom(img, p, 0);
      if mod.mode.CopyAll? { MetaCopiedKept(img, p, src, m, m1, mem[..], Base(img, p, 0), Sec(tab, 0).size); }
    }
    var dataOff := GetMainSectionOffset(hdr, tab, mod.mode, 1);
    BaseIs(img, p, 1);
    ghost var m2 := mem[..];
    CopySection(mem, Sec(tab, 1), 1, mod.ram + dataOff, src + CodeOffset(hdr) + textSize, img, p, src, m);
    MainSectionRoom(img, p, 1);
    if mod.mode.CopyAll? { MetaCopiedKept(img, p, src, m, m2, mem[..], Base(img, p, 1), Sec(tab, 1).size); }
    if !mod.mode.Xip? {
      MainsDisjoint(img, p, 0, 1);
      FilledOutside(img, p, m, src, m2, mem[..], 0, Base(img, p, 1), Sec(tab, 1).size);
    }
  }

  lemma NothingWritten(img: Image, p: Placement, m: seq<Word>)
    ensures WroteBody(img, p, m, m)
  {
    hide RamSize;
  }

  lemma RoomFacts(img: Image, p: Placement, src: int, n: int)
    requires RoomFor(img, p, src, n)
    ensures 0 <= p.ram && p.ram % 4 == 0
  {
    hide RamSize, Extent;
  }

  lemma TableShape(img: Image)
    requires Shaped(img) && img.tab != []
    ensures ValidTable(img.tab) && |img.tab| >= 3
  {
    hide CodeOffset;
  }

  /** The front of the block, in the ways it is computed. */
  lemma FrontIs(img: Image)
    ensures BlockFront(img) == 4 * img.hdr.numLot + BasesSize(img.tab) == 4 * (img.hdr.numLot + NumTagged(img.tab))
  {}

  lemma TextPayload(img: Image)
    requires Shaped(img) && img.tab != []
    ensures PayloadOffset(img.tab, 0) == 0 && PayloadOffset(img.tab, 1) == Sec(img.tab, 0).size
  {
    hide ValidTable;
    assert ValidTable(img.tab);
    EntryFacts(img.tab, 0);
  }

  lemma BaseIs(img: Image, p: Placement, k: int)
    requires 0 <= k < 3 && InBlock(p, k)
    ensures Base(img, p, k) == p.ram + MainOffset(img.hdr, img.tab, p.mode, k)
  {
    hide MainOffset;
  }

  // ----- without section placement -----

  predicate WordCopied(m: seq<Word>, src: int, m': seq<Word>, dst: int, off: int) {
    Get(m', dst + off) == Get(m, src + off)
  }

  predicate CopiedRange(m: seq<Word>, src: int, m': seq<Word>, dst: int, size: int) {
    forall off :: 0 <= off < size && off % 4 == 0 ==> WordCopied(m, src, m', dst, off)
  }

  predicate WordZero(m: seq<Word>, dst: int, off: int) {
    Get(m, dst + off) == 0
  }

  predicate ZeroRange(m: seq<Word>, dst: int, size: int) {
    forall off :: 0 <= off < size && off % 4 == 0 ==> WordZero(m, dst, off)
  }

  /** .text (unless executed in place) and .data are in the block, .bss is zero. */
  ghost predicate FlatFilled(img: Image, p: Placement, src: int, m: seq<Word>, m': seq<Word>) {
    var payload := src + CodeOffset(img.hdr);
    && (!p.mode.Xip? ==> CopiedRange(m, payload, m', CodeBase(img, p), img.hdr.codeSize))
    && CopiedRange(m, payload + img.hdr.codeSize, m', DataBase(img, p), img.hdr.dataSize)
    && ZeroRange(m', DataBase(img, p) + img.hdr.dataSize, img.hdr.bssSize)
  }

  lemma FlatOffsets(img: Image, p: Placement)
    requires Shaped(img) && img.tab == []
    ensures CodeBase(img, p) == (if p.mode.Xip? then p.text else p.ram + FlatCodeOffset(img.hdr, p.mode))
    ensures FlatCodeOffset(img.hdr, p.mode) % 4 == 0 && FlatDataOffset(img.hdr, p.mode) % 4 == 0
    ensures DataBase(img, p) + img.hdr.dataSize + img.hdr.bssSize == p.ram + RamSize(img.hdr, img.tab, p.mode)
    ensures FlatDataOffset(img.hdr, p.mode) == FlatCodeOffset(img.hdr, p.mode) + (if p.mode.Xip? then 0 else img.hdr.codeSize)
    ensures FlatCodeOffset(img.hdr, p.mode) == BlockFront(img) + (if p.mode.CopyAll? then CodeOffset(img.hdr) else 0)
    ensures BlockFront(img) == 4 * img.hdr.numLot
    ensures img.hdr.codeSize % 4 == 0 && img.hdr.dataSize % 4 == 0 && img.hdr.bssSize % 4 == 0
    ensures Extent(img) == CodeOffset(img.hdr) + img.hdr.codeSize + img.hdr.dataSize
  {
    hide CodeOffset, LaidOut;
  }

  /** The header, relocations and symbols agree; of a partial last symbol word only the table's bytes count. */
  predicate FlatMetaCopied(hdr: Header, m: seq<Word>, w: int, m': seq<Word>, w': int) {
    && SameWords(m, w, m', w', (SymtabOffset(hdr) + hdr.symtSize) / 4)
    && (hdr.symtSize % 4 != 0 ==>
          var j := (SymtabOffset(hdr) + hdr.symtSize) / 4;
          At(m', w' + j) == LowBytes(At(m, w + j), hdr.symtSize % 4))
  }

  /** Bytes of header, relocations and symbols up to the last whole word. */
  function WholeMeta(hdr: Header): int {
    SymtabOffset(hdr) + hdr.symtSize / 4 * 4
  }

  lemma WholeMetaFits(hdr: Header)
    ensures WholeMeta(hdr) % 4 == 0 && 32 <= WholeMeta(hdr) <= CodeOffset(hdr)
    ensures WholeMeta(hdr) / 4 == (SymtabOffset(hdr) + hdr.symtSize) / 4
    ensures hdr.symtSize % 4 != 0 ==> WholeMeta(hdr) + 4 <= CodeOffset(hdr)
  {
    SymtabAligned(hdr);
    var end := Up4(SymtabOffset(hdr) + hdr.symtSize);
    assert end <= CodeOffset(hdr);
    hide CodeOffset, SymtabOffset, Up4;
    var q, r: int := hdr.symtSize / 4, hdr.symtSize % 4;
    assert (SymtabOffset(hdr) + 4 * q + r) / 4 == SymtabOffset(hdr) / 4 + q;
    if r != 0 { NextFour(WholeMeta(hdr), end); }
  }

  lemma SymtabAligned(hdr: Header)
    ensures SymtabOffset(hdr) % 4 == 0 && SymtabOffset(hdr) >= 32
  {
    assert HeaderSize(hdr) == 32 || HeaderSize(hdr) == 36;
    hide HeaderSize;
    WordSum(HeaderSize(hdr), 4 * (2 * hdr.numRels), 0, 0, 0);
  }

  lemma NextFour(a: int, b: int)
    requires a % 4 == 0 && b % 4 == 0 && a < b
    ensures a + 4 <= b
  {}

  /** The three metadata copies of COPY_ALL, with zeros in the padding behind the symbol table. */
  method CopyFlatMetadata(mem: array<Word>, dst: int, src: int, hdr: Header)
    requires 0 <= dst && dst % 4 == 0 && 0 <= src && src % 4 == 0
    requires dst + CodeOffset(hdr) <= 4 * mem.Length && src + CodeOffset(hdr) <= 4 * mem.Length
    requires Apart(dst, CodeOffset(hdr), src, CodeOffset(hdr))
    modifies mem
    ensures FlatMetaCopied(hdr, old(mem[..]), src / 4, mem[..], dst / 4)
    ensures SameOutside(old(mem[..]), mem[..], dst, CodeOffset(hdr))
  {
    WholeMetaFits(hdr);
    hide CodeOffset, SymtabOffset, WholeMeta, SameWords, SameOutside;
    ghost var m := mem[..];
    var whole := WholeMeta(hdr);
    CopyWords(mem, dst, src, whole);
    ghost var m1 := mem[..];
    CopiedWords(m, m1, dst, src, whole, CodeOffset(hdr));
    if hdr.symtSize % 4 != 0 {
      mem[dst / 4 + whole / 4] := LowBytes(mem[src / 4 + whole / 4], hdr.symtSize % 4);
      LastWordCopied(m, m1, mem[..], dst, src, whole, CodeOffset(hdr), mem[dst / 4 + whole / 4]);
    }
  }

  lemma CopiedWords(m: seq<Word>, m': seq<Word>, dst: int, src: int, size: int, room: int)
    requires dst % 4 == 0 && src % 4 == 0 && 0 <= size <= room && size % 4 == 0 && 0 <= dst && 0 <= src && room % 4 == 0
    requires dst + room <= 4 * |m| && src + room <= 4 * |m| && |m'| == |m| && Apart(dst, room, src, room)
    requires forall a :: dst / 4 <= a < dst / 4 + size / 4 ==> m'[a] == m[a - dst / 4 + src / 4]
    requires forall a :: 0 <= a < |m| && !(dst / 4 <= a < dst / 4 + size / 4) ==> m'[a] == m[a]
    ensures SameWords(m, src / 4, m', dst / 4, size / 4) && SameOutside(m, m', dst, room)
    ensures forall a :: src <= 4 * a < src + room ==> m'[a] == m[a]
  {
    forall j | 0 <= j < size / 4
      ensures SameWord(m, src / 4, m', dst / 4, j)
    {
      assert m'[dst / 4 + j] == m[src / 4 + j];
    }
  }

  lemma LastWordCopied(m: seq<Word>, m1: seq<Word>, m2: seq<Word>, dst: int, src: int, size: int, room: int, w: Word)
    requires dst % 4 == 0 && src % 4 == 0 && 0 <= size <= room - 4 && size % 4 == 0 && 0 <= dst && 0 <= src && room % 4 == 0
    requires dst + room <= 4 * |m| && src + room <= 4 * |m| && |m1| == |m|
    requires SameWords(m, src / 4, m1, dst / 4, size / 4) && SameOutside(m, m1, dst, room)
    requires m2 == m1[dst / 4 + size / 4 := w]
    ensures SameWords(m, src / 4, m2, dst / 4, size / 4) && SameOutside(m, m2, dst, room)
  {
    forall j | 0 <= j < size / 4
      ensures SameWord(m, src / 4, m2, dst / 4, j)
    {
      assert SameWord(m, src / 4, m1, dst / 4, j);
    }
  }

  /** Such a copy decodes to the same image. */
  lemma FlatImageFrame(m: seq<Word>, h: int, m': seq<Word>, h': int)
    requires 0 <= h && h % 4 == 0 && 0 <= h' && h' % 4 == 0
    requires ImageAt(m, h).Some? && !IsSectioned(ImageAt(m, h).value.hdr)
    requires FlatMetaCopied(ImageAt(m, h).value.hdr, m, h / 4, m', h' / 4)
    ensures ImageAt(m', h') == ImageAt(m, h)
  {
    var w, w' := h / 4, h' / 4;
    var hdr := HeaderAt(m, w);
    WholeMetaFits(hdr);
    hide WholeMeta, CodeOffset, SymtWords, RelAt, SymtabOffset, EntriesOk, Entries;
    HeaderFrame(m, w, m', w', (SymtabOffset(hdr) + hdr.symtSize) / 4);
    hide HeaderAt;
    FlatSymtFrame(m, w, m', w', hdr);
    FlatRelsFrame(m, w, m', w', hdr);
  }

  lemma FlatRelsFrame(m: seq<Word>, w: nat, m': seq<Word>, w': nat, hdr: Header)
    requires FlatMetaCopied(hdr, m, w, m', w')
    ensures seq<Rel>(hdr.numRels, (i: int) requires 0 <= i => RelAt(m', w', hdr, i))
         == seq<Rel>(hdr.numRels, (i: int) requires 0 <= i => RelAt(m, w, hdr, i))
  {
    var n := (SymtabOffset(hdr) + hdr.symtSize) / 4;
    forall i: nat | i < hdr.numRels
      ensures RelAt(m', w', hdr, i) == RelAt(m, w, hdr, i)
    {
      var j := HeaderSize(hdr) / 4 + 2 * i;
      assert j + 1 < n;
      hide SymtabOffset, HeaderSize;
      assert SameWord(m, w, m', w', j) && SameWord(m, w, m', w', j + 1);
    }
  }

  lemma FlatSymtFrame(m: seq<Word>, w: nat, m': seq<Word>, w': nat, hdr: Header)
    requires FlatMetaCopied(hdr, m, w, m', w')
    ensures SymtWords(m', w', hdr) == SymtWords(m, w, hdr)
  {
    hide SymtabOffset, FlatMetaCopied;
    forall i: int | 0 <= i < (hdr.symtSize + 3) / 4
      ensures SymtWords(m', w', hdr)[i] == SymtWords(m, w, hdr)[i]
    {
      FlatSymtWord(m, w, m', w', hdr, i);
    }
  }

  lemma FlatSymtWord(m: seq<Word>, w: nat, m': seq<Word>, w': nat, hdr: Header, i: int)
    requires FlatMetaCopied(hdr, m, w, m', w') && 0 <= i < (hdr.symtSize + 3) / 4
    ensures SymtWords(m', w', hdr)[i] == SymtWords(m, w, hdr)[i]
  {
    var j := SymtabOffset(hdr) / 4 + i;
    if 4 * i + 4 <= hdr.symtSize {
      assert SameWord(m, w, m', w', j);
    } else {
      assert j == (SymtabOffset(hdr) + hdr.symtSize) / 4;
    }
  }

  lemma CopiedKept(m: seq<Word>, src: int, m1: seq<Word>, m2: seq<Word>, dst: int, size: int, base: int, n: int)
    requires CopiedRange(m, src, m1, dst, size) && SameOutside(m1, m2, base, n) && Apart(dst, size, base, n)
    requires dst % 4 == 0 && base % 4 == 0 && n % 4 == 0 && size % 4 == 0
    ensures CopiedRange(m, src, m2, dst, size)
  {
    forall off | 0 <= off < size && off % 4 == 0
      ensures WordCopied(m, src, m2, dst, off)
    {
      assert WordCopied(m, src, m1, dst, off) && !InRange((dst + off) / 4, base, n);
    }
  }

  /** memcpy of bytes that are still those of m. */
  method CopyPart(mem: array<Word>, dst: int, src: int, size: int, ghost m: seq<Word>)
    requires 0 <= size && size % 4 == 0 && dst % 4 == 0 && src % 4 == 0
    requires size > 0 ==> 0 <= dst && dst + size <= 4 * mem.Length && 0 <= src && src + size <= 4 * mem.Length
    requires Apart(dst, size, src, size) && CopiedRange(m, src, mem[..], src, size)
    modifies mem
    ensures CopiedRange(m, src, mem[..], dst, size) && SameOutside(old(mem[..]), mem[..], dst, size)
  {
    ghost var before := mem[..];
    CopyWords(mem, dst, src, size);
    forall off | 0 <= off < size && off % 4 == 0
      ensures WordCopied(m, src, mem[..], dst, off)
    {
      assert WordCopied(m, src, before, src, off);
      assert mem[dst / 4 + off / 4] == before[src / 4 + off / 4];
    }
  }

  method ZeroPart(mem: array<Word>, dst: int, size: int)
    requires 0 <= size && size % 4 == 0 && dst % 4 == 0
    requires size > 0 ==> 0 <= dst && dst + size <= 4 * mem.Length
    modifies mem
    ensures ZeroRange(mem[..], dst, size) && SameOutside(old(mem[..]), mem[..], dst, size)
  {
    ZeroWords(mem, dst, size);
    forall off | 0 <= off < size && off % 4 == 0
      ensures WordZero(mem[..], dst, off)
    {
      assert mem[dst / 4 + off / 4] == 0;
    }
  }

  lemma ImageRangeKept(img: Image, p: Placement, src: int, m: seq<Word>, m': seq<Word>, from: int, size: int)
    requires RoomFor(img, p, src, |m|) && WroteBody(img, p, m, m') && BlockFront(img) <= RamSize(img.hdr, img.tab, p.mode)
    requires src <= from && from + size <= src + Extent(img) && from % 4 == 0
    ensures CopiedRange(m, from, m', from, size)
  {
    hide RamSize, Extent, CodeOffset, RoomFor, WroteBody, BlockFront;
    forall off | 0 <= off < size && off % 4 == 0
      ensures WordCopied(m, from, m', from, off)
    {
      ImageWordsKept(img, p, src, m, m', from + off);
    }
  }

  /** One part of the image copied to its place in the block. */
  method CopyFlat(mem: array<Word>, dst: int, from: int, size: int,
                  ghost img: Image, ghost p: Placement, ghost src: int, ghost m: seq<Word>)
    requires RoomFor(img, p, src, mem.Length) && WroteBody(img, p, m, mem[..]) && BlockFront(img) <= RamSize(img.hdr, img.tab, p.mode)
    requires 0 <= size && size % 4 == 0 && dst % 4 == 0 && from % 4 == 0
    requires p.ram + BlockFront(img) <= dst && dst + size <= p.ram + RamSize(img.hdr, img.tab, p.mode)
    requires src <= from && from + size <= src + Extent(img)
    modifies mem
    ensures CopiedRange(m, from, mem[..], dst, size) && SameOutside(old(mem[..]), mem[..], dst, size)
    ensures WroteBody(img, p, m, mem[..])
  {
    assert 0 <= BlockFront(img);
    hide RamSize, Extent, CodeOffset, BlockFront, WroteBody, SameOutside, CopiedRange;
    SameLengthBody(img, p, m, mem[..]);
    ghost var before := mem[..];
    ImageRangeKept(img, p, src, m, before, from, size);
    InsideApart(dst, size, p.ram, RamSize(img.hdr, img.tab, p.mode), src, Extent(img), from, size);
    CopyPart(mem, dst, from, size, m);
    WroteBodyStep(img, p, m, before, mem[..], dst, size);
  }

  lemma FlatFacts(img: Image, p: Placement, src: int, n: int)
    requires Shaped(img) && img.tab == [] && RoomFor(img, p, src, n)
    ensures 0 <= p.ram && p.ram % 4 == 0 && src % 4 == 0 && 0 <= src && src + Extent(img) <= 4 * n
    ensures p.ram + RamSize(img.hdr, img.tab, p.mode) <= 4 * n && 0 <= BlockFront(img) <= RamSize(img.hdr, img.tab, p.mode)
    ensures BlockFront(img) % 4 == 0 && p.ram + BlockFront(img) <= DataBase(img, p) && DataBase(img, p) % 4 == 0
    ensures !p.mode.Xip? ==>
      && CodeBase(img, p) % 4 == 0 && CodeBase(img, p) + img.hdr.codeSize == DataBase(img, p)
      && CodeBase(img, p) == p.ram + BlockFront(img) + (if p.mode.CopyAll? then CodeOffset(img.hdr) else 0)
    ensures p.mode.Xip? ==> DataBase(img, p) == p.ram + BlockFront(img)
  {
    hide RamSize, Extent, CodeOffset, FlatCodeOffset, FlatDataOffset, Shaped, BlockFront;
    FlatOffsets(img, p);
    assert BlockFront(img) == 4 * img.hdr.numLot;
    WordSum(p.ram, FlatDataOffset(img.hdr, p.mode), 0, 0, 0);
    WordSum(p.ram, FlatCodeOffset(img.hdr, p.mode), 0, 0, 0);
  }

  /** The metadata the handle will point to: the copy in the block, or the image's own. */
  predicate FlatMeta(img: Image, p: Placement, src: int, m: seq<Word>, m': seq<Word>) {
    if p.mode.CopyAll? then FlatMetaCopied(img.hdr, m, src / 4, m', (p.ram + BlockFront(img)) / 4)
    else SameWords(m, src / 4, m', src / 4, CodeOffset(img.hdr) / 4)
  }

  function HeaderOf(img: Image, p: Placement, src: int): int {
    if p.mode.CopyAll? then p.ram + BlockFront(img) else src
  }

  lemma FlatMetaDecodes(img: Image, p: Placement, src: int, m: seq<Word>, m': seq<Word>)
    requires img.tab == [] && ImageAt(m, src) == Some(img) && FlatMeta(img, p, src, m, m')
    requires 0 <= p.ram && p.ram % 4 == 0 && 0 <= src && src % 4 == 0
    ensures ImageAt(m', HeaderOf(img, p, src)) == Some(img)
  {
    FlatUnsectioned(img, m, src);
    hide CodeOffset, FlatMetaCopied, SameWords, ImageAt, NumTagged, IsSectioned;
    if p.mode.CopyAll? {
      assert BlockFront(img) % 4 == 0;
      FlatImageFrame(m, src, m', p.ram + BlockFront(img));
    } else {
      ImageFrame(m, src, m', src);
    }
  }

  lemma FlatUnsectioned(img: Image, m: seq<Word>, src: int)
    requires img.tab == [] && ImageAt(m, src) == Some(img)
    ensures !IsSectioned(img.hdr)
  {
    hide EntriesOk, MainsMatch, SymtWords, RelAt, HeaderAt;
  }

  /** Writes behind the metadata keep it. */
  lemma FlatMetaKept(img: Image, p: Placement, src: int, m: seq<Word>, m1: seq<Word>, m2: seq<Word>, base: int, size: int)
    requires img.tab == [] && FlatMeta(img, p, src, m, m1) && SameOutside(m1, m2, base, size)
    requires RoomFor(img, p, src, |m1|) && base % 4 == 0 && size % 4 == 0 && size >= 0 && CodeOffset(img.hdr) <= Extent(img)
    requires p.ram + BlockFront(img) + (if p.mode.CopyAll? then CodeOffset(img.hdr) else 0) <= base
    requires base + size <= p.ram + RamSize(img.hdr, img.tab, p.mode)
    ensures FlatMeta(img, p, src, m, m2)
  {
    WholeMetaFits(img.hdr);
    hide WholeMeta, CodeOffset, SymtabOffset, Extent, RamSize, LowBytes;
    assert BlockFront(img) % 4 == 0;
    hide BlockFront;
    var w, w', n := src / 4, HeaderOf(img, p, src) / 4,
      if p.mode.CopyAll? then (SymtabOffset(img.hdr) + img.hdr.symtSize) / 4 else CodeOffset(img.hdr) / 4;
    forall j | 0 <= j < n
      ensures SameWord(m, w, m2, w', j)
    {
      assert SameWord(m, w, m1, w', j);
      assert !InRange(w' + j, base, size);
    }
    if p.mode.CopyAll? && img.hdr.symtSize % 4 != 0 {
      assert !InRange(w' + n, base, size);
    }
  }

  method PlaceFlatMetadata(mem: array<Word>, dst: int, src: int, hdr: Header, ghost img: Image, ghost p: Placement)
    requires Shaped(img) && img.tab == [] && p.mode.CopyAll? && hdr == img.hdr && RoomFor(img, p, src, mem.Length)
    requires dst == p.ram + BlockFront(img)
    modifies mem
    ensures FlatMeta(img, p, src, old(mem[..]), mem[..]) && WroteBody(img, p, old(mem[..]), mem[..])
  {
    hide RamSize, Extent, CodeOffset, FlatMetaCopied, CodeBase, DataBase, SameOutside;
    ghost var m := mem[..];
    FlatFacts(img, p, src, mem.Length);
    FlatOffsets(img, p);
    ExtentCovers(img);
    NothingWritten(img, p, m);
    hide WroteBody, Shaped;
    InsideApart(dst, CodeOffset(hdr), p.ram, RamSize(img.hdr, img.tab, p.mode), src, Extent(img), src, CodeOffset(hdr));
    CopyFlatMetadata(mem, dst, src, hdr);
    WroteBodyStep(img, p, m, m, mem[..], dst, CodeOffset(hdr));
  }

  ghost predicate FlatCopied(img: Image, p: Placement, src: int, m: seq<Word>, m': seq<Word>) {
    var payload := src + CodeOffset(img.hdr);
    && (!p.mode.Xip? ==> CopiedRange(m, payload, m', CodeBase(img, p), img.hdr.codeSize))
    && CopiedRange(m, payload + img.hdr.codeSize, m', DataBase(img, p), img.hdr.dataSize)
  }

  /** .text and .data in one piece. */
  lemma SplitCopy(m: seq<Word>, src: int, m': seq<Word>, dst: int, size: int, first: int)
    requires CopiedRange(m, src, m', dst, size) && 0 <= first <= size && first % 4 == 0
    ensures CopiedRange(m, src, m', dst, first) && CopiedRange(m, src + first, m', dst + first, size - first)
  {
    hide Get;
    forall off | 0 <= off < size - first && off % 4 == 0
      ensures WordCopied(m, src + first, m', dst + first, off)
    {
      assert WordCopied(m, src, m', dst, first + off);
    }
  }

  /** .text and .data behind the metadata: the last two copies of COPY_ALL. */
  method CopyBehindMetadata(mem: array<Word>, temp: int, src: int, hdr: Header, ghost img: Image, ghost p: Placement, ghost m: seq<Word>)
    requires Shaped(img) && img.tab == [] && hdr == img.hdr && p.mode.CopyAll? && temp == p.ram + BlockFront(img)
    requires RoomFor(img, p, src, mem.Length) && WroteBody(img, p, m, mem[..]) && FlatMeta(img, p, src, m, mem[..])
    modifies mem
    ensures WroteBody(img, p, m, mem[..]) && FlatMeta(img, p, src, m, mem[..]) && FlatCopied(img, p, src, m, mem[..])
  {
    hide RamSize, Extent, CodeOffset, BlockFront, WroteBody, SameOutside, CopiedRange, CodeBase, DataBase, RoomFor, FlatMeta;
    FlatFacts(img, p, src, mem.Length);
    FlatOffsets(img, p);
    ExtentCovers(img);
    hide Shaped;
    var codeOffset := CodeOffset(hdr);
    ghost var m1 := mem[..];
    CopyFlat(mem, temp + codeOffset, src + codeOffset, hdr.codeSize, img, p, src, m);
    ghost var m2 := mem[..];
    FlatMetaKept(img, p, src, m, m1, m2, temp + codeOffset, hdr.codeSize);
    CopyFlat(mem, temp + codeOffset + hdr.codeSize, src + codeOffset + hdr.codeSize, hdr.dataSize, img, p, src, m);
    FlatMetaKept(img, p, src, m, m2, mem[..], DataBase(img, p), hdr.dataSize);
    CopiedKept(m, src + codeOffset, m2, mem[..], CodeBase(img, p), hdr.codeSize, DataBase(img, p), hdr.dataSize);
  }

  /** The copies of the load path without section placement, mode by mode. */
  method CopyFlatImage(mod: Module, mem: array<Word>, hdr: Header, src: int, ghost img: Image)
    requires Shaped(img) && img.tab == [] && hdr == img.hdr && mod.header == src
    requires RoomFor(img, Bare(mod, img, src), src, mem.Length)
    modifies mem, mod`header
    ensures var p := Bare(mod, img, src);
      && WroteBody(img, p, old(mem[..]), mem[..]) && FlatMeta(img, p, src, old(mem[..]), mem[..])
      && FlatCopied(img, p, src, old(mem[..]), mem[..])
    ensures mod.header == HeaderOf(img, Bare(mod, img, src), src)
  {
    hide RamSize, Extent, CodeOffset, WroteBody, SameOutside, CopiedRange, CodeBase, DataBase, RoomFor, FlatMeta, FlatCopied, BlockFront,
      FlatCodeOffset, FlatDataOffset, Shaped;
    ghost var m, p := mem[..], Bare(mod, img, src);
    FlatFacts(img, p, src, mem.Length);
    FlatOffsets(img, p);
    ExtentCovers(img);
    NothingWritten(img, p, m);
    var temp := mod.ram + hdr.numLot * 4;
    var codeOffset := CodeOffset(hdr);
    if mod.mode.CopyAll? {
      PlaceFlatMetadata(mem, temp, src, hdr, img, p);
      CopyBehindMetadata(mem, temp, src, hdr, img, p, m);
      mod.header := temp;
    } else {
      if mod.mode.CopyTextData? {
        CopyFlat(mem, temp, src + codeOffset, hdr.codeSize + hdr.dataSize, img, p, src, m);
        SplitCopy(m, src + codeOffset, mem[..], temp, hdr.codeSize + hdr.dataSize, hdr.codeSize);
      } else {
        CopyFlat(mem, temp, src + codeOffset + hdr.codeSize, hdr.dataSize, img, p, src, m);
      }
      FlatPartsCopied(img, p, src, m, mem[..]);
      SourceMeta(img, p, src, m);
      FlatMetaKept(img, p, src, m, m, mem[..], temp, (if mod.mode.Xip? then 0 else hdr.codeSize) + hdr.dataSize);
    }
  }

  lemma FlatPartsCopied(img: Image, p: Placement, src: int, m: seq<Word>, m': seq<Word>)
    requires var payload := src + CodeOffset(img.hdr);
      && (!p.mode.Xip? ==> CopiedRange(m, payload, m', CodeBase(img, p), img.hdr.codeSize))
      && CopiedRange(m, payload + img.hdr.codeSize, m', DataBase(img, p), img.hdr.dataSize)
    ensures FlatCopied(img, p, src, m, m')
  {
    hide CodeOffset, CopiedRange, CodeBase, DataBase;
  }

  lemma SourceMeta(img: Image, p: Placement, src: int, m: seq<Word>)
    requires !p.mode.CopyAll?
    ensures FlatMeta(img, p, src, m, m)
  {
    hide CodeOffset;
  }

  /** The load path without section placement: copies, then the zeroed .bss. */
  method PlaceFlat(mod: Module, mem: array<Word>, hdr: Header, src: int, ghost img: Image)
    requires Shaped(img) && img.tab == [] && hdr == img.hdr && mod.header == src
    requires ImageAt(mem[..], src) == Some(img) && (RamSize(img.hdr, img.tab, mod.mode) > 0 ==> mod.ram > 0)
    requires RoomFor(img, Bare(mod, img, src), src, mem.Length)
    modifies mem, mod`header
    ensures WroteBody(img, Bare(mod, img, src), old(mem[..]), mem[..])
    ensures FlatFilled(img, Bare(mod, img, src), src, old(mem[..]), mem[..])
    ensures Described(mod, mem[..], img, Bare(mod, img, src))
    ensures mod.header == HeaderOf(img, Bare(mod, img, src), src)
    ensures FlatMeta(img, Bare(mod, img, src), src, old(mem[..]), mem[..])
  {
    hide RamSize, Extent, CodeOffset, WroteBody, SameOutside, CopiedRange, ZeroRange, CodeBase, DataBase, RoomFor, FlatMeta,
      FlatCopied, FlatFilled, Described, Shaped, ImageAt, HeaderOf, BlockFront;
    ghost var m, p := mem[..], Bare(mod, img, src);
    FlatFacts(img, p, src, mem.Length);
    FlatOffsets(img, p);
    CopyFlatImage(mod, mem, hdr, src, img);
    ghost var m1 := mem[..];
    FlatDescribed(mod, img, p, src, m, m1);
    var data := GetDataPointer(mod, mem, img, p);
    if hdr.bssSize > 0 {
      ZeroPart(mem, data + hdr.dataSize, hdr.bssSize);
    } else {
      NothingToZero(m1, data + hdr.dataSize);
    }
    SameLengthBody(img, p, m, m1);
    FlatBssZeroed(img, p, src, m, m1, mem[..]);
    FlatDescribed(mod, img, p, src, m, mem[..]);
  }

  lemma FlatDescribed(mod: Module, img: Image, p: Placement, src: int, m: seq<Word>, m': seq<Word>)
    requires img.tab == [] && ImageAt(m, src) == Some(img) && FlatMeta(img, p, src, m, m')
    requires 0 <= p.ram && p.ram % 4 == 0 && 0 <= src && src % 4 == 0
    requires p == Bare(mod, img, src) && mod.header == HeaderOf(img, p, src)
    requires RamSize(img.hdr, img.tab, mod.mode) > 0 ==> mod.ram > 0
    ensures Described(mod, m', img, p)
  {
    hide RamSize, CodeOffset, FlatMeta, ImageAt;
    FlatMetaDecodes(img, p, src, m, m');
  }

  lemma FlatBssZeroed(img: Image, p: Placement, src: int, m: seq<Word>, m1: seq<Word>, m2: seq<Word>)
    requires Shaped(img) && img.tab == [] && RoomFor(img, p, src, |m1|)
    requires WroteBody(img, p, m, m1) && FlatMeta(img, p, src, m, m1) && FlatCopied(img, p, src, m, m1)
    requires var at := DataBase(img, p) + img.hdr.dataSize;
      ZeroRange(m2, at, img.hdr.bssSize) && SameOutside(m1, m2, at, img.hdr.bssSize)
    ensures WroteBody(img, p, m, m2) && FlatMeta(img, p, src, m, m2) && FlatFilled(img, p, src, m, m2)
  {
    hide RamSize, Extent, CodeOffset, WroteBody, SameOutside, CopiedRange, ZeroRange, CodeBase, DataBase, RoomFor, FlatMeta;
    FlatFacts(img, p, src, |m1|);
    FlatOffsets(img, p);
    ExtentCovers(img);
    hide Shaped, BlockFront;
    var at, n := DataBase(img, p) + img.hdr.dataSize, img.hdr.bssSize;
    FlatMetaKept(img, p, src, m, m1, m2, at, n);
    WroteBodyStep(img, p, m, m1, m2, at, n);
    var payload := src + CodeOffset(img.hdr);
    if !p.mode.Xip? {
      CopiedKept(m, payload, m1, m2, CodeBase(img, p), img.hdr.codeSize, at, n);
    }
    CopiedKept(m, payload + img.hdr.codeSize, m1, m2, DataBase(img, p), img.hdr.dataSize, at, n);
  }

  lemma NothingToZero(m: seq<Word>, dst: int)
    ensures ZeroRange(m, dst, 0) && SameOutside(m, m, dst, 0)
  {}
}
