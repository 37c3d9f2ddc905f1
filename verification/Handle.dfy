// The module handle and the address helpers that read it: bases, code and data pointers,
// relocation targets.

module Handle {
  import opened Words
  import opened Image
  import opened Sections
  import opened AddressMap
  import opened Layout
  import opened Placement
  import opened Relocation
  import opened Loaded
  import opened Renaming

  datatype Fields = Fields(header: int, ram: int, mode: Mode, foreign: bool, numNamed: int)

  /** udynlink_module_t. Address 0 is NULL. */
  class Module {
    var header: int
    var ram: int
    var mode: Mode
    var foreign: bool
    var numNamed: int

    constructor ()
      ensures IsFree()
    {
      header, ram, mode, foreign, numNamed := 0, 0, CopyAll, false, 0;
    }

    /** The fields as a value. */
    function Now(): Fields
      reads this
    {
      Fields(header, ram, mode, foreign, numNamed)
    }

    predicate IsFree()
      reads this
    {
      header == 0 && ram == 0 && mode.CopyAll? && !foreign && numNamed == 0
    }
  }

  /** The metadata at h is out of every relocation's reach. */
  ghost predicate MetaApart(img: Image, p: Placement, h: int) {
    forall a :: h <= a < h + CodeOffset(img.hdr) ==> Outside(img, p, a) || (p.mode.CopyAll? && InFront(img, p, a))
  }

  /** Memory holds img's metadata at h. */
  ghost predicate MetaIn(img: Image, p: Placement, m: seq<Word>, h: int) {
    h >= 0 && h % 4 == 0 && ImageAt(m, h) == Some(img) && MetaApart(img, p, h)
  }

  /** The handle describes img at p: where the header is, where the block is, and the recorded bases. */
  ghost predicate Described(mod: Module, m: seq<Word>, img: Image, p: Placement)
    reads mod
  {
    && mod.ram == p.ram && mod.mode == p.mode
    && (RamSize(img.hdr, img.tab, p.mode) > 0 ==> p.ram > 0)
    && mod.header >= 0 && mod.header % 4 == 0 && ImageAt(m, mod.header) == Some(img)
    && (p.mode.Xip? ==> p.text == mod.header + CodeOffset(img.hdr))
    && (p.mode.CopyAll? ==> mod.header == p.ram + BlockFront(img))
    && BasesIn(img, p, m)
  }

  /** ... and relocating cannot damage the metadata it points to. */
  ghost predicate Attached(mod: Module, m: seq<Word>, img: Image, p: Placement)
    reads mod
  {
    Described(mod, m, img, p) && MetaApart(img, p, mod.header)
  }

  predicate BlockPlaced(img: Image, p: Placement, n: int) {
    0 <= p.ram && p.ram % 4 == 0 && p.ram + RamSize(img.hdr, img.tab, p.mode) <= 4 * n
  }

  lemma MetaDecodes(img: Image, m: seq<Word>, h: int)
    requires h >= 0 && ImageAt(m, h) == Some(img)
    ensures HeaderAt(m, h / 4) == img.hdr && Sectab(m, h / 4, false) == Some(img.tab)
    ensures SymtWords(m, h / 4, img.hdr) == img.symt && |img.rels| == img.hdr.numRels
    ensures forall i :: 0 <= i < |img.rels| ==> RelAt(m, h / 4, img.hdr, i) == img.rels[i]
  {
    hide Sectab, SymtWords, RelAt, HeaderAt;
  }

  lemma BaseSlotInMemory(img: Image, p: Placement, n: int, k: int)
    requires WellFormed(img) && BlockPlaced(img, p, n) && 3 <= k < |img.tab|
    ensures BaseSlot(img, p, k) % 4 == 0 && 0 <= BaseSlot(img, p, k) / 4 < n
    ensures RamSize(img.hdr, img.tab, p.mode) > 0
  {
    hide RamSize, MainOffset, WellFormed, IsBaseSlot;
    BaseSlotIsWord(img, p, k);
  }

  /** udynlink.c get_section_base_idx. */
  method GetSectionBase(mod: Module, mem: array<Word>, tab: seq<Section>, idx: int, ghost img: Image, ghost p: Placement)
    returns (base: int)
    requires WellFormed(img) && img.tab != [] && BlockPlaced(img, p, mem.Length) && Described(mod, mem[..], img, p)
    requires tab == img.tab && 0 <= idx < |tab|
    ensures base == Base(img, p, idx)
  {
    hide RamSize, MainOffset, ValidTable;
    assert ValidTable(img.tab);
    hide WellFormed, Shaped;
    MetaDecodes(img, mem[..], mod.header);
    hide ImageAt;
    var hdr := HeaderAt(mem[..], mod.header / 4);
    if idx < 3 {
      if idx == 0 && mod.mode.Xip? {
        return mod.header + CodeOffset(hdr);
      }
      var off := GetMainSectionOffset(hdr, tab, mod.mode, idx);
      return mod.ram + off;
    }
    BaseSlotInMemory(img, p, mem.Length, idx);
    if mod.ram == 0 {
      return 0;
    }
    base := mem[(mod.ram + hdr.numLot * 4 + (idx - 3) * 4) / 4];
    assert base == Get(mem[..], BaseSlot(img, p, idx));
  }

  /** udynlink.c get_code_pointer, without section placement. */
  method GetCodePointer(mod: Module, mem: array<Word>, ghost img: Image, ghost p: Placement) returns (addr: int)
    requires img.tab == [] && Described(mod, mem[..], img, p)
    ensures addr == CodeBase(img, p)
  {
    MetaDecodes(img, mem[..], mod.header);
    hide ImageAt, CodeOffset, RamSize;
    var hdr := HeaderAt(mem[..], mod.header / 4);
    if mod.mode.CopyTextData? {
      addr := mod.ram + hdr.numLot * 4;
    } else {
      addr := mod.header + CodeOffset(hdr);
    }
  }

  /** udynlink.c get_data_pointer, without section placement. */
  method GetDataPointer(mod: Module, mem: array<Word>, ghost img: Image, ghost p: Placement) returns (addr: int)
    requires img.tab == [] && Described(mod, mem[..], img, p)
    ensures addr == DataBase(img, p)
  {
    MetaDecodes(img, mem[..], mod.header);
    hide ImageAt, CodeOffset, RamSize;
    var hdr := HeaderAt(mem[..], mod.header / 4);
    match mod.mode {
      case Xip => addr := mod.ram + hdr.numLot * 4;
      case CopyTextData => addr := mod.ram + hdr.numLot * 4 + hdr.codeSize;
      case CopyAll => addr := mod.header + CodeOffset(hdr) + hdr.codeSize;
    }
  }

  /** udynlink.c resolve_runtime_va. */
  method ResolveRuntimeVa(mod: Module, mem: array<Word>, tab: seq<Section>, va: Word, ghost img: Image, ghost p: Placement)
    returns (r: Option<Word>)
    requires WellFormed(img) && img.tab != [] && ValidPlacement(img, p, mem.Length) && Attached(mod, mem[..], img, p)
    requires tab == img.tab
    ensures r == Runtime(img, p, va)
  {
    hide RamSize, MainOffset, ValidTable, Described, Sorted, MetaApart;
    WellFormedSorted(img);
    hide WellFormed, Base;
    var idx := FindByVa(tab, va);
    if idx < 0 {
      return None;
    }
    var base := GetSectionBase(mod, mem, tab, idx, img, p);
    return Some(Wrap(base + (va - tab[idx].va)));
  }

  /** udynlink.c get_reloc_target: the address of the word to patch, or None for NULL. */
  method GetRelocTarget(mod: Module, mem: array<Word>, tab: seq<Section>, i: nat, ghost img: Image, ghost p: Placement)
    returns (r: Option<int>)
    requires WellFormed(img) && ValidPlacement(img, p, mem.Length) && Attached(mod, mem[..], img, p)
    requires tab == img.tab && i < |img.rels|
    ensures r == TargetAddr(img, p, i)
    ensures r.Some? ==> 0 <= r.value / 4 < mem.Length
  {
    r := RelocTargetOf(mod, mem, tab, RelAt(mem[..], mod.header / 4, HeaderAt(mem[..], mod.header / 4), i).lotOffset, img, p);
    MetaDecodes(img, mem[..], mod.header);
    hide ImageAt, ValidPlacement, WellFormed, Attached;
    if r.Some? { TargetInMemory(img, p, mem.Length, i); }
  }

  method RelocTargetOf(mod: Module, mem: array<Word>, tab: seq<Section>, lotOffset: Word, ghost img: Image, ghost p: Placement)
    returns (r: Option<int>)
    requires WellFormed(img) && ValidPlacement(img, p, mem.Length) && Attached(mod, mem[..], img, p)
    requires tab == img.tab
    ensures r == match TargetLoc(img, p.mode, lotOffset) case None => None case Some(loc) => Some(Slot(p, loc))
  {
    hide RamSize, MainOffset, ValidTable, ImageAt, Shaped, SectionLoc, FlatDataOffset, Find, MetaApart, BasesIn, SymtWords, Sectab, HeaderAt, ValidPlacement;
    assert Shaped(img);
    hide WellFormed;
    MetaDecodes(img, mem[..], mod.header);
    FrontNonempty(img, p);
    assert mod.ram == p.ram && (img.hdr.numLot > 0 ==> mod.ram > 0);
    hide Attached;
    var hdr := HeaderAt(mem[..], mod.header / 4);
    if lotOffset < hdr.numLot {
      if mod.ram == 0 {
        return None;
      }
      return Some(mod.ram + 4 * lotOffset);
    }
    if tab == [] {
      var wordIdx := lotOffset - hdr.numLot;
      if wordIdx >= hdr.dataSize / 4 {
        return None;
      }
      var data := GetDataPointer(mod, mem, img, p);
      return Some(data + 4 * wordIdx);
    }
    r := MappedTarget(mod, mem, tab, Wrap(hdr.codeSize + 4 * (lotOffset - hdr.numLot)), img, p);
  }

  /** The sectioned half: the word at link address va, in a CODE or DATA section. */
  method MappedTarget(mod: Module, mem: array<Word>, tab: seq<Section>, va: Word, ghost img: Image, ghost p: Placement)
    returns (r: Option<int>)
    requires WellFormed(img) && img.tab != [] && ValidPlacement(img, p, mem.Length) && Attached(mod, mem[..], img, p)
    requires tab == img.tab
    ensures r == if Find(tab, va) < 0 || Sec(tab, Find(tab, va)).cls == BSS then None
      else Some(Slot(p, SectionLoc(img, p.mode, Find(tab, va), va - Sec(tab, Find(tab, va)).va)))
  {
    hide RamSize, MainOffset, ValidTable, Described, Sorted, MetaApart;
    WellFormedSorted(img);
    hide WellFormed, Base;
    var idx := FindByVa(tab, va);
    if idx < 0 || tab[idx].cls == BSS {
      return None;
    }
    var base := GetSectionBase(mod, mem, tab, idx, img, p);
    SlotOfSection(img, p, idx, va - tab[idx].va);
    return Some(base + (va - tab[idx].va));
  }

  lemma SlotOfSection(img: Image, p: Placement, k: int, off: int)
    ensures Slot(p, SectionLoc(img, p.mode, k, off)) == Base(img, p, k) + off
  {
    hide MainOffset;
  }

  lemma WellFormedSorted(img: Image)
    requires WellFormed(img)
    ensures Sorted(img.tab)
  {}

  lemma FrontNonempty(img: Image, p: Placement)
    requires Shaped(img)
    ensures RamSize(img.hdr, img.tab, p.mode) >= 4 * img.hdr.numLot
  {
    hide RamSize, MainOffset, Shaped;
    BlockWords(img, p.mode);
  }

  lemma WellFormedShaped(img: Image)
    requires WellFormed(img)
    ensures Shaped(img)
  {
    hide Shaped;
  }
}
