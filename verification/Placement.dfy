// A loaded module occupies a main block, tagged sections at host-chosen addresses and, under
// execute-in-place, the code inside the image. This file names those words independently of
// where they are, and maps them to addresses.

module Placement {
  import opened Words
  import opened Image
  import opened Sections
  import opened AddressMap
  import opened Layout

  /** `text` is the address of the image's code; `tagged[k - 3]` that of section k (0: not allocated). */
  datatype Placement = Placement(mode: Mode, ram: int, text: int, tagged: seq<int>)

  /** A word of a loaded module, wherever the module is. */
  datatype Loc = Block(off: int) | Text(off: int) | Tagged(k: int, off: int)

  function NumTagged(tab: seq<Section>): nat {
    if |tab| > 3 then |tab| - 3 else 0
  }

  function TaggedBase(p: Placement, k: int): int {
    if 3 <= k < 3 + |p.tagged| then p.tagged[k - 3] else 0
  }

  /** udynlink.c get_section_base_idx. */
  function Base(img: Image, p: Placement, k: int): int {
    if k >= 3 then TaggedBase(p, k)
    else if k == 0 && p.mode.Xip? then p.text
    else p.ram + MainOffset(img.hdr, img.tab, p.mode, k)
  }

  // Without section placement: get_code_pointer and get_data_pointer.

  function CodeBase(img: Image, p: Placement): int {
    if p.mode.Xip? then p.text else p.ram + FlatCodeOffset(img.hdr, p.mode)
  }

  function DataBase(img: Image, p: Placement): int {
    p.ram + FlatDataOffset(img.hdr, p.mode)
  }

  /** resolve_runtime_va: the run-time address of a link-time address. */
  function Runtime(img: Image, p: Placement, va: int): Option<Word> {
    var k := Find(img.tab, va);
    if k < 0 then None else Some(Wrap(Base(img, p, k) + (va - Sec(img.tab, k).va)))
  }

  function Slot(p: Placement, loc: Loc): int {
    match loc
    case Block(off) => p.ram + off
    case Text(off) => p.text + off
    case Tagged(k, off) => TaggedBase(p, k) + off
  }

  predicate InBounds(img: Image, mode: Mode, loc: Loc) {
    loc.off % 4 == 0 && 0 <= loc.off < match loc
      case Block(_) => RamSize(img.hdr, img.tab, mode)
      case Text(_) => TextSize(img, mode)
      case Tagged(k, _) => if 3 <= k < |img.tab| then Sec(img.tab, k).size else 0
  }

  /** Bytes of .text that stay in the image and are patched there. */
  function TextSize(img: Image, mode: Mode): int {
    if mode.Xip? && img.tab != [] then Sec(img.tab, 0).size else 0
  }

  /** Bytes of the LOT and the base array. */
  function BlockFront(img: Image): int {
    4 * (img.hdr.numLot + NumTagged(img.tab))
  }

  /** The words of the array of tagged bases that follows the LOT. */
  predicate IsBaseSlot(img: Image, loc: Loc) {
    loc.Block? && 4 * img.hdr.numLot <= loc.off < BlockFront(img)
  }

  // ----- relocation targets -----

  function TargetVa(img: Image, lotOffset: int): Word {
    Wrap(img.hdr.codeSize + 4 * (lotOffset - img.hdr.numLot))
  }

  /** A section's word, by section index and byte offset. */
  function SectionLoc(img: Image, mode: Mode, k: int, off: int): Loc {
    if k >= 3 then Tagged(k, off)
    else if k == 0 && mode.Xip? then Text(off)
    else Block(MainOffset(img.hdr, img.tab, mode, k) + off)
  }

  /** get_reloc_target: the word a relocation patches, or None when it is out of range. */
  function TargetLoc(img: Image, mode: Mode, lotOffset: int): Option<Loc> {
    if lotOffset < img.hdr.numLot then Some(Block(4 * lotOffset))
    else if img.tab == [] then
      var idx := lotOffset - img.hdr.numLot;
      if idx >= img.hdr.dataSize / 4 then None else Some(Block(FlatDataOffset(img.hdr, mode) + 4 * idx))
    else
      var va := TargetVa(img, lotOffset);
      var k := Find(img.tab, va);
      if k < 0 || Sec(img.tab, k).cls == BSS then None
      else Some(SectionLoc(img, mode, k, va - Sec(img.tab, k).va))
  }

  function RelLoc(img: Image, mode: Mode, i: nat): Option<Loc>
    requires i < |img.rels|
  {
    TargetLoc(img, mode, img.rels[i].lotOffset)
  }

  predicate IsTarget(img: Image, mode: Mode, loc: Loc) {
    exists i :: 0 <= i < |img.rels| && RelLoc(img, mode, i) == Some(loc)
  }

  /** The link-time name of a relocation target: a LOT slot or a link address. */
  datatype TargetName = LotWord(n: int) | VaWord(va: int)

  function LinkTarget(img: Image, i: nat): TargetName
    requires i < |img.rels|
  {
    var lotOffset := img.rels[i].lotOffset;
    if lotOffset < img.hdr.numLot then LotWord(lotOffset) else VaWord(TargetVa(img, lotOffset))
  }

  predicate TargetInside(img: Image, i: nat)
    requires i < |img.rels|
  {
    var t := LinkTarget(img, i);
    t.VaWord? && Find(img.tab, t.va) >= 0 ==> InSection(Sec(img.tab, Find(img.tab, t.va)), t.va)
  }

  predicate Shaped(img: Image) {
    && img.hdr.codeSize % 4 == 0
    && (if img.tab == [] then img.hdr.dataSize % 4 == 0 && img.hdr.bssSize % 4 == 0
        else ValidTable(img.tab) && forall k :: 0 <= k < |img.tab| ==> Sec(img.tab, k).va % 4 == 0)
  }

  /** What the toolchain guarantees and the loader relies on without checking. */
  predicate WellFormed(img: Image) {
    && Shaped(img)
    && (forall i :: 0 <= i < |img.rels| ==> TargetInside(img, i))
    && (forall i, j :: 0 <= i < j < |img.rels| ==> LinkTarget(img, i) != LinkTarget(img, j))
  }

  predicate Apart(a: int, sizeA: int, b: int, sizeB: int) {
    sizeA == 0 || sizeB == 0 || a + sizeA <= b || b + sizeB <= a
  }

  predicate TaggedPlaced(img: Image, p: Placement, n: int, k: int) {
    var (base, size) := (TaggedBase(p, k), Sec(img.tab, k).size);
    size > 0 ==>
      && base > 0 && base % 4 == 0 && base + size <= 4 * n
      && Apart(base, size, p.ram, RamSize(img.hdr, img.tab, p.mode))
      && Apart(base, size, p.text, TextSize(img, p.mode))
  }

  /** A placement in a memory of n words: word-aligned, inside, and pairwise disjoint. */
  predicate ValidPlacement(img: Image, p: Placement, n: int) {
    && 4 * n <= LIMIT
    && 0 <= p.ram && 0 <= p.text && p.ram % 4 == 0 && p.text % 4 == 0
    && p.ram + RamSize(img.hdr, img.tab, p.mode) <= 4 * n
    && p.text + TextSize(img, p.mode) <= 4 * n
    && Apart(p.ram, RamSize(img.hdr, img.tab, p.mode), p.text, TextSize(img, p.mode))
    && |p.tagged| == NumTagged(img.tab)
    && (forall k :: 3 <= k < |img.tab| ==> TaggedPlaced(img, p, n, k))
    && (forall k, l :: 3 <= k < l < |img.tab| ==>
          Apart(TaggedBase(p, k), Sec(img.tab, k).size, TaggedBase(p, l), Sec(img.tab, l).size))
  }

  lemma WordSizes(img: Image, mode: Mode, k: int)
    requires Shaped(img)
    ensures Sec(img.tab, k).size % 4 == 0 && Sec(img.tab, k).va % 4 == 0
    ensures RamSize(img.hdr, img.tab, mode) % 4 == 0 && TextSize(img, mode) % 4 == 0
    ensures BlockFront(img) <= RamSize(img.hdr, img.tab, mode)
  {
    hide RamSize, MainOffset;
    hide Shaped, BlockFront;
    SectionWords(img, k);
    SectionWords(img, 0);
    BlockWords(img, mode);
  }

  lemma SectionWords(img: Image, k: int)
    requires Shaped(img)
    ensures Sec(img.tab, k).size % 4 == 0 && Sec(img.tab, k).va % 4 == 0
  {
    hide RamSize, MainOffset;
    hide ValidTable;
    if 0 <= k < |img.tab| { EntryFacts(img.tab, k); }
  }

  lemma BlockWords(img: Image, mode: Mode)
    requires Shaped(img)
    ensures RamSize(img.hdr, img.tab, mode) % 4 == 0
    ensures BlockFront(img) <= RamSize(img.hdr, img.tab, mode)
  {
    hide RamSize, MainOffset;
    if img.tab != [] {
      TabledBlockWords(img, mode);
    } else {
      FlatBlockWords(img, mode);
    }
  }

  lemma FlatBlockWords(img: Image, mode: Mode)
    requires Shaped(img) && img.tab == []
    ensures RamSize(img.hdr, img.tab, mode) % 4 == 0
    ensures BlockFront(img) <= RamSize(img.hdr, img.tab, mode)
  {
    assert img.hdr.codeSize % 4 == 0 && img.hdr.dataSize % 4 == 0 && img.hdr.bssSize % 4 == 0 by { hide ValidTable; }
    hide CodeOffset, ValidTable, LaidOut, Shaped;
    var meta, code := if mode.CopyAll? then CodeOffset(img.hdr) else 0, if mode.Xip? then 0 else img.hdr.codeSize;
    assert RamSize(img.hdr, img.tab, mode) == 4 * img.hdr.numLot + meta + code + img.hdr.dataSize + img.hdr.bssSize;
    hide RamSize;
    WordSum(4 * img.hdr.numLot, meta, code, img.hdr.dataSize, img.hdr.bssSize);
  }

  lemma WordSum(a: int, b: int, c: int, d: int, e: int)
    requires a % 4 == 0 && b % 4 == 0 && c % 4 == 0 && d % 4 == 0 && e % 4 == 0
    ensures (a + b + c + d + e) % 4 == 0 && (a + b + c) % 4 == 0
  {}

  lemma TabledBlockWords(img: Image, mode: Mode)
    requires Shaped(img) && img.tab != []
    ensures RamSize(img.hdr, img.tab, mode) % 4 == 0
    ensures BlockFront(img) <= MainStart(img.hdr, img.tab, mode) <= RamSize(img.hdr, img.tab, mode)
  {
    hide RamSize, MainOffset;
    hide ValidTable;
    assert ValidTable(img.tab);
    hide CodeOffset, Shaped;
    SectionsApart(img.hdr, img.tab, mode);
  }

  lemma SlotInMemory(img: Image, p: Placement, n: int, loc: Loc)
    requires Shaped(img) && ValidPlacement(img, p, n) && InBounds(img, p.mode, loc)
    ensures Slot(p, loc) % 4 == 0 && 0 <= Slot(p, loc) / 4 < n
  {
    hide RamSize, MainOffset, Shaped, TextSize, Sec;
    match loc
    case Block(off) => WordInRange(p.ram, RamSize(img.hdr, img.tab, p.mode), off, n);
    case Text(off) => WordInRange(p.text, TextSize(img, p.mode), off, n);
    case Tagged(k, off) =>
      assert TaggedPlaced(img, p, n, k);
      WordInRange(TaggedBase(p, k), Sec(img.tab, k).size, off, n);
  }

  lemma WordInRange(base: int, size: int, off: int, n: int)
    requires base >= 0 && base % 4 == 0 && off % 4 == 0 && 0 <= off < size && base + size <= 4 * n
    ensures (base + off) % 4 == 0 && 0 <= (base + off) / 4 < n
  {}

  /** Different words of the module are at different addresses. */
  lemma SlotInjective(img: Image, p: Placement, n: int, a: Loc, b: Loc)
    requires Shaped(img) && ValidPlacement(img, p, n)
    requires InBounds(img, p.mode, a) && InBounds(img, p.mode, b)
    requires Slot(p, a) / 4 == Slot(p, b) / 4
    ensures a == b
  {
    hide RamSize, MainOffset;
    hide Shaped, MainStart;
    SlotInMemory(img, p, n, a);
    SlotInMemory(img, p, n, b);
    WordSizes(img, p.mode, if a.Tagged? then a.k else 0);
    WordSizes(img, p.mode, if b.Tagged? then b.k else 0);
    if a.Tagged? { assert TaggedPlaced(img, p, n, a.k); }
    if b.Tagged? { assert TaggedPlaced(img, p, n, b.k); }
  }

  lemma SectionWord(img: Image, p: Placement, k: int, off: int)
    requires Shaped(img) && 0 <= k < |img.tab| && off % 4 == 0 && 0 <= off < Sec(img.tab, k).size
    ensures InBounds(img, p.mode, SectionLoc(img, p.mode, k, off))
    ensures !IsBaseSlot(img, SectionLoc(img, p.mode, k, off))
    ensures Slot(p, SectionLoc(img, p.mode, k, off)) == Base(img, p, k) + off
    ensures SectionLoc(img, p.mode, k, off).Block? ==>
      SectionLoc(img, p.mode, k, off).off >= MainStart(img.hdr, img.tab, p.mode)
  {
    hide RamSize, MainOffset;
    if k < 3 && !(k == 0 && p.mode.Xip?) {
      MainWord(img, p.mode, k, off);
      hide InBounds, IsBaseSlot, MainStart, Shaped, Sec;
    } else {
      hide MainStart, Shaped, BlockFront;
    }
  }

  lemma MainWord(img: Image, mode: Mode, k: int, off: int)
    requires Shaped(img) && img.tab != [] && FirstMain(mode) <= k < 3 && off % 4 == 0 && 0 <= off < Sec(img.tab, k).size
    ensures var loc := Block(MainOffset(img.hdr, img.tab, mode, k) + off);
      InBounds(img, mode, loc) && !IsBaseSlot(img, loc) && loc.off >= MainStart(img.hdr, img.tab, mode)
  {
    hide RamSize, MainOffset, ValidTable, MainStart, BlockFront, Sec, TextSize;
    assert ValidTable(img.tab);
    hide Shaped;
    TabledBlockWords(img, mode);
    SectionPlaced(img.hdr, img.tab, mode, k);
  }

  /** Different section words are different words of the module. */
  lemma SectionLocInjective(img: Image, mode: Mode, k: int, off: int, k': int, off': int)
    requires Shaped(img) && 0 <= k < |img.tab| && 0 <= k' < |img.tab|
    requires off % 4 == 0 && 0 <= off < Sec(img.tab, k).size && off' % 4 == 0 && 0 <= off' < Sec(img.tab, k').size
    requires SectionLoc(img, mode, k, off) == SectionLoc(img, mode, k', off')
    ensures k == k' && off == off'
  {
    hide RamSize, MainOffset;
    hide ValidTable;
    assert ValidTable(img.tab);
    hide MainStart, Shaped;
    WordSizes(img, mode, k);
    WordSizes(img, mode, k');
    SectionsApart(img.hdr, img.tab, mode);
    if k < 3 && !(k == 0 && mode.Xip?) { SectionPlaced(img.hdr, img.tab, mode, k); }
    if k' < 3 && !(k' == 0 && mode.Xip?) { SectionPlaced(img.hdr, img.tab, mode, k'); }
  }

  lemma TargetVaAligned(img: Image, lotOffset: int)
    requires Shaped(img)
    ensures TargetVa(img, lotOffset) % 4 == 0
  {
    hide Wrap;
    assert img.hdr.codeSize % 4 == 0 by { WordSized(img); }
    hide Shaped;
    var words := img.hdr.codeSize / 4;
    assert img.hdr.codeSize == 4 * words;
    WrapInWords(words + (lotOffset - img.hdr.numLot));
  }

  lemma WrapInWords(words: int)
    ensures Wrap(4 * words) % 4 == 0
  {}

  /** The lot offsets past the LOT count the words from the end of .text on, going round at 2^32 bytes: every
      word of .text, of a data section or of a tagged one has its own. */
  lemma EveryWordIsTarget(img: Image, mode: Mode, k: nat, off: nat, round: int)
    requires Shaped(img) && Sorted(img.tab) && k < |img.tab| && img.tab[k].cls != BSS
    requires off % 4 == 0 && off < img.tab[k].size && img.tab[k].va + off < LIMIT
    requires img.hdr.codeSize + 4 * (0x4000_0000 * round) <= img.tab[k].va + off
    ensures TargetLoc(img, mode, img.hdr.numLot + (img.tab[k].va + off - img.hdr.codeSize) / 4 - 0x4000_0000 * round) ==
      Some(SectionLoc(img, mode, k, off))
  {
    hide Find, ValidTable, SectionLoc, Shaped, TargetVa;
    assert img.hdr.codeSize % 4 == 0 by { WordSized(img); }
    SectionWords(img, k);
    var va := img.tab[k].va + off;
    FindInside(img.tab, k, va);
    TargetVaIs(img, va, round);
  }

  lemma TargetVaIs(img: Image, va: Word, round: int)
    requires va % 4 == 0 && img.hdr.codeSize % 4 == 0 && img.hdr.codeSize + 4 * (0x4000_0000 * round) <= va
    ensures var lotOffset := img.hdr.numLot + (va - img.hdr.codeSize) / 4 - 0x4000_0000 * round;
      img.hdr.numLot <= lotOffset && TargetVa(img, lotOffset) == va
  {
    var words := (va - img.hdr.codeSize) / 4;
    assert va - img.hdr.codeSize == 4 * words;
    Rounds(va, round);
  }

  lemma Rounds(va: Word, round: int)
    ensures Wrap(va - 4 * (0x4000_0000 * round)) == va
  {}

  lemma WordSized(img: Image)
    requires Shaped(img)
    ensures img.hdr.codeSize % 4 == 0
  {
    hide ValidTable;
  }

  /** A target in a section is that section's word, inside its own bytes, and never in .bss. */
  lemma SectionTarget(img: Image, mode: Mode, i: nat)
    requires Shaped(img) && img.tab != [] && i < |img.rels| && TargetInside(img, i)
    requires RelLoc(img, mode, i).Some? && LinkTarget(img, i).VaWord?
    ensures var va := LinkTarget(img, i).va;
      var k := Find(img.tab, va);
      var off := va - Sec(img.tab, k).va;
      && 0 <= k < |img.tab| && Sec(img.tab, k).cls != BSS
      && off % 4 == 0 && 0 <= off < Sec(img.tab, k).size
      && RelLoc(img, mode, i) == Some(SectionLoc(img, mode, k, off))
  {
    hide RamSize, MainOffset, SectionLoc, Shaped, CodeOffset, TargetVa, Sec;
    TargetVaAligned(img, img.rels[i].lotOffset);
    SectionWords(img, Find(img.tab, LinkTarget(img, i).va));
  }

  /** Every target is a word of the module, and never one of the base array. */
  lemma TargetPlaced(img: Image, mode: Mode, i: nat)
    requires WellFormed(img) && i < |img.rels| && RelLoc(img, mode, i).Some?
    ensures var loc := RelLoc(img, mode, i).value;
      InBounds(img, mode, loc) && !IsBaseSlot(img, loc)
  {
    hide RamSize, MainOffset;
    assert TargetInside(img, i);
    hide WellFormed, Shaped, InBounds, IsBaseSlot, RelLoc, Find, TargetInside;
    if LinkTarget(img, i).LotWord? {
      LotTarget(img, mode, i);
    } else if img.tab == [] {
      FlatTarget(img, mode, i);
    } else {
      SectionTarget(img, mode, i);
      var va := LinkTarget(img, i).va;
      var k := Find(img.tab, va);
      SectionWord(img, Placement(mode, 0, 0, []), k, va - Sec(img.tab, k).va);
    }
  }

  lemma LotTarget(img: Image, mode: Mode, i: nat)
    requires Shaped(img) && i < |img.rels| && LinkTarget(img, i).LotWord?
    ensures var loc := Block(4 * img.rels[i].lotOffset);
      RelLoc(img, mode, i) == Some(loc) && InBounds(img, mode, loc) && !IsBaseSlot(img, loc)
  {
    hide RamSize, MainOffset;
    hide Shaped;
    WordSizes(img, mode, 0);
  }

  lemma FlatTarget(img: Image, mode: Mode, i: nat)
    requires Shaped(img) && img.tab == [] && i < |img.rels|
    requires RelLoc(img, mode, i).Some? && LinkTarget(img, i).VaWord?
    ensures var loc := RelLoc(img, mode, i).value;
      InBounds(img, mode, loc) && !IsBaseSlot(img, loc)
  {
    hide CodeOffset, LaidOut;
  }

  /** Distinct link targets are distinct words in every mode. */
  lemma TargetsDistinct(img: Image, mode: Mode, i: nat, j: nat)
    requires WellFormed(img) && i < |img.rels| && j < |img.rels| && i != j
    requires RelLoc(img, mode, i).Some? && RelLoc(img, mode, j).Some?
    ensures RelLoc(img, mode, i) != RelLoc(img, mode, j)
  {
    hide RamSize, MainOffset;
    assert TargetInside(img, i) && TargetInside(img, j) && LinkTarget(img, i) != LinkTarget(img, j);
    hide WellFormed, Shaped, Find, TargetInside, CodeOffset;
    if img.tab == [] || (LinkTarget(img, i).LotWord? && LinkTarget(img, j).LotWord?) {
      assert |img.tab| == 0 || img.rels[i].lotOffset != img.rels[j].lotOffset;
    } else if LinkTarget(img, i).LotWord? {
      LotIsNotSection(img, mode, j, i);
    } else if LinkTarget(img, j).LotWord? {
      LotIsNotSection(img, mode, i, j);
    } else if RelLoc(img, mode, i) == RelLoc(img, mode, j) {
      hide SectionLoc, RelLoc, LinkTarget;
      SectionTarget(img, mode, i);
      SectionTarget(img, mode, j);
      var va, va' := LinkTarget(img, i).va, LinkTarget(img, j).va;
      var k, k' := Find(img.tab, va), Find(img.tab, va');
      SectionLocInjective(img, mode, k, va - Sec(img.tab, k).va, k', va' - Sec(img.tab, k').va);
    }
  }

  lemma LotIsNotSection(img: Image, mode: Mode, i: nat, j: nat)
    requires Shaped(img) && img.tab != [] && i < |img.rels| && TargetInside(img, i) && j < |img.rels|
    requires RelLoc(img, mode, i).Some? && LinkTarget(img, i).VaWord? && LinkTarget(img, j).LotWord?
    ensures RelLoc(img, mode, i) != RelLoc(img, mode, j)
  {
    hide RamSize, MainOffset;
    hide SectionLoc, Shaped, Find, TargetInside, InBounds;
    SectionTarget(img, mode, i);
    var va := LinkTarget(img, i).va;
    var k := Find(img.tab, va);
    SectionWord(img, Placement(mode, 0, 0, []), k, va - Sec(img.tab, k).va);
  }
}
