// Where things go inside the module's main RAM block:
//   [LOT][section bases][metadata, COPY_ALL only][.text, not XIP][.data][.bss]

module Layout {
  import opened Words
  import opened Image
  import opened Sections

  datatype Mode = CopyAll | CopyTextData | Xip

  /** A table the loader can work with: accepted entries, all three main sections present. */
  predicate ValidTable(tab: seq<Section>) {
    |tab| >= 3 && EntriesOk(tab, [], false)
  }

  function BasesSize(tab: seq<Section>): nat {
    if |tab| > 3 then 4 * (|tab| - 3) else 0
  }

  function MainStart(hdr: Header, tab: seq<Section>, mode: Mode): nat {
    4 * hdr.numLot + BasesSize(tab) + (if mode.CopyAll? then CodeOffset(hdr) else 0)
  }

  function FirstMain(mode: Mode): nat {
    if mode.Xip? then 1 else 0
  }

  /** End of the main sections before index `i`, laid out one after the other from `start`. */
  function LaidOut(tab: seq<Section>, start: int, first: int, i: int): int
    decreases i - first
  {
    if i <= first then start
    else AlignUp(LaidOut(tab, start, first, i - 1), Sec(tab, i - 1).align) + Sec(tab, i - 1).size
  }

  /** In-block offset of main section `idx` of an image with section placement. */
  function MainOffset(hdr: Header, tab: seq<Section>, mode: Mode, idx: int): int {
    AlignUp(LaidOut(tab, MainStart(hdr, tab, mode), FirstMain(mode), idx), Sec(tab, idx).align)
  }

  function RamSize(hdr: Header, tab: seq<Section>, mode: Mode): int {
    if tab == [] then FlatBssOffset(hdr, mode) + hdr.bssSize
    else LaidOut(tab, MainStart(hdr, tab, mode), FirstMain(mode), 3)
  }

  // Without section placement the offsets are closed formulas.

  function FlatCodeOffset(hdr: Header, mode: Mode): nat {
    4 * hdr.numLot + (if mode.CopyAll? then CodeOffset(hdr) else 0)
  }

  function FlatDataOffset(hdr: Header, mode: Mode): nat {
    FlatCodeOffset(hdr, mode) + (if mode.Xip? then 0 else hdr.codeSize)
  }

  function FlatBssOffset(hdr: Header, mode: Mode): nat {
    FlatDataOffset(hdr, mode) + hdr.dataSize
  }

  // ----- the loops of the source -----

  /** udynlink.c get_main_section_offset. */
  method GetMainSectionOffset(hdr: Header, tab: seq<Section>, mode: Mode, idx: nat) returns (off: int)
    requires ValidTable(tab) && FirstMain(mode) <= idx < 3
    ensures off == MainOffset(hdr, tab, mode, idx)
  {
    off := MainStart(hdr, tab, mode);
    var i := FirstMain(mode);
    while i <= idx
      invariant FirstMain(mode) <= i <= idx
      invariant off == LaidOut(tab, MainStart(hdr, tab, mode), FirstMain(mode), i)
    {
      off := AlignUp(off, tab[i].align);
      if i == idx {
        return;
      }
      off := off + tab[i].size;
      i := i + 1;
    }
  }

  /** udynlink.c get_ram_size_for_header and get_ram_size_sections: a loop of its own, not the one above. */
  method GetRamSize(hdr: Header, tab: seq<Section>, mode: Mode) returns (size: int)
    requires tab == [] || ValidTable(tab)
    ensures size == RamSize(hdr, tab, mode)
  {
    if tab != [] {
      size := 4 * hdr.numLot + BasesSize(tab);
      if mode.CopyAll? {
        size := size + CodeOffset(hdr);
      }
      for i := FirstMain(mode) to 3
        invariant size == LaidOut(tab, MainStart(hdr, tab, mode), FirstMain(mode), i)
      {
        size := AlignUp(size, tab[i].align);
        size := size + tab[i].size;
      }
    } else {
      size := 4 * hdr.numLot + hdr.dataSize + hdr.bssSize;
      if mode.CopyTextData? {
        size := size + hdr.codeSize;
      } else if mode.CopyAll? {
        size := size + CodeOffset(hdr) + hdr.codeSize;
      }
    }
  }

  /** udynlink.c get_main_align. */
  method GetMainAlign(tab: seq<Section>) returns (align: int)
    requires tab == [] || ValidTable(tab)
    ensures align == MainAlign(tab)
  {
    align := 4;
    if tab != [] {
      for i := 0 to 3
        invariant align == MaxAlign(tab, i)
      {
        if tab[i].align > align {
          align := tab[i].align;
        }
      }
    }
  }

  function MaxAlign(tab: seq<Section>, n: int): int
    decreases n
  {
    if n <= 0 then 4
    else if Sec(tab, n - 1).align > MaxAlign(tab, n - 1) then Sec(tab, n - 1).align else MaxAlign(tab, n - 1)
  }

  function MainAlign(tab: seq<Section>): int {
    if tab == [] then 4 else MaxAlign(tab, 3)
  }

  // ----- the layout is sound -----

  lemma EntryFacts(tab: seq<Section>, i: int)
    requires ValidTable(tab) && 0 <= i && (i < 3 || i < |tab|)
    ensures |tab| >= 3 && i < |tab|
    ensures var e := Sec(tab, i); e == tab[i] && e.size % 4 == 0 && e.cls <= BSS
    ensures i < 3 ==> Sec(tab, i).cls == i
  {
    assert EntryOk(tab[i], i);
  }

  lemma EntryAlign(tab: seq<Section>, i: int)
    requires ValidTable(tab) && 0 <= i && (i < 3 || i < |tab|)
    ensures i < |tab| && Sec(tab, i).align >= 4 && IsPow2(Sec(tab, i).align)
  {
    assert EntryOk(tab[i], i);
  }

  lemma {:induction false} LaidOutGrows(tab: seq<Section>, start: nat, first: nat, i: nat, j: nat)
    requires ValidTable(tab) && i <= j <= 3
    ensures start <= LaidOut(tab, start, first, i) <= LaidOut(tab, start, first, j)
    decreases j
  {
    hide AlignUp, ValidTable, IsPow2, Aligned;
    if j <= first {
    } else {
      EntryFacts(tab, j - 1);
      EntryAlign(tab, j - 1);
      if i < j {
        LaidOutGrows(tab, start, first, i, j - 1);
      } else {
        LaidOutGrows(tab, start, first, i - 1, j - 1);
      }
      AlignUpLeast(LaidOut(tab, start, first, j - 1), Sec(tab, j - 1).align);
    }
  }

  lemma {:induction false} MaxAlignBounds(tab: seq<Section>, n: nat)
    requires ValidTable(tab) && n <= 3
    ensures IsPow2(MaxAlign(tab, n)) && MaxAlign(tab, n) >= 4
    ensures forall i :: 0 <= i < n ==> Sec(tab, i).align <= MaxAlign(tab, n)
  {
    if n > 0 {
      hide ValidTable;
      MaxAlignBounds(tab, n - 1);
      EntryAlign(tab, n - 1);
    } else {
      assert IsPow2(2);
    }
  }

  /** Main section i lies after everything before it and ends before the next one. */
  lemma SectionPlaced(hdr: Header, tab: seq<Section>, mode: Mode, i: int)
    requires ValidTable(tab) && FirstMain(mode) <= i < 3
    ensures var off := MainOffset(hdr, tab, mode, i);
      && MainStart(hdr, tab, mode) <= off && off % 4 == 0
      && off + Sec(tab, i).size <= RamSize(hdr, tab, mode)
      && (i + 1 < 3 ==> off + Sec(tab, i).size <= MainOffset(hdr, tab, mode, i + 1))
      && (i == 2 ==> off + Sec(tab, i).size == RamSize(hdr, tab, mode))
  {
    hide AlignUp, Aligned, ValidTable, IsPow2;
    var start, first := MainStart(hdr, tab, mode), FirstMain(mode);
    LaidOutGrows(tab, start, first, first, i);
    LaidOutGrows(tab, start, first, i + 1, 3);
    EntryFacts(tab, i);
    EntryAlign(tab, i);
    AlignUpLeast(LaidOut(tab, start, first, i), Sec(tab, i).align);
    AlignedFour(MainOffset(hdr, tab, mode, i), Sec(tab, i).align);
    if i + 1 < 3 {
      EntryAlign(tab, i + 1);
      AlignUpLeast(LaidOut(tab, start, first, i + 1), Sec(tab, i + 1).align);
    }
  }

  lemma SectionAligned(hdr: Header, tab: seq<Section>, mode: Mode, i: int)
    requires ValidTable(tab) && FirstMain(mode) <= i < 3
    ensures MainOffset(hdr, tab, mode, i) >= 0 && Aligned(MainOffset(hdr, tab, mode, i), Sec(tab, i).align)
  {
    hide AlignUp, Aligned, ValidTable, IsPow2;
    var start, first := MainStart(hdr, tab, mode), FirstMain(mode);
    LaidOutGrows(tab, start, first, first, i);
    EntryAlign(tab, i);
    AlignUpLeast(LaidOut(tab, start, first, i), Sec(tab, i).align);
  }

  /** Layout soundness: the main sections are pairwise disjoint and lie behind LOT, bases and
      metadata; the last one ends exactly at the separately computed block size; and a block
      aligned to the maximum alignment aligns every section. */
  lemma LayoutSound(hdr: Header, tab: seq<Section>, mode: Mode, ram: nat)
    requires ValidTable(tab) && Aligned(ram, MainAlign(tab))
    ensures forall i :: FirstMain(mode) <= i < 3 ==>
      && MainStart(hdr, tab, mode) <= MainOffset(hdr, tab, mode, i)
      && Aligned(ram + MainOffset(hdr, tab, mode, i), Sec(tab, i).align)
    ensures forall i, j :: FirstMain(mode) <= i < j < 3 ==>
      MainOffset(hdr, tab, mode, i) + Sec(tab, i).size <= MainOffset(hdr, tab, mode, j)
    ensures MainOffset(hdr, tab, mode, 2) + Sec(tab, 2).size == RamSize(hdr, tab, mode)
  {
    MaxAlignBounds(tab, 3);
    assert tab != [];
    hide ValidTable, MainOffset, RamSize, Aligned, IsPow2;
    forall i | FirstMain(mode) <= i < 3
      ensures MainStart(hdr, tab, mode) <= MainOffset(hdr, tab, mode, i)
      ensures Aligned(ram + MainOffset(hdr, tab, mode, i), Sec(tab, i).align)
    {
      SectionPlaced(hdr, tab, mode, i);
      SectionAligned(hdr, tab, mode, i);
      EntryAlign(tab, i);
      AlignedWeaken(ram, Sec(tab, i).align, MainAlign(tab));
      AlignedSum(ram, MainOffset(hdr, tab, mode, i), Sec(tab, i).align);
    }
    SectionsApart(hdr, tab, mode);
  }

  /** Where main section `i` may start at the earliest: the end of the one before, or of what precedes them all. */
  function Earliest(hdr: Header, tab: seq<Section>, mode: Mode, i: int): int {
    if i <= FirstMain(mode) then MainStart(hdr, tab, mode) else MainOffset(hdr, tab, mode, i - 1) + Sec(tab, i - 1).size
  }

  /** The layout wastes nothing: no aligned place for a section lies between its earliest start and its own. */
  lemma LayoutPacked(hdr: Header, tab: seq<Section>, mode: Mode, i: int, off: int)
    requires ValidTable(tab) && FirstMain(mode) <= i < 3
    requires Earliest(hdr, tab, mode, i) <= off && Aligned(off, Sec(tab, i).align)
    ensures Earliest(hdr, tab, mode, i) <= MainOffset(hdr, tab, mode, i) <= off
  {
    hide AlignUp, Aligned, ValidTable, IsPow2;
    var start, first := MainStart(hdr, tab, mode), FirstMain(mode);
    LaidOutGrows(tab, start, first, first, i);
    EntryAlign(tab, i);
    AlignUpLeast(LaidOut(tab, start, first, i), Sec(tab, i).align);
  }

  lemma SectionsApart(hdr: Header, tab: seq<Section>, mode: Mode)
    requires ValidTable(tab)
    ensures forall i, j :: FirstMain(mode) <= i < j < 3 ==>
      MainOffset(hdr, tab, mode, i) + Sec(tab, i).size <= MainOffset(hdr, tab, mode, j)
    ensures MainOffset(hdr, tab, mode, 2) + Sec(tab, 2).size == RamSize(hdr, tab, mode)
    ensures RamSize(hdr, tab, mode) % 4 == 0 && MainStart(hdr, tab, mode) <= RamSize(hdr, tab, mode)
  {
    hide ValidTable, MainOffset, RamSize;
    if mode != Xip { SectionPlaced(hdr, tab, mode, 0); }
    SectionPlaced(hdr, tab, mode, 1);
    SectionPlaced(hdr, tab, mode, 2);
    EntryFacts(tab, 1);
    EntryFacts(tab, 2);
  }

  // ----- the parser's walk: scripts/udynlink_parser.py RuntimeLayout._main_block_walk -----

  /** The three entries the parser makes up for an image without a table. */
  function Synthesized(hdr: Header): seq<Section>
    requires hdr.codeSize + hdr.dataSize < LIMIT
  {
    [Section(0, 0, hdr.codeSize, 4, CODE, 0x8000_0000),
     Section(0, hdr.codeSize, hdr.dataSize, 4, DATA, 0x8000_0000),
     Section(0, hdr.codeSize + hdr.dataSize, hdr.bssSize, 4, BSS, 0x8000_0000)]
  }

  /** One generic walk over whatever main sections there are. `bases` holds in-block offsets. */
  method MainBlockWalk(hdr: Header, tab: seq<Section>, mode: Mode) returns (bases: map<int, int>, end: int)
    requires ValidTable(tab)
    ensures forall i :: i in bases <==> FirstMain(mode) <= i < 3
    ensures forall i :: FirstMain(mode) <= i < 3 ==> bases[i] == MainOffset(hdr, tab, mode, i)
    ensures end == RamSize(hdr, tab, mode)
  {
    hide AlignUp, CodeOffset;
    var nonMain := 0;
    for k := 0 to |tab|
      invariant nonMain == if k > 3 then k - 3 else 0
    {
      if !IsMain(tab[k]) { nonMain := nonMain + 1; }
    }
    end := hdr.numLot * 4 + 4 * nonMain;
    if mode.CopyAll? {
      end := end + CodeOffset(hdr);
    }
    bases := map[];
    for k := 0 to |tab|
      invariant forall i :: i in bases <==> FirstMain(mode) <= i < 3 && i < k
      invariant forall i :: FirstMain(mode) <= i < 3 && i < k ==> bases[i] == MainOffset(hdr, tab, mode, i)
      invariant end == LaidOut(tab, MainStart(hdr, tab, mode), FirstMain(mode), if k < 3 then k else 3)
    {
      if IsMain(tab[k]) {
        if mode.Xip? && k == 0 && tab[k].cls == CODE {
        } else {
          end := AlignUp(end, tab[k].align);
          bases := bases[k := end];
          end := end + tab[k].size;
        }
      }
    }
  }

  lemma SynthesizedValid(hdr: Header)
    requires hdr.codeSize + hdr.dataSize < LIMIT
    requires hdr.codeSize % 4 == 0 && hdr.dataSize % 4 == 0 && hdr.bssSize % 4 == 0
    ensures ValidTable(Synthesized(hdr))
  {
    var tab := Synthesized(hdr);
    assert IsPow2(4) by { assert IsPow2(2); assert IsPow2(1); }
    assert Follows(tab[0], tab[1]) && Follows(tab[1], tab[2]);
  }

  /** On the made-up view the generic layout is the loader's closed formulas, for word-multiple sizes. */
  lemma SynthesizedAgrees(hdr: Header, mode: Mode)
    requires hdr.codeSize + hdr.dataSize < LIMIT
    requires hdr.codeSize % 4 == 0 && hdr.dataSize % 4 == 0 && hdr.bssSize % 4 == 0
    ensures ValidTable(Synthesized(hdr))
    ensures !mode.Xip? ==> MainOffset(hdr, Synthesized(hdr), mode, 0) == FlatCodeOffset(hdr, mode)
    ensures MainOffset(hdr, Synthesized(hdr), mode, 1) == FlatDataOffset(hdr, mode)
    ensures MainOffset(hdr, Synthesized(hdr), mode, 2) == FlatBssOffset(hdr, mode)
    ensures RamSize(hdr, Synthesized(hdr), mode) == RamSize(hdr, [], mode)
  {
    SynthesizedValid(hdr);
    hide ValidTable, AlignUp;
    AllFours(Synthesized(hdr), MainStart(hdr, Synthesized(hdr), mode), FirstMain(mode));
  }

  lemma AllFours(tab: seq<Section>, start: int, first: int)
    requires start >= 0 && start % 4 == 0 && 0 <= first <= 1
    requires forall i :: 0 <= i < 3 ==> Sec(tab, i).align == 4 && Sec(tab, i).size % 4 == 0
    ensures first == 0 ==> AlignUp(LaidOut(tab, start, first, 0), 4) == start
    ensures var dataOff := if first == 0 then start + Sec(tab, 0).size else start;
      && AlignUp(LaidOut(tab, start, first, 1), 4) == dataOff
      && AlignUp(LaidOut(tab, start, first, 2), 4) == dataOff + Sec(tab, 1).size
      && LaidOut(tab, start, first, 3) == dataOff + Sec(tab, 1).size + Sec(tab, 2).size
  {
    hide AlignUp;
    var dataOff := if first == 0 then start + Sec(tab, 0).size else start;
    UpToFour(start);
    UpToFour(dataOff);
    UpToFour(dataOff + Sec(tab, 1).size);
    assert LaidOut(tab, start, first, 0) == start;
    assert LaidOut(tab, start, first, 1) == dataOff;
    assert LaidOut(tab, start, first, 2) == dataOff + Sec(tab, 1).size;
  }

  lemma UpToFour(x: int)
    requires x >= 0 && x % 4 == 0
    ensures AlignUp(x, 4) == x
  {
    assert IsPow2(4) by { assert IsPow2(2) && IsPow2(1); }
    FourAligned(x);
    hide AlignUp, Aligned;
    AlignUpIdentity(x, 4);
  }
}
