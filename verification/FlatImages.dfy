// Images with and without a section table: for main sections only, all 4-aligned, resolving a flat
// link address through the section map is the location-bit rule of an image without a table.

module FlatImages {
  import opened Words
  import opened Image
  import opened Sections
  import opened AddressMap
  import opened Layout
  import opened Placement
  import opened Relocation

  /** The same module: `tabled` has an accepted table of three 4-aligned main sections, `flat` has none. */
  predicate SameModule(tabled: Image, flat: Image) {
    && flat.tab == []
    && tabled.hdr.codeSize == flat.hdr.codeSize && tabled.hdr.dataSize == flat.hdr.dataSize
    && tabled.hdr.bssSize == flat.hdr.bssSize && tabled.hdr.numLot == flat.hdr.numLot
    && tabled.hdr.codeSize + tabled.hdr.dataSize < LIMIT
    && tabled.hdr.codeSize % 4 == 0 && tabled.hdr.dataSize % 4 == 0 && tabled.hdr.bssSize % 4 == 0
    && |tabled.tab| == 3 && EntriesOk(tabled.tab, [], false)
    && MainsMatch(tabled.hdr, tabled.tab[0], tabled.tab[1], tabled.tab[2])
    && forall k :: 0 <= k < 3 ==> tabled.tab[k].align == 4
  }

  /** Names and host flags play no part in where things go. */
  predicate SameShape(tab: seq<Section>, tab': seq<Section>) {
    && |tab| == |tab'|
    && forall k :: 0 <= k < |tab| ==> tab[k].va == tab'[k].va && tab[k].size == tab'[k].size && tab[k].align == tab'[k].align
  }

  lemma TableImplied(tabled: Image, flat: Image)
    requires SameModule(tabled, flat)
    ensures SameShape(tabled.tab, Synthesized(tabled.hdr))
  {
    hide AlignUp, EntryOk;
    var hdr := tabled.hdr;
    assert tabled.tab[0].va == 0;
    hide EntriesOk;
    UpToFour(hdr.codeSize);
    UpToFour(hdr.codeSize + hdr.dataSize);
  }

  lemma SameSizes(tabled: Image, flat: Image)
    requires SameModule(tabled, flat)
    ensures flat.tab == [] && |tabled.tab| == 3 && tabled.hdr.codeSize == flat.hdr.codeSize && tabled.hdr.dataSize == flat.hdr.dataSize
  {
    hide EntriesOk, MainsMatch;
  }

  lemma {:induction false} LaidOutSame(tab: seq<Section>, tab': seq<Section>, start: int, first: int, i: int)
    requires SameShape(tab, tab')
    ensures LaidOut(tab, start, first, i) == LaidOut(tab', start, first, i)
    decreases i - first
  {
    if i <= first {
    } else {
      LaidOutSame(tab, tab', start, first, i - 1);
      hide AlignUp;
    }
  }

  lemma OffsetsSame(hdr: Header, tab: seq<Section>, tab': seq<Section>, mode: Mode, k: int)
    requires SameShape(tab, tab')
    ensures MainOffset(hdr, tab, mode, k) == MainOffset(hdr, tab', mode, k)
  {
    hide AlignUp, LaidOut, CodeOffset;
    LaidOutSame(tab, tab', MainStart(hdr, tab, mode), FirstMain(mode), k);
  }

  lemma {:induction false} FindSame(tab: seq<Section>, tab': seq<Section>, va: int, i: nat)
    requires SameShape(tab, tab') && i <= |tab|
    ensures FindFrom(tab, va, i) == FindFrom(tab', va, i)
    decreases |tab| - i
  {
    if i == |tab| {
    } else {
      FindSame(tab, tab', va, i + 1);
    }
  }

  /** By how much COPY_ALL's copied section table pushes the sections back. */
  function TableShift(tabled: Image, flat: Image, mode: Mode): int {
    if mode.CopyAll? then CodeOffset(tabled.hdr) - CodeOffset(flat.hdr) else 0
  }

  lemma SameBases(tabled: Image, flat: Image, p: Placement)
    requires SameModule(tabled, flat)
    ensures ValidTable(tabled.tab) && Sorted(tabled.tab)
    ensures !p.mode.Xip? ==> Base(tabled, p, 0) == CodeBase(flat, p) + TableShift(tabled, flat, p.mode)
    ensures p.mode.Xip? ==> Base(tabled, p, 0) == CodeBase(flat, p)
    ensures Base(tabled, p, 1) == DataBase(flat, p) + TableShift(tabled, flat, p.mode)
    ensures Base(tabled, p, 2) == Base(tabled, p, 1) + tabled.hdr.dataSize
  {
    TableImplied(tabled, flat);
    hide MainOffset, CodeOffset, EntryOk;
    SynthesizedAgrees(tabled.hdr, p.mode);
    var implied := Synthesized(tabled.hdr);
    OffsetsSame(tabled.hdr, tabled.tab, implied, p.mode, 0);
    OffsetsSame(tabled.hdr, tabled.tab, implied, p.mode, 1);
    OffsetsSame(tabled.hdr, tabled.tab, implied, p.mode, 2);
  }

  /** Symbols: a code address v keeps its offset from the code base, a data or .bss address v its
      offset v - codeSize from the data base - the arena-relative value a flat image stores. */
  lemma SymbolsAgree(tabled: Image, flat: Image, p: Placement, v: Word, sym: Symbol)
    requires SameModule(tabled, flat)
    requires v < tabled.hdr.codeSize + tabled.hdr.dataSize + tabled.hdr.bssSize
    requires sym.inCode == (v < tabled.hdr.codeSize)
    requires sym.val == if sym.inCode then v else v - tabled.hdr.codeSize
    ensures Runtime(tabled, p, v).Some? && Default(flat, p, sym).Some?
    ensures var shift := if sym.inCode && p.mode.Xip? then 0 else TableShift(tabled, flat, p.mode);
      Runtime(tabled, p, v).value == Wrap(Default(flat, p, sym).value + shift)
  {
    hide MainOffset, CodeOffset, Base, CodeBase, DataBase, Find, ValidTable, TableShift, SameModule, Sorted;
    SameBases(tabled, flat, p);
    SameSizes(tabled, flat);
    FindMain(tabled, flat, v);
  }

  lemma FindMain(tabled: Image, flat: Image, v: Word)
    requires SameModule(tabled, flat)
    requires v < tabled.hdr.codeSize + tabled.hdr.dataSize + tabled.hdr.bssSize
    ensures var k := if v < tabled.hdr.codeSize then 0 else if v < tabled.hdr.codeSize + tabled.hdr.dataSize then 1 else 2;
      Find(tabled.tab, v) == k && Sec(tabled.tab, k).va == Sec(Synthesized(tabled.hdr), k).va
  {
    TableImplied(tabled, flat);
    hide SameModule;
    var tab := Synthesized(tabled.hdr);
    FindSame(tabled.tab, tab, v, 0);
    assert FindFrom(tab, v, 1) == if v < tab[1].va then -1 else if v < tab[2].va then 1 else FindFrom(tab, v, 2);
  }

  /** Relocation targets: a lot offset that an image without a table accepts names the same LOT slot or the
      same word of .data in the image with one, and one past .data is refused. */
  lemma TargetsAgree(tabled: Image, flat: Image, p: Placement, lotOffset: nat)
    requires SameModule(tabled, flat)
    ensures TargetLoc(flat, p.mode, lotOffset).Some? <==> lotOffset < flat.hdr.numLot + flat.hdr.dataSize / 4
    ensures lotOffset < flat.hdr.numLot ==> TargetLoc(tabled, p.mode, lotOffset) == TargetLoc(flat, p.mode, lotOffset) == Some(Block(4 * lotOffset))
    ensures flat.hdr.numLot <= lotOffset < flat.hdr.numLot + flat.hdr.dataSize / 4 ==>
      && TargetLoc(tabled, p.mode, lotOffset).Some?
      && Slot(p, TargetLoc(flat, p.mode, lotOffset).value) == DataBase(flat, p) + 4 * (lotOffset - flat.hdr.numLot)
      && Slot(p, TargetLoc(tabled, p.mode, lotOffset).value) ==
           Slot(p, TargetLoc(flat, p.mode, lotOffset).value) + TableShift(tabled, flat, p.mode)
  {
    hide MainOffset, CodeOffset, CodeBase, Find, ValidTable, TableShift, Sorted, FlatDataOffset;
    SameSizes(tabled, flat);
    SameBases(tabled, flat, p);
    if flat.hdr.numLot <= lotOffset < flat.hdr.numLot + flat.hdr.dataSize / 4 {
      var off := 4 * (lotOffset - flat.hdr.numLot);
      DataIsSecond(tabled, flat);
      assert tabled.tab[1].va + off < LIMIT;
      EveryWordIsTarget(tabled, p.mode, 1, off, 0);
    }
  }

  lemma DataIsSecond(tabled: Image, flat: Image)
    requires SameModule(tabled, flat)
    ensures |tabled.tab| == 3 && tabled.tab[1].va == tabled.hdr.codeSize && tabled.tab[1].size == tabled.hdr.dataSize
    ensures tabled.tab[1].cls != BSS && Shaped(tabled)
  {
    TableImplied(tabled, flat);
    assert ValidTable(tabled.tab) by { SameBases(tabled, flat, Placement(CopyAll, 0, 0, [])); }
    hide AlignUp, EntriesOk;
  }

  /** In-place words: both relocation forms - the .data form with addend code_size, the code form for
      .text - write the word the section map gives, up to the shift of COPY_ALL's longer metadata. */
  lemma InPlaceAgrees(tabled: Image, flat: Image, p: Placement, rel: Rel, v: Word)
    requires SameModule(tabled, flat) && InPlace(rel)
    requires v < tabled.hdr.codeSize + tabled.hdr.dataSize + tabled.hdr.bssSize
    requires DataForm(rel) ==> v >= tabled.hdr.codeSize && rel.value % 0x8000_0000 == tabled.hdr.codeSize
    requires CodeForm(rel) ==> v < tabled.hdr.codeSize
    ensures InPlaceWord(tabled, p, rel, v).Some? && InPlaceWord(flat, p, rel, v).Some?
    ensures var shift := if CodeForm(rel) && p.mode.Xip? then 0 else TableShift(tabled, flat, p.mode);
      InPlaceWord(tabled, p, rel, v).value == Wrap(InPlaceWord(flat, p, rel, v).value + shift)
    ensures !p.mode.CopyAll? ==> InPlaceWord(tabled, p, rel, v) == InPlaceWord(flat, p, rel, v)
  {
    hide EntriesOk, MainsMatch, CodeBase, DataBase, TableShift, Runtime, Wrap, DataForm, CodeForm, InPlaceWord;
    SameSizes(tabled, flat);
    FormsOfWord(tabled, flat, p, rel, v);
    RuntimeOfMain(tabled, flat, p, v);
    NoShift(tabled, flat, p.mode);
    hide SameModule;
    var shift := if CodeForm(rel) && p.mode.Xip? then 0 else TableShift(tabled, flat, p.mode);
    var base := if CodeForm(rel) then CodeBase(flat, p) else DataBase(flat, p) - tabled.hdr.codeSize;
    assert InPlaceWord(flat, p, rel, v) == Some(Wrap(v + base));
    assert InPlaceWord(tabled, p, rel, v) == Some(Wrap(v + base + shift));
    ShiftedSum(v, base, shift);
    assert shift == 0 ==> v + base + shift == v + base;
  }

  lemma NoShift(tabled: Image, flat: Image, mode: Mode)
    ensures !mode.CopyAll? ==> TableShift(tabled, flat, mode) == 0
  {}

  /** What the two forms write, with and without a table. */
  lemma FormsOfWord(tabled: Image, flat: Image, p: Placement, rel: Rel, v: Word)
    requires flat.tab == [] && tabled.tab != [] && InPlace(rel)
    ensures InPlaceWord(tabled, p, rel, v) == Runtime(tabled, p, v)
    ensures CodeForm(rel) ==> !DataForm(rel) && InPlaceWord(flat, p, rel, v) == Some(Wrap(v + CodeBase(flat, p)))
    ensures DataForm(rel) ==> InPlaceWord(flat, p, rel, v) == Some(Wrap(v + (DataBase(flat, p) - rel.value % 0x8000_0000)))
  {
    hide CodeBase, DataBase, Runtime, Wrap;
    assert v + DataBase(flat, p) - rel.value % 0x8000_0000 == v + (DataBase(flat, p) - rel.value % 0x8000_0000);
  }

  lemma RuntimeOfMain(tabled: Image, flat: Image, p: Placement, v: Word)
    requires SameModule(tabled, flat) && v < tabled.hdr.codeSize + tabled.hdr.dataSize + tabled.hdr.bssSize
    ensures v < tabled.hdr.codeSize ==>
      Runtime(tabled, p, v) == Some(Wrap(v + CodeBase(flat, p) + (if p.mode.Xip? then 0 else TableShift(tabled, flat, p.mode))))
    ensures v >= tabled.hdr.codeSize ==>
      Runtime(tabled, p, v) == Some(Wrap(v + (DataBase(flat, p) - tabled.hdr.codeSize) + TableShift(tabled, flat, p.mode)))
  {
    hide MainOffset, CodeOffset, Base, CodeBase, DataBase, Find, ValidTable, SameModule, Sorted, TableShift, Wrap;
    SameBases(tabled, flat, p);
    SameSizes(tabled, flat);
    FindMain(tabled, flat, v);
  }

  lemma ShiftedSum(v: int, base: int, shift: int)
    ensures Wrap(Wrap(v + base) + shift) == Wrap(v + base + shift)
  {}
}
