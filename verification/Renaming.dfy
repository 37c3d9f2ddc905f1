// Loading is a renaming of link-time addresses to run-time addresses, and it leaves everything
// that is not a relocation target alone - the metadata above all.

module Renaming {
  import opened Words
  import opened Image
  import opened Sections
  import opened AddressMap
  import opened Layout
  import opened Placement
  import opened Relocation
  import opened Loaded

  /** The renaming on a section's own bytes: base plus offset, without wrap. */
  lemma RuntimeOfByte(img: Image, p: Placement, n: int, k: int, va: Word)
    requires Shaped(img) && img.tab != [] && ValidPlacement(img, p, n)
    requires 0 <= k < |img.tab| && InSection(Sec(img.tab, k), va)
    ensures Find(img.tab, va) == k
    ensures Runtime(img, p, va) == Some(Base(img, p, k) + (va - Sec(img.tab, k).va))
  {
    hide RamSize, MainOffset, Base, ValidPlacement;
    assert Sorted(img.tab);
    hide Shaped, ValidTable;
    FindInside(img.tab, k, va);
    RuntimeInRange(img, p, n, k);
  }

  /** Different bytes of the module's sections get different run-time addresses. */
  lemma RuntimeInjective(img: Image, p: Placement, n: int, va: Word, va': Word)
    requires Shaped(img) && img.tab != [] && ValidPlacement(img, p, n)
    requires LinkInside(img, va) && LinkInside(img, va')
    requires Runtime(img, p, va) == Runtime(img, p, va')
    ensures va == va'
  {
    hide RamSize, MainOffset, Base, ValidPlacement, Shaped, Runtime;
    var k, k' := Find(img.tab, va), Find(img.tab, va');
    RuntimeOfByte(img, p, n, k, va);
    RuntimeOfByte(img, p, n, k', va');
    RuntimeRangesApart(img, p, n, k, k', Runtime(img, p, va).value);
  }

  /** Entry i patches the word at link address va + off exactly when its target is that address. */
  lemma TargetIsAddress(img: Image, mode: Mode, k: int, off: int, i: nat)
    requires WellFormed(img) && img.tab != [] && i < |img.rels| && RelLoc(img, mode, i).Some?
    requires 0 <= k < |img.tab| && off % 4 == 0 && 0 <= off < Sec(img.tab, k).size && Sec(img.tab, k).va + off < LIMIT
    ensures RelLoc(img, mode, i) == Some(SectionLoc(img, mode, k, off))
      <==> LinkTarget(img, i) == VaWord(Sec(img.tab, k).va + off)
    ensures RelLoc(img, mode, i) == Some(SectionLoc(img, mode, k, off)) ==> Sec(img.tab, k).cls != BSS
  {
    hide RamSize, MainOffset, RelLoc, SectionLoc, Find;
    assert Sorted(img.tab) && TargetInside(img, i);
    hide Shaped;
    assert Shaped(img);
    hide WellFormed, ValidTable, TargetInside;
    FindInside(img.tab, k, Sec(img.tab, k).va + off);
    if LinkTarget(img, i).VaWord? {
      SectionTarget(img, mode, i);
      var va := LinkTarget(img, i).va;
      var k' := Find(img.tab, va);
      if RelLoc(img, mode, i) == Some(SectionLoc(img, mode, k, off)) {
        SectionLocInjective(img, mode, k, off, k', va - Sec(img.tab, k').va);
      }
    } else {
      LotTarget(img, mode, i);
      SectionWord(img, Placement(mode, 0, 0, []), k, off);
      FrontBeforeMains(img, mode);
    }
  }

  lemma FrontBeforeMains(img: Image, mode: Mode)
    ensures 4 * img.hdr.numLot <= MainStart(img.hdr, img.tab, mode)
  {}

  /** What a symbol relocation must put into its word. */
  predicate SymbolWord(img: Image, p: Placement, resolve: Resolver, sym: Symbol, w: Word, was: Word) {
    var own := Runtime(img, p, sym.val);
    var host := resolve(sym.name);
    if sym.kind == INTERNAL || sym.kind == EXPORTED then own == Some(w)
    else if sym.kind == WEAK then own.Some? && w == (if host > DEFERRED then host else own.value)
    else if sym.kind == EXTERN then host != 0 && w == (if host == DEFERRED then 0 else host)
    else sym.kind != MODULE_NAME && w == was
  }

  /** What entry i must put at the run-time address of the link address it patches. */
  predicate EntryRenames(img: Image, p: Placement, resolve: Resolver, i: nat, was: Word, now: Word)
    requires i < |img.rels|
  {
    if InPlace(img.rels[i]) then Runtime(img, p, was) == Some(now)
    else
      match ImageSym(img, img.rels[i].value)
      case None => false
      case Some(sym) => SymbolWord(img, p, resolve, sym, now, was)
  }

  predicate Relocated(img: Image, v: int) {
    exists i :: 0 <= i < |img.rels| && LinkTarget(img, i) == VaWord(v)
  }

  /** A loaded module is a renaming of its link-time contents: the word at the run-time address of
      link address v is the renamed link-time word if v is relocated in place, the symbol's address
      if a symbol is bound there, and the link-time word otherwise; .bss is never patched. */
  lemma LoadIsRenaming(img: Image, p: Placement, resolve: Resolver, c: Contents, m: seq<Word>,
                       k: int, off: int, v: Word, was: Word, now: Word)
    requires WellFormed(img) && img.tab != [] && ValidPlacement(img, p, |m|)
    requires Represents(img, p, resolve, c, m)
    requires 0 <= k < |img.tab| && off % 4 == 0 && 0 <= off < Sec(img.tab, k).size && v == Sec(img.tab, k).va + off
    requires was == Cell(c, SectionLoc(img, p.mode, k, off)) && now == Get(m, Base(img, p, k) + off)
    ensures Runtime(img, p, v) == Some(Base(img, p, k) + off)
    ensures forall i :: 0 <= i < |img.rels| && LinkTarget(img, i) == VaWord(v) ==>
      EntryRenames(img, p, resolve, i, was, now)
    ensures !Relocated(img, v) ==> now == was
    ensures Sec(img.tab, k).cls == BSS ==> !Relocated(img, v)
  {
    hide RamSize, MainOffset, RelLoc, SectionLoc, LinkTarget, Base, Get, Cell, InBounds, IsBaseSlot, Shaped, Runtime;
    assert Shaped(img);
    hide WellFormed, ValidPlacement, BasesIn, LoadWord, EntryRenames;
    var loc := SectionLoc(img, p.mode, k, off);
    RuntimeOfByte(img, p, |m|, k, v);
    SectionWord(img, p, k, off);
    forall i | 0 <= i < |img.rels|
      ensures RelLoc(img, p.mode, i) == Some(loc) <==> LinkTarget(img, i) == VaWord(v)
      ensures RelLoc(img, p.mode, i) == Some(loc) ==> Sec(img.tab, k).cls != BSS
      ensures RelLoc(img, p.mode, i) == Some(loc) ==> EntryRenames(img, p, resolve, i, was, now)
    {
      assert TargetHolds(img, p, resolve, c, m, i);
      TargetIsAddress(img, p.mode, k, off, i);
      if RelLoc(img, p.mode, i) == Some(loc) { LoadWordRenames(img, p, resolve, i, was); }
    }
  }

  /** The load-time effect on one word, in terms of the renaming. */
  lemma LoadWordRenames(img: Image, p: Placement, resolve: Resolver, i: nat, was: Word)
    requires i < |img.rels| && img.tab != [] && !LoadWord(img, p, resolve, img.rels[i], was).Fail?
    ensures EntryRenames(img, p, resolve, i, was, Apply(LoadWord(img, p, resolve, img.rels[i], was), was))
  {
    hide Runtime, ImageSym;
  }

  /** Each LOT slot named by a relocation holds its symbol's run-time or host address. */
  lemma LotSlotsBound(img: Image, p: Placement, resolve: Resolver, c: Contents, m: seq<Word>, i: nat)
    requires img.tab != [] && Represents(img, p, resolve, c, m)
    requires i < |img.rels| && LinkTarget(img, i).LotWord?
    ensures !InPlace(img.rels[i])
    ensures EntryRenames(img, p, resolve, i, Cell(c, Block(4 * img.rels[i].lotOffset)),
                         Get(m, p.ram + 4 * img.rels[i].lotOffset))
  {
    hide RamSize, MainOffset, Get, Cell, Runtime, Find, EntryRenames, ImageSym, BasesIn;
    assert TargetHolds(img, p, resolve, c, m, i);
    LoadWordRenames(img, p, resolve, i, Cell(c, Block(4 * img.rels[i].lotOffset)));
  }

  // ----- the frame -----

  /** Bytes a relocation may patch: LOT slots and CODE/DATA sections (without a table: .data). */
  predicate Patchable(img: Image, p: Placement, addr: int) {
    || p.ram <= addr < p.ram + 4 * img.hdr.numLot
    || (exists k :: 0 <= k < |img.tab| && Sec(img.tab, k).cls != BSS
          && Base(img, p, k) <= addr < Base(img, p, k) + Sec(img.tab, k).size)
    || (img.tab == [] && DataBase(img, p) <= addr < DataBase(img, p) + img.hdr.dataSize)
  }

  lemma HitIsPatchable(img: Image, p: Placement, n: int, addr: int, j: int)
    requires WellFormed(img) && ValidPlacement(img, p, n) && addr % 4 == 0 && Hits(img, p, j, addr)
    ensures Patchable(img, p, addr)
  {
    hide RamSize, MainOffset, FlatDataOffset, Find;
    assert TargetInside(img, j);
    hide Shaped;
    assert Shaped(img);
    hide WellFormed, TargetInside;
    TargetInMemory(img, p, n, j);
    SlotInMemory(img, p, n, RelLoc(img, p.mode, j).value);
    if LinkTarget(img, j).VaWord? && img.tab != [] {
      hide ValidPlacement, InBounds, IsBaseSlot, RelLoc, SectionLoc;
      SectionTarget(img, p.mode, j);
      var va := LinkTarget(img, j).va;
      var k := Find(img.tab, va);
      SectionWord(img, p, k, va - Sec(img.tab, k).va);
    }
  }

  /** Whether it succeeds or stops in the middle, the load-time walk changes nothing else. */
  lemma RelocationFrame(img: Image, p: Placement, resolve: Resolver, m: seq<Word>, addr: int)
    requires WellFormed(img) && ValidPlacement(img, p, |m|)
    requires addr % 4 == 0 && !Patchable(img, p, addr)
    ensures Get(Walk(img, Loading(p, resolve), m, 0).1, addr) == Get(m, addr)
  {
    hide Walk, Get, Patchable, WellFormed, ValidPlacement, Hits;
    forall j | 0 <= j < |img.rels|
      ensures !Hits(img, p, j, addr)
    {
      if Hits(img, p, j, addr) { HitIsPatchable(img, p, |m|, addr, j); }
    }
    WalkFrame(img, Loading(p, resolve), m, 0, addr);
  }

  /** Addresses in front of the main sections, and addresses outside the module, are not patchable. */
  predicate Outside(img: Image, p: Placement, addr: int) {
    && !(p.ram <= addr < p.ram + RamSize(img.hdr, img.tab, p.mode))
    && !(p.text <= addr < p.text + TextSize(img, p.mode))
    && (forall k :: 3 <= k < |img.tab| ==> !(TaggedBase(p, k) <= addr < TaggedBase(p, k) + Sec(img.tab, k).size))
  }

  predicate InFront(img: Image, p: Placement, addr: int) {
    p.ram + 4 * img.hdr.numLot <= addr < p.ram + MainStart(img.hdr, img.tab, p.mode)
  }

  lemma NotPatchable(img: Image, p: Placement, n: int, addr: int)
    requires Shaped(img) && ValidPlacement(img, p, n)
    requires Outside(img, p, addr) || InFront(img, p, addr)
    ensures !Patchable(img, p, addr)
  {
    hide RamSize, MainOffset, Shaped;
    BlockWords(img, p.mode);
    forall k | 0 <= k < |img.tab|
      ensures !(Base(img, p, k) <= addr < Base(img, p, k) + Sec(img.tab, k).size)
    {
      SectionNotAt(img, p, n, addr, k);
    }
    if img.tab == [] { FlatDataPlaced(img, p); }
  }

  lemma FlatDataPlaced(img: Image, p: Placement)
    requires img.tab == []
    ensures p.ram + MainStart(img.hdr, img.tab, p.mode) <= DataBase(img, p)
    ensures DataBase(img, p) + img.hdr.dataSize <= p.ram + RamSize(img.hdr, img.tab, p.mode)
  {
    hide CodeOffset, LaidOut;
  }

  lemma SectionNotAt(img: Image, p: Placement, n: int, addr: int, k: int)
    requires Shaped(img) && ValidPlacement(img, p, n) && 0 <= k < |img.tab|
    requires Outside(img, p, addr) || InFront(img, p, addr)
    ensures !(Base(img, p, k) <= addr < Base(img, p, k) + Sec(img.tab, k).size)
  {
    hide RamSize, MainOffset, ValidTable, MainStart;
    assert ValidTable(img.tab);
    hide Shaped;
    TabledBlockWords(img, p.mode);
    if InBlock(p, k) {
      MainInBlock(img, p, k);
      SectionPlaced(img.hdr, img.tab, p.mode, k);
    } else if k >= 3 {
      assert TaggedPlaced(img, p, n, k);
    }
  }

  // ----- the image in memory -----

  /** The image decoded at address h, or None if its section table is rejected. */
  function ImageAt(m: seq<Word>, h: int): Option<Image> {
    var w := if h < 0 then 0 else h / 4;
    var hdr := HeaderAt(m, w);
    match Sectab(m, w, false)
    case None => None
    case Some(tab) =>
      Some(Image(hdr, seq<Rel>(hdr.numRels, (i: int) requires 0 <= i => RelAt(m, w, hdr, i)), SymtWords(m, w, hdr), tab))
  }

  predicate SameWord(m: seq<Word>, w: int, m': seq<Word>, w': int, j: int) {
    At(m', w' + j) == At(m, w + j)
  }

  predicate SameWords(m: seq<Word>, w: int, m': seq<Word>, w': int, n: int) {
    forall j :: 0 <= j < n ==> SameWord(m, w, m', w', j)
  }

  /** Decoding depends on the metadata words alone, once the table has its three main sections. */
  lemma ImageFrame(m: seq<Word>, h: int, m': seq<Word>, h': int)
    requires 0 <= h && 0 <= h'
    requires ImageAt(m, h).Some? && (ImageAt(m, h).value.tab == [] || |ImageAt(m, h).value.tab| >= 3)
    requires SameWords(m, h / 4, m', h' / 4, CodeOffset(ImageAt(m, h).value.hdr) / 4)
    ensures ImageAt(m', h') == ImageAt(m, h)
  {
    var w, w' := h / 4, h' / 4;
    var hdr := HeaderAt(m, w);
    hide CodeOffset, EntriesOk, SymtWords, Entries;
    HeaderFrame(m, w, m', w', CodeOffset(hdr) / 4);
    SymtFrame(m, w, m', w', hdr);
    RelsFrame(m, w, m', w', hdr);
    if IsSectioned(hdr) {
      SectionsFrame(m, w, m', w', hdr, NumSections(hdr));
      SectionsFrame(m, w, m', w', hdr, 3);
    }
  }

  lemma HeaderFrame(m: seq<Word>, w: nat, m': seq<Word>, w': nat, n: int)
    requires n >= 8 && SameWords(m, w, m', w', n)
    ensures HeaderAt(m', w') == HeaderAt(m, w)
  {
    assert SameWord(m, w, m', w', 0) && SameWord(m, w, m', w', 1) && SameWord(m, w, m', w', 2)
        && SameWord(m, w, m', w', 3) && SameWord(m, w, m', w', 4) && SameWord(m, w, m', w', 5)
        && SameWord(m, w, m', w', 6) && SameWord(m, w, m', w', 7);
  }

  lemma SymtFrame(m: seq<Word>, w: nat, m': seq<Word>, w': nat, hdr: Header)
    requires SameWords(m, w, m', w', CodeOffset(hdr) / 4)
    ensures SymtWords(m', w', hdr) == SymtWords(m, w, hdr)
  {
    var n := (hdr.symtSize + 3) / 4;
    forall i: int | 0 <= i < n
      ensures SymtWords(m', w', hdr)[i] == SymtWords(m, w, hdr)[i]
    {
      SymtIndex(hdr, i);
      assert SameWord(m, w, m', w', SymtabOffset(hdr) / 4 + i);
    }
  }

  lemma SymtIndex(hdr: Header, i: int)
    requires 0 <= i < (hdr.symtSize + 3) / 4
    ensures 0 <= SymtabOffset(hdr) / 4 + i < CodeOffset(hdr) / 4
  {}

  lemma RelsFrame(m: seq<Word>, w: nat, m': seq<Word>, w': nat, hdr: Header)
    requires SameWords(m, w, m', w', CodeOffset(hdr) / 4)
    ensures seq<Rel>(hdr.numRels, (i: int) requires 0 <= i => RelAt(m', w', hdr, i))
         == seq<Rel>(hdr.numRels, (i: int) requires 0 <= i => RelAt(m, w, hdr, i))
  {
    forall i: nat | i < hdr.numRels
      ensures RelAt(m', w', hdr, i) == RelAt(m, w, hdr, i)
    {
      var j := HeaderSize(hdr) / 4 + 2 * i;
      RelIndex(hdr, i);
      hide CodeOffset;
      assert SameWord(m, w, m', w', j) && SameWord(m, w, m', w', j + 1);
    }
  }

  lemma RelIndex(hdr: Header, i: nat)
    requires i < hdr.numRels
    ensures HeaderSize(hdr) / 4 + 2 * i + 1 < CodeOffset(hdr) / 4
  {}

  lemma SectionsFrame(m: seq<Word>, w: nat, m': seq<Word>, w': nat, hdr: Header, n: nat)
    requires SameWords(m, w, m', w', CodeOffset(hdr) / 4)
    requires n <= NumSections(hdr)
    ensures Entries(m', w', hdr, n) == Entries(m, w, hdr, n)
  {
    forall i: nat | i < n
      ensures SectionAt(m', w', hdr, i) == SectionAt(m, w, hdr, i)
    {
      var j := SectabOffset(hdr) / 4 + 6 * i;
      SectionIndex(hdr, i);
      hide CodeOffset, SectabOffset;
      assert SameWord(m, w, m', w', j) && SameWord(m, w, m', w', j + 1) && SameWord(m, w, m', w', j + 2)
          && SameWord(m, w, m', w', j + 3) && SameWord(m, w, m', w', j + 4) && SameWord(m, w, m', w', j + 5);
    }
  }

  lemma SectionIndex(hdr: Header, i: nat)
    requires i < NumSections(hdr)
    ensures SectabOffset(hdr) / 4 + 6 * i + 5 < CodeOffset(hdr) / 4
  {}

  /** Metadata that lies in front of the main sections or outside the module survives relocation:
      parsing it again gives the image that was validated before the load. */
  lemma MetadataSurvives(img: Image, p: Placement, resolve: Resolver, m: seq<Word>, h: int)
    requires WellFormed(img) && ValidPlacement(img, p, |m|)
    requires 0 <= h && h % 4 == 0 && ImageAt(m, h) == Some(img)
    requires forall a :: h <= a < h + CodeOffset(img.hdr) ==> Outside(img, p, a) || InFront(img, p, a)
    ensures ImageAt(Walk(img, Loading(p, resolve), m, 0).1, h) == Some(img)
  {
    hide RamSize, MainOffset, Walk, Outside, InFront, ValidPlacement, Shaped, ImageAt;
    assert Shaped(img) && (img.tab == [] || |img.tab| >= 3) by { ShapedHasMains(img); }
    hide WellFormed;
    var m' := Walk(img, Loading(p, resolve), m, 0).1;
    forall j | 0 <= j < CodeOffset(img.hdr) / 4
      ensures SameWord(m, h / 4, m', h / 4, j)
    {
      var a := h + 4 * j;
      assert Outside(img, p, a) || InFront(img, p, a);
      NotPatchable(img, p, |m|, a);
      RelocationFrame(img, p, resolve, m, a);
      assert a / 4 == h / 4 + j;
    }
    ImageFrame(m, h, m', h);
  }

  lemma ShapedHasMains(img: Image)
    requires Shaped(img)
    ensures img.tab == [] || |img.tab| >= 3
  {}
}
