// A small module with a word of .data that names the end of .data, an address in the padding before .bss, and
// one section of its own placement. It is decoded, placed, loaded and moved.

module PaddedModule {
  import opened Words
  import opened Image
  import opened Sections
  import opened AddressMap
  import opened Layout
  import opened Placement
  import opened Relocation
  import opened Loaded
  import opened Renaming
  import opened Moving
  import opened Memory
  import opened Handle
  import opened Walks
  import opened Ownership
  import opened Staging
  import opened Mover

  // ----- the image -----

  function Table(): seq<Section> {
    [Section(0, 0, 4, 4, CODE, 0x8000_0000), Section(0, 4, 4, 4, DATA, 0x8000_0000), Section(0, 16, 4, 16, BSS, 0x8000_0000),
     Section(12, 0x1000, 4, 4, DATA, 0)]
  }

  /** A LOT of two slots; the first word of .data is relocated in place. */
  function PaddedImage(): Image {
    Image(Header(SIGN, 0x301, 2, 1, 9, 16, 4, 4, 4), [Rel(2, 0x8000_0000)], [1, 0x1800_000C, 0, 0], Table())
  }

  function Metadata(): seq<Word> {
    [SIGN, 0x301_0000, 0x2_0000, 0x9_0001, 16, 4, 4, 4, 2, 0x8000_0000, 1, 0x1800_000C, 0, 0,
     0, 0, 4, 4, CODE, 0x8000_0000, 0, 4, 4, 4, DATA, 0x8000_0000, 0, 16, 4, 16, BSS, 0x8000_0000, 12, 0x1000, 4, 4, DATA, 0]
  }

  lemma DecodedHeader()
    ensures HeaderAt(Metadata(), 0) == PaddedImage().hdr
  {}

  lemma HeaderSizes()
    ensures var hdr := PaddedImage().hdr;
      && HeaderSize(hdr) == 32 && SymtabOffset(hdr) == 40 && SectabOffset(hdr) == 56
      && NumSections(hdr) == 4 && IsSectioned(hdr) && CodeOffset(hdr) == 152 && HeaderOk(hdr)
  {}

  lemma DecodedEntry(k: nat)
    requires k < 4
    ensures SectionAt(Metadata(), 0, PaddedImage().hdr, k) == Table()[k]
  {
    HeaderSizes();
    hide SectabOffset;
  }

  lemma DecodedTables()
    ensures SymtWords(Metadata(), 0, PaddedImage().hdr) == PaddedImage().symt
    ensures RelAt(Metadata(), 0, PaddedImage().hdr, 0) == Rel(2, 0x8000_0000)
  {
    HeaderSizes();
    hide HeaderSize, SymtabOffset;
  }

  lemma UpEight()
    ensures AlignUp(8, 16) == 16
  {
    assert And(2, 1) == 0 && And(5, 3) == 1 && And(11, 7) == 3 && And(23, 15) == 7;
  }

  lemma UpTwenty()
    ensures AlignUp(20, 16) == 32
  {
    assert And(4, 1) == 0 && And(8, 3) == 0 && And(17, 7) == 1 && And(35, 15) == 3;
  }

  /** The roundings the layout needs. */
  lemma Rounded()
    ensures AlignUp(4, 4) == 4 && AlignUp(12, 4) == 12 && AlignUp(16, 4) == 16 && AlignUp(8, 16) == 16 && AlignUp(20, 16) == 32
  {
    hide AlignUp;
    UpToFour(4);
    UpToFour(12);
    UpToFour(16);
    UpEight();
    UpTwenty();
  }

  lemma SixteenAligned()
    ensures Aligned(16, 16) && Aligned(64, 16) && !Aligned(68, 16) && Aligned(60, 4)
  {
    assert And(4, 3) == 0 && And(8, 7) == 0 && And(15, 3) == 3 && And(60, 3) == 0;
    assert And(8, 1) == 0 && And(16, 3) == 0 && And(32, 7) == 0 && And(17, 3) == 1 && And(34, 7) == 2;
  }

  lemma Powers()
    ensures IsPow2(4) && IsPow2(16)
  {
    assert IsPow2(1) && IsPow2(2) && IsPow2(4) && IsPow2(8);
  }

  lemma TableOk()
    ensures ValidTable(Table()) && forall pool: seq<Byte> :: EntriesOk(Table(), pool, false)
  {
    Powers();
    hide IsPow2, NameOk;
    var tab := Table();
    assert Follows(tab[0], tab[1]) && Follows(tab[1], tab[2]) && Follows(tab[2], tab[3]);
  }

  lemma MainsOk()
    ensures var tab := Table(); MainsMatch(PaddedImage().hdr, tab[0], tab[1], tab[2])
  {
    Rounded();
    hide AlignUp;
  }

  lemma DecodedEntries()
    ensures var (m, hdr) := (Metadata(), PaddedImage().hdr);
      && Entries(m, 0, hdr, 4) == Table()
      && (forall k :: 0 <= k < 3 ==> Entries(m, 0, hdr, 3)[k] == Table()[k])
  {
    DecodedEntry(0);
    DecodedEntry(1);
    DecodedEntry(2);
    DecodedEntry(3);
    TableEntries();
    hide SectionAt, PaddedImage, Metadata, Table;
    var m, hdr := Metadata(), PaddedImage().hdr;
    forall k | 0 <= k < 4
      ensures Entries(m, 0, hdr, 4)[k] == Table()[k]
    {
    }
  }

  lemma DecodedTable()
    ensures Sectab(Metadata(), 0, false) == Some(Table())
  {
    DecodedHeader();
    HeaderSizes();
    DecodedEntries();
    TableOk();
    MainsOk();
    hide HeaderAt, Entries, SymtWords, Pool, EntriesOk, MainsMatch, Metadata, NumSections, Table, HeaderOk, PaddedImage, IsSectioned,
      CodeOffset, SectabOffset, HeaderSize, SymtabOffset, ValidTable;
  }

  lemma TableEntries()
    ensures |PaddedImage().tab| == 4 && PaddedImage().tab == Table() && PaddedImage().hdr.numRels == |PaddedImage().rels| == 1
    ensures PaddedImage().rels[0] == Rel(2, 0x8000_0000) && Sec(Table(), 3).size == 4
  {}

  lemma Decoded()
    ensures ImageAt(Metadata(), 0) == Some(PaddedImage())
  {
    DecodedHeader();
    DecodedTables();
    DecodedTable();
    TableEntries();
    var img := PaddedImage();
    hide HeaderAt, Sectab, SymtWords, Metadata, RelAt, Table, PaddedImage;
    assert ImageAt(Metadata(), 0).value.rels == img.rels;
  }

  /** The block at 16, the section at 56 and a copy of it at 60. Not yet relocated: the word of .data, at 32,
      is the link address 8. */
  function Below(): seq<Word> {
    [0, 0, 0, 0, 0, 0, 56, 5, 8, 0, 0, 0, 0, 0, 0x77, 0x77, 0, 0, 0, 0, 0, 0, 0, 0, 0, 0, 0, 0]
  }

  /** ... and the image at 112. */
  function Staged(): seq<Word> {
    Below() + Metadata() + [5, 8, 0x77]
  }

  /** The image is found at 112 whatever is below it. */
  lemma ImageAbove(below: seq<Word>)
    requires |below| == 28
    ensures ImageAt(below + Metadata() + [5, 8, 0x77], 112) == Some(PaddedImage())
  {
    Decoded();
    HeaderSizes();
    assert |Metadata()| == 38;
    hide ImageAt, CodeOffset, Metadata;
    var m := below + Metadata() + [5, 8, 0x77];
    forall j | 0 <= j < 38
      ensures SameWord(Metadata(), 0, m, 28, j)
    {
    }
    ImageFrame(Metadata(), 0, m, 112);
  }

  // ----- its placements -----

  /** The block at `ram`, the tagged section at `base`. */
  function PlacedAt(ram: int, base: int): Placement {
    Placement(CopyTextData, ram, 264, [base])
  }

  lemma Sizes()
    ensures var (hdr, tab) := (PaddedImage().hdr, PaddedImage().tab);
      && MainOffset(hdr, tab, CopyTextData, 0) == 12 && MainOffset(hdr, tab, CopyTextData, 1) == 16
      && MainOffset(hdr, tab, CopyTextData, 2) == 32 && RamSize(hdr, tab, CopyTextData) == 36
      && MainAlign(tab) == 16 && CodeOffset(hdr) == 152 && BlockFront(PaddedImage()) == 12
  {
    Rounded();
    HeaderSizes();
    hide AlignUp, CodeOffset;
    var tab := Table();
    assert LaidOut(tab, 12, 0, 0) == 12;
    assert LaidOut(tab, 12, 0, 1) == 16;
    assert LaidOut(tab, 12, 0, 2) == 20;
  }

  lemma Bases(ram: int, base: int)
    ensures var (img, p) := (PaddedImage(), PlacedAt(ram, base));
      Base(img, p, 0) == ram + 12 && Base(img, p, 1) == ram + 16 && Base(img, p, 2) == ram + 32 && Base(img, p, 3) == base
  {
    Sizes();
    hide MainOffset;
  }

  lemma Shape()
    ensures WellFormed(PaddedImage())
  {
    TableOk();
    hide EntriesOk;
    assert TargetInside(PaddedImage(), 0);
  }

  lemma Fits(ram: int, base: int)
    requires ram in {16, 64, 68} && base in {56, 60}
    ensures ValidPlacement(PaddedImage(), PlacedAt(ram, base), 69)
  {
    Sizes();
    TableEntries();
    hide RamSize, MainOffset, MainAlign, CodeOffset, PaddedImage, Table, Sec;
  }

  /** The metadata is out of reach wherever the block is. */
  lemma MetaAbove(ram: int, base: int)
    requires ram in {16, 64, 68} && base in {56, 60}
    ensures MetaApart(PaddedImage(), PlacedAt(ram, base), 112)
  {
    Sizes();
    TableEntries();
    hide RamSize, MainOffset, MainAlign, CodeOffset, PaddedImage, Table, Sec;
  }

  // ----- the word that names the end of .data -----

  lemma Found()
    ensures Find(PaddedImage().tab, 4) == 1 && Find(PaddedImage().tab, 8) == 1
    ensures Sec(PaddedImage().tab, 1).va == 4 && Sec(PaddedImage().tab, 1).cls == DATA && !LinkInside(PaddedImage(), 8)
  {}

  lemma EndOfData(ram: int, base: int)
    requires 0 < ram < 100
    ensures Runtime(PaddedImage(), PlacedAt(ram, base), 8) == Some(ram + 20)
  {
    hide Find, Base, Sec;
    Found();
    Bases(ram, base);
  }

  lemma Target(p: Placement)
    requires p.mode == CopyTextData
    ensures |PaddedImage().rels| == 1 && RelLoc(PaddedImage(), p.mode, 0) == Some(Block(16))
  {
    hide Find, Sec, MainOffset, RamSize, MainAlign, CodeOffset, BlockFront;
    Found();
    Sizes();
  }

  lemma FourWords()
    ensures |PaddedImage().tab| == 4 && forall k :: 0 <= k < 4 ==> Sec(PaddedImage().tab, k).size == 4
  {}

  /** Loaded at 16, the word is 36: behind .data, before .bss, in no section. */
  lemma SeesNothing(base: int)
    requires base in {56, 60}
    ensures FindRuntimeFrom(PaddedImage(), PlacedAt(16, base), 36, 0) == -1
  {
    hide Base, Sec, PaddedImage, Table;
    Bases(16, base);
    FourWords();
    var img, p := PaddedImage(), PlacedAt(16, base);
    assert FindRuntimeFrom(img, p, 36, 3) == -1;
    assert FindRuntimeFrom(img, p, 36, 2) == -1;
    assert FindRuntimeFrom(img, p, 36, 1) == -1;
  }

  /** A move of the block does not change it, a load at the new place would. */
  lemma EndOfDataStale(ram: int, base: int)
    requires ram in {64, 68} && base in {56, 60}
    ensures var (img, from, to) := (PaddedImage(), PlacedAt(16, 56), PlacedAt(ram, base));
      && Runtime(img, from, 8) == Some(36) && MoveWord(img, from, to, img.rels[0], 36) == 36 && Runtime(img, to, 8) == Some(ram + 20)
      && !InPlaceMoves(img, from, to, 8)
  {
    hide Runtime, FindRuntimeFrom, Find, Base, Sec;
    EndOfData(16, 56);
    EndOfData(ram, base);
    SeesNothing(56);
    Found();
    Bases(16, 56);
    Bases(ram, base);
  }

  // ----- loaded at 16 -----

  const FROM := PlacedAt(16, 56)

  /** What the module's words were before relocation. */
  function Link(): Contents {
    Snapshot(PaddedImage(), FROM, Staged())
  }

  /** The relocation pass puts 36 over the 8. */
  function Running(): seq<Word> {
    Below()[8 := 36] + Metadata() + [5, 8, 0x77]
  }

  lemma LoadWalk(resolve: Resolver)
    ensures Walk(PaddedImage(), Loading(FROM, resolve), Staged(), 0) == (Ok, Running())
  {
    hide RelLoc, Runtime, Metadata, Find, ImageSym;
    Target(FROM);
    EndOfData(16, 56);
    var img, pass, m := PaddedImage(), Loading(FROM, resolve), Staged();
    assert TargetAddr(img, FROM, 0) == Some(32) && Get(m, 32) == 8;
    assert Stop(img, pass, m, 0) == Ok;
    assert Patched(img, pass, m, 0) == m[8 := 36] == Running();
    assert Walk(img, pass, Running(), 1) == (Ok, Running());
  }

  lemma StagedBases()
    ensures BasesIn(PaddedImage(), FROM, Staged()) && |Staged()| == 69
  {
    hide Table;
    TableEntries();
    assert |Metadata()| == 38;
    hide Metadata;
  }

  lemma Represented(resolve: Resolver)
    ensures Represents(PaddedImage(), FROM, resolve, Link(), Running())
  {
    hide WellFormed, ValidPlacement, Walk, Holds, BasesIn, Represents, Snapshot, Staged, Running, PaddedImage;
    Shape();
    WellFormedShaped(PaddedImage());
    StagedBases();
    Fits(16, 56);
    SnapshotHolds(PaddedImage(), FROM, Staged());
    LoadWalk(resolve);
    LoadRenders(PaddedImage(), FROM, resolve, Link(), Staged());
  }

  /** The word of .data does not move with the block. */
  lemma Stale(ram: int, resolve: Resolver)
    requires ram in {64, 68}
    ensures !Movable(PaddedImage(), FROM, PlacedAt(ram, 56), resolve, Link())
  {
    hide InPlaceMoves, RelLoc, Snapshot, Metadata;
    var img, to := PaddedImage(), PlacedAt(ram, 56);
    Target(FROM);
    EndOfDataStale(ram, 56);
    LinkWordIs();
    assert !MovableEntry(img, FROM, to, resolve, Link(), 0);
  }

  lemma LinkWordIs()
    ensures Cell(Link(), Block(16)) == 8
  {
    hide Snapshot, Metadata, RamSize, CodeOffset, MainAlign, MainOffset, BlockFront;
    Shape();
    Sizes();
    WellFormedShaped(PaddedImage());
    hide WellFormed, Shaped;
    SnapshotCell(PaddedImage(), FROM, Staged(), Block(16));
  }

  /** The image, and what the host keeps for the module. */
  function Taken(): seq<Range> {
    [Range(112, 164), Range(16, 36), Range(56, 8)]
  }

  lemma StagedAttached(mod: Module, m: seq<Word>)
    requires mod.Now() == Fields(112, 16, CopyTextData, true, 0) && m == Staged()
    ensures Attached(mod, m, PaddedImage(), FROM) && MetaIn(PaddedImage(), FROM, m, 112)
    ensures WellFormed(PaddedImage()) && ValidPlacement(PaddedImage(), FROM, 69)
  {
    hide ImageAt, MetaApart, BasesIn, RamSize, CodeOffset, BlockFront, Metadata, PaddedImage, WellFormed, ValidPlacement;
    Shape();
    Fits(16, 56);
    ImageAbove(Below());
    StagedBases();
    MetaAbove(16, 56);
  }

  /** The end of a load: the staged module's relocations are applied. The allocator answers `reply`. */
  method Load(reply: Word) returns (mod: Module, mem: array<Word>, host: Host)
    ensures fresh(mod) && fresh(mem) && fresh(host)
    ensures mod.Now() == Fields(112, 16, CopyTextData, true, 0) && mem.Length == 69 && mem[..] == Running()
    ensures host.log == [] && host.taken == Taken() && forall k :: host.answers(k) == reply
    ensures Attached(mod, mem[..], PaddedImage(), FROM)
  {
    hide *;
    StagedBases();
    var words, tab := Staged(), Table();
    mem := new Word[69](i requires 0 <= i < 69 => words[i]);
    assert mem[..] == words;
    mod := new Module();
    mod.header, mod.ram, mod.mode, mod.foreign := 112, 16, CopyTextData, true;
    host := new Host(n => reply);
    host.taken := Taken();
    HandleIs(mod);
    StagedAttached(mod, words);
    TableEntries();
    LoadWalk(name => 0);
    var res := ApplyRelocations(mod, mem, tab, 112, name => 0, PaddedImage(), FROM);
    AttachedStays(mod, PaddedImage(), FROM, words, mem[..]);
  }

  lemma HandleIs(mod: Module)
    ensures mod.Now() == Fields(mod.header, mod.ram, mod.mode, mod.foreign, mod.numNamed)
  {}

  // ----- moved -----

  lemma Moves(base: Word)
    requires base in {56, 60}
    ensures var moves := if base == 56 then [] else [SectionMove(3, 60)];
      && GoodMoves(PaddedImage().tab, moves) && (moves == [] || MovesError(PaddedImage().tab, moves, 0) == Ok)
      && forall ram :: MoveTarget(FROM, ram, moves) == PlacedAt(ram, base)
  {
    SixteenAligned();
    hide Aligned;
    var moves := if base == 56 then [] else [SectionMove(3, 60)];
    forall ram
      ensures MoveTarget(FROM, ram, moves) == PlacedAt(ram, base)
    {
      assert MoveTarget(FROM, ram, moves).tagged == [base];
    }
    assert base != 56 ==> MovesError(PaddedImage().tab, moves, 1) == Ok && MoveError(PaddedImage().tab, moves, 0) == Ok;
  }

  /** Everything a move of the running module asks for: of the allocator's account, of the target, and of the
      destination, unless it is the allocator's. */
  lemma Ready(mod: Module, host: Host, m: seq<Word>, base: Word, newRam: Word)
    requires mod.Now() == Fields(112, 16, CopyTextData, true, 0) && m == Running() && base in {56, 60} && newRam in {0, 16, 64}
    requires host.log == [] && host.taken == Taken()
    ensures var (img, moves) := (PaddedImage(), if base == 56 then [] else [SectionMove(3, 60)]);
      && WellFormed(img) && ValidPlacement(img, FROM, |m|) && Loadable(img, CopyTextData)
      && Outstanding(host.log) == Some(map[]) && MainOwned(map[], mod.ram, mod.foreign, MainAlign(img.tab))
      && TargetOk(mod, m, img, FROM, moves) && KeptInUse(host.taken, map[], img, MoveTarget(FROM, 16, moves), mod.header)
      && DestinationOk(mod, img, MoveTarget(FROM, 16, moves), newRam, 36, |m|)
  {
    hide WellFormed, ValidPlacement, Loadable, RamSize, MainOffset, MainAlign, CodeOffset, BlockFront, MoveTarget, TargetOk, KeptInUse,
      DestinationOk, GoodMoves, MovesError, Metadata, PaddedImage, Running;
    Moves(base);
    Shape();
    Fits(16, 56);
    RunningLength();
    Represented(name => 0);
    LoadedIsLoadable(PaddedImage(), FROM, name => 0, Link(), m);
    TargetReady(mod, m, base);
    KeptReady(host, base);
    DestinationReady(mod, base, newRam);
  }

  lemma RunningLength()
    ensures |Running()| == 69 && Get(Running(), 32) == 36 && Get(Running(), 56) == 0x77 && Get(Running(), 60) == 0x77
  {
    assert |Metadata()| == 38;
    hide Metadata;
  }

  lemma TargetReady(mod: Module, m: seq<Word>, base: Word)
    requires mod.header == 112 && m == Running() && base in {56, 60}
    ensures TargetOk(mod, m, PaddedImage(), FROM, if base == 56 then [] else [SectionMove(3, 60)])
  {
    hide ValidPlacement, RamSize, MetaApart, MoveTarget, GoodMoves, MovesError, Running, PaddedImage, Table, Get;
    Moves(base);
    Fits(16, base);
    MetaAbove(16, base);
    RunningLength();
    TableEntries();
    forall loc: Loc | loc.Tagged? && InBounds(PaddedImage(), CopyTextData, loc)
      ensures Get(m, Slot(PlacedAt(16, base), loc)) == Get(m, Slot(FROM, loc))
    {
    }
  }

  lemma KeptReady(host: Host, base: Word)
    requires host.taken == Taken() && base in {56, 60}
    ensures KeptInUse(host.taken, map[], PaddedImage(), PlacedAt(16, base), 112)
  {
    hide RamSize, CodeOffset, MainOffset, MainAlign, BlockFront, PaddedImage, Table, Sec;
    Sizes();
    TableEntries();
    assert Taken()[0] == Range(112, 164) && Taken()[1] == Range(16, 36) && Taken()[2] == Range(56, 8);
  }

  lemma DestinationReady(mod: Module, base: Word, newRam: Word)
    requires mod.ram == 16 && mod.header == 112 && base in {56, 60} && newRam in {0, 16, 64}
    ensures DestinationOk(mod, PaddedImage(), PlacedAt(16, base), newRam, 36, 69)
  {
    hide RamSize, CodeOffset, MainOffset, MainAlign, BlockFront, PaddedImage, Table, Sec;
    Sizes();
    TableEntries();
  }

  lemma BlockMoved(moves: seq<SectionMove>, newRam: Word, reply: Word, res: Error, was: Fields, m: seq<Word>, now: Fields, m': seq<Word>,
                   books: Option<Heap>, asked: seq<Event>)
    requires SectionedMove(PaddedImage(), FROM, map[], reply, newRam, 36, moves, res, was, m, now, m', books, asked) && was.ram == 16
    requires (newRam == 0 && reply == 68) || newRam == 64
    ensures res == Ok && now.ram == (if newRam == 0 then 68 else 64)
    ensures MovedTo(PaddedImage(), FROM, m, MoveTarget(FROM, now.ram, moves), m')
  {
    hide RamSize, MovedTo, MainAlign, MainOffset, CodeOffset, BlockFront, Aligned, MoveTarget;
    Sizes();
    SixteenAligned();
  }

  /** A pointer to the end of .data, as the linker makes them: loaded at 16 it is 36, moved with its block to 64
      it is not the 84 that it names there. */
  method EndOfDataLost() returns (loaded: seq<Word>, moved: seq<Word>)
    ensures ImageAt(loaded, 112) == Some(PaddedImage())
    ensures forall resolve :: Represents(PaddedImage(), FROM, resolve, Link(), loaded)
    ensures MovedTo(PaddedImage(), FROM, loaded, PlacedAt(64, 56), moved)
    ensures Runtime(PaddedImage(), FROM, 8) == Some(Get(loaded, 32)) && Runtime(PaddedImage(), PlacedAt(64, 56), 8) == Some(84)
    ensures Get(moved, 80) != 84 && forall resolve :: !Represents(PaddedImage(), PlacedAt(64, 56), resolve, Link(), moved)
  {
    hide *;
    var mod, mem, host := Load(0);
    loaded := mem[..];
    HandleIs(mod);
    Moves(56);
    Ready(mod, host, loaded, 56, 64);
    FourSections();
    ghost var was, log := mod.Now(), host.log;
    ghost var reply := host.Reply(RamSize(PaddedImage().hdr, PaddedImage().tab, CopyTextData), 4 * mem.Length);
    var res := RelocateModuleSections(mod, mem, host, 64, 36, [], PaddedImage(), FROM, map[]);
    moved := mem[..];
    BlockMoved([], 64, reply, res, was, loaded, mod.Now(), moved, Outstanding(host.log), AskedSince(log, host.log));
    forall resolve
      ensures Represents(PaddedImage(), FROM, resolve, Link(), loaded)
      ensures !Represents(PaddedImage(), PlacedAt(64, 56), resolve, Link(), moved) && Get(moved, 80) != 84
    {
      Represented(resolve);
      EndNotMoved(moved, resolve);
    }
    EndNotMoved(moved, name => 0);
    EndOfData(16, 56);
    EndOfData(64, 56);
    RunningLength();
    RunningImage();
  }

  lemma RunningImage()
    ensures ImageAt(Running(), 112) == Some(PaddedImage())
  {
    hide Metadata, ImageAt;
    ImageAbove(Below()[8 := 36]);
  }

  lemma FourSections()
    ensures PaddedImage().tab != [] && FROM.mode == CopyTextData && FROM.ram == 16 && FROM == PlacedAt(16, 56)
  {}

  /** The word is a relocated one, so a module moved right would hold 84 there. */
  lemma EndNotMoved(moved: seq<Word>, resolve: Resolver)
    requires MovedTo(PaddedImage(), FROM, Running(), PlacedAt(64, 56), moved)
    ensures !Represents(PaddedImage(), PlacedAt(64, 56), resolve, Link(), moved) && Get(moved, 80) != 84
  {
    hide WellFormed, Represents, MovedTo, RelLoc, Running, Snapshot, Get, Movable, Runtime, InPlaceMoves, MainOffset, Find;
    var img, to := PaddedImage(), PlacedAt(64, 56);
    Shape();
    Represented(resolve);
    Stale(64, resolve);
    MovePreserves(img, FROM, Running(), to, moved, resolve, Link());
    Target(FROM);
    LinkWordIs();
    EndOfDataStale(64, 56);
    RunningHolds(resolve);
    MoveKeepsTarget(img, FROM, Running(), to, moved, resolve, Link(), 0);
  }

  lemma RunningHolds(resolve: Resolver)
    ensures TargetHolds(PaddedImage(), FROM, resolve, Link(), Running(), 0)
  {
    hide BasesIn, TargetHolds, Snapshot, Running, PaddedImage;
    Represented(resolve);
    TableEntries();
  }

  lemma Unmoved(reply: Word, res: Error, was: Fields, m: seq<Word>, now: Fields, m': seq<Word>, books: Option<Heap>, asked: seq<Event>)
    requires SectionedMove(PaddedImage(), FROM, map[], reply, 16, 36, [SectionMove(3, 60)], res, was, m, now, m', books, asked)
    requires was.ram == 16
    ensures res == Ok && m' == m && now == was
  {
    hide RamSize, MovedTo, MainAlign, MoveTarget, MoveVerdict, PaddedImage;
  }

  lemma StillAttached(mod: Module)
    requires mod.Now() == Fields(112, 16, CopyTextData, true, 0)
    ensures Attached(mod, Running(), PaddedImage(), FROM)
  {
    hide ImageAt, MetaApart, RamSize, CodeOffset, BlockFront, Metadata, PaddedImage, Running, Represents;
    RunningImage();
    MetaAbove(16, 56);
    Represented(name => 0);
    OwnBases(name => 0);
  }

  lemma OwnBases(resolve: Resolver)
    requires Represents(PaddedImage(), FROM, resolve, Link(), Running())
    ensures BasesIn(PaddedImage(), FROM, Running())
  {
    hide Rendered, BasesIn;
  }

  /** The block is given its own address and a section a new one, where the host has copied it: the move
      succeeds and does nothing, and the recorded base is still the old one. */
  method SectionMoveIgnored() returns (mod: Module, mem: array<Word>, res: Error)
    ensures res == Ok && mem[..] == Running() && Attached(mod, mem[..], PaddedImage(), FROM)
    ensures Get(mem[..], 56) == Get(mem[..], 60) && Get(mem[..], BaseSlot(PaddedImage(), FROM, 3)) == 56
  {
    hide *;
    var host;
    mod, mem, host := Load(0);
    HandleIs(mod);
    Moves(60);
    Ready(mod, host, mem[..], 60, 16);
    FourSections();
    ghost var was, log := mod.Now(), host.log;
    ghost var reply := host.Reply(RamSize(PaddedImage().hdr, PaddedImage().tab, CopyTextData), 4 * mem.Length);
    res := RelocateModuleSections(mod, mem, host, 16, 36, [SectionMove(3, 60)], PaddedImage(), FROM, map[]);
    Unmoved(reply, res, was, Running(), mod.Now(), mem[..], Outstanding(host.log), AskedSince(log, host.log));
    StillAttached(mod);
    RunningLength();
    OldBase();
  }

  lemma OldBase()
    ensures Get(Running(), BaseSlot(PaddedImage(), FROM, 3)) == 56
  {
    hide Metadata;
  }

  lemma AllocatorIsFree(host: Host)
    requires host.log == [] && host.taken == Taken() && host.answers(0) == 68
    ensures host.Reply(36, 276) == 68
  {
    assert Outstanding(host.log) == Some(map[]);
  }

  lemma SixtyEight(reply: Word, res: Error, was: Fields, m: seq<Word>, now: Fields, m': seq<Word>, books: Option<Heap>, asked: seq<Event>)
    requires SectionedMove(PaddedImage(), FROM, map[], 68, 0, 36, [], res, was, m, now, m', books, asked) && was.ram == 16
    ensures asked == [BlockAnswer(36, 16, 68)] && !Served(asked[0]) && !SectionInPlace(PaddedImage(), PlacedAt(68, 56), 2)
  {
    hide RamSize, MovedTo, MainOffset, CodeOffset, BlockFront, MoveTarget, Base, MainAlign, Aligned, WellFormed;
    Sizes();
    Shape();
    SixteenAligned();
    SectionWithBlock(PaddedImage(), PlacedAt(68, 56), 2);
  }

  /** The allocator answers with an address that is not a multiple of 16: a load would give the block back, the
      move takes it, and .bss is not aligned as it asks. */
  method MisalignedBlockTaken() returns (mod: Module, mem: array<Word>, host: Host, res: Error)
    ensures res == Ok && mod.ram == 68 && Attached(mod, mem[..], PaddedImage(), PlacedAt(68, 56))
    ensures Asked(host.log) == [BlockAnswer(36, 16, 68)] && !Served(BlockAnswer(36, 16, 68))
    ensures !SectionInPlace(PaddedImage(), PlacedAt(68, 56), 2)
  {
    hide *;
    mod, mem, host := Load(68);
    HandleIs(mod);
    Moves(56);
    Ready(mod, host, mem[..], 56, 0);
    FourSections();
    AllocatorIsFree(host);
    BlockSize();
    ghost var was, log := mod.Now(), host.log;
    res := RelocateModuleSections(mod, mem, host, 0, 36, [], PaddedImage(), FROM, map[]);
    BlockMoved([], 0, 68, res, was, Running(), mod.Now(), mem[..], Outstanding(host.log), AskedSince(log, host.log));
    SixtyEight(68, res, was, Running(), mod.Now(), mem[..], Outstanding(host.log), AskedSince(log, host.log));
    HandleIs(mod);
    OnlyRequest(log, host.log);
  }

  lemma BlockSize()
    ensures RamSize(PaddedImage().hdr, PaddedImage().tab, CopyTextData) == 36
  {
    hide RamSize, MainOffset, CodeOffset, MainAlign, BlockFront;
    Sizes();
  }

  lemma OnlyRequest(log: seq<Event>, now: seq<Event>)
    requires log == [] && AskedSince(log, now) == [BlockAnswer(36, 16, 68)]
    ensures Asked(now) == [BlockAnswer(36, 16, 68)]
  {
    assert Asked(log) == [];
  }
}
