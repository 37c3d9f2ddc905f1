// A small module that shows where weak symbols break linking: one LOT slot bound to a weak symbol at the start
// of .data. It is decoded from a concrete memory and can be loaded there.

module WeakSymbols {
  import opened Words
  import opened Image
  import opened Sections
  import opened Layout
  import opened Placement
  import opened Relocation
  import opened Loaded
  import opened Renaming
  import opened Linking
  import opened Memory
  import opened Handle
  import opened Tagged
  import opened MainBlock
  import opened Lookup
  import opened Loader

  /** Count; module name and weak symbol, each a name word and a value; an empty name. */
  function Table(): seq<Word> {
    [2, 0x1800_0014, 0, 0x2000_0014, 0, 0]
  }

  function WeakImage(): Image {
    Image(Header(SIGN, 0x301, 1, 1, 0, 24, 0, 4, 0), [Rel(0, 1)], Table(), [])
  }

  /** The image in memory, at 32; below it room for a block at 16 and another at 24. */
  function Stored(): seq<Word> {
    [0, 0, 0, 0, 0, 0, 0, 0,
     SIGN, 0x301_0000, 0x1_0000, 1, 24, 0, 4, 0, 0, 1, 2, 0x1800_0014, 0, 0x2000_0014, 0, 0, 9]
  }

  lemma StoredHeader()
    ensures HeaderAt(Stored(), 8) == WeakImage().hdr
    ensures Sectab(Stored(), 8, true) == Some([]) && Sectab(Stored(), 8, false) == Some([])
    ensures HeaderSize(WeakImage().hdr) == 32 && SymtabOffset(WeakImage().hdr) == 40 && CodeOffset(WeakImage().hdr) == 64
  {}

  lemma StoredImage()
    ensures ImageAt(Stored(), 32) == Some(WeakImage())
  {
    StoredHeader();
    hide HeaderAt, Sectab, HeaderSize, SymtabOffset, CodeOffset;
    StoredTables();
    hide SymtWords, RelAt;
    assert ImageAt(Stored(), 32).value.rels == WeakImage().rels;
  }

  lemma StoredTables()
    ensures SymtWords(Stored(), 8, WeakImage().hdr) == Table() && RelAt(Stored(), 8, WeakImage().hdr, 0) == Rel(0, 1)
  {
    StoredHeader();
    hide HeaderAt, Sectab, HeaderSize, SymtabOffset, CodeOffset;
  }

  lemma StoredTable()
    ensures WellFormedTable(Table(), 24)
  {
    var pool := Pool(Table(), 24);
    assert pool[20] == 0;
    hide Pool;
  }

  lemma StoredPlan()
    ensures Passes(Stored(), 32, CopyTextData)
  {
    StoredHeader();
    StoredImage();
    hide HeaderAt, Sectab, CodeOffset, ImageAt, Stored;
    assert TaggedSizes(WeakImage().tab) == [];
  }

  lemma StoredGood()
    ensures GoodImage(Stored(), 32, WeakImage()) && TableReadable(Stored(), 32)
    ensures Extent(WeakImage()) == 68 && |Stored()| == 25
  {
    StoredHeader();
    StoredTable();
    Placed(16, 25);
    hide HeaderAt, Sectab, CodeOffset, WellFormedTable, WellFormed, ValidPlacement;
  }

  lemma StoredOk(ram: Word, loadAddr: Word)
    requires ram in {16, 24} && loadAddr in {0, ram}
    ensures CallerOk(Stored(), 32, CopyTextData, loadAddr, 8, Taken(loadAddr))
  {
    StoredImage();
    StoredPlan();
    StoredGood();
    hide ImageAt, Passes, GoodImage, TableReadable, Extent, Stored, WeakImage;
    assert Taken(loadAddr)[0] == Range(32, 68);
    assert loadAddr != 0 ==> Taken(loadAddr)[1] == Range(loadAddr, 8);
  }

  /** The image, and the buffer the caller brings. */
  function Taken(loadAddr: int): seq<Range> {
    [Range(32, 68)] + if loadAddr == 0 then [] else [Range(loadAddr, 8)]
  }

  /** A block of a LOT slot and a word of .data. */
  function BlockAt(ram: int): Placement {
    Placement(CopyTextData, ram, 96, [])
  }

  function Always(w: Word): Resolver {
    name => w
  }

  lemma WeakSymbol()
    ensures var sym := ImageSym(WeakImage(), 1); sym.Some? && sym.value.kind == WEAK && sym.value.val == 0 && !sym.value.inCode
    ensures WeakImage().rels == [Rel(0, 1)]
    ensures IsKind(WeakImage(), 0, WEAK) && !InPlace(WeakImage().rels[0])
  {
    hide Pool;
  }

  lemma OwnAddress(ram: nat)
    requires ram + 8 < LIMIT
    ensures Default(WeakImage(), BlockAt(ram), ImageSym(WeakImage(), 1).value) == Some(ram + 4)
  {
    WeakSymbol();
    hide ImageSym;
  }

  lemma Placed(ram: nat, n: int)
    requires ram % 4 == 0 && ram + 8 <= 4 * n <= LIMIT && 96 <= 4 * n
    ensures WellFormed(WeakImage()) && ValidPlacement(WeakImage(), BlockAt(ram), n)
  {
    assert LinkTarget(WeakImage(), 0).LotWord?;
  }

  lemma Bindable(ram: nat, resolve: Resolver, w: Word)
    requires ram + 8 < LIMIT
    ensures !LoadWord(WeakImage(), BlockAt(ram), resolve, WeakImage().rels[0], w).Fail?
  {
    WeakSymbol();
    OwnAddress(ram);
    hide ImageSym, Default;
  }

  lemma LoadSucceeds(ram: nat, m: seq<Word>, resolve: Resolver)
    requires ram % 4 == 0 && ram + 8 < LIMIT && ram + 8 <= 4 * |m| <= LIMIT && 96 <= 4 * |m|
    ensures Walk(WeakImage(), Loading(BlockAt(ram), resolve), m, 0).0 == Ok
  {
    var img, p := WeakImage(), BlockAt(ram);
    Placed(ram, |m|);
    WellFormedSeparate(img, p, |m|);
    Bindable(ram, resolve, Get(m, ram));
    assert RelLoc(img, p.mode, 0) == Some(Block(0));
    hide ImageSym, Default, Separate, Walk, WellFormed, ValidPlacement, RelLoc, LoadWord;
    assert Stop(img, Loading(p, resolve), m, 0) == Ok;
    WalkSucceeds(img, Loading(p, resolve), m, 0);
  }

  /** Deferred at load, overridden later: link_incremental leaves the module's own address in the slot,
      loading with the later resolver puts the host's there. */
  lemma DeferredWeakExample() returns (p: Placement, resolve: Resolver, resolve': Resolver, m: seq<Word>)
    ensures var img := WeakImage();
      && ImageAt(m, 32) == Some(img)
      && WellFormed(img) && ValidPlacement(img, p, |m|) && Separate(img, p, |m|) && Extends(resolve, resolve')
      && Walk(img, Loading(p, resolve), m, 0).0 == Ok && Walk(img, Loading(p, resolve'), m, 0).0 == Ok
      && Walk(img, Linking(p, resolve', true), Walk(img, Loading(p, resolve), m, 0).1, 0).1
           != Walk(img, Loading(p, resolve'), m, 0).1
  {
    var img := WeakImage();
    p, resolve, resolve', m := BlockAt(16), Always(DEFERRED), Always(0x5000), Stored();
    StoredImage();
    StoredGood();
    Placed(16, |m|);
    WellFormedSeparate(img, p, |m|);
    LoadSucceeds(16, m, resolve);
    LoadSucceeds(16, m, resolve');
    WeakSymbol();
    OwnAddress(16);
    hide WellFormed, ValidPlacement, Separate, Walk, ImageSym, Default, IsKind, Stored, ImageAt;
    assert !WeakSettled(img, p, resolve, resolve', 0);
    hide WeakSettled;
    DeferredLinkingConfluent(img, p, resolve, resolve', m);
  }

  lemma StoredSize()
    ensures WeakImage().tab == [] && RamSize(WeakImage().hdr, [], CopyTextData) == 8 && MainAlign([]) == 4
    ensures Aligned(16, 4) && Aligned(24, 4) && Outstanding([]) == Some(map[])
  {}

  /** Nothing stands in the way of the load. */
  lemma StoredLoads(img: Image, p: Placement, c: Contents, w: Word, loadAddr: Word, a: Allocator, was: seq<Event>, now: seq<Event>, res: Error)
    requires Accounted(Stored(), 32, img, p, Always(w), c, loadAddr, 8, a, was, now, res)
    requires p.mode == CopyTextData && w > DEFERRED && (if loadAddr != 0 then loadAddr else Answer(a, was, 8)) in {16, 24}
    ensures img == WeakImage() && res == Ok
  {
    StoredImage();
    StoredSize();
    hide ImageAt, Stored, RamSize, MainAlign, Aligned, WeakImage, EntryFails, ValidPlacement, Explained, ReachedEntries, Pool, Answer;
    var asked := AskedSince(was, now);
    assert forall i: nat, error :: i < |img.rels| ==> !EntryFails(img, p, Always(w), c, i, error) by {
      StoredApplies(p, w, c);
    }
    ExplainedFailure(img, p, Always(w), c, loadAddr, 8, a, was, asked, res);
  }

  lemma StoredApplies(p: Placement, w: Word, c: Contents)
    requires p.mode == CopyTextData && w > DEFERRED
    ensures forall i: nat, error :: i < |WeakImage().rels| ==> !EntryFails(WeakImage(), p, Always(w), c, i, error)
  {
    WeakSymbol();
    hide ImageSym, Cell;
  }

  /** With nothing out, the allocator's answer stands. */
  lemma NothingOut(host: Host, ram: Word)
    requires Outstanding(host.log) == Some(map[]) && host.taken == Taken(0) && ram in {16, 24} && host.answers(|host.log|) == ram
    ensures host.Reply(8, 100) == ram
  {}

  lemma StoredAccounted(img: Image, p: Placement, c: Contents, w: Word, loadAddr: Word, a: Allocator, was: seq<Event>, now: seq<Event>,
                        res: Error)
    requires Accounted(Stored(), 32, img, p, Always(w), c, loadAddr, 8, a, was, now, res)
    ensures img == WeakImage()
  {
    StoredImage();
    hide Stored, ImageAt, WeakImage, Explained, ReachedEntries;
  }

  lemma StoredPlaced(mod: Module, host: Host, p: Placement, c: Contents, w: Word, m: seq<Word>, loadAddr: Word, reply: Word)
    requires IsLoaded(mod, host, WeakImage(), p, Always(w), c, m, map[]) && p.mode == CopyTextData
    requires p.text == 32 + CodeOffset(WeakImage().hdr) && mod.header == HeaderOf(WeakImage(), p, 32)
    requires BlockGiven(mod.ram, mod.foreign, RamSize(WeakImage().hdr, WeakImage().tab, CopyTextData), loadAddr, reply)
    ensures p == BlockAt(if loadAddr != 0 then loadAddr else reply) && mod.foreign == (loadAddr != 0) && mod.header == 32
  {
    StoredSize();
    StoredHeader();
    hide RamSize, CodeOffset, MetaApart, Represents, WellFormed, Owns, Owned, Outstanding, ImageAt, BlockFront, BasesIn;
    assert p.tagged == [];
  }

  /** The image loaded at `ram`, in a buffer of the caller's or in the block the allocator answers with. */
  method LoadStored(ram: Word, own: bool, w: Word)
    returns (mod: Module, mem: array<Word>, host: Host, ghost p: Placement, ghost c: Contents)
    requires ram in {16, 24} && w > DEFERRED
    ensures fresh(mod) && fresh(mem) && fresh(host)
    ensures p == BlockAt(ram) && mod.foreign == !own && mod.header == 32 && mem.Length == 25
    ensures host.taken == Taken(if own then 0 else ram) && forall k :: host.answers(k) == ram
    ensures IsLoaded(mod, host, WeakImage(), p, Always(w), c, mem[..], map[])
  {
    hide *;
    StoredGood();
    StoredSize();
    StoredPlan();
    var loadAddr: Word := if own then 0 else ram;
    var words := Stored();
    mem := new Word[25](i requires 0 <= i < 25 => words[i]);
    assert mem[..] == words;
    mod := new Module();
    host := new Host(n => ram);
    host.taken := Taken(loadAddr);
    StoredOk(ram, loadAddr);
    if own { NothingOut(host, ram); }
    ghost var was, a, reply := host.log, host.As(100), host.Reply(8, 100);
    host.ReplyIs(8, 100);
    var res;
    ghost var img;
    res, img, p, c := LoadModule(mod, mem, host, 32, loadAddr, 8, CopyTextData, Always(w), map[]);
    StoredAccounted(img, p, c, w, loadAddr, a, was, host.log, res);
    StoredLoads(img, p, c, w, loadAddr, a, was, host.log, res);
    StoredPlaced(mod, host, p, c, w, mem[..], loadAddr, reply);
  }
}
