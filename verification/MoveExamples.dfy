// Loads and moves of the module of WeakSymbols, run in concrete memories: what each failure of a move without
// section placement looks like.

module MoveExamples {
  import opened Words
  import opened Image
  import opened Layout
  import opened Placement
  import opened Relocation
  import opened Loaded
  import opened Moving
  import opened Renaming
  import opened Memory
  import opened Handle
  import opened Walks
  import opened Ownership
  import opened Loader
  import opened Mover
  import opened WeakSymbols

  /** The allocator's account while the module is at 16. */
  function Books(own: bool): Heap {
    if own then map[16 := HeapBlock(16, 8, MainPurpose(4))] else map[]
  }

  lemma MoveReady(mod: Module, host: Host, c: Contents, w: Word, m: seq<Word>, own: bool)
    requires IsLoaded(mod, host, WeakImage(), BlockAt(16), Always(w), c, m, map[]) && |m| == 25
    requires mod.header == 32 && mod.foreign == !own && host.taken == Taken(if own then 0 else 16)
    ensures Outstanding(host.log) == Some(Books(own)) && MainOwned(Books(own), mod.ram, mod.foreign, MainAlign(WeakImage().tab))
    ensures TargetOk(mod, m, WeakImage(), BlockAt(16), []) && Loadable(WeakImage(), CopyTextData)
    ensures KeptInUse(host.taken, Books(own), WeakImage(), MoveTarget(BlockAt(16), 16, []), mod.header)
  {
    StoredSize();
    StoredHeader();
    NoMoves(BlockAt(16), 16);
    LoadedIsLoadable(WeakImage(), BlockAt(16), Always(w), c, m);
    hide RamSize, CodeOffset, MetaApart, Represents, WellFormed, ValidPlacement, ImageAt, BlockFront, BasesIn, MoveTarget, Loadable,
      MainAlign, Outstanding, Pool, Always;
    var taken := Taken(if own then 0 else 16);
    assert taken[0] == Range(32, 68);
    assert !own ==> taken[1] == Range(16, 8);
    assert AtBlock(BlockAt(16), 16) == BlockAt(16);
  }

  lemma DestinationReady(mod: Module, newRam: Word, newSize: int)
    requires mod.ram == 16 && mod.header == 32 && newRam in {16, 24}
    ensures DestinationOk(mod, WeakImage(), MoveTarget(BlockAt(16), 16, []), newRam, newSize, 25)
  {
    StoredSize();
    StoredHeader();
    NoMoves(BlockAt(16), 16);
    hide RamSize, CodeOffset, MoveTarget;
    assert AtBlock(BlockAt(16), 16) == BlockAt(16);
  }

  lemma LoadedState(mod: Module, host: Host, c: Contents, w: Word, m: seq<Word>)
    requires IsLoaded(mod, host, WeakImage(), BlockAt(16), Always(w), c, m, map[])
    ensures WellFormed(WeakImage()) && ValidPlacement(WeakImage(), BlockAt(16), |m|) && Attached(mod, m, WeakImage(), BlockAt(16))
    ensures Represents(WeakImage(), BlockAt(16), Always(w), c, m) && mod.Now().ram == 16
  {
    hide WellFormed, ValidPlacement, MetaApart, BasesIn, ImageAt, RamSize, Rendered, Owns, Owned, Outstanding, BlockFront, CodeOffset;
  }

  lemma SelfMoved(heap: Heap, reply: Word, res: Error, was: Fields, m: seq<Word>, now: Fields, m': seq<Word>, books: Option<Heap>,
                  asked: seq<Event>)
    requires FlatMove(WeakImage(), BlockAt(16), heap, reply, 16, 8, res, was, m, now, m', books, asked) && was.ram == 16 && !was.foreign
    ensures res == Ok && m' == m && now == was.(foreign := true) && books == Some(heap - {16})
  {
    StoredSize();
    hide RamSize, MovedTo;
  }

  /** The module's own block given as the destination: the move does nothing but return the block to the
      allocator, which answers the next request with it while the module is still there. */
  method OwnBlockFreed() returns (mod: Module, mem: array<Word>, host: Host)
    ensures Attached(mod, mem[..], WeakImage(), BlockAt(16)) && Outstanding(host.log) == Some(map[])
    ensures mem.Length == 25 && host.Reply(8, 100) == 16
  {
    hide WeakImage, WellFormed, ValidPlacement, MetaApart, BasesIn, ImageAt, RamSize, Represents, IsLoaded, TargetOk, KeptInUse,
      DestinationOk, Loadable, Outstanding, FlatMove, MainAlign, BlockFront, CodeOffset, MoveTarget;
    ghost var p, c;
    StoredSize();
    mod, mem, host, p, c := LoadStored(16, true, 20);
    LoadedState(mod, host, c, 20, mem[..]);
    MoveReady(mod, host, c, 20, mem[..], true);
    DestinationReady(mod, 16, 8);
    ghost var was := mod.Now();
    ghost var reply := host.Reply(RamSize(WeakImage().hdr, WeakImage().tab, CopyTextData), 4 * mem.Length);
    ghost var m, log := mem[..], host.log;
    var res := RelocateModuleSections(mod, mem, host, 16, 8, [], WeakImage(), p, Books(true));
    SelfMoved(Books(true), reply, res, was, m, mod.Now(), mem[..], Outstanding(host.log), AskedSince(log, host.log));
    OnlyBlockFreed();
    NothingOut(host, 16);
  }

  lemma OnlyBlockFreed()
    ensures Books(true) - {16} == map[]
  {}

  lemma TooShort(heap: Heap, reply: Word, res: Error, was: Fields, m: seq<Word>, now: Fields, m': seq<Word>, books: Option<Heap>,
                asked: seq<Event>)
    requires FlatMove(WeakImage(), BlockAt(16), heap, reply, 24, 4, res, was, m, now, m', books, asked) && was.ram == 16
    ensures res == RamLenLow && m' == m && now == was.(foreign := true) && books == Some(heap)
  {
    StoredSize();
    hide RamSize, MovedTo;
  }

  /** A buffer too short for the module: the move is refused, the module stays in the loader's own block, and
      the handle now says that the block is the caller's. */
  method RefusedMoveDisowns() returns (mod: Module, mem: array<Word>, host: Host, res: Error)
    ensures res == RamLenLow && Attached(mod, mem[..], WeakImage(), BlockAt(16))
    ensures mod.foreign && Outstanding(host.log) == Some(map[16 := HeapBlock(16, 8, MainPurpose(4))])
  {
    hide WeakImage, WellFormed, ValidPlacement, MetaApart, BasesIn, ImageAt, RamSize, Represents, IsLoaded, TargetOk, KeptInUse,
      DestinationOk, Loadable, Outstanding, FlatMove, MainAlign, BlockFront, CodeOffset, MoveTarget;
    ghost var p, c;
    StoredSize();
    mod, mem, host, p, c := LoadStored(16, true, 20);
    LoadedState(mod, host, c, 20, mem[..]);
    MoveReady(mod, host, c, 20, mem[..], true);
    DestinationReady(mod, 24, 4);
    ghost var was := mod.Now();
    ghost var reply := host.Reply(RamSize(WeakImage().hdr, WeakImage().tab, CopyTextData), 4 * mem.Length);
    ghost var m, log := mem[..], host.log;
    res := RelocateModuleSections(mod, mem, host, 24, 4, [], WeakImage(), p, Books(true));
    TooShort(Books(true), reply, res, was, m, mod.Now(), mem[..], Outstanding(host.log), AskedSince(log, host.log));
  }

  lemma MovedUp(heap: Heap, reply: Word, res: Error, was: Fields, m: seq<Word>, now: Fields, m': seq<Word>, books: Option<Heap>,
              asked: seq<Event>)
    requires FlatMove(WeakImage(), BlockAt(16), heap, reply, 24, 8, res, was, m, now, m', books, asked) && was.ram == 16
    ensures MovedTo(WeakImage(), BlockAt(16), m, BlockAt(24), m')
  {
    StoredSize();
    hide RamSize, MovedTo;
    assert AtBlock(BlockAt(16), 24) == BlockAt(24);
  }

  /** The override is taken for the module's own old address. */
  lemma OverrideTaken(loaded: seq<Word>, moved: seq<Word>, anew: seq<Word>, c: Contents, c': Contents)
    requires var (img, from, to) := (WeakImage(), BlockAt(16), BlockAt(24));
      && Represents(img, from, Always(20), c, loaded) && MovedTo(img, from, loaded, to, moved)
      && Represents(img, to, Always(20), c', anew)
    ensures !Represents(WeakImage(), BlockAt(24), Always(20), c, moved) && Get(moved, 24) != Get(anew, 24)
  {
    var img, from, to := WeakImage(), BlockAt(16), BlockAt(24);
    WeakSymbol();
    WeakSymbols.OwnAddress(16);
    WeakSymbols.OwnAddress(24);
    WeakSymbols.Placed(16, 25);
    hide WellFormed, ImageSym, Default, Get, Represents, MovedTo, ValidPlacement;
    assert RelLoc(img, CopyTextData, 0) == Some(Block(0));
    assert !MovableEntry(img, from, to, Always(20), c, 0);
    MovePreserves(img, from, loaded, to, moved, Always(20), c);
    MovedSlotsFresh(img, from, to, Always(20), c, loaded, moved, c', anew, 0);
  }

  /** The host's override of a weak symbol is the module's own address at the old place: the module loaded at
      16 and moved to 24 does not hold what a load at 24 puts there. */
  method OverriddenWeakMove()
    returns (loaded: seq<Word>, moved: seq<Word>, anew: seq<Word>, ghost c: Contents, ghost c': Contents)
    ensures var (img, from, to, resolve) := (WeakImage(), BlockAt(16), BlockAt(24), Always(20));
      && Represents(img, from, resolve, c, loaded) && MovedTo(img, from, loaded, to, moved) && Represents(img, to, resolve, c', anew)
      && !Represents(img, to, resolve, c, moved) && Get(moved, 24) != Get(anew, 24)
  {
    hide WeakImage, WellFormed, ValidPlacement, MetaApart, BasesIn, ImageAt, RamSize, Represents, TargetOk, KeptInUse, Owned, Owns,
      DestinationOk, Loadable, Outstanding, FlatMove, MainAlign, BlockFront, CodeOffset, MoveTarget, Get, MovedTo, Attached;
    StoredSize();
    var mod, mem, host;
    ghost var p;
    mod, mem, host, p, c := LoadStored(16, false, 20);
    LoadedState(mod, host, c, 20, mem[..]);
    MoveReady(mod, host, c, 20, mem[..], false);
    DestinationReady(mod, 24, 8);
    ghost var was := mod.Now();
    ghost var reply := host.Reply(RamSize(WeakImage().hdr, WeakImage().tab, CopyTextData), 4 * mem.Length);
    ghost var log := host.log;
    loaded := mem[..];
    var res := RelocateModuleSections(mod, mem, host, 24, 8, [], WeakImage(), p, Books(false));
    moved := mem[..];
    MovedUp(Books(false), reply, res, was, loaded, mod.Now(), moved, Outstanding(host.log), AskedSince(log, host.log));
    mod, mem, host, p, c' := LoadStored(24, false, 20);
    anew := mem[..];
    OverrideTaken(loaded, moved, anew, c, c');
  }
}
