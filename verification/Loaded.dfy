// What it means that memory holds a loaded module: link-time contents, rendered for a placement.
// Loading establishes it, moving preserves it, and it determines the module's words.

module Loaded {
  import opened Words
  import opened Image
  import opened Sections
  import opened AddressMap
  import opened Layout
  import opened Placement
  import opened Relocation

  /** The words of a module before relocation, addressed by location. */
  datatype Contents = Contents(block: seq<Word>, text: seq<Word>, tagged: seq<seq<Word>>)

  function Cell(c: Contents, loc: Loc): Word {
    match loc
    case Block(off) => At(c.block, off / 4)
    case Text(off) => At(c.text, off / 4)
    case Tagged(k, off) => if 3 <= k < 3 + |c.tagged| then At(c.tagged[k - 3], off / 4) else 0
  }

  function BaseSlot(img: Image, p: Placement, k: int): int {
    p.ram + 4 * (img.hdr.numLot + k - 3)
  }

  /** The base array behind the LOT records where the tagged sections are. */
  predicate BasesIn(img: Image, p: Placement, m: seq<Word>) {
    forall k :: 3 <= k < |img.tab| ==> Get(m, BaseSlot(img, p, k)) == TaggedBase(p, k)
  }

  predicate IsCell(img: Image, mode: Mode, loc: Loc) {
    InBounds(img, mode, loc) && !IsBaseSlot(img, loc)
  }

  /** The contents are in place, not yet relocated. */
  ghost predicate Holds(img: Image, p: Placement, c: Contents, m: seq<Word>) {
    forall loc :: IsCell(img, p.mode, loc) ==> Get(m, Slot(p, loc)) == Cell(c, loc)
  }

  predicate TargetHolds(img: Image, p: Placement, resolve: Resolver, c: Contents, m: seq<Word>, i: nat)
    requires i < |img.rels|
  {
    && RelLoc(img, p.mode, i).Some?
    && var loc := RelLoc(img, p.mode, i).value;
       var out := LoadWord(img, p, resolve, img.rels[i], Cell(c, loc));
       !out.Fail? && Get(m, Slot(p, loc)) == Apply(out, Cell(c, loc))
  }

  /** Relocated words hold run-time values for p, every other word its contents. */
  ghost predicate Rendered(img: Image, p: Placement, resolve: Resolver, c: Contents, m: seq<Word>) {
    && (forall i :: 0 <= i < |img.rels| ==> TargetHolds(img, p, resolve, c, m, i))
    && (forall loc :: IsCell(img, p.mode, loc) && !IsTarget(img, p.mode, loc) ==>
          Get(m, Slot(p, loc)) == Cell(c, loc))
  }

  ghost predicate Represents(img: Image, p: Placement, resolve: Resolver, c: Contents, m: seq<Word>) {
    Rendered(img, p, resolve, c, m) && BasesIn(img, p, m)
  }

  /** A word of the module that is no target is out of every entry's reach. */
  lemma NotHit(img: Image, p: Placement, n: int, loc: Loc, j: int)
    requires WellFormed(img) && ValidPlacement(img, p, n) && InBounds(img, p.mode, loc)
    requires IsBaseSlot(img, loc) || !IsTarget(img, p.mode, loc)
    ensures !Hits(img, p, j, Slot(p, loc))
  {
    hide RamSize, MainOffset;
    hide Shaped;
    assert Shaped(img);
    hide ValidPlacement, WellFormed, RelLoc, Slot, InBounds, IsBaseSlot;
    if Hits(img, p, j, Slot(p, loc)) {
      TargetInMemory(img, p, n, j);
      SlotInjective(img, p, n, RelLoc(img, p.mode, j).value, loc);
    }
  }

  lemma BaseSlotIsWord(img: Image, p: Placement, k: int)
    requires WellFormed(img) && 3 <= k < |img.tab|
    ensures var loc := Block(BaseSlot(img, p, k) - p.ram);
      InBounds(img, p.mode, loc) && IsBaseSlot(img, loc) && Slot(p, loc) == BaseSlot(img, p, k)
  {
    hide RamSize, MainOffset;
    hide Shaped;
    assert Shaped(img);
    hide WellFormed;
    WordSizes(img, p.mode, 0);
  }

  /** A walk changes no base and no word outside its targets. */
  lemma WalkKeepsRest(img: Image, pass: Pass, m: seq<Word>, loc: Loc)
    requires WellFormed(img) && ValidPlacement(img, pass.at, |m|) && InBounds(img, pass.at.mode, loc)
    requires IsBaseSlot(img, loc) || !IsTarget(img, pass.at.mode, loc)
    ensures Get(Walk(img, pass, m, 0).1, Slot(pass.at, loc)) == Get(m, Slot(pass.at, loc))
  {
    hide RamSize, MainOffset;
    hide Walk, Get, Slot, InBounds, ValidPlacement, WellFormed;
    forall j | 0 <= j < |img.rels|
      ensures !Hits(img, pass.at, j, Slot(pass.at, loc))
    {
      NotHit(img, pass.at, |m|, loc, j);
    }
    WalkFrame(img, pass, m, 0, Slot(pass.at, loc));
  }

  lemma WalkKeepsBases(img: Image, pass: Pass, m: seq<Word>, p: Placement)
    requires WellFormed(img) && ValidPlacement(img, pass.at, |m|) && p.ram == pass.at.ram
    requires BasesIn(img, p, m)
    ensures BasesIn(img, p, Walk(img, pass, m, 0).1)
  {
    hide RamSize, MainOffset;
    hide Walk, Get, ValidPlacement, WellFormed, InBounds, IsBaseSlot;
    forall k | 3 <= k < |img.tab|
      ensures Get(Walk(img, pass, m, 0).1, BaseSlot(img, p, k)) == TaggedBase(p, k)
    {
      BaseSlotIsWord(img, pass.at, k);
      WalkKeepsRest(img, pass, m, Block(BaseSlot(img, p, k) - p.ram));
    }
  }

  lemma TargetIsCell(img: Image, p: Placement, n: int, i: nat)
    requires WellFormed(img) && ValidPlacement(img, p, n) && i < |img.rels| && RelLoc(img, p.mode, i).Some?
    ensures IsCell(img, p.mode, RelLoc(img, p.mode, i).value)
    ensures TargetAddr(img, p, i) == Some(Slot(p, RelLoc(img, p.mode, i).value))
  {
    hide RamSize, MainOffset;
    hide ValidPlacement, WellFormed, RelLoc, Slot, InBounds, IsBaseSlot;
    TargetInMemory(img, p, n, i);
  }

  /** A load walk that succeeds turns placed contents into a loaded module. */
  lemma LoadRenders(img: Image, p: Placement, resolve: Resolver, c: Contents, m: seq<Word>)
    requires WellFormed(img) && ValidPlacement(img, p, |m|)
    requires Holds(img, p, c, m) && BasesIn(img, p, m)
    requires Walk(img, Loading(p, resolve), m, 0).0 == Ok
    ensures Represents(img, p, resolve, c, Walk(img, Loading(p, resolve), m, 0).1)
  {
    hide RamSize, MainOffset;
    var pass := Loading(p, resolve);
    var m' := Walk(img, pass, m, 0).1;
    WellFormedSeparate(img, p, |m|);
    WalkKeepsBases(img, pass, m, p);
    hide Walk, Get, Slot, InBounds, IsBaseSlot, ValidPlacement, WellFormed, RelLoc, LoadWord, Separate, BasesIn;
    forall i | 0 <= i < |img.rels|
      ensures TargetHolds(img, p, resolve, c, m', i)
    {
      WalkAt(img, pass, m, 0, i);
      TargetIsCell(img, p, |m|, i);
    }
    forall loc | IsCell(img, p.mode, loc) && !IsTarget(img, p.mode, loc)
      ensures Get(m', Slot(p, loc)) == Cell(c, loc)
    {
      WalkKeepsRest(img, pass, m, loc);
    }
  }

  /** Entry i cannot be applied: it has no target, or its word does not resolve. */
  predicate EntryFails(img: Image, p: Placement, resolve: Resolver, c: Contents, i: nat, error: Error)
    requires i < |img.rels|
  {
    match RelLoc(img, p.mode, i)
    case None => error == BadRelocationTable
    case Some(loc) => LoadWord(img, p, resolve, img.rels[i], Cell(c, loc)) == Fail(error)
  }

  /** With a section table: no section has the address. */
  predicate Unmapped(img: Image, p: Placement, va: int) {
    img.tab != [] && Runtime(img, p, va).None?
  }

  /** The host does not know an external symbol. */
  predicate Unknown(resolve: Resolver, sym: Symbol) {
    sym.kind == EXTERN && resolve(sym.name) == 0
  }

  /** A symbol without an address: the module's name, or one of its own outside every section. */
  predicate Unplaced(img: Image, p: Placement, sym: Symbol) {
    sym.kind == MODULE_NAME || (sym.kind in {INTERNAL, EXPORTED, WEAK} && Unmapped(img, p, sym.val))
  }

  /** Why an entry cannot be applied: an external symbol that the host does not know, and nothing else, is
      unknown; no target, no symbol or one without an address, an in-place address outside every section or
      a word of the LOT to be patched in place is a bad entry. */
  lemma EntryCauses(img: Image, p: Placement, resolve: Resolver, c: Contents, i: nat)
    requires i < |img.rels|
    ensures var (rel, loc) := (img.rels[i], RelLoc(img, p.mode, i));
      EntryFails(img, p, resolve, c, i, UnknownSymbol) <==>
        loc.Some? && !InPlace(rel) && ImageSym(img, rel.value).Some? && Unknown(resolve, ImageSym(img, rel.value).value)
    ensures var (rel, loc) := (img.rels[i], RelLoc(img, p.mode, i));
      EntryFails(img, p, resolve, c, i, BadRelocationTable) <==>
        || loc.None?
        || (InPlace(rel) && (rel.lotOffset < img.hdr.numLot || Unmapped(img, p, Cell(c, loc.value))))
        || (!InPlace(rel) && (ImageSym(img, rel.value).None? || Unplaced(img, p, ImageSym(img, rel.value).value)))
    ensures forall error :: EntryFails(img, p, resolve, c, i, error) ==> error in {UnknownSymbol, BadRelocationTable}
  {
    hide RelLoc, Cell, Runtime, ImageSym, InPlace;
  }

  /** Entry i cannot be applied, and it is the first. */
  ghost predicate FirstFails(img: Image, p: Placement, resolve: Resolver, c: Contents, i: nat, error: Error)
    requires i < |img.rels|
  {
    EntryFails(img, p, resolve, c, i, error) && forall k: nat, e :: k < i ==> !EntryFails(img, p, resolve, c, k, e)
  }

  /** A load walk over placed contents that fails has met such an entry, and stops at the first. */
  lemma LoadFailsAt(img: Image, p: Placement, resolve: Resolver, c: Contents, m: seq<Word>) returns (i: nat)
    requires WellFormed(img) && ValidPlacement(img, p, |m|) && Holds(img, p, c, m)
    requires Walk(img, Loading(p, resolve), m, 0).0 != Ok
    ensures i < |img.rels| && FirstFails(img, p, resolve, c, i, Walk(img, Loading(p, resolve), m, 0).0)
  {
    hide Walk, ValidPlacement, WellFormed, EntryFails, Separate, Stop, Holds;
    WellFormedSeparate(img, p, |m|);
    i := WalkFailsAt(img, Loading(p, resolve), m, 0);
    FailsIsStop(img, p, resolve, c, m, i, Walk(img, Loading(p, resolve), m, 0).0);
    forall k: nat, e | k < i
      ensures !EntryFails(img, p, resolve, c, k, e)
    {
      FailsIsStop(img, p, resolve, c, m, k, e);
    }
  }

  /** Over placed contents the walk stops at an entry exactly if it cannot be applied. */
  lemma FailsIsStop(img: Image, p: Placement, resolve: Resolver, c: Contents, m: seq<Word>, i: nat, error: Error)
    requires WellFormed(img) && ValidPlacement(img, p, |m|) && Holds(img, p, c, m) && i < |img.rels|
    ensures EntryFails(img, p, resolve, c, i, error) ==> error != Ok && Stop(img, Loading(p, resolve), m, i) == error
    ensures error != Ok && Stop(img, Loading(p, resolve), m, i) == error ==> EntryFails(img, p, resolve, c, i, error)
  {
    hide Get, Slot, InBounds, IsBaseSlot, ValidPlacement, WellFormed, RelLoc, LoadWord;
    EntryCauses(img, p, resolve, c, i);
    if RelLoc(img, p.mode, i).Some? {
      TargetIsCell(img, p, |m|, i);
      assert Get(m, Slot(p, RelLoc(img, p.mode, i).value)) == Cell(c, RelLoc(img, p.mode, i).value);
    }
  }

  /** A loaded module has none. */
  lemma LoadedNoneFails(img: Image, p: Placement, resolve: Resolver, c: Contents, m: seq<Word>, i: nat, error: Error)
    requires Represents(img, p, resolve, c, m) && i < |img.rels|
    ensures !EntryFails(img, p, resolve, c, i, error)
  {
    hide RelLoc, LoadWord, Get, Slot, Cell, BasesIn;
    assert TargetHolds(img, p, resolve, c, m, i);
  }

  // ----- moving -----

  predicate InBlock(p: Placement, k: int) {
    k < 3 && !(k == 0 && p.mode.Xip?)
  }

  lemma MainInBlock(img: Image, p: Placement, k: int)
    requires Shaped(img) && img.tab != [] && 0 <= k && InBlock(p, k)
    ensures p.ram <= Base(img, p, k) && Base(img, p, k) + Sec(img.tab, k).size <= p.ram + RamSize(img.hdr, img.tab, p.mode)
  {
    hide RamSize, MainOffset;
    hide ValidTable;
    assert ValidTable(img.tab);
    hide Shaped;
    SectionPlaced(img.hdr, img.tab, p.mode, k);
  }

  lemma MainsDisjoint(img: Image, p: Placement, k: int, l: int)
    requires Shaped(img) && img.tab != [] && 0 <= k < l < 3 && InBlock(p, k)
    ensures Base(img, p, k) + Sec(img.tab, k).size <= Base(img, p, l)
  {
    hide RamSize, MainOffset;
    hide ValidTable;
    assert ValidTable(img.tab);
    hide MainStart, Shaped;
    SectionsApart(img.hdr, img.tab, p.mode);
  }

  /** Run-time byte ranges of different sections do not meet. */
  lemma RuntimeRangesApart(img: Image, p: Placement, n: int, k: int, l: int, addr: int)
    requires Shaped(img) && img.tab != [] && ValidPlacement(img, p, n)
    requires 0 <= k < |img.tab| && 0 <= l < |img.tab|
    requires Base(img, p, k) <= addr < Base(img, p, k) + Sec(img.tab, k).size
    requires Base(img, p, l) <= addr < Base(img, p, l) + Sec(img.tab, l).size
    ensures k == l
  {
    hide RamSize, MainOffset;
    if k < l {
      RangesInOrder(img, p, n, k, l, addr);
    } else if l < k {
      RangesInOrder(img, p, n, l, k, addr);
    }
  }

  lemma RangesInOrder(img: Image, p: Placement, n: int, k: int, l: int, addr: int)
    requires Shaped(img) && img.tab != [] && ValidPlacement(img, p, n)
    requires 0 <= k < l < |img.tab|
    ensures !(Base(img, p, k) <= addr < Base(img, p, k) + Sec(img.tab, k).size)
         || !(Base(img, p, l) <= addr < Base(img, p, l) + Sec(img.tab, l).size)
  {
    hide RamSize, MainOffset;
    hide Shaped;
    if InBlock(p, k) { MainInBlock(img, p, k); }
    if l < 3 {
      MainInBlock(img, p, l);
      if InBlock(p, k) { MainsDisjoint(img, p, k, l); }
    } else {
      assert TaggedPlaced(img, p, n, l);
    }
  }

  lemma RuntimeInRange(img: Image, p: Placement, n: int, k: int)
    requires Shaped(img) && img.tab != [] && ValidPlacement(img, p, n)
    requires 0 <= k < |img.tab| && Sec(img.tab, k).size > 0
    ensures 0 <= Base(img, p, k) && Base(img, p, k) + Sec(img.tab, k).size <= LIMIT
  {
    hide RamSize, MainOffset;
    hide ValidTable;
    assert ValidTable(img.tab);
    hide Shaped;
    if k >= 3 {
      assert TaggedPlaced(img, p, n, k);
    } else if !(k == 0 && p.mode.Xip?) {
      SectionPlaced(img.hdr, img.tab, p.mode, k);
    }
  }

  lemma {:induction false} FindRuntimeHits(img: Image, p: Placement, n: int, addr: int, k: int, i: int)
    requires Shaped(img) && img.tab != [] && ValidPlacement(img, p, n) && 0 <= i <= k < |img.tab|
    requires Base(img, p, k) <= addr < Base(img, p, k) + Sec(img.tab, k).size
    ensures FindRuntimeFrom(img, p, addr, i) == k
    decreases k - i
  {
    hide RamSize, MainOffset;
    hide Base, ValidPlacement, Shaped;
    if Base(img, p, i) <= addr < Base(img, p, i) + Sec(img.tab, i).size {
      RuntimeRangesApart(img, p, n, k, i, addr);
    } else {
      FindRuntimeHits(img, p, n, addr, k, i + 1);
    }
  }

  /** An in-place word names an address inside a section's own bytes. */
  predicate LinkInside(img: Image, w: Word) {
    Find(img.tab, w) >= 0 && InSection(Sec(img.tab, Find(img.tab, w)), w)
  }

  /** What a move adds to a run-time address: the shift of the section whose own bytes hold it. */
  function SeenShift(img: Image, from: Placement, to: Placement, addr: int): int {
    var l := FindRuntimeFrom(img, from, addr, 0);
    if l < 0 then 0 else Base(img, to, l) - Base(img, from, l)
  }

  /** The section the link address belongs to and the one the reverse map sees move by the same amount. */
  predicate InPlaceMoves(img: Image, from: Placement, to: Placement, w: Word) {
    var k := Find(img.tab, w);
    k >= 0 ==> Wrap(Base(img, to, k) - Base(img, from, k)) == Wrap(SeenShift(img, from, to, Runtime(img, from, w).value))
  }

  /** In-place words exactly: rebasing gives the forward map's word at the new place iff the reverse map,
      which looks at the sections' own bytes only, sees the right shift. */
  lemma InPlaceMoveExact(img: Image, from: Placement, to: Placement, rel: Rel, w: Word)
    requires img.tab != [] && InPlace(rel) && rel.lotOffset >= img.hdr.numLot && Find(img.tab, w) >= 0
    ensures Runtime(img, from, w).Some? && Runtime(img, to, w).Some?
    ensures MoveWord(img, from, to, rel, Runtime(img, from, w).value) == Runtime(img, to, w).value
      <==> InPlaceMoves(img, from, to, w)
  {
    hide Base, FindRuntimeFrom;
    var k := Find(img.tab, w);
    var was := Runtime(img, from, w).value;
    var l, off := FindRuntimeFrom(img, from, was, 0), w - Sec(img.tab, k).va;
    hide Find, InPlace;
    WrapShift(Base(img, from, k) + off, Base(img, to, k) + off, SeenShift(img, from, to, was));
  }

  lemma WrapShift(a: int, b: int, shift: int)
    ensures Wrap(Wrap(a) + shift) == Wrap(b) <==> Wrap(b - a) == Wrap(shift)
  {}

  /** An address inside a section's own bytes always moves as it should. */
  lemma InsideMoves(img: Image, from: Placement, to: Placement, n: int, w: Word)
    requires Shaped(img) && img.tab != [] && ValidPlacement(img, from, n) && LinkInside(img, w)
    ensures InPlaceMoves(img, from, to, w)
  {
    hide RamSize, MainOffset;
    hide Base, ValidPlacement, Shaped;
    var k := Find(img.tab, w);
    var off := w - Sec(img.tab, k).va;
    RuntimeInRange(img, from, n, k);
    FindRuntimeHits(img, from, n, Base(img, from, k) + off, k, 0);
  }

  /** What one relocation needs for its word to move as it should. */
  predicate MovableWord(img: Image, from: Placement, to: Placement, resolve: Resolver, rel: Rel, w: Word) {
    if InPlace(rel) then img.tab != [] ==> InPlaceMoves(img, from, to, w)
    else
      ImageSym(img, rel.value).Some? && ImageSym(img, rel.value).value.kind == WEAK ==>
        WeakMoves(img, from, to, resolve, ImageSym(img, rel.value).value)
  }

  /** The host's override is not the module's own old address, or that address does not change. */
  predicate WeakMoves(img: Image, from: Placement, to: Placement, resolve: Resolver, sym: Symbol) {
    resolve(sym.name) <= DEFERRED || Default(img, from, sym) != Some(resolve(sym.name)) || Default(img, from, sym) == Default(img, to, sym)
  }

  /** Rebasing the word that loading at `from` wrote gives the word that loading at `to` writes, exactly
      when the word moves as it should. */
  lemma MoveIsReload(img: Image, from: Placement, to: Placement, resolve: Resolver, rel: Rel, w: Word)
    requires from.mode == to.mode && !LoadWord(img, from, resolve, rel, w).Fail?
    ensures !LoadWord(img, to, resolve, rel, w).Fail?
    ensures MoveWord(img, from, to, rel, Apply(LoadWord(img, from, resolve, rel, w), w))
         == Apply(LoadWord(img, to, resolve, rel, w), w)
      <==> MovableWord(img, from, to, resolve, rel, w)
  {
    if InPlace(rel) {
      InPlaceReload(img, from, to, resolve, rel, w);
      hide LoadWord, MoveWord, InPlaceMoves;
    } else if ImageSym(img, rel.value).Some? && ImageSym(img, rel.value).value.kind == WEAK {
      hide LoadWord, MoveWord, ImageSym, WeakMoves;
      WeakMoveExact(img, from, to, resolve, rel, w);
    } else {
      hide LoadWord, MoveWord, ImageSym, WeakMoves;
      StrongReload(img, from, to, resolve, rel, w);
    }
  }

  lemma InPlaceReload(img: Image, from: Placement, to: Placement, resolve: Resolver, rel: Rel, w: Word)
    requires InPlace(rel) && !LoadWord(img, from, resolve, rel, w).Fail?
    ensures !LoadWord(img, to, resolve, rel, w).Fail?
    ensures MoveWord(img, from, to, rel, Apply(LoadWord(img, from, resolve, rel, w), w))
         == Apply(LoadWord(img, to, resolve, rel, w), w)
      <==> (img.tab != [] ==> InPlaceMoves(img, from, to, w))
  {
    hide RamSize, MainOffset, Base, ImageSym, DataBase, CodeBase, InPlaceMoves, FindRuntimeFrom;
    if img.tab != [] {
      InPlaceMoveExact(img, from, to, rel, w);
      hide Runtime, MoveWord;
    }
  }

  /** A symbol that is not weak always moves as it should. */
  lemma StrongReload(img: Image, from: Placement, to: Placement, resolve: Resolver, rel: Rel, w: Word)
    requires !InPlace(rel) && !(ImageSym(img, rel.value).Some? && ImageSym(img, rel.value).value.kind == WEAK)
    requires !LoadWord(img, from, resolve, rel, w).Fail?
    ensures !LoadWord(img, to, resolve, rel, w).Fail?
    ensures MoveWord(img, from, to, rel, Apply(LoadWord(img, from, resolve, rel, w), w)) == Apply(LoadWord(img, to, resolve, rel, w), w)
  {
    hide Base, ImageSym, DataBase, CodeBase, Find;
  }

  /** Weak symbols exactly: the move gives the reload's word unless the host's override equals the
      module's own old address while that address changes. */
  lemma WeakMoveExact(img: Image, from: Placement, to: Placement, resolve: Resolver, rel: Rel, w: Word)
    requires !InPlace(rel) && ImageSym(img, rel.value).Some? && ImageSym(img, rel.value).value.kind == WEAK
    requires !LoadWord(img, from, resolve, rel, w).Fail?
    ensures !LoadWord(img, to, resolve, rel, w).Fail?
    ensures MoveWord(img, from, to, rel, Apply(LoadWord(img, from, resolve, rel, w), w))
        == Apply(LoadWord(img, to, resolve, rel, w), w)
      <==> WeakMoves(img, from, to, resolve, ImageSym(img, rel.value).value)
  {
    hide RamSize, MainOffset;
    hide Base, ImageSym, Find, DataBase, CodeBase;
  }
}
