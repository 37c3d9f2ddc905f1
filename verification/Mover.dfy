// Moving a loaded module: relocate_main_block, udynlink_relocate_module_sections and the two link calls.

module Mover {
  import opened Words
  import opened Image
  import opened Sections
  import opened AddressMap
  import opened Layout
  import opened Placement
  import opened Relocation
  import opened Loaded
  import opened Moving
  import opened Renaming
  import opened Memory
  import opened Handle
  import opened Walks
  import opened Ownership
  import opened Tagged
  import opened MainBlock
  import opened Staging

  // ----- validating the requested section moves -----

  function MoveError(tab: seq<Section>, moves: seq<SectionMove>, m: nat): Error
    requires m < |moves|
  {
    var move := moves[m];
    if move.idx < 3 || move.idx >= |tab| || (exists j :: 0 <= j < m && moves[j].idx == move.idx) then InvalidModule
    else if move.newBase == 0 then SectionUnresolved
    else if !Aligned(move.newBase, Sec(tab, move.idx).align) then SectionUnaligned
    else Ok
  }

  /** The first objection, in list order. */
  function MovesError(tab: seq<Section>, moves: seq<SectionMove>, m: nat): Error
    requires m <= |moves|
    decreases |moves| - m
  {
    if m == |moves| then Ok
    else if MoveError(tab, moves, m) != Ok then MoveError(tab, moves, m)
    else MovesError(tab, moves, m + 1)
  }

  method CheckMoves(tab: seq<Section>, moves: seq<SectionMove>) returns (res: Error)
    ensures res == MovesError(tab, moves, 0)
  {
    hide Aligned;
    for m := 0 to |moves|
      invariant MovesError(tab, moves, m) == MovesError(tab, moves, 0)
    {
      var move := moves[m];
      if move.idx < 3 || move.idx >= |tab| {
        return InvalidModule;
      }
      for j := 0 to m
        invariant forall i :: 0 <= i < j ==> moves[i].idx != move.idx
      {
        if moves[j].idx == move.idx {
          return InvalidModule;
        }
      }
      if move.newBase == 0 {
        return SectionUnresolved;
      }
      if !Aligned(move.newBase, Sec(tab, move.idx).align) {
        return SectionUnaligned;
      }
    }
    res := Ok;
  }

  /** Accepted moves name tagged sections, each at most once. */
  predicate GoodMoves(tab: seq<Section>, moves: seq<SectionMove>) {
    && (forall m :: 0 <= m < |moves| ==> 3 <= moves[m].idx < |tab| && moves[m].newBase != 0)
    && (forall j, m :: 0 <= j < m < |moves| ==> moves[j].idx != moves[m].idx)
  }

  /** ... to places aligned as the sections ask. */
  predicate AlignedMoves(tab: seq<Section>, moves: seq<SectionMove>) {
    forall m :: 0 <= m < |moves| ==> Aligned(moves[m].newBase, Sec(tab, moves[m].idx).align)
  }

  /** Exactly the good lists are accepted. */
  lemma MovesAccepted(tab: seq<Section>, moves: seq<SectionMove>)
    ensures MovesError(tab, moves, 0) == Ok <==> GoodMoves(tab, moves) && AlignedMoves(tab, moves)
  {
    hide Aligned;
    if MovesError(tab, moves, 0) == Ok {
      AcceptedMoves(tab, moves, 0);
      AcceptedMovesGood(tab, moves);
      forall m | 0 <= m < |moves|
        ensures Aligned(moves[m].newBase, Sec(tab, moves[m].idx).align)
      {
        assert MoveError(tab, moves, m) == Ok;
      }
    } else {
      var m := FirstObjection(tab, moves);
    }
  }

  /** Every refusal has an offending entry: one that is no tagged section or comes up twice, one without a
      place, one with a misaligned place. */
  predicate Offends(tab: seq<Section>, moves: seq<SectionMove>, m: nat, error: Error)
    requires m < |moves|
  {
    match error
    case InvalidModule => !(3 <= moves[m].idx < |tab|) || exists j :: 0 <= j < m && moves[j].idx == moves[m].idx
    case SectionUnresolved => moves[m].newBase == 0
    case SectionUnaligned => !Aligned(moves[m].newBase, Sec(tab, moves[m].idx).align)
    case _ => false
  }

  lemma {:induction false} OffendingMove(tab: seq<Section>, moves: seq<SectionMove>, i: nat) returns (m: nat)
    requires i <= |moves| && MovesError(tab, moves, i) != Ok
    ensures i <= m < |moves| && Offends(tab, moves, m, MovesError(tab, moves, i))
    ensures forall j :: i <= j < m ==> MoveError(tab, moves, j) == Ok
    decreases |moves| - i
  {
    hide Aligned;
    if MoveError(tab, moves, i) != Ok {
      m := i;
    } else {
      m := OffendingMove(tab, moves, i + 1);
    }
  }

  /** The error is that of the first entry that offends: what is before it would have been accepted. */
  lemma FirstObjection(tab: seq<Section>, moves: seq<SectionMove>) returns (m: nat)
    requires MovesError(tab, moves, 0) != Ok
    ensures m < |moves| && Offends(tab, moves, m, MovesError(tab, moves, 0))
    ensures GoodMoves(tab, moves[..m]) && AlignedMoves(tab, moves[..m])
  {
    hide Aligned;
    m := OffendingMove(tab, moves, 0);
    var before := moves[..m];
    forall j | 0 <= j < m
      ensures 3 <= before[j].idx < |tab| && before[j].newBase != 0 && Aligned(before[j].newBase, Sec(tab, before[j].idx).align)
      ensures forall i :: 0 <= i < j ==> before[i].idx != before[j].idx
    {
      assert MoveError(tab, moves, j) == Ok;
    }
  }

  /** Whether a list is accepted does not depend on its order. */
  lemma MovesInAnyOrder(tab: seq<Section>, moves: seq<SectionMove>, moves': seq<SectionMove>)
    requires multiset(moves) == multiset(moves')
    ensures MovesError(tab, moves, 0) == Ok <==> MovesError(tab, moves', 0) == Ok
  {
    hide Aligned, MovesError;
    MovesAccepted(tab, moves);
    MovesAccepted(tab, moves');
    if GoodMoves(tab, moves) && AlignedMoves(tab, moves) { GoodInAnyOrder(tab, moves, moves'); }
    if GoodMoves(tab, moves') && AlignedMoves(tab, moves') { GoodInAnyOrder(tab, moves', moves); }
  }

  lemma GoodInAnyOrder(tab: seq<Section>, moves: seq<SectionMove>, moves': seq<SectionMove>)
    requires multiset(moves) == multiset(moves') && GoodMoves(tab, moves) && AlignedMoves(tab, moves)
    ensures GoodMoves(tab, moves') && AlignedMoves(tab, moves')
  {
    hide Aligned;
    forall m | 0 <= m < |moves'|
      ensures moves'[m] in moves
    {
      assert moves'[m] in multiset(moves');
    }
    forall j, m | 0 <= j < m < |moves'|
      ensures moves'[j].idx != moves'[m].idx
    {
      if moves'[j].idx == moves'[m].idx {
        var i: nat :| i < |moves| && moves[i] == moves'[j];
        var k: nat :| k < |moves| && moves[k] == moves'[m];
        assert i == k;
        TwiceThere(moves', j, m);
        OnceThere(moves, i);
      }
    }
  }

  lemma TwiceThere(s: seq<SectionMove>, j: nat, m: nat)
    requires j < m < |s| && s[j] == s[m]
    ensures multiset(s)[s[j]] >= 2
  {
    assert s == s[..m] + [s[m]] + s[m + 1..];
    assert s[j] in s[..m];
  }

  lemma OnceThere(s: seq<SectionMove>, i: nat)
    requires i < |s| && forall k :: 0 <= k < |s| && k != i ==> s[k].idx != s[i].idx
    ensures multiset(s)[s[i]] == 1
  {
    assert s == s[..i] + [s[i]] + s[i + 1..];
    assert s[i] !in s[..i] && s[i] !in s[i + 1..];
  }

  lemma {:induction false} AcceptedMoves(tab: seq<Section>, moves: seq<SectionMove>, m: nat)
    requires m <= |moves| && MovesError(tab, moves, m) == Ok
    ensures forall j :: m <= j < |moves| ==> MoveError(tab, moves, j) == Ok
    decreases |moves| - m
  {
    if m == |moves| {
    } else {
      AcceptedMoves(tab, moves, m + 1);
    }
  }

  lemma AcceptedMovesGood(tab: seq<Section>, moves: seq<SectionMove>)
    requires MovesError(tab, moves, 0) == Ok
    ensures GoodMoves(tab, moves)
  {
    AcceptedMoves(tab, moves, 0);
    hide Aligned;
    forall m | 0 <= m < |moves|
      ensures 3 <= moves[m].idx < |tab| && moves[m].newBase != 0
      ensures forall j :: 0 <= j < m ==> moves[j].idx != moves[m].idx
    {
      assert MoveError(tab, moves, m) == Ok;
    }
  }

  lemma {:induction false} MovedBaseIs(moves: seq<SectionMove>, k: int, was: int, m: nat)
    requires m <= |moves| && forall i, j :: 0 <= i < j < |moves| ==> moves[i].idx != moves[j].idx
    ensures forall j :: m <= j < |moves| && moves[j].idx == k ==> MovedBase(moves[m..], k, was) == moves[j].newBase
    ensures (forall j :: m <= j < |moves| ==> moves[j].idx != k) ==> MovedBase(moves[m..], k, was) == was
    decreases |moves| - m
  {
    if m == |moves| {
    } else {
      MovedBaseIs(moves, k, was, m + 1);
      assert moves[m..][1..] == moves[m + 1..];
    }
  }

  // ----- the copy of the block -----

  /** memcpy(dest, old block, ram size). */
  ghost predicate BlockCopied(m: seq<Word>, was: int, copy: seq<Word>, dest: int, size: int) {
    CopiedRange(m, was, copy, dest, size) && SameOutside(m, copy, dest, size)
  }

  /** The destination is in memory and clear of everything the module keeps using. */
  predicate Clear(img: Image, q: Placement, header: int, dest: int, n: int) {
    var size := RamSize(img.hdr, img.tab, q.mode);
    && dest > 0 && dest % 4 == 0 && dest + size <= 4 * n
    && Apart(dest, size, q.ram, size) && Apart(dest, size, q.text, TextSize(img, q.mode))
    && (!q.mode.CopyAll? ==> Apart(dest, size, header, CodeOffset(img.hdr)))
    && forall k :: 3 <= k < |img.tab| ==> Apart(dest, size, TaggedBase(q, k), Sec(img.tab, k).size)
  }

  /** `q` with its block at `dest`. */
  function AtBlock(q: Placement, dest: int): Placement {
    q.(ram := dest)
  }

  lemma ClearIsValid(img: Image, q: Placement, header: int, dest: int, n: int)
    requires ValidPlacement(img, q, n) && Clear(img, q, header, dest, n)
    ensures ValidPlacement(img, AtBlock(q, dest), n)
  {
    hide RamSize, TextSize, Sec, CodeOffset;
    var to := AtBlock(q, dest);
    forall k | 3 <= k < |img.tab|
      ensures TaggedPlaced(img, to, n, k)
    {
      assert TaggedPlaced(img, q, n, k);
    }
    forall k, l | 3 <= k < l < |img.tab|
      ensures Apart(TaggedBase(to, k), Sec(img.tab, k).size, TaggedBase(to, l), Sec(img.tab, l).size)
    {
      assert Apart(TaggedBase(q, k), Sec(img.tab, k).size, TaggedBase(q, l), Sec(img.tab, l).size);
    }
  }

  /** The host has copied the payloads of the sections it moves. */
  ghost predicate HostCopied(img: Image, from: Placement, q: Placement, m: seq<Word>) {
    forall loc: Loc :: loc.Tagged? && InBounds(img, q.mode, loc) ==> Get(m, Slot(q, loc)) == Get(m, Slot(from, loc))
  }

  lemma CopiedByMove(img: Image, from: Placement, q: Placement, header: int, m: seq<Word>, copy: seq<Word>, dest: int)
    requires Shaped(img) && ValidPlacement(img, q, |m|) && Clear(img, q, header, dest, |m|)
    requires from.mode == q.mode && from.ram == q.ram && from.text == q.text && |from.tagged| == |q.tagged|
    requires HostCopied(img, from, q, m) && BlockCopied(m, from.ram, copy, dest, RamSize(img.hdr, img.tab, q.mode))
    ensures Copied(img, from, m, AtBlock(q, dest), copy)
  {
    hide RamSize, TextSize, Sec, CodeOffset, Shaped, Get, InBounds, TaggedBase, IsBaseSlot, ValidPlacement, Clear, BlockCopied;
    var to := AtBlock(q, dest);
    forall loc | IsCell(img, to.mode, loc)
      ensures Get(copy, Slot(to, loc)) == Get(m, Slot(from, loc))
    {
      match loc
      case Block(off) => BlockWordMoved(img, from, q, header, m, copy, dest, off);
      case Text(off) => OtherWordKept(img, q, header, m, copy, dest, loc);
      case Tagged(k, off) =>
        OtherWordKept(img, q, header, m, copy, dest, loc);
        assert Get(m, Slot(q, loc)) == Get(m, Slot(from, loc));
    }
  }

  lemma BlockWordMoved(img: Image, from: Placement, q: Placement, header: int, m: seq<Word>, copy: seq<Word>, dest: int, off: int)
    requires InBounds(img, q.mode, Block(off))
    requires BlockCopied(m, from.ram, copy, dest, RamSize(img.hdr, img.tab, q.mode))
    ensures Get(copy, Slot(AtBlock(q, dest), Block(off))) == Get(m, Slot(from, Block(off)))
  {
    hide RamSize, SameOutside;
    assert WordCopied(m, from.ram, copy, dest, off);
  }

  lemma OtherWordKept(img: Image, q: Placement, header: int, m: seq<Word>, copy: seq<Word>, dest: int, loc: Loc)
    requires Shaped(img) && ValidPlacement(img, q, |m|) && Clear(img, q, header, dest, |m|)
    requires !loc.Block? && InBounds(img, q.mode, loc)
    requires SameOutside(m, copy, dest, RamSize(img.hdr, img.tab, q.mode)) || BlockCopied(m, q.ram, copy, dest, RamSize(img.hdr, img.tab, q.mode))
    ensures Slot(AtBlock(q, dest), loc) == Slot(q, loc)
    ensures Get(copy, Slot(q, loc)) == Get(m, Slot(q, loc))
  {
    hide RamSize, TextSize, CodeOffset, Shaped, CopiedRange, Sec;
    WordSizes(img, q.mode, if loc.Tagged? then loc.k else 0);
    SlotInMemory(img, q, |m|, loc);
    if loc.Tagged? { assert TaggedPlaced(img, q, |m|, loc.k); }
    assert !InRange(Slot(q, loc) / 4, dest, RamSize(img.hdr, img.tab, q.mode));
  }

  // ----- the state in which the rebase walk runs -----

  lemma MetaInBlock(img: Image, mode: Mode)
    requires Shaped(img) && mode.CopyAll?
    ensures BlockFront(img) % 4 == 0 && 0 <= BlockFront(img)
    ensures BlockFront(img) + CodeOffset(img.hdr) <= RamSize(img.hdr, img.tab, mode)
  {
    FrontPositive(img);
    if img.tab != [] {
      hide RamSize, CodeOffset, Shaped;
      TabledBlockWords(img, mode);
    } else {
      hide CodeOffset, LaidOut, ValidTable;
    }
  }

  lemma HeaderMoved(img: Image, from: Placement, header: int, m: seq<Word>, copy: seq<Word>, dest: int)
    requires Shaped(img) && from.mode.CopyAll? && 0 <= from.ram && from.ram % 4 == 0 && 0 <= dest && dest % 4 == 0
    requires header == from.ram + BlockFront(img) && ImageAt(m, header) == Some(img)
    requires BlockCopied(m, from.ram, copy, dest, RamSize(img.hdr, img.tab, from.mode))
    ensures ImageAt(copy, dest + BlockFront(img)) == Some(img)
  {
    hide RamSize, CodeOffset, ImageAt, SameOutside;
    MetaInBlock(img, from.mode);
    ShapedHasMains(img);
    hide Shaped, BlockFront;
    var header' := dest + BlockFront(img);
    forall j | 0 <= j < CodeOffset(img.hdr) / 4
      ensures SameWord(m, header / 4, copy, header' / 4, j)
    {
      assert WordCopied(m, from.ram, copy, dest, BlockFront(img) + 4 * j);
    }
    ImageFrame(m, header, copy, header');
  }

  lemma HeaderStays(img: Image, header: int, m: seq<Word>, copy: seq<Word>, dest: int, size: int)
    requires Shaped(img) && 0 <= header && header % 4 == 0 && dest % 4 == 0 && size % 4 == 0
    requires ImageAt(m, header) == Some(img) && SameOutside(m, copy, dest, size)
    requires Apart(dest, size, header, CodeOffset(img.hdr))
    ensures ImageAt(copy, header) == Some(img)
  {
    hide CodeOffset, ImageAt;
    ShapedHasMains(img);
    hide Shaped;
    forall j | 0 <= j < CodeOffset(img.hdr) / 4
      ensures SameWord(m, header / 4, copy, header / 4, j)
    {
      assert !InRange(header / 4 + j, dest, size);
    }
    ImageFrame(m, header, copy, header);
  }

  lemma BasesMoved(img: Image, from: Placement, m: seq<Word>, copy: seq<Word>, to: Placement)
    requires WellFormed(img) && BasesIn(img, from, m) && from.mode == to.mode
    requires BlockCopied(m, from.ram, copy, to.ram, RamSize(img.hdr, img.tab, from.mode))
    ensures BasesIn(img, Halfway(from, to), copy)
  {
    hide RamSize, SameOutside, WellFormed, Get;
    forall k | 3 <= k < |img.tab|
      ensures Get(copy, BaseSlot(img, Halfway(from, to), k)) == TaggedBase(Halfway(from, to), k)
    {
      assert Get(m, BaseSlot(img, from, k)) == TaggedBase(from, k);
      BaseSlotIsWord(img, from, k);
      BaseCopied(img, from, m, copy, to, k);
    }
  }

  lemma BaseCopied(img: Image, from: Placement, m: seq<Word>, copy: seq<Word>, to: Placement, k: int)
    requires InBounds(img, from.mode, Block(BaseSlot(img, from, k) - from.ram))
    requires BlockCopied(m, from.ram, copy, to.ram, RamSize(img.hdr, img.tab, from.mode))
    ensures Get(copy, BaseSlot(img, Halfway(from, to), k)) == Get(m, BaseSlot(img, from, k))
  {
    hide RamSize, SameOutside, Get;
    assert WordCopied(m, from.ram, copy, to.ram, BaseSlot(img, from, k) - from.ram);
    assert to.ram + (BaseSlot(img, from, k) - from.ram) == BaseSlot(img, Halfway(from, to), k);
  }

  lemma MetaApartAtDest(img: Image, q: Placement, header: int, dest: int, n: int)
    requires MetaApart(img, q, header) && Clear(img, q, header, dest, n) && !q.mode.CopyAll?
    requires RamSize(img.hdr, img.tab, q.mode) > 0
    ensures MetaApart(img, AtBlock(q, dest), header)
  {
    hide RamSize, CodeOffset, TextSize, MainStart;
    var to := AtBlock(q, dest);
    forall a | header <= a < header + CodeOffset(img.hdr)
      ensures Outside(img, to, a)
    {
      assert Outside(img, q, a);
      assert forall k :: 3 <= k < |img.tab| ==> TaggedBase(to, k) == TaggedBase(q, k);
    }
  }

  /** The state after the copy and the handle update: everything at its new place, the base array in the
      block still the old one. */
  lemma HalfwayThere(mod: Module, img: Image, from: Placement, q: Placement, header: int, m: seq<Word>, copy: seq<Word>, dest: int)
    requires WellFormed(img) && ValidPlacement(img, q, |m|) && RamSize(img.hdr, img.tab, q.mode) > 0
    requires from.mode == q.mode && from.ram == q.ram && from.text == q.text && |from.tagged| == |q.tagged|
    requires header >= 0 && header % 4 == 0 && ImageAt(m, header) == Some(img) && MetaApart(img, q, header) && BasesIn(img, from, m)
    requires (q.mode.Xip? ==> q.text == header + CodeOffset(img.hdr)) && (q.mode.CopyAll? ==> header == q.ram + BlockFront(img))
    requires Clear(img, q, header, dest, |m|) && BlockCopied(m, q.ram, copy, dest, RamSize(img.hdr, img.tab, q.mode))
    requires mod.ram == dest && mod.mode == q.mode
    requires mod.header == if q.mode.CopyAll? then dest + BlockFront(img) else header
    ensures Described(mod, copy, img, Halfway(from, AtBlock(q, dest))) && MetaApart(img, AtBlock(q, dest), mod.header)
    ensures ValidPlacement(img, AtBlock(q, dest), |copy|) && |copy| == |m|
  {
    hide RamSize, CodeOffset, ImageAt, BlockFront, MetaApart, CopiedRange, TextSize, Sec, BasesIn;
    var to := AtBlock(q, dest);
    WellFormedShaped(img);
    ClearIsValid(img, q, header, dest, |m|);
    hide WellFormed, Shaped;
    BlockWords(img, q.mode);
    hide ValidPlacement;
    BasesMoved(img, from, m, copy, to);
    if q.mode.CopyAll? {
      FrontPositive(img);
      MetaInBlock(img, q.mode);
      HeaderMoved(img, from, header, m, copy, dest) by { BlockPlace(img, q, |m|); }
      CopyApart(img, to);
    } else {
      MetaApartAtDest(img, q, header, dest, |m|);
      HeaderStays(img, header, m, copy, dest, RamSize(img.hdr, img.tab, q.mode));
    }
  }

  lemma BlockPlace(img: Image, q: Placement, n: int)
    requires ValidPlacement(img, q, n)
    ensures 0 <= q.ram && q.ram % 4 == 0 && q.ram + RamSize(img.hdr, img.tab, q.mode) <= 4 * n
  {
    hide RamSize;
  }

  // ----- publishing the new bases -----

  /** set_section_base_idx for every move, after the walk. */
  method PublishBases(mem: array<Word>, ram: int, numLot: int, moves: seq<SectionMove>, ghost img: Image, ghost from: Placement,
                      ghost to: Placement)
    requires WellFormed(img) && ValidPlacement(img, to, mem.Length) && ram == to.ram && numLot == img.hdr.numLot
    requires GoodMoves(img.tab, moves) && to == MoveTarget(from, ram, moves) && |from.tagged| == NumTagged(img.tab)
    requires BasesIn(img, Halfway(from, to), mem[..])
    modifies mem
    ensures BasesIn(img, to, mem[..]) && SameCells(img, to, old(mem[..]), mem[..])
    ensures OnlyBases(img, to, old(mem[..]), mem[..])
  {
    hide RamSize, ValidPlacement, WellFormed, Sec;
    ghost var m := mem[..];
    NonePublished(img, from, to, m);
    var j := 0;
    while j < |moves|
      invariant 0 <= j <= |moves|
      invariant Published(img, from, to, moves[..j], mem[..])
      invariant OnlyBases(img, to, m, mem[..])
    {
      ghost var before := mem[..];
      BlockIsPlaced(img, to, mem.Length);
      BaseSlotInMemory(img, to, mem.Length, moves[j].idx);
      assert ram + numLot * 4 + (moves[j].idx - 3) * 4 == BaseSlot(img, to, moves[j].idx);
      mem[(ram + numLot * 4 + (moves[j].idx - 3) * 4) / 4] := moves[j].newBase;
      PublishOne(img, from, to, moves, j, before, mem[..]);
      OnlyBasesStep(img, to, m, before, mem[..], moves[j].idx, moves[j].newBase);
      j := j + 1;
    }
    assert moves[..j] == moves;
    AllPublished(img, from, to, moves, mem[..]);
    OnlyBasesCells(img, to, m, mem[..]);
  }

  predicate PublishedBase(img: Image, from: Placement, to: Placement, done: seq<SectionMove>, m: seq<Word>, k: int) {
    Get(m, BaseSlot(img, to, k)) == MovedBase(done, k, TaggedBase(from, k))
  }

  /** After the moves in `done`. */
  predicate Published(img: Image, from: Placement, to: Placement, done: seq<SectionMove>, m: seq<Word>) {
    forall k :: 3 <= k < |img.tab| ==> PublishedBase(img, from, to, done, m, k)
  }

  lemma NonePublished(img: Image, from: Placement, to: Placement, m: seq<Word>)
    requires BasesIn(img, Halfway(from, to), m)
    ensures Published(img, from, to, [], m)
  {
    forall k | 3 <= k < |img.tab|
      ensures PublishedBase(img, from, to, [], m, k)
    {
      assert Get(m, BaseSlot(img, Halfway(from, to), k)) == TaggedBase(Halfway(from, to), k);
    }
  }

  ghost predicate OnlyBases(img: Image, p: Placement, m: seq<Word>, m': seq<Word>) {
    && |m'| == |m|
    && forall a :: a % 4 == 0 && !(exists k :: 3 <= k < |img.tab| && a == BaseSlot(img, p, k)) ==> Get(m', a) == Get(m, a)
  }

  lemma PublishOne(img: Image, from: Placement, to: Placement, moves: seq<SectionMove>, j: nat, m: seq<Word>, m': seq<Word>)
    requires j < |moves| && GoodMoves(img.tab, moves) && to.ram % 4 == 0
    requires 0 <= BaseSlot(img, to, moves[j].idx) / 4 < |m|
    requires m' == m[BaseSlot(img, to, moves[j].idx) / 4 := moves[j].newBase]
    requires Published(img, from, to, moves[..j], m)
    ensures Published(img, from, to, moves[..j + 1], m')
  {
    var done, done' := moves[..j], moves[..j + 1];
    forall k | 3 <= k < |img.tab|
      ensures PublishedBase(img, from, to, done', m', k)
    {
      assert PublishedBase(img, from, to, done, m, k);
      MovedBaseIs(done, k, TaggedBase(from, k), 0);
      MovedBaseIs(done', k, TaggedBase(from, k), 0);
      hide MovedBase;
      assert done[0..] == done && done'[0..] == done';
      if k == moves[j].idx {
        assert done'[j].idx == k;
      } else if i :| 0 <= i < j && moves[i].idx == k {
        assert done[i].idx == k && done'[i].idx == k;
      }
    }
  }

  lemma OnlyBasesStep(img: Image, p: Placement, m: seq<Word>, m1: seq<Word>, m2: seq<Word>, k: int, w: Word)
    requires OnlyBases(img, p, m, m1) && 3 <= k < |img.tab| && p.ram % 4 == 0
    requires 0 <= BaseSlot(img, p, k) / 4 < |m1| && m2 == m1[BaseSlot(img, p, k) / 4 := w]
    ensures OnlyBases(img, p, m, m2)
  {
    forall a | a % 4 == 0 && !(exists k :: 3 <= k < |img.tab| && a == BaseSlot(img, p, k))
      ensures Get(m2, a) == Get(m, a)
    {
      assert a != BaseSlot(img, p, k);
    }
  }

  lemma AllPublished(img: Image, from: Placement, to: Placement, moves: seq<SectionMove>, m: seq<Word>)
    requires to == MoveTarget(from, to.ram, moves) && |from.tagged| == NumTagged(img.tab)
    requires Published(img, from, to, moves, m)
    ensures BasesIn(img, to, m)
  {
    hide Get;
    forall k | 3 <= k < |img.tab|
      ensures Get(m, BaseSlot(img, to, k)) == TaggedBase(to, k)
    {
      assert PublishedBase(img, from, to, moves, m, k);
    }
  }

  lemma OnlyBasesCells(img: Image, p: Placement, m: seq<Word>, m': seq<Word>)
    requires WellFormed(img) && ValidPlacement(img, p, |m|) && OnlyBases(img, p, m, m')
    ensures SameCells(img, p, m, m')
  {
    hide RamSize, ValidPlacement, Get;
    forall loc | IsCell(img, p.mode, loc)
      ensures Get(m', Slot(p, loc)) == Get(m, Slot(p, loc))
    {
      CellIsNoBase(img, p, |m|, loc);
    }
  }

  lemma CellIsNoBase(img: Image, p: Placement, n: int, loc: Loc)
    requires WellFormed(img) && ValidPlacement(img, p, n) && IsCell(img, p.mode, loc)
    ensures Slot(p, loc) % 4 == 0 && forall k :: 3 <= k < |img.tab| ==> Slot(p, loc) != BaseSlot(img, p, k)
  {
    hide RamSize, ValidPlacement, Shaped, Slot, InBounds, IsBaseSlot, BaseSlot;
    WellFormedShaped(img);
    SlotInMemory(img, p, n, loc);
    forall k | 3 <= k < |img.tab|
      ensures Slot(p, loc) != BaseSlot(img, p, k)
    {
      BaseSlotIsWord(img, p, k);
      if Slot(p, loc) == BaseSlot(img, p, k) {
        SlotInjective(img, p, n, loc, Block(BaseSlot(img, p, k) - p.ram));
      }
    }
  }

  /** Publishing the bases does not touch the metadata. */
  lemma PublishKeepsMeta(img: Image, p: Placement, header: int, m: seq<Word>, m': seq<Word>)
    requires WellFormed(img) && ValidPlacement(img, p, |m|) && OnlyBases(img, p, m, m')
    requires header >= 0 && header % 4 == 0 && ImageAt(m, header) == Some(img) && MetaApart(img, p, header)
    requires p.mode.CopyAll? ==> header == p.ram + BlockFront(img)
    ensures ImageAt(m', header) == Some(img)
  {
    hide RamSize, CodeOffset, ImageAt, MetaApart, BlockFront, OnlyBases;
    WellFormedShaped(img);
    ShapedHasMains(img);
    hide Shaped;
    forall j | 0 <= j < CodeOffset(img.hdr) / 4
      ensures SameWord(m, header / 4, m', header / 4, j)
    {
      MetaWordKept(img, p, header, m, m', header + 4 * j);
      assert (header + 4 * j) / 4 == header / 4 + j;
    }
    ImageFrame(m, header, m', header);
  }

  lemma MetaWordKept(img: Image, p: Placement, header: int, m: seq<Word>, m': seq<Word>, a: int)
    requires WellFormed(img) && OnlyBases(img, p, m, m') && MetaApart(img, p, header) && a % 4 == 0
    requires header <= a < header + CodeOffset(img.hdr) && (p.mode.CopyAll? ==> header == p.ram + BlockFront(img))
    ensures Get(m', a) == Get(m, a)
  {
    hide RamSize, CodeOffset, Get, TextSize, InFront, WellFormed;
    assert Outside(img, p, a) || p.mode.CopyAll?;
    forall k | 3 <= k < |img.tab|
      ensures a != BaseSlot(img, p, k)
    {
      BaseSlotIsWord(img, p, k);
    }
  }

  // ----- relocate_main_block -----

  /** A module in place, a valid target, payloads of moved sections already there. */
  ghost predicate Moveable(mod: Module, m: seq<Word>, img: Image, from: Placement, moves: seq<SectionMove>)
    reads mod
  {
    var q := MoveTarget(from, from.ram, moves);
    && WellFormed(img) && ValidPlacement(img, from, |m|) && Attached(mod, m, img, from)
    && ValidPlacement(img, q, |m|) && MetaApart(img, q, mod.header) && HostCopied(img, from, q, m)
    && RamSize(img.hdr, img.tab, from.mode) > 0
  }

  lemma CopyElsewhere(img: Image, p: Placement, m: seq<Word>, m': seq<Word>)
    requires SameOutside(m, m', p.ram, RamSize(img.hdr, img.tab, p.mode)) && p.ram % 4 == 0
    ensures ElsewhereKept(img, p, m, m')
  {
    hide RamSize, TextSize, Sec, TaggedBase;
  }

  lemma WalkElsewhere(img: Image, p: Placement, m: seq<Word>, m1: seq<Word>, m2: seq<Word>)
    requires Shaped(img) && ValidPlacement(img, p, |m|) && ElsewhereKept(img, p, m, m1) && Untouched(img, p, m1, m2)
    ensures ElsewhereKept(img, p, m, m2)
  {
    hide Shaped, ValidPlacement, Outside, Patchable, Get;
    forall a | a % 4 == 0 && Outside(img, p, a)
      ensures Get(m2, a) == Get(m, a)
    {
      NotPatchable(img, p, |m|, a);
    }
  }

  lemma BasesElsewhere(img: Image, p: Placement, m: seq<Word>, m1: seq<Word>, m2: seq<Word>)
    requires Shaped(img) && ElsewhereKept(img, p, m, m1) && OnlyBases(img, p, m1, m2)
    ensures ElsewhereKept(img, p, m, m2)
  {
    hide Shaped, RamSize, TextSize, Sec, TaggedBase, Get;
    BlockWords(img, p.mode);
    forall a | a % 4 == 0 && Outside(img, p, a)
      ensures Get(m2, a) == Get(m, a)
    {
      forall k | 3 <= k < |img.tab|
        ensures a != BaseSlot(img, p, k)
      {
      }
    }
  }

  /** The copy and the handle update. `front` is the size of LOT and base array. */
  method CopyBlock(mod: Module, mem: array<Word>, dest: int, size: int, front: int,
                   ghost img: Image, ghost from: Placement, ghost moves: seq<SectionMove>)
    requires Moveable(mod, mem[..], img, from, moves) && Clear(img, MoveTarget(from, from.ram, moves), mod.header, dest, mem.Length)
    requires size == RamSize(img.hdr, img.tab, from.mode) && front == BlockFront(img)
    modifies mem, mod`ram, mod`header
    ensures var to := MoveTarget(from, dest, moves);
      && mod.ram == dest && Copied(img, from, old(mem[..]), to, mem[..])
      && Described(mod, mem[..], img, Halfway(from, to)) && MetaApart(img, to, mod.header)
      && ValidPlacement(img, to, mem.Length) && ElsewhereKept(img, to, old(mem[..]), mem[..])
  {
    hide RamSize, CodeOffset, ImageAt, BlockFront, MetaApart, TextSize, Sec, BasesIn, WellFormed, ValidPlacement, Shaped, HostCopied,
      Copied, SameOutside, CopiedRange, ElsewhereKept;
    ghost var m, q, header := mem[..], MoveTarget(from, from.ram, moves), mod.header;
    WellFormedShaped(img);
    BlockWords(img, from.mode);
    BlockPlace(img, from, mem.Length);
    SelfCopied(m, mod.ram, size);
    CopyPart(mem, dest, mod.ram, size, m);
    CopyElsewhere(img, MoveTarget(from, dest, moves), m, mem[..]);
    mod.ram := dest;
    if mod.mode.CopyAll? {
      mod.header := dest + front;
    }
    CopiedByMove(img, from, q, header, m, mem[..], dest);
    HalfwayThere(mod, img, from, q, header, m, mem[..], dest);
  }

  lemma SelfCopied(m: seq<Word>, a: int, size: int)
    ensures CopiedRange(m, a, m, a, size)
  {}

  /** The sectioned half, once the destination is known. */
  method MoveSections(mod: Module, mem: array<Word>, hdr: Header, tab: seq<Section>, dest: int, size: int, moves: seq<SectionMove>,
                      ghost img: Image, ghost from: Placement)
    requires Moveable(mod, mem[..], img, from, moves) && Clear(img, MoveTarget(from, from.ram, moves), mod.header, dest, mem.Length)
    requires img.tab != [] && tab == img.tab && hdr == img.hdr && size == RamSize(img.hdr, img.tab, from.mode)
    requires GoodMoves(tab, moves)
    modifies mem, mod`ram, mod`header
    ensures var to := MoveTarget(from, dest, moves);
      MovedTo(img, from, old(mem[..]), to, mem[..]) && Attached(mod, mem[..], img, to)
  {
    hide RamSize, CodeOffset, ImageAt, BlockFront, MetaApart, TextSize, Sec, BasesIn, WellFormed, ValidPlacement, Shaped, HostCopied,
      Copied, SameOutside, CopiedRange, Walk, SameCells, Untouched, OnlyBases, NumTagged, Clear, ElsewhereKept;
    ghost var m, to := mem[..], MoveTarget(from, dest, moves);
    FrontIs(img);
    TaggedCount(img, from, mem.Length);
    var oldRam := mod.ram;
    CopyBlock(mod, mem, dest, size, hdr.numLot * 4 + BasesSize(tab), img, from, moves);
    ghost var copy := mem[..];
    RebaseSectionsPointers(mod, mem, tab, moves, oldRam, img, from, to);
    ghost var walked := mem[..];
    WellFormedShaped(img);
    WalkElsewhere(img, to, m, copy, walked);
    MetaStays(img, to, copy, walked, mod.header);
    BasesStay(img, to, copy, walked, Halfway(from, to));
    PublishBases(mem, mod.ram, hdr.numLot, moves, img, from, to);
    PublishKeepsMeta(img, to, mod.header, walked, mem[..]);
    BasesElsewhere(img, to, m, walked, mem[..]);
    assert |copy| == |mem[..]| && SameCells(img, to, Walk(img, Moving(to, from), copy, 0).1, mem[..]);
  }

  lemma TaggedCount(img: Image, p: Placement, n: int)
    requires ValidPlacement(img, p, n)
    ensures |p.tagged| == NumTagged(img.tab)
  {
    hide RamSize;
  }

  // ----- the destination -----

  /** What the module keeps using is memory the allocator will not hand out. */
  ghost predicate KeptInUse(taken: seq<Range>, heap: Heap, img: Image, q: Placement, header: int) {
    && BlockInUse(taken, heap, q.ram, RamSize(img.hdr, img.tab, q.mode))
    && (TextSize(img, q.mode) > 0 ==> BlockInUse(taken, heap, q.text, TextSize(img, q.mode)))
    && (!q.mode.CopyAll? ==> BlockInUse(taken, heap, header, CodeOffset(img.hdr)))
    && forall k :: 3 <= k < |img.tab| && Sec(img.tab, k).size > 0 ==>
         BlockInUse(taken, heap, TaggedBase(q, k), Sec(img.tab, k).size)
  }

  lemma FreeIsApart(taken: seq<Range>, heap: Heap, p: int, size: int, base: int, n: int)
    requires BlockInUse(taken, heap, base, n) && n > 0 && size > 0
    requires forall r :: r in taken ==> Apart(p, size, r.addr, r.size)
    requires forall a :: a in heap ==> Apart(p, size, a, heap[a].size)
    ensures Apart(p, size, base, n)
  {
    if base in heap && heap[base].size == n {
      assert Apart(p, size, base, heap[base].size);
    } else {
      var r :| r in taken && r.addr <= base && base + n <= r.addr + r.size;
      assert Apart(p, size, r.addr, r.size);
    }
  }

  /** Whatever the allocator answers is a clear destination. */
  lemma AnswerIsClear(img: Image, q: Placement, header: int, taken: seq<Range>, heap: Heap, p: int, n: int)
    requires Shaped(img) && KeptInUse(taken, heap, img, q, header) && RamSize(img.hdr, img.tab, q.mode) > 0
    requires var size := RamSize(img.hdr, img.tab, q.mode);
      && p > 0 && p % 4 == 0 && p + size <= 4 * n
      && (forall r :: r in taken ==> Apart(p, size, r.addr, r.size))
      && (forall a :: a in heap ==> Apart(p, size, a, heap[a].size))
    ensures Clear(img, q, header, p, n)
  {
    hide RamSize, CodeOffset, TextSize, Sec, BlockInUse, Apart, ValidTable;
    var size := RamSize(img.hdr, img.tab, q.mode);
    FreeIsApart(taken, heap, p, size, q.ram, size);
    if TextSize(img, q.mode) > 0 { FreeIsApart(taken, heap, p, size, q.text, TextSize(img, q.mode)); } else { NoBytes(img, q, p, size); }
    if !q.mode.CopyAll? { FreeIsApart(taken, heap, p, size, header, CodeOffset(img.hdr)); }
    forall k | 3 <= k < |img.tab|
      ensures Apart(p, size, TaggedBase(q, k), Sec(img.tab, k).size)
    {
      if Sec(img.tab, k).size > 0 {
        FreeIsApart(taken, heap, p, size, TaggedBase(q, k), Sec(img.tab, k).size);
      } else {
        assert Apart(p, size, TaggedBase(q, k), 0) by { NothingApart(p, size, TaggedBase(q, k)); }
        assert Sec(img.tab, k).size == 0;
      }
    }
  }

  lemma NothingApart(p: int, size: int, base: int)
    ensures Apart(p, size, base, 0)
  {}

  lemma NoBytes(img: Image, q: Placement, p: int, size: int)
    requires TextSize(img, q.mode) <= 0
    ensures Apart(p, size, q.text, TextSize(img, q.mode))
  {}

  /** The books after a move: the old main block out unless it was the caller's, the new one in
      unless the caller supplied it. */
  function SwapMain(heap: Heap, was: int, wasForeign: bool, dest: int, foreign: bool, size: int, align: int): Heap {
    var more := if foreign then heap else heap[dest := HeapBlock(dest, size, MainPurpose(align))];
    if wasForeign then more else more - {was}
  }

  /** The account after a move: the old block has gone if it was the module's, the new one is in if it is. */
  lemma SwapAccount(heap: Heap, was: int, wasForeign: bool, dest: int, foreign: bool, size: int, align: int, b: int)
    requires dest != was && (wasForeign || was in heap) && (foreign || dest !in heap)
    ensures var after := SwapMain(heap, was, wasForeign, dest, foreign, size, align);
      && (b in after <==> (b in heap && (b == was ==> wasForeign)) || (b == dest && !foreign))
      && (b in after && b in heap ==> after[b] == heap[b])
      && (!foreign ==> after[dest] == HeapBlock(dest, size, MainPurpose(align)))
      && |after| == |heap| + (if foreign then 0 else 1) - (if wasForeign then 0 else 1)
  {
    var more := if foreign then heap else heap[dest := HeapBlock(dest, size, MainPurpose(align))];
    assert foreign || more.Keys == heap.Keys + {dest};
    assert wasForeign || (more - {was}).Keys == more.Keys - {was};
    assert |more| == |more.Keys| && |heap| == |heap.Keys|;
    assert wasForeign || |more - {was}| == |(more - {was}).Keys|;
  }

  predicate MainOwned(heap: Heap, ram: int, foreign: bool, align: int) {
    !foreign ==> ram in heap && heap[ram].purpose == MainPurpose(align)
  }

  // ----- without section placement -----

  lemma NoMoves(from: Placement, dest: int)
    ensures MoveTarget(from, dest, []) == AtBlock(from, dest) && Halfway(from, AtBlock(from, dest)) == AtBlock(from, dest)
  {
    assert MoveTarget(from, dest, []).tagged == from.tagged;
  }

  lemma FlatDeltas(img: Image, from: Placement, dest: int)
    requires img.tab == []
    ensures var to := AtBlock(from, dest);
      && DataBase(img, to) - DataBase(img, from) == dest - from.ram
      && CodeBase(img, to) - CodeBase(img, from) == if from.mode.Xip? then 0 else dest - from.ram
  {
    hide CodeOffset;
  }

  /** A loaded module can be moved: its load has shown every entry to have a target. */
  lemma LoadedIsLoadable(img: Image, p: Placement, resolve: Resolver, c: Contents, m: seq<Word>)
    requires Represents(img, p, resolve, c, m)
    ensures Loadable(img, p.mode)
  {
    hide RelLoc, Get, Slot, Cell, BasesIn, Default, InPlaceWord, ImageSym;
    forall i | 0 <= i < |img.rels|
      ensures RelLoc(img, p.mode, i).Some? && (InPlace(img.rels[i]) ==> img.rels[i].lotOffset >= img.hdr.numLot)
    {
      assert TargetHolds(img, p, resolve, c, m, i);
    }
  }

  /** Copy and rebase, once the destination is known. */
  method MoveFlat(mod: Module, mem: array<Word>, dest: int, size: int, hdr: Header, ghost img: Image, ghost from: Placement)
    requires Moveable(mod, mem[..], img, from, []) && Clear(img, from, mod.header, dest, mem.Length) && Loadable(img, from.mode)
    requires img.tab == [] && hdr == img.hdr && size == RamSize(img.hdr, img.tab, from.mode)
    modifies mem, mod`ram, mod`header
    ensures mod.ram == dest
    ensures MovedTo(img, from, old(mem[..]), AtBlock(from, dest), mem[..]) && Attached(mod, mem[..], img, AtBlock(from, dest))
  {
    hide RamSize, CodeOffset, ImageAt, BlockFront, MetaApart, TextSize, BasesIn, WellFormed, ValidPlacement, Shaped, HostCopied,
      Copied, Walk, SameCells, Untouched, Clear, CodeBase, DataBase, MoveTarget, Loadable, Halfway, ElsewhereKept;
    ghost var m, to := mem[..], AtBlock(from, dest);
    NoMoves(from, dest);
    NoMoves(from, from.ram);
    assert AtBlock(from, from.ram) == from;
    FrontIs(img);
    FlatDeltas(img, from, dest);
    var oldCode := GetCodePointer(mod, mem, img, from);
    var oldData := GetDataPointer(mod, mem, img, from);
    var dataDelta := dest - mod.ram;
    var codeDelta := if mod.mode.Xip? then 0 else dataDelta;
    CopyBlock(mod, mem, dest, size, hdr.numLot * 4, img, from, []);
    ghost var copy := mem[..];
    RebaseModulePointers(mod, mem, codeDelta, dataDelta, oldCode, oldData, img, from, to);
    AttachedStays(mod, img, to, copy, mem[..]);
    WellFormedShaped(img);
    WalkElsewhere(img, to, m, copy, mem[..]);
    SameAsItself(img, to, mem[..]);
    assert |copy| == |mem[..]| && SameCells(img, to, Walk(img, Moving(to, from), copy, 0).1, mem[..]);
  }

  lemma SameAsItself(img: Image, p: Placement, m: seq<Word>)
    ensures SameCells(img, p, m, m)
  {
    hide Get, IsCell, Slot;
  }

  /** What the caller of a move guarantees about the destination it passes. */
  ghost predicate DestinationOk(mod: Module, img: Image, q: Placement, newRam: int, newSize: int, n: int)
    reads mod
  {
    newRam != 0 && newRam != mod.ram && RamSize(img.hdr, img.tab, q.mode) <= newSize
      && newRam % 4 == 0 && (img.tab != [] ==> Aligned(newRam, MainAlign(img.tab)))
    ==> Clear(img, q, mod.header, newRam, n)
  }

  /** What a move asks the allocator for: one block, unless the caller brings it or there is none to move. */
  function MoveAsked(size: int, align: int, newRam: int, reply: int): seq<Event> {
    if size == 0 || newRam != 0 then [] else [BlockAnswer(size, align, reply)]
  }

  /** A block from the allocator: clear of the module, on the books, and not checked for its alignment. */
  method TakeBlock(host: Host, size: int, align: int, n: int, ghost img: Image, ghost q: Placement, ghost header: int, ghost heap: Heap)
    returns (p: Word)
    requires Shaped(img) && size == RamSize(img.hdr, img.tab, q.mode) && size > 0 && align >= 4 && IsPow2(align)
    requires Outstanding(host.log) == Some(heap) && KeptInUse(host.taken, heap, img, q, header) && q.ram % 4 == 0
    modifies host`log
    ensures p == old(host.Reply(size, 4 * n)) && Asked(host.log) == Asked(old(host.log)) + [BlockAnswer(size, align, p)]
    ensures p == 0 ==> Outstanding(host.log) == Some(heap)
    ensures p != 0 ==>
      && p != q.ram && (p % 4 == 0 ==> Clear(img, q, header, p, n))
      && Outstanding(host.log) == Some(heap[p := HeapBlock(p, size, MainPurpose(align))])
  {
    hide RamSize, KeptInUse, Clear, Shaped, Outstanding, Asked, IsPow2, Aligned;
    ghost var log := host.log;
    p := host.Malloc(size, MainPurpose(align), 4 * n);
    OutstandingStep(log, BlockAnswer(size, align, p));
    if p != 0 && p % 4 == 0 {
      AnswerIsClear(img, q, header, host.taken, heap, p, n);
      ClearIsElsewhere(img, q, header, p, n);
    }
  }

  lemma ClearIsElsewhere(img: Image, q: Placement, header: int, dest: int, n: int)
    requires Clear(img, q, header, dest, n) && RamSize(img.hdr, img.tab, q.mode) > 0
    ensures dest != q.ram
  {
    hide RamSize;
  }

  /** The old block goes back if it was the loader's. */
  method DropBlock(host: Host, was: int, wasForeign: bool, align: int, ghost heap: Heap)
    requires Outstanding(host.log) == Some(heap) && MainOwned(heap, was, wasForeign, align)
    modifies host`log
    ensures Outstanding(host.log) == Some(if wasForeign then heap else heap - {was}) && Asked(host.log) == Asked(old(host.log))
  {
    hide Asked;
    if !wasForeign {
      OutstandingStep(host.log, Freed(was, MainPurpose(align)));
      host.Release(was, MainPurpose(align));
    }
  }

  /** Memory here is words; of a move to an address between two of them nothing is said but where the
      handle points. */
  method MisplacedMove(mod: Module, mem: array<Word>, dest: int)
    modifies mem, mod`ram, mod`header
    ensures mod.ram == dest
  {
    mod.ram := dest;
    mod.header := *;
    for i := 0 to mem.Length
      invariant mod.ram == dest
    {
      mem[i] := *;
    }
  }

  /** What a move comes to: only `strict` moves, those with section placement, look at the alignment, and only
      of an address the caller passes. */
  function MoveVerdict(size: int, align: int, strict: bool, newRam: int, newSize: int, reply: int): Error {
    if newRam == 0 then if reply == 0 then OutOfMemory else Ok
    else if newSize < size then RamLenLow
    else if strict && !Aligned(newRam, align) then RamUnaligned
    else Ok
  }

  /** Before and after a move without section placement; `reply` is what the allocator would answer, `books`
      its account afterwards, `asked` what it was asked. */
  ghost predicate FlatMove(img: Image, from: Placement, heap: Heap, reply: int, newRam: int, newSize: int, res: Error,
                           was: Fields, m: seq<Word>, now: Fields, m': seq<Word>, books: Option<Heap>, asked: seq<Event>) {
    var size := RamSize(img.hdr, img.tab, from.mode);
    && asked == MoveAsked(size, 4, newRam, reply)
    && if size == 0 then res == Ok && m' == m && now == was && books == Some(heap)
       else
         && now == was.(ram := now.ram, header := now.header, foreign := newRam != 0)
         && res == MoveVerdict(size, 4, false, newRam, newSize, reply)
         && (res != Ok || newRam == was.ram ==> m' == m && now.ram == was.ram && now.header == was.header)
         && (res != Ok ==> books == Some(heap))
         && (res == Ok && newRam == was.ram ==> books == Some(if was.foreign then heap else heap - {was.ram}))
         && (res == Ok && newRam != was.ram ==>
               && now.ram == (if newRam != 0 then newRam else reply)
               && books == Some(SwapMain(heap, was.ram, was.foreign, now.ram, now.foreign, size, 4))
               && (now.ram % 4 == 0 ==> MovedTo(img, from, m, AtBlock(from, now.ram), m')))
  }

  /** relocate_main_block without section placement. The ownership flag changes before the checks, so a
      refused move leaves it saying who would own the new block. Moving a block onto itself frees it if
      it was the loader's, although the module stays there. */
  method RelocateFlat(mod: Module, mem: array<Word>, host: Host, hdr: Header, newRam: Word, newSize: int,
                      ghost img: Image, ghost from: Placement, ghost heap: Heap) returns (res: Error)
    requires WellFormed(img) && ValidPlacement(img, from, mem.Length) && Attached(mod, mem[..], img, from)
    requires img.tab == [] && hdr == img.hdr && Loadable(img, from.mode)
    requires Outstanding(host.log) == Some(heap) && KeptInUse(host.taken, heap, img, from, mod.header)
    requires MainOwned(heap, mod.ram, mod.foreign, 4) && DestinationOk(mod, img, from, newRam, newSize, mem.Length)
    modifies mod, mem, host`log
    ensures FlatMove(img, from, heap, old(host.Reply(RamSize(img.hdr, img.tab, from.mode), 4 * mem.Length)), newRam, newSize, res,
                     old(mod.Now()), old(mem[..]), mod.Now(), mem[..], Outstanding(host.log), AskedSince(old(host.log), host.log))
    ensures Asked(host.log) == Asked(old(host.log)) + AskedSince(old(host.log), host.log)
    ensures res == Ok && RamSize(img.hdr, img.tab, from.mode) > 0 && newRam != old(mod.ram) && mod.ram % 4 == 0 ==>
      Attached(mod, mem[..], img, AtBlock(from, mod.ram))
  {
    hide RamSize, CodeOffset, ImageAt, BlockFront, MetaApart, TextSize, BasesIn, WellFormed, ValidPlacement, Shaped, HostCopied,
      KeptInUse, Clear, MovedTo, Loadable, Outstanding, ValidTable, MoveTarget, Asked, AskedSince;
    WellFormedShaped(img);
    BlockPlace(img, from, mem.Length);
    FrontFits(img, from.mode);
    FrontPositive(img);
    ghost var log, asked: seq<Event> := host.log, [];
    NothingAsked(log);
    var size := GetRamSize(hdr, [], mod.mode);
    if size == 0 {
      return Ok;
    }
    ghost var m, was := mem[..], mod.ram;
    var oldForeign := mod.foreign;
    var dest := newRam;
    ghost var more := heap;
    if newRam == 0 {
      mod.foreign := false;
      dest := TakeBlock(host, size, 4, mem.Length, img, from, mod.header, heap) by { FourIsPow2(); }
      asked := [BlockAnswer(size, 4, dest)];
      SinceIs(log, host.log, asked);
      if dest == 0 {
        return OutOfMemory;
      }
      more := heap[dest := HeapBlock(dest, size, MainPurpose(4))];
    } else {
      mod.foreign := true;
      if newSize < size {
        return RamLenLow;
      }
    }
    var oldRam := mod.ram;
    if dest == oldRam {
      DropBlock(host, oldRam, oldForeign, 4, heap);
      SinceIs(log, host.log, asked);
      return Ok;
    }
    if dest % 4 == 0 {
      NotMovedYet(mod, m, img, from);
      MoveFlat(mod, mem, dest, size, hdr, img, from);
    } else {
      MisplacedMove(mod, mem, dest);
    }
    DropBlock(host, oldRam, oldForeign, 4, more);
    SinceIs(log, host.log, asked);
    res := Ok;
  }

  /** The ownership flag says whether the block is on the loader's books. */
  predicate FlagRight(heap: Heap, ram: int, foreign: bool) {
    foreign <==> ram !in heap
  }

  /** Exactly when a move without section placement leaves the flag right and the module in memory that is
      still its own: a block moved onto itself must be the caller's, a refusal must not change hands. */
  lemma FlatMoveKeepsBooks(img: Image, from: Placement, heap: Heap, reply: int, newRam: int, newSize: int, res: Error,
                           was: Fields, m: seq<Word>, now: Fields, m': seq<Word>, books: Option<Heap>, asked: seq<Event>)
    requires FlatMove(img, from, heap, reply, newRam, newSize, res, was, m, now, m', books, asked)
    requires RamSize(img.hdr, img.tab, from.mode) > 0 && was.ram != 0 && FlagRight(heap, was.ram, was.foreign)
    requires reply !in heap && (newRam != was.ram ==> newRam !in heap)
    ensures books.Some?
    ensures FlagRight(books.value, now.ram, now.foreign) && (now.ram == was.ram && !was.foreign ==> now.ram in books.value)
      <==> if newRam == was.ram then was.foreign
           else MoveVerdict(RamSize(img.hdr, img.tab, from.mode), 4, false, newRam, newSize, reply) == Ok || was.foreign == (newRam != 0)
  {
    hide RamSize, MovedTo;
  }

  lemma NotMovedYet(mod: Module, m: seq<Word>, img: Image, from: Placement)
    requires WellFormed(img) && ValidPlacement(img, from, |m|) && Attached(mod, m, img, from)
    requires RamSize(img.hdr, img.tab, from.mode) > 0
    ensures Moveable(mod, m, img, from, [])
  {
    hide RamSize, ValidPlacement, WellFormed, Described, MetaApart, Slot, InBounds, Get, MoveTarget;
    NoMoves(from, from.ram);
    assert AtBlock(from, from.ram) == from;
  }

  // ----- with section placement -----

  /** What a move of sections relies on: a target that is a placement of its own, apart from the metadata,
      with the payloads already copied there. */
  ghost predicate TargetOk(mod: Module, m: seq<Word>, img: Image, from: Placement, moves: seq<SectionMove>)
    reads mod
  {
    var q := MoveTarget(from, from.ram, moves);
    ValidPlacement(img, q, |m|) && MetaApart(img, q, mod.header) && HostCopied(img, from, q, m)
  }

  /** Before and after a move with section placement. */
  ghost predicate SectionedMove(img: Image, from: Placement, heap: Heap, reply: int, newRam: int, newSize: int, moves: seq<SectionMove>, res: Error,
                                was: Fields, m: seq<Word>, now: Fields, m': seq<Word>, books: Option<Heap>, asked: seq<Event>) {
    var size := RamSize(img.hdr, img.tab, from.mode);
    if size == 0 || newRam == was.ram then res == Ok && m' == m && now == was && books == Some(heap) && asked == []
    else
      && res == MoveVerdict(size, MainAlign(img.tab), true, newRam, newSize, reply)
      && asked == MoveAsked(size, MainAlign(img.tab), newRam, reply)
      && if res != Ok then m' == m && now == was && books == Some(heap)
         else
           && now == was.(ram := now.ram, header := now.header, foreign := newRam != 0)
           && now.ram == (if newRam != 0 then newRam else reply)
           && books == Some(SwapMain(heap, was.ram, was.foreign, now.ram, now.foreign, size, MainAlign(img.tab)))
           && (now.ram % 4 == 0 ==> MovedTo(img, from, m, MoveTarget(from, now.ram, moves), m'))
  }

  /** relocate_main_block for a module with section placement. A refused move changes nothing. A block
      "moved" to where it is stays there with all its sections: the listed moves are ignored. */
  method RelocateSectioned(mod: Module, mem: array<Word>, host: Host, hdr: Header, tab: seq<Section>, newRam: Word, newSize: int,
                           moves: seq<SectionMove>, ghost img: Image, ghost from: Placement, ghost heap: Heap) returns (res: Error)
    requires WellFormed(img) && ValidPlacement(img, from, mem.Length) && Attached(mod, mem[..], img, from)
    requires img.tab != [] && tab == img.tab && hdr == img.hdr && GoodMoves(tab, moves) && TargetOk(mod, mem[..], img, from, moves)
    requires Outstanding(host.log) == Some(heap)
    requires KeptInUse(host.taken, heap, img, MoveTarget(from, from.ram, moves), mod.header)
    requires MainOwned(heap, mod.ram, mod.foreign, MainAlign(tab))
    requires DestinationOk(mod, img, MoveTarget(from, from.ram, moves), newRam, newSize, mem.Length)
    modifies mod, mem, host`log
    ensures SectionedMove(img, from, heap, old(host.Reply(RamSize(img.hdr, img.tab, from.mode), 4 * mem.Length)), newRam, newSize, moves, res,
                          old(mod.Now()), old(mem[..]), mod.Now(), mem[..], Outstanding(host.log), AskedSince(old(host.log), host.log))
    ensures Asked(host.log) == Asked(old(host.log)) + AskedSince(old(host.log), host.log)
    ensures res == Ok && RamSize(img.hdr, img.tab, from.mode) > 0 && newRam != old(mod.ram) && mod.ram % 4 == 0 ==>
      Attached(mod, mem[..], img, MoveTarget(from, mod.ram, moves))
  {
    hide RamSize, CodeOffset, ImageAt, BlockFront, MetaApart, TextSize, BasesIn, WellFormed, ValidPlacement, Shaped, HostCopied,
      KeptInUse, Clear, MovedTo, Outstanding, ValidTable, MoveTarget, Sec, MainAlign, IsPow2, Aligned, Asked, AskedSince;
    WellFormedShaped(img);
    FrontFits(img, from.mode);
    FrontPositive(img);
    TableAlign(img);
    BlockPlace(img, from, mem.Length);
    ghost var m, q := mem[..], MoveTarget(from, from.ram, moves);
    TargetKeepsBlock(from, moves);
    ghost var log, asked: seq<Event> := host.log, [];
    NothingAsked(log);
    var size := GetRamSize(hdr, tab, mod.mode);
    var align := GetMainAlign(tab);
    if size == 0 && moves == [] {
      return Ok;
    }
    SomethingToMove(img, from.mode, moves);
    if size > 0 && newRam == mod.ram {
      return Ok;
    }
    var dest := newRam;
    var oldForeign := mod.foreign;
    ghost var more := heap;
    if newRam == 0 {
      dest := TakeBlock(host, size, align, mem.Length, img, q, mod.header, heap);
      asked := [BlockAnswer(size, align, dest)];
      SinceIs(log, host.log, asked);
      if dest == 0 {
        return OutOfMemory;
      }
      more := heap[dest := HeapBlock(dest, size, MainPurpose(align))];
      mod.foreign := false;
    } else {
      if newSize < size {
        return RamLenLow;
      }
      if !Aligned(newRam, align) {
        return RamUnaligned;
      }
      mod.foreign := true;
    }
    var oldRam := mod.ram;
    if dest % 4 == 0 {
      MoveSections(mod, mem, hdr, tab, dest, size, moves, img, from);
    } else {
      MisplacedMove(mod, mem, dest);
    }
    DropBlock(host, oldRam, oldForeign, align, more);
    SinceIs(log, host.log, asked);
    res := Ok;
  }

  /** Exactly when the listed section moves are carried out: the block moves too, or there was nothing to do. */
  lemma SectionMovesTaken(img: Image, from: Placement, heap: Heap, reply: int, newRam: int, newSize: int, moves: seq<SectionMove>,
                          was: Fields, m: seq<Word>, now: Fields, m': seq<Word>, books: Option<Heap>, asked: seq<Event>)
    requires SectionedMove(img, from, heap, reply, newRam, newSize, moves, Ok, was, m, now, m', books, asked)
    requires RamSize(img.hdr, img.tab, from.mode) > 0 && was.ram == from.ram && now.ram % 4 == 0
    requires BasesIn(img, from, m) && |from.tagged| == NumTagged(img.tab)
    ensures BasesIn(img, MoveTarget(from, now.ram, moves), m') <==> newRam != was.ram || MoveTarget(from, was.ram, moves) == from
  {
    hide RamSize, MainAlign, Aligned, MovedBase, Walk, ValidPlacement, Get, Copied, SameCells;
    var q := MoveTarget(from, was.ram, moves);
    if newRam == was.ram && BasesIn(img, q, m) {
      forall j | 0 <= j < |from.tagged|
        ensures q.tagged[j] == from.tagged[j]
      {
        assert Get(m, BaseSlot(img, q, j + 3)) == TaggedBase(q, j + 3) && Get(m, BaseSlot(img, from, j + 3)) == TaggedBase(from, j + 3);
      }
      assert q.tagged == from.tagged;
    }
  }

  predicate SectionInPlace(img: Image, p: Placement, k: int) {
    InBlock(p, k) ==> Aligned(Base(img, p, k), Sec(img.tab, k).align)
  }

  /** A main section in the block is aligned as it asks exactly if the block's address is. */
  lemma SectionWithBlock(img: Image, p: Placement, k: int)
    requires WellFormed(img) && img.tab != [] && 0 <= k < 3 && InBlock(p, k) && p.ram >= 0
    ensures SectionInPlace(img, p, k) <==> Aligned(p.ram, Sec(img.tab, k).align)
  {
    hide WellFormed, MainOffset, Aligned, IsPow2, ValidTable;
    TableAlign(img);
    EntryAlign(img.tab, k);
    SectionPlaced(img.hdr, img.tab, p.mode, k);
    SectionAligned(img.hdr, img.tab, p.mode, k);
    AlignedSum(MainOffset(img.hdr, img.tab, p.mode, k), p.ram, Sec(img.tab, k).align);
  }

  /** All of them exactly if it has the alignment a load would ask for. */
  lemma SectionsWithBlock(img: Image, p: Placement)
    requires WellFormed(img) && img.tab != [] && !p.mode.Xip? && p.ram >= 0 && p.ram % 4 == 0
    ensures (forall k :: 0 <= k < 3 ==> SectionInPlace(img, p, k)) <==> Aligned(p.ram, MainAlign(img.tab))
  {
    hide WellFormed, Aligned, IsPow2, ValidTable, SectionInPlace, MaxAlign;
    TableAlign(img);
    MaxAlignBounds(img.tab, 3);
    MaxAlignIs(img.tab);
    FourAligned(p.ram);
    forall k | 0 <= k < 3
      ensures Aligned(p.ram, MainAlign(img.tab)) ==> SectionInPlace(img, p, k)
      ensures SectionInPlace(img, p, k) <==> Aligned(p.ram, Sec(img.tab, k).align)
    {
      EntryAlign(img.tab, k);
      SectionWithBlock(img, p, k);
      if Aligned(p.ram, MainAlign(img.tab)) {
        AlignedWeaken(p.ram, Sec(img.tab, k).align, MainAlign(img.tab));
      }
    }
  }

  lemma MaxAlignIs(tab: seq<Section>)
    ensures MaxAlign(tab, 3) == 4 || exists k :: 0 <= k < 3 && MaxAlign(tab, 3) == Sec(tab, k).align
  {
    assert MaxAlign(tab, 0) == 4 && (MaxAlign(tab, 1) == 4 || MaxAlign(tab, 1) == Sec(tab, 0).align);
    assert MaxAlign(tab, 2) == MaxAlign(tab, 1) || MaxAlign(tab, 2) == Sec(tab, 1).align;
    assert MaxAlign(tab, 3) == MaxAlign(tab, 2) || MaxAlign(tab, 3) == Sec(tab, 2).align;
  }

  /** A move takes the allocator's block as it is: its sections are aligned exactly if the answer was. */
  lemma MovedBlockAligned(img: Image, from: Placement, heap: Heap, reply: Word, newSize: int, moves: seq<SectionMove>,
                          was: Fields, m: seq<Word>, now: Fields, m': seq<Word>, books: Option<Heap>, asked: seq<Event>)
    requires WellFormed(img) && img.tab != [] && !from.mode.Xip? && RamSize(img.hdr, img.tab, from.mode) > 0
    requires SectionedMove(img, from, heap, reply, 0, newSize, moves, Ok, was, m, now, m', books, asked)
    requires was.ram != 0 && now.ram % 4 == 0
    ensures now.ram == reply && |asked| == 1
    ensures (forall k :: 0 <= k < 3 ==> SectionInPlace(img, MoveTarget(from, now.ram, moves), k)) <==> Served(asked[0])
  {
    hide RamSize, WellFormed, MainAlign, Aligned, SectionInPlace, MovedTo;
    TargetKeepsBlock(from, moves);
    SectionsWithBlock(img, MoveTarget(from, now.ram, moves));
  }

  /** A block the caller passes is taken exactly if it is large enough and every section is aligned in it. */
  lemma CallersBlockTaken(img: Image, from: Placement, heap: Heap, reply: Word, newRam: Word, newSize: int, moves: seq<SectionMove>,
                          res: Error, was: Fields, m: seq<Word>, now: Fields, m': seq<Word>, books: Option<Heap>, asked: seq<Event>)
    requires WellFormed(img) && img.tab != [] && !from.mode.Xip? && RamSize(img.hdr, img.tab, from.mode) > 0
    requires SectionedMove(img, from, heap, reply, newRam, newSize, moves, res, was, m, now, m', books, asked)
    requires newRam != 0 && newRam != was.ram
    ensures res in {Ok, RamLenLow, RamUnaligned} && (res == RamLenLow <==> newSize < RamSize(img.hdr, img.tab, from.mode)) && asked == []
    ensures res == Ok <==>
      && newSize >= RamSize(img.hdr, img.tab, from.mode) && newRam % 4 == 0
      && forall k :: 0 <= k < 3 ==> SectionInPlace(img, MoveTarget(from, newRam, moves), k)
  {
    hide RamSize, WellFormed, MainAlign, Aligned, SectionInPlace, MovedTo, IsPow2;
    TargetKeepsBlock(from, moves);
    TableAlign(img);
    if Aligned(newRam, MainAlign(img.tab)) { AlignedFour(newRam, MainAlign(img.tab)); }
    if newRam % 4 == 0 { SectionsWithBlock(img, MoveTarget(from, newRam, moves)); }
  }

  lemma TableAlign(img: Image)
    requires WellFormed(img) && img.tab != []
    ensures ValidTable(img.tab) && MainAlign(img.tab) >= 4 && IsPow2(MainAlign(img.tab))
  {
    hide MaxAlign, IsPow2;
    ShapedTable(img);
    hide WellFormed, ValidTable;
    MaxAlignBounds(img.tab, 3);
  }

  lemma TargetKeepsBlock(from: Placement, moves: seq<SectionMove>)
    ensures MoveTarget(from, from.ram, moves).ram == from.ram && MoveTarget(from, from.ram, moves).mode == from.mode
    ensures forall ram :: MoveTarget(from, ram, moves).ram == ram
  {
    hide MovedBase;
  }

  /** A module with tagged sections has a block: the base array. */
  lemma SomethingToMove(img: Image, mode: Mode, moves: seq<SectionMove>)
    requires WellFormed(img) && GoodMoves(img.tab, moves)
    ensures moves != [] ==> RamSize(img.hdr, img.tab, mode) > 0
  {
    hide RamSize, WellFormed;
    if moves != [] {
      assert 3 <= moves[0].idx < |img.tab|;
      FrontNeedsBlock(img, mode);
    }
  }

  lemma NoTableNoMoves(moves: seq<SectionMove>)
    requires moves != []
    ensures MovesError([], moves, 0) == InvalidModule
  {
    assert MoveError([], moves, 0) == InvalidModule;
  }

  lemma NoMovesGood(tab: seq<Section>, moves: seq<SectionMove>)
    ensures moves == [] ==> GoodMoves(tab, moves)
  {}

  // ----- a moved module is a freshly loaded one -----

  /** The image found at src in m and at src' in m' has the same payloads. */
  ghost predicate SamePayloads(img: Image, m: seq<Word>, src: int, m': seq<Word>, src': int) {
    forall k, off :: 0 <= k < |img.tab| && 0 <= off < Sec(img.tab, k).size && off % 4 == 0 ==>
      InitialWord(img, m, src, k, off) == InitialWord(img, m', src', k, off)
  }

  /** Load at `from`, move to `to`: a section's word is what a fresh load of the same image at `to` puts
      there, exactly if no entry targets it or one whose word moves as it should. */
  lemma MovedSectionsFresh(img: Image, from: Placement, to: Placement, resolve: Resolver,
                           c: Contents, loaded: seq<Word>, moved: seq<Word>, m: seq<Word>, src: int,
                           c': Contents, anew: seq<Word>, m': seq<Word>, src': int, k: int, off: int)
    requires WellFormed(img) && img.tab != [] && Represents(img, from, resolve, c, loaded)
    requires MovedTo(img, from, loaded, to, moved) && Represents(img, to, resolve, c', anew)
    requires Pristine(img, from.mode, src, m, c) && Pristine(img, to.mode, src', m', c') && SamePayloads(img, m, src, m', src')
    requires 0 <= k < |img.tab| && 0 <= off < Sec(img.tab, k).size && off % 4 == 0
    ensures Get(moved, Base(img, to, k) + off) == Get(anew, Base(img, to, k) + off)
      <==> MovableAt(img, from, to, resolve, c, SectionLoc(img, to.mode, k, off))
  {
    hide WellFormed, Represents, MovableAt, InitialWord, Base, Get, SectionLoc, Cell, Slot, InBounds, IsBaseSlot, Pristine, SamePayloads,
      ValidPlacement, BasesIn, Copied, SameCells, Walk, RamSize, Shaped;
    assert from.mode == to.mode;
    hide MovedTo;
    WellFormedShaped(img);
    SectionWord(img, to, k, off);
    SamePayloadCell(img, to.mode, m, src, c, m', src', c', k, off);
    assert IsCell(img, to.mode, SectionLoc(img, to.mode, k, off));
    MovedWord(img, from, to, resolve, c, loaded, moved, c', anew, SectionLoc(img, to.mode, k, off));
  }

  lemma SamePayloadCell(img: Image, mode: Mode, m: seq<Word>, src: int, c: Contents, m': seq<Word>, src': int, c': Contents, k: int, off: int)
    requires img.tab != [] && 0 <= k < |img.tab| && 0 <= off < Sec(img.tab, k).size && off % 4 == 0
    requires Pristine(img, mode, src, m, c) && Pristine(img, mode, src', m', c') && SamePayloads(img, m, src, m', src')
    ensures Cell(c, SectionLoc(img, mode, k, off)) == Cell(c', SectionLoc(img, mode, k, off))
  {
    hide InitialWord, SectionLoc, Cell, Get;
    assert InitialWord(img, m, src, k, off) == InitialWord(img, m', src', k, off);
  }

  /** The image found at src in m and at src' in m' has the same metadata, fields the loader never reads
      included. */
  ghost predicate SameMetadata(img: Image, m: seq<Word>, src: int, m': seq<Word>, src': int) {
    forall off :: 0 <= off < CodeOffset(img.hdr) && off % 4 == 0 ==> Get(m, src + off) == Get(m', src' + off)
  }

  /** Every word of the metadata COPY_ALL keeps in the block is what a fresh load puts there. */
  lemma MovedMetadataFresh(img: Image, from: Placement, to: Placement, resolve: Resolver,
                           c: Contents, loaded: seq<Word>, moved: seq<Word>, m: seq<Word>, src: int,
                           c': Contents, anew: seq<Word>, m': seq<Word>, src': int, off: int)
    requires WellFormed(img) && to.mode.CopyAll? && Represents(img, from, resolve, c, loaded)
    requires MovedTo(img, from, loaded, to, moved) && Represents(img, to, resolve, c', anew)
    requires Pristine(img, from.mode, src, m, c) && Pristine(img, to.mode, src', m', c') && SameMetadata(img, m, src, m', src')
    requires 0 <= off < CodeOffset(img.hdr) && off % 4 == 0
    ensures Get(moved, to.ram + BlockFront(img) + off) == Get(anew, to.ram + BlockFront(img) + off)
  {
    hide WellFormed, Represents, MovableAt, Get, Cell, PayloadsPristine, MetaWord, CodeOffset, BlockFront, ValidPlacement, BasesIn,
      Copied, SameCells, Walk, RamSize, Shaped;
    assert from.mode == to.mode;
    hide MovedTo;
    WellFormedShaped(img);
    MetaCellPlace(img, to, off);
    SameMetaCell(img, to.mode, m, src, c, m', src', c', off);
    assert IsCell(img, to.mode, Block(BlockFront(img) + off));
    MovedWord(img, from, to, resolve, c, loaded, moved, c', anew, Block(BlockFront(img) + off));
    MetaIsNoTarget(img, from, to, resolve, c, off);
    assert to.ram + (BlockFront(img) + off) == to.ram + BlockFront(img) + off;
  }

  lemma MetaIsNoTarget(img: Image, from: Placement, to: Placement, resolve: Resolver, c: Contents, off: int)
    requires WellFormed(img) && from.mode == to.mode && to.mode.CopyAll? && 0 <= off < CodeOffset(img.hdr)
    ensures MovableAt(img, from, to, resolve, c, Block(BlockFront(img) + off))
  {
    hide WellFormed, MovableEntry, RelLoc, CodeOffset, BlockFront;
    forall i: nat | i < |img.rels| && RelLoc(img, to.mode, i) == Some(Block(BlockFront(img) + off))
      ensures false
    {
      TargetOutsideMeta(img, to.mode, i);
    }
  }

  /** No relocation targets the metadata in the block. */
  lemma TargetOutsideMeta(img: Image, mode: Mode, i: nat)
    requires WellFormed(img) && mode.CopyAll? && i < |img.rels| && RelLoc(img, mode, i).Some?
    ensures var loc := RelLoc(img, mode, i).value;
      loc.Block? ==> loc.off < BlockFront(img) || loc.off >= BlockFront(img) + CodeOffset(img.hdr)
  {
    hide RamSize, MainOffset, CodeOffset;
    assert TargetInside(img, i);
    WellFormedShaped(img);
    StartFacts(img, mode);
    hide WellFormed, Shaped, MainStart, Find, TargetInside;
    if LinkTarget(img, i).LotWord? {
      LotTarget(img, mode, i);
    } else if img.tab == [] {
      hide Sec, LinkTarget;
    } else {
      hide RelLoc, BlockFront, LinkTarget, SectionLoc, Sec, InBounds, IsBaseSlot, Base, Slot;
      SectionTarget(img, mode, i);
      var va := LinkTarget(img, i).va;
      var k := Find(img.tab, va);
      SectionWord(img, Placement(mode, 0, 0, []), k, va - Sec(img.tab, k).va);
    }
  }

  lemma SameMetaCell(img: Image, mode: Mode, m: seq<Word>, src: int, c: Contents, m': seq<Word>, src': int, c': Contents, off: int)
    requires mode.CopyAll? && 0 <= off < CodeOffset(img.hdr) && off % 4 == 0
    requires Pristine(img, mode, src, m, c) && Pristine(img, mode, src', m', c') && SameMetadata(img, m, src, m', src')
    ensures Cell(c, Block(BlockFront(img) + off)) == Cell(c', Block(BlockFront(img) + off))
  {
    hide PayloadsPristine, Cell, Get, CodeOffset, BlockFront, WholeMeta, LowBytes;
    assert MetaCell(img, src, m, c, off) && MetaCell(img, src', m', c', off);
  }

  /** A word bound to a symbol, a LOT slot above all, is what a fresh load puts there exactly if it is not a
      weak one whose override is taken for the module's own address. */
  lemma MovedSlotsFresh(img: Image, from: Placement, to: Placement, resolve: Resolver,
                        c: Contents, loaded: seq<Word>, moved: seq<Word>, c': Contents, anew: seq<Word>, i: nat)
    requires WellFormed(img) && Represents(img, from, resolve, c, loaded)
    requires MovedTo(img, from, loaded, to, moved) && Represents(img, to, resolve, c', anew)
    requires i < |img.rels| && !InPlace(img.rels[i])
    requires ImageSym(img, img.rels[i].value).Some? && ImageSym(img, img.rels[i].value).value.kind <= WEAK
    ensures RelLoc(img, to.mode, i).Some?
    ensures var (addr, sym) := (Slot(to, RelLoc(img, to.mode, i).value), ImageSym(img, img.rels[i].value).value);
      Get(moved, addr) == Get(anew, addr) <==> (sym.kind == WEAK ==> WeakMoves(img, from, to, resolve, sym))
  {
    hide WellFormed, MovedTo, Get, Cell, Slot, RelLoc, BasesIn, ImageSym, LoadWord, WeakMoves;
    assert from.mode == to.mode by { SameModes(img, from, loaded, to, moved); }
    assert TargetHolds(img, from, resolve, c, loaded, i) && TargetHolds(img, to, resolve, c', anew, i);
    MoveKeepsTarget(img, from, loaded, to, moved, resolve, c, i);
    var loc := RelLoc(img, to.mode, i).value;
    BoundWithoutContents(img, to, resolve, img.rels[i], Cell(c, loc), Cell(c', loc));
  }

  /** What a symbol relocation writes does not depend on what was there. */
  lemma BoundWithoutContents(img: Image, p: Placement, resolve: Resolver, rel: Rel, w: Word, w': Word)
    requires !InPlace(rel) && ImageSym(img, rel.value).Some? && ImageSym(img, rel.value).value.kind <= WEAK
    requires !LoadWord(img, p, resolve, rel, w).Fail?
    ensures Apply(LoadWord(img, p, resolve, rel, w), w) == Apply(LoadWord(img, p, resolve, rel, w'), w')
  {
    SymbolKinds(img, rel.value);
    hide Default, ImageSym;
  }

  lemma SymbolKinds(img: Image, idx: nat)
    ensures ImageSym(img, idx).Some? ==> ImageSym(img, idx).value.kind >= 0
  {
    hide Pool;
  }

  // ----- the public calls -----

  /** udynlink.c udynlink_relocate_module_sections; udynlink_relocate_module is the call without moves. */
  method RelocateModuleSections(mod: Module, mem: array<Word>, host: Host, newRam: Word, newSize: int, moves: seq<SectionMove>,
                                ghost img: Image, ghost from: Placement, ghost heap: Heap) returns (res: Error)
    requires mod.header != 0 ==>
      && WellFormed(img) && ValidPlacement(img, from, mem.Length) && Attached(mod, mem[..], img, from) && Loadable(img, from.mode)
      && Outstanding(host.log) == Some(heap) && MainOwned(heap, mod.ram, mod.foreign, MainAlign(img.tab))
      && (GoodMoves(img.tab, moves) ==>
            var q := MoveTarget(from, from.ram, moves);
            && TargetOk(mod, mem[..], img, from, moves) && KeptInUse(host.taken, heap, img, q, mod.header)
            && DestinationOk(mod, img, q, newRam, newSize, mem.Length))
    modifies mod, mem, host`log
    ensures old(mod.header) == 0 || (moves != [] && MovesError(img.tab, moves, 0) != Ok) ==>
      && res == (if old(mod.header) == 0 || img.tab == [] then InvalidModule else MovesError(img.tab, moves, 0))
      && mem[..] == old(mem[..]) && mod.Now() == old(mod.Now()) && host.log == old(host.log)
    ensures old(mod.header) != 0 && (moves == [] || MovesError(img.tab, moves, 0) == Ok) ==>
      && GoodMoves(img.tab, moves)
      && if img.tab == [] then
           FlatMove(img, from, heap, old(host.Reply(RamSize(img.hdr, img.tab, from.mode), 4 * mem.Length)), newRam, newSize, res,
                    old(mod.Now()), old(mem[..]), mod.Now(), mem[..], Outstanding(host.log), AskedSince(old(host.log), host.log))
         else
           SectionedMove(img, from, heap, old(host.Reply(RamSize(img.hdr, img.tab, from.mode), 4 * mem.Length)), newRam, newSize, moves, res,
                         old(mod.Now()), old(mem[..]), mod.Now(), mem[..], Outstanding(host.log), AskedSince(old(host.log), host.log))
    ensures old(mod.header) != 0 && res == Ok && RamSize(img.hdr, img.tab, from.mode) > 0 && newRam != old(mod.ram) && mod.ram % 4 == 0 ==>
      Attached(mod, mem[..], img, MoveTarget(from, mod.ram, moves))
  {
    hide RamSize, CodeOffset, ImageAt, BlockFront, MetaApart, TextSize, BasesIn, WellFormed, ValidPlacement, Shaped, HostCopied,
      KeptInUse, Clear, MovedTo, Outstanding, ValidTable, MoveTarget, Sec, MaxAlign, TargetOk, DestinationOk, Loadable, MovesError,
      HeaderAt, Sectab, GoodMoves, Asked, AskedSince;
    if mod.header == 0 {
      return InvalidModule;
    }
    MetaDecodes(img, mem[..], mod.header);
    var hdr := HeaderAt(mem[..], mod.header / 4);
    var view := GetSectab(mem, mod.header / 4, false);
    var tab := view.value;
    NoMovesGood(img.tab, moves);
    if |moves| > 0 {
      if tab == [] {
        NoTableNoMoves(moves);
        return InvalidModule;
      }
      res := CheckMoves(tab, moves);
      if res != Ok {
        return;
      }
      AcceptedMovesGood(tab, moves);
    }
    if tab == [] {
      NoMoves(from, from.ram);
      assert AtBlock(from, from.ram) == from && moves == [];
      res := RelocateFlat(mod, mem, host, hdr, newRam, newSize, img, from, heap);
      NoMoves(from, mod.ram);
    } else {
      res := RelocateSectioned(mod, mem, host, hdr, tab, newRam, newSize, moves, img, from, heap);
    }
  }

  /** udynlink.c udynlink_link_incremental and udynlink_relink_all. */
  method LinkExterns(mod: Module, mem: array<Word>, resolve: Resolver, incremental: bool, ghost img: Image, ghost p: Placement)
    returns (res: Error)
    requires mod.header != 0 ==> WellFormed(img) && ValidPlacement(img, p, mem.Length) && Attached(mod, mem[..], img, p)
    modifies mem
    ensures res == (if mod.header == 0 then InvalidModule else Ok)
    ensures mem[..] == (if mod.header == 0 then old(mem[..]) else Walk(img, Linking(p, resolve, incremental), old(mem[..]), 0).1)
    ensures mod.header != 0 ==> Attached(mod, mem[..], img, p)
  {
    hide RamSize, ImageAt, MetaApart, BasesIn, WellFormed, ValidPlacement, Untouched, Walk, Sectab;
    if mod.header == 0 {
      return InvalidModule;
    }
    ghost var m := mem[..];
    MetaDecodes(img, mem[..], mod.header);
    var view := GetSectab(mem, mod.header / 4, false);
    ApplyExternRelocations(mod, mem, view.value, resolve, incremental, img, p);
    AttachedStays(mod, img, p, m, mem[..]);
    res := Ok;
  }
}
