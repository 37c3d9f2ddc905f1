// The loops over the relocation table, patching memory in place: udynlink_load_apply_relocations,
// rebase_module_pointers, rebase_sections_pointers and apply_extern_relocations_impl, each refining
// the one walk of Relocation.dfy.

module Walks {
  import opened Words
  import opened Image
  import opened Sections
  import opened AddressMap
  import opened Layout
  import opened Placement
  import opened Relocation
  import opened Loaded
  import opened Renaming
  import opened Handle

  // ----- what a walk leaves alone -----

  ghost predicate Untouched(img: Image, p: Placement, m: seq<Word>, m': seq<Word>) {
    && |m'| == |m|
    && forall a :: a % 4 == 0 && !Patchable(img, p, a) ==> Get(m', a) == Get(m, a)
  }

  lemma PatchTouchesTargets(img: Image, pass: Pass, m: seq<Word>, m': seq<Word>, i: nat)
    requires WellFormed(img) && ValidPlacement(img, pass.at, |m|) && i < |img.rels|
    requires Untouched(img, pass.at, m, m')
    ensures Untouched(img, pass.at, m, Patched(img, pass, m', i))
  {
    hide Patched, Get, Patchable, WellFormed, ValidPlacement, Hits;
    forall a | a % 4 == 0 && !Patchable(img, pass.at, a)
      ensures Get(Patched(img, pass, m', i), a) == Get(m, a)
    {
      if Hits(img, pass.at, i, a) { HitIsPatchable(img, pass.at, |m|, a, i); }
      PatchedElsewhere(img, pass, m', i, a);
    }
  }

  lemma MetaStays(img: Image, p: Placement, m: seq<Word>, m': seq<Word>, h: int)
    requires WellFormed(img) && ValidPlacement(img, p, |m|)
    requires Untouched(img, p, m, m') && MetaIn(img, p, m, h)
    ensures MetaIn(img, p, m', h)
  {
    hide RamSize, MainOffset, Outside, InFront, ValidPlacement, Shaped, ImageAt, Patchable;
    assert Shaped(img);
    ShapedHasMains(img);
    hide WellFormed;
    forall j | 0 <= j < CodeOffset(img.hdr) / 4
      ensures SameWord(m, h / 4, m', h / 4, j)
    {
      var a := h + 4 * j;
      NotPatchable(img, p, |m|, a);
      assert Get(m', a) == Get(m, a) && a / 4 == h / 4 + j;
    }
    ImageFrame(m, h, m', h);
  }

  lemma BasesStay(img: Image, p: Placement, m: seq<Word>, m': seq<Word>, bases: Placement)
    requires WellFormed(img) && ValidPlacement(img, p, |m|) && bases.ram == p.ram
    requires Untouched(img, p, m, m') && BasesIn(img, bases, m)
    ensures BasesIn(img, bases, m')
  {
    hide RamSize, MainOffset, WellFormed, Get, Patchable, CodeOffset;
    forall k | 3 <= k < |img.tab|
      ensures Get(m', BaseSlot(img, bases, k)) == TaggedBase(bases, k)
    {
      BaseSlotInMemory(img, p, |m|, k);
      BaseSlotNotPatchable(img, p, |m|, k);
    }
  }

  lemma BaseSlotNotPatchable(img: Image, p: Placement, n: int, k: int)
    requires WellFormed(img) && ValidPlacement(img, p, n) && 3 <= k < |img.tab|
    ensures !Patchable(img, p, BaseSlot(img, p, k))
  {
    hide RamSize, MainOffset, ValidPlacement, CodeOffset, Shaped, Patchable;
    assert Shaped(img);
    hide WellFormed;
    NotPatchable(img, p, n, BaseSlot(img, p, k));
  }

  lemma AttachedStays(mod: Module, img: Image, p: Placement, m: seq<Word>, m': seq<Word>)
    requires WellFormed(img) && ValidPlacement(img, p, |m|)
    requires Untouched(img, p, m, m') && Attached(mod, m, img, p)
    ensures Attached(mod, m', img, p)
  {
    hide ValidPlacement, WellFormed, Untouched, BasesIn, RamSize, ImageAt, MetaApart;
    MetaStays(img, p, m, m', mod.header);
    BasesStay(img, p, m, m', p);
  }

  // ----- loading -----

  /** One entry of udynlink_load_apply_relocations. */
  method LoadEntry(mod: Module, mem: array<Word>, tab: seq<Section>, src: int, i: nat, resolve: Resolver,
                   ghost img: Image, ghost p: Placement) returns (res: Error)
    requires WellFormed(img) && ValidPlacement(img, p, mem.Length) && Attached(mod, mem[..], img, p)
    requires MetaIn(img, p, mem[..], src) && tab == img.tab && i < |img.rels|
    modifies mem
    ensures res == Stop(img, Loading(p, resolve), old(mem[..]), i)
    ensures mem[..] == if res == Ok then Patched(img, Loading(p, resolve), old(mem[..]), i) else old(mem[..])
  {
    hide ImageAt, WellFormed, ValidPlacement, Described, TargetAddr, MetaApart, SymtWords, HeaderAt, SymAt, Runtime, CodeBase, DataBase;
    MetaDecodes(img, mem[..], src);
    var hdr := HeaderAt(mem[..], src / 4);
    var rel := RelAt(mem[..], src / 4, hdr, i);
    hide RelAt;
    if InPlace(rel) {
      if rel.lotOffset < hdr.numLot {
        LotInPlaceStops(img, p, resolve, mem[..], i);
        return BadRelocationTable;
      }
      var target := GetRelocTarget(mod, mem, tab, i, img, p);
      if target.None? {
        return BadRelocationTable;
      }
      var at := target.value / 4;
      if tab != [] {
        var runtime := ResolveRuntimeVa(mod, mem, tab, mem[at], img, p);
        if runtime.None? {
          return BadRelocationTable;
        }
        mem[at] := runtime.value;
      } else if DataForm(rel) {
        var data := GetDataPointer(mod, mem, img, p);
        mem[at] := Wrap(mem[at] + data - rel.value % 0x8000_0000);
      } else {
        var code := GetCodePointer(mod, mem, img, p);
        mem[at] := Wrap(code + mem[at]);
      }
      return Ok;
    }
    var sym := SymAt(SymtWords(mem[..], src / 4, hdr), hdr.symtSize, rel.value);
    if sym.None? {
      NoSymbolStops(img, p, resolve, mem[..], i);
      return BadRelocationTable;
    }
    var target := GetRelocTarget(mod, mem, tab, i, img, p);
    if target.None? {
      return BadRelocationTable;
    }
    res := BindSymbol(mod, mem, tab, target.value / 4, sym.value, resolve, img, p);
  }

  lemma LotInPlaceStops(img: Image, p: Placement, resolve: Resolver, m: seq<Word>, i: nat)
    requires i < |img.rels| && InPlace(img.rels[i]) && img.rels[i].lotOffset < img.hdr.numLot
    ensures Stop(img, Loading(p, resolve), m, i) == BadRelocationTable
  {}

  lemma NoSymbolStops(img: Image, p: Placement, resolve: Resolver, m: seq<Word>, i: nat)
    requires i < |img.rels| && !InPlace(img.rels[i]) && ImageSym(img, img.rels[i].value).None?
    ensures Stop(img, Loading(p, resolve), m, i) == BadRelocationTable
  {
    hide TargetAddr;
  }

  /** offset_sym: the module's own address of a symbol. */
  method OwnAddress(mod: Module, mem: array<Word>, tab: seq<Section>, sym: Symbol, ghost img: Image, ghost p: Placement)
    returns (r: Option<Word>)
    requires WellFormed(img) && ValidPlacement(img, p, mem.Length) && Attached(mod, mem[..], img, p) && tab == img.tab
    ensures r == Default(img, p, sym)
  {
    hide WellFormed, ValidPlacement, Described, MetaApart, Runtime, CodeBase, DataBase;
    if tab != [] {
      r := ResolveRuntimeVa(mod, mem, tab, sym.val, img, p);
    } else if sym.inCode {
      var code := GetCodePointer(mod, mem, img, p);
      r := Some(Wrap(sym.val + code));
    } else {
      var data := GetDataPointer(mod, mem, img, p);
      r := Some(Wrap(sym.val + data));
    }
  }

  /** The switch on the symbol type. A weak symbol's default is written before the host is asked. */
  method BindSymbol(mod: Module, mem: array<Word>, tab: seq<Section>, at: nat, sym: Symbol, resolve: Resolver,
                    ghost img: Image, ghost p: Placement) returns (res: Error)
    requires WellFormed(img) && ValidPlacement(img, p, mem.Length) && Attached(mod, mem[..], img, p) && tab == img.tab
    requires at < mem.Length
    modifies mem
    ensures var out := SymbolOutcome(img, p, resolve, sym);
      && res == (if out.Fail? then out.error else Ok)
      && mem[..] == (if out.Write? then old(mem[..])[at := out.w] else old(mem[..]))
  {
    hide WellFormed, ValidPlacement, Attached, Default;
    if sym.kind == INTERNAL || sym.kind == EXPORTED {
      var own := OwnAddress(mod, mem, tab, sym, img, p);
      if own.None? {
        return BadRelocationTable;
      }
      mem[at] := own.value;
    } else if sym.kind == WEAK {
      var own := OwnAddress(mod, mem, tab, sym, img, p);
      if own.None? {
        return BadRelocationTable;
      }
      mem[at] := own.value;
      var host := resolve(sym.name);
      if host == DEFERRED {
        return Ok;
      }
      if host > 0 {
        mem[at] := host;
      }
    } else if sym.kind == EXTERN {
      var host := resolve(sym.name);
      if host == DEFERRED {
        mem[at] := 0;
        return Ok;
      }
      if host == 0 {
        return UnknownSymbol;
      }
      mem[at] := host;
    } else if sym.kind == MODULE_NAME {
      return BadRelocationTable;
    }
    res := Ok;
  }

  /** udynlink.c udynlink_load_apply_relocations: relocations and symbols are read at `src`, the
      handle's own header is read for the target addresses. */
  method ApplyRelocations(mod: Module, mem: array<Word>, tab: seq<Section>, src: int, resolve: Resolver,
                          ghost img: Image, ghost p: Placement) returns (res: Error)
    requires WellFormed(img) && ValidPlacement(img, p, mem.Length) && Attached(mod, mem[..], img, p)
    requires MetaIn(img, p, mem[..], src) && tab == img.tab
    modifies mem
    ensures (res, mem[..]) == Walk(img, Loading(p, resolve), old(mem[..]), 0)
    ensures Untouched(img, p, old(mem[..]), mem[..])
  {
    hide ImageAt, WellFormed, ValidPlacement, MetaIn, Stop, Patched, Attached, Patchable, HeaderAt, Get;
    ghost var m := mem[..];
    ghost var pass := Loading(p, resolve);
    MetaInDecodes(img, p, m, src);
    var hdr := HeaderAt(mem[..], src / 4);
    var i := 0;
    while i < hdr.numRels
      invariant 0 <= i <= |img.rels| && Untouched(img, p, m, mem[..])
      invariant Walk(img, pass, mem[..], i) == Walk(img, pass, m, 0)
    {
      AttachedStays(mod, img, p, m, mem[..]);
      MetaStays(img, p, m, mem[..], src);
      PatchTouchesTargets(img, pass, m, mem[..], i);
      res := LoadEntry(mod, mem, tab, src, i, resolve, img, p);
      if res != Ok {
        return;
      }
      i := i + 1;
    }
    res := Ok;
  }

  lemma MetaInDecodes(img: Image, p: Placement, m: seq<Word>, h: int)
    requires MetaIn(img, p, m, h)
    ensures h >= 0 && HeaderAt(m, h / 4) == img.hdr && |img.rels| == img.hdr.numRels
  {
    hide ImageAt, MetaApart, HeaderAt;
    MetaDecodes(img, m, h);
  }

  // ----- moving -----

  /** What a successful load has shown about every entry. */
  ghost predicate Loadable(img: Image, mode: Mode) {
    forall i :: 0 <= i < |img.rels| ==>
      RelLoc(img, mode, i).Some? && (InPlace(img.rels[i]) ==> img.rels[i].lotOffset >= img.hdr.numLot)
  }

  /** rebase_module_pointers, one entry: deltas are added once, in place. */
  method RebaseEntry(mem: array<Word>, at: nat, rel: Rel, sym: Option<Symbol>, codeDelta: int, dataDelta: int,
                     oldCode: int, oldData: int, ghost img: Image, ghost from: Placement, ghost to: Placement)
    requires at < mem.Length && img.tab == [] && sym == ImageSym(img, rel.value)
    requires codeDelta == CodeBase(img, to) - CodeBase(img, from) && oldCode == CodeBase(img, from)
    requires dataDelta == DataBase(img, to) - DataBase(img, from) && oldData == DataBase(img, from)
    modifies mem
    ensures mem[..] == old(mem[..])[at := MoveWord(img, from, to, rel, old(mem[at]))]
  {
    hide CodeBase, DataBase, ImageSym;
    if DataForm(rel) {
      mem[at] := Wrap(mem[at] + dataDelta);
    } else if CodeForm(rel) {
      mem[at] := Wrap(mem[at] + codeDelta);
    } else if sym.Some? {
      var delta := if sym.value.inCode then codeDelta else dataDelta;
      if sym.value.kind == INTERNAL || sym.value.kind == EXPORTED {
        mem[at] := Wrap(mem[at] + delta);
      } else if sym.value.kind == WEAK {
        var defaultOld := (if sym.value.inCode then oldCode else oldData) + sym.value.val;
        if mem[at] == Wrap(defaultOld) {
          mem[at] := Wrap(mem[at] + delta);
        }
      }
    }
  }

  /** udynlink.c rebase_module_pointers. The handle already describes the new place. */
  method RebaseModulePointers(mod: Module, mem: array<Word>, codeDelta: int, dataDelta: int, oldCode: int, oldData: int,
                              ghost img: Image, ghost from: Placement, ghost to: Placement)
    requires WellFormed(img) && img.tab == [] && Loadable(img, to.mode)
    requires ValidPlacement(img, to, mem.Length) && Attached(mod, mem[..], img, to)
    requires codeDelta == CodeBase(img, to) - CodeBase(img, from) && oldCode == CodeBase(img, from)
    requires dataDelta == DataBase(img, to) - DataBase(img, from) && oldData == DataBase(img, from)
    modifies mem
    ensures (Ok, mem[..]) == Walk(img, Moving(to, from), old(mem[..]), 0)
    ensures Untouched(img, to, old(mem[..]), mem[..])
  {
    hide ImageAt, WellFormed, ValidPlacement, Described, Patchable, MetaApart, Stop, Patched, HeaderAt, CodeBase, DataBase, Get, SymtWords, SymAt, TargetAddr, RelAt, MoveWord, Effect;
    ghost var m := mem[..];
    ghost var pass := Moving(to, from);
    AttachedMeta(mod, img, to, m);
    MetaInDecodes(img, to, m, mod.header);
    var hdr := HeaderAt(mem[..], mod.header / 4);
    var data := GetDataPointer(mod, mem, img, to);
    var i := 0;
    while i < hdr.numRels
      invariant 0 <= i <= |img.rels| && Untouched(img, to, m, mem[..])
      invariant Walk(img, pass, mem[..], i) == Walk(img, pass, m, 0)
    {
      ghost var before := mem[..];
      MetaStays(img, to, m, before, mod.header);
      MetaDecodes(img, before, mod.header);
      var rel := RelAt(mem[..], mod.header / 4, hdr, i);
      FlatTargetAddr(img, to, mem.Length, i);
      var target := if rel.lotOffset < hdr.numLot then mod.ram + 4 * rel.lotOffset else data + 4 * (rel.lotOffset - hdr.numLot);
      PatchTouchesTargets(img, pass, m, before, i);
      assert rel == img.rels[i];
      MoveStep(img, pass, before, i, target);
      RebaseEntry(mem, target / 4, rel, SymAt(SymtWords(mem[..], mod.header / 4, hdr), hdr.symtSize, rel.value),
                  codeDelta, dataDelta, oldCode, oldData, img, from, to);
      i := i + 1;
    }
  }

  lemma AttachedMeta(mod: Module, img: Image, p: Placement, m: seq<Word>)
    requires Attached(mod, m, img, p)
    ensures MetaIn(img, p, m, mod.header) && mod.header >= 0 && mod.ram == p.ram && mod.mode == p.mode
  {
    hide ImageAt, MetaApart, BasesIn;
  }

  lemma FlatTargetAddr(img: Image, p: Placement, n: int, i: nat)
    requires WellFormed(img) && img.tab == [] && Loadable(img, p.mode) && ValidPlacement(img, p, n) && i < |img.rels|
    ensures TargetAddr(img, p, i) == Some(
      if img.rels[i].lotOffset < img.hdr.numLot then p.ram + 4 * img.rels[i].lotOffset
      else DataBase(img, p) + 4 * (img.rels[i].lotOffset - img.hdr.numLot))
    ensures 0 <= TargetAddr(img, p, i).value / 4 < n
  {
    hide WellFormed, ValidPlacement, FlatDataOffset;
    TargetInMemory(img, p, n, i);
  }

  lemma MoveStep(img: Image, pass: Pass, m: seq<Word>, i: nat, target: int)
    requires pass.Moving? && i < |img.rels| && TargetAddr(img, pass.at, i) == Some(target) && 0 <= target / 4 < |m|
    ensures Stop(img, pass, m, i) == Ok
    ensures Patched(img, pass, m, i) == m[target / 4 := MoveWord(img, pass.from, pass.at, img.rels[i], m[target / 4])]
  {
    hide MoveWord, TargetAddr;
  }

  datatype SectionMove = SectionMove(idx: int, newBase: Word)

  function MovedBase(moves: seq<SectionMove>, k: int, was: int): int {
    if moves == [] then was else if moves[0].idx == k then moves[0].newBase else MovedBase(moves[1..], k, was)
  }

  /** Where the module is once the block is at `ram` and the listed sections are re-bound. */
  function MoveTarget(from: Placement, ram: int, moves: seq<SectionMove>): Placement {
    Placement(from.mode, ram, from.text,
              seq<int>(|from.tagged|, (j: int) requires 0 <= j < |from.tagged| => MovedBase(moves, j + 3, from.tagged[j])))
  }

  /** The state in which the rebase walk runs: the block is at its new place, the array in it still
      holds the old bases. */
  function Halfway(from: Placement, to: Placement): Placement {
    Placement(to.mode, to.ram, to.text, from.tagged)
  }

  /** udynlink.c sect_base_old. */
  method SectBaseOld(mod: Module, mem: array<Word>, tab: seq<Section>, oldRam: int, idx: int,
                     ghost img: Image, ghost from: Placement, ghost to: Placement) returns (base: int)
    requires WellFormed(img) && img.tab != [] && tab == img.tab && 0 <= idx < |tab|
    requires BlockPlaced(img, to, mem.Length) && Described(mod, mem[..], img, Halfway(from, to))
    requires oldRam == from.ram && (from.ram == 0 ==> to.ram == 0) && from.text == to.text && from.mode == to.mode
    ensures base == Base(img, from, idx)
  {
    hide RamSize, MainOffset, BasesIn;
    if idx < 3 {
      ShapedTable(img);
      hide WellFormed, ValidTable;
      MetaDecodes(img, mem[..], mod.header);
      hide ImageAt;
      var hdr := HeaderAt(mem[..], mod.header / 4);
      if idx == 0 && mod.mode.Xip? {
        return mod.header + CodeOffset(hdr);
      }
      var block := if oldRam != 0 then oldRam else mod.ram;
      var off := GetMainSectionOffset(hdr, tab, mod.mode, idx);
      return block + off;
    }
    hide WellFormed, Described;
    base := GetSectionBase(mod, mem, tab, idx, img, Halfway(from, to));
  }

  lemma ShapedTable(img: Image)
    requires WellFormed(img) && img.tab != []
    ensures ValidTable(img.tab)
  {
    hide ValidTable;
  }

  /** udynlink.c sect_base_new. */
  method SectBaseNew(mod: Module, mem: array<Word>, tab: seq<Section>, moves: seq<SectionMove>, idx: int,
                     ghost img: Image, ghost from: Placement, ghost to: Placement) returns (base: int)
    requires WellFormed(img) && img.tab != [] && tab == img.tab && 0 <= idx < |tab|
    requires BlockPlaced(img, to, mem.Length) && Described(mod, mem[..], img, Halfway(from, to))
    requires to == MoveTarget(from, to.ram, moves) && |from.tagged| == NumTagged(tab)
    requires forall j :: 0 <= j < |moves| ==> moves[j].idx >= 3
    ensures base == Base(img, to, idx)
  {
    hide RamSize, MainOffset, Described, WellFormed;
    for j := 0 to |moves|
      invariant forall was :: MovedBase(moves, idx, was) == MovedBase(moves[j..], idx, was)
    {
      if moves[j].idx == idx {
        return moves[j].newBase;
      }
    }
    base := GetSectionBase(mod, mem, tab, idx, img, Halfway(from, to));
  }

  /** udynlink.c sect_find_by_runtime. */
  method FindByRuntime(mod: Module, mem: array<Word>, tab: seq<Section>, oldRam: int, addr: Word,
                       ghost img: Image, ghost from: Placement, ghost to: Placement) returns (idx: int)
    requires WellFormed(img) && img.tab != [] && tab == img.tab
    requires BlockPlaced(img, to, mem.Length) && Described(mod, mem[..], img, Halfway(from, to))
    requires oldRam == from.ram && (from.ram == 0 ==> to.ram == 0) && from.text == to.text && from.mode == to.mode
    ensures idx == FindRuntimeFrom(img, from, addr, 0)
  {
    hide RamSize, MainOffset, Base, Described, WellFormed;
    for i := 0 to |tab|
      invariant FindRuntimeFrom(img, from, addr, i) == FindRuntimeFrom(img, from, addr, 0)
    {
      var base := SectBaseOld(mod, mem, tab, oldRam, i, img, from, to);
      if addr >= base && addr - base < tab[i].size {
        return i;
      }
    }
    return -1;
  }

  /** The part of the state a sectioned rebase walk keeps. */
  ghost predicate Rebasing(mod: Module, m: seq<Word>, img: Image, from: Placement, to: Placement)
    reads mod
  {
    && WellFormed(img) && img.tab != [] && ValidPlacement(img, to, |m|)
    && Described(mod, m, img, Halfway(from, to)) && MetaApart(img, to, mod.header)
    && |from.tagged| == NumTagged(img.tab)
    && (from.ram == 0 ==> to.ram == 0) && from.text == to.text && from.mode == to.mode
  }

  lemma RebasingStays(mod: Module, img: Image, from: Placement, to: Placement, m: seq<Word>, m': seq<Word>)
    requires Rebasing(mod, m, img, from, to) && Untouched(img, to, m, m')
    ensures Rebasing(mod, m', img, from, to)
  {
    assert |m'| == |m|;
    hide ValidPlacement, WellFormed, Untouched, BasesIn, RamSize, ImageAt, MetaApart;
    MetaStays(img, to, m, m', mod.header);
    BasesStay(img, to, m, m', Halfway(from, to));
  }

  /** Where entry i's word is after the move, or None when the walk skips it. */
  method MovedTarget(mod: Module, mem: array<Word>, tab: seq<Section>, moves: seq<SectionMove>, i: nat,
                     ghost img: Image, ghost from: Placement, ghost to: Placement) returns (r: Option<int>)
    requires Rebasing(mod, mem[..], img, from, to) && tab == img.tab && i < |img.rels|
    requires to == MoveTarget(from, to.ram, moves) && forall j :: 0 <= j < |moves| ==> moves[j].idx >= 3
    ensures r == TargetAddr(img, to, i)
    ensures r.Some? ==> 0 <= r.value / 4 < mem.Length
  {
    hide Sorted, WellFormed, Base, HeaderAt, RelAt, Find, TargetAddr, MoveTarget, BlockPlaced, Described;
    RebasingFacts(mod, img, from, to, mem[..], i);
    hide Rebasing;
    TargetAddrIs(img, to, i);
    var hdr := HeaderAt(mem[..], mod.header / 4);
    var lotOffset := RelAt(mem[..], mod.header / 4, hdr, i).lotOffset;
    assert lotOffset == img.rels[i].lotOffset;
    if lotOffset < hdr.numLot {
      return Some(mod.ram + 4 * lotOffset);
    }
    var va := Wrap(hdr.codeSize + 4 * (lotOffset - hdr.numLot));
    var ti := FindByVa(tab, va);
    if ti < 0 || tab[ti].cls == BSS {
      return None;
    }
    var base := SectBaseNew(mod, mem, tab, moves, ti, img, from, to);
    return Some(base + (va - tab[ti].va));
  }

  lemma RebasingFacts(mod: Module, img: Image, from: Placement, to: Placement, m: seq<Word>, i: nat)
    requires Rebasing(mod, m, img, from, to) && i < |img.rels|
    ensures WellFormed(img) && img.tab != [] && Sorted(img.tab) && BlockPlaced(img, to, |m|)
    ensures Described(mod, m, img, Halfway(from, to)) && |from.tagged| == NumTagged(img.tab)
    ensures mod.header >= 0 && mod.ram == to.ram && HeaderAt(m, mod.header / 4) == img.hdr
    ensures RelAt(m, mod.header / 4, img.hdr, i) == img.rels[i]
    ensures TargetAddr(img, to, i).Some? ==> 0 <= TargetAddr(img, to, i).value / 4 < |m|
  {
    hide RamSize, WellFormed, ImageAt, HeaderAt, RelAt, Sorted, MetaApart, BasesIn, TargetAddr, BlockPlaced;
    BlockIsPlaced(img, to, |m|);
    hide ValidPlacement;
    if TargetAddr(img, to, i).Some? { TargetInMemory(img, to, |m|, i); }
    MetaDecodes(img, m, mod.header);
    WellFormedSorted(img);
  }

  lemma TargetAddrIs(img: Image, p: Placement, i: nat)
    requires img.tab != [] && i < |img.rels|
    ensures var lotOffset := img.rels[i].lotOffset;
      var va := TargetVa(img, lotOffset);
      var k := Find(img.tab, va);
      TargetAddr(img, p, i) ==
        if lotOffset < img.hdr.numLot then Some(p.ram + 4 * lotOffset)
        else if k < 0 || Sec(img.tab, k).cls == BSS then None
        else Some(Base(img, p, k) + (va - Sec(img.tab, k).va))
  {
    hide MainOffset, Find;
    var va := TargetVa(img, img.rels[i].lotOffset);
    var k := Find(img.tab, va);
    SlotOfSection(img, p, k, va - Sec(img.tab, k).va);
  }

  lemma BlockIsPlaced(img: Image, p: Placement, n: int)
    requires ValidPlacement(img, p, n)
    ensures BlockPlaced(img, p, n)
  {
    hide RamSize;
  }

  /** Both run-time addresses of a link address, before and after the move. */
  method BothRuntimes(mod: Module, mem: array<Word>, tab: seq<Section>, moves: seq<SectionMove>, oldRam: int, va: Word,
                      ghost img: Image, ghost from: Placement, ghost to: Placement)
    returns (was: Option<Word>, becomes: Option<Word>)
    requires Rebasing(mod, mem[..], img, from, to) && tab == img.tab && oldRam == from.ram
    requires to == MoveTarget(from, to.ram, moves) && forall j :: 0 <= j < |moves| ==> moves[j].idx >= 3
    ensures was == Runtime(img, from, va) && becomes == Runtime(img, to, va)
  {
    hide RamSize, MainOffset, Sorted, MetaApart, Described, WellFormed, Base, Find;
    BlockIsPlaced(img, to, mem.Length);
    WellFormedSorted(img);
    hide ValidPlacement;
    var si := FindByVa(tab, va);
    if si < 0 {
      return None, None;
    }
    var baseNew := SectBaseNew(mod, mem, tab, moves, si, img, from, to);
    var baseOld := SectBaseOld(mod, mem, tab, oldRam, si, img, from, to);
    return Some(Wrap(baseOld + (va - tab[si].va))), Some(Wrap(baseNew + (va - tab[si].va)));
  }

  /** rebase_sections_pointers, one entry whose word is found. */
  method RebaseSectionWord(mod: Module, mem: array<Word>, tab: seq<Section>, moves: seq<SectionMove>, oldRam: int,
                           at: nat, i: nat, ghost img: Image, ghost from: Placement, ghost to: Placement)
    requires Rebasing(mod, mem[..], img, from, to) && tab == img.tab && oldRam == from.ram && i < |img.rels|
    requires to == MoveTarget(from, to.ram, moves) && forall j :: 0 <= j < |moves| ==> moves[j].idx >= 3
    requires at < mem.Length
    modifies mem
    ensures mem[..] == old(mem[..])[at := MoveWord(img, from, to, img.rels[i], old(mem[at]))]
  {
    hide RamSize, MainOffset, MetaApart, BasesIn, WellFormed, Base, ImageAt, SymtWords, HeaderAt, RelAt, Runtime, SymAt;
    BlockIsPlaced(img, to, mem.Length);
    MetaDecodes(img, mem[..], mod.header);
    hide ValidPlacement, Described;
    var hdr := HeaderAt(mem[..], mod.header / 4);
    var rel := RelAt(mem[..], mod.header / 4, hdr, i);
    assert rel == img.rels[i];
    if InPlace(rel) {
      if rel.lotOffset < hdr.numLot {
        return;
      }
      var si := FindByRuntime(mod, mem, tab, oldRam, mem[at], img, from, to);
      if si < 0 {
        return;
      }
      var baseNew := SectBaseNew(mod, mem, tab, moves, si, img, from, to);
      var baseOld := SectBaseOld(mod, mem, tab, oldRam, si, img, from, to);
      mem[at] := Wrap(mem[at] + baseNew - baseOld);
      return;
    }
    var sym := SymAt(SymtWords(mem[..], mod.header / 4, hdr), hdr.symtSize, rel.value);
    if sym.None? {
      return;
    }
    var was, becomes := BothRuntimes(mod, mem, tab, moves, oldRam, sym.value.val, img, from, to);
    if becomes.None? {
      return;
    }
    if sym.value.kind == INTERNAL || sym.value.kind == EXPORTED {
      mem[at] := becomes.value;
    } else if sym.value.kind == WEAK {
      if Some(mem[at]) == was {
        mem[at] := becomes.value;
      }
    }
  }

  /** udynlink.c rebase_sections_pointers. */
  method RebaseSectionsPointers(mod: Module, mem: array<Word>, tab: seq<Section>, moves: seq<SectionMove>, oldRam: int,
                                ghost img: Image, ghost from: Placement, ghost to: Placement)
    requires Rebasing(mod, mem[..], img, from, to) && tab == img.tab && oldRam == from.ram
    requires to == MoveTarget(from, to.ram, moves) && forall j :: 0 <= j < |moves| ==> moves[j].idx >= 3
    modifies mem
    ensures (Ok, mem[..]) == Walk(img, Moving(to, from), old(mem[..]), 0)
    ensures Untouched(img, to, old(mem[..]), mem[..])
  {
    hide ImageAt, Patchable, MetaApart, Stop, Patched, HeaderAt, Get, TargetAddr, MoveWord, Effect, MoveTarget;
    ghost var m := mem[..];
    ghost var pass := Moving(to, from);
    RebasingCount(mod, img, from, to, m);
    var hdr := HeaderAt(mem[..], mod.header / 4);
    hide Rebasing;
    var i := 0;
    while i < hdr.numRels
      invariant 0 <= i <= |img.rels| && Untouched(img, to, m, mem[..])
      invariant Walk(img, pass, mem[..], i) == Walk(img, pass, m, 0)
    {
      ghost var before := mem[..];
      RebasingStays(mod, img, from, to, m, before);
      RebasingPatch(mod, img, from, to, m, before, i);
      var target := MovedTarget(mod, mem, tab, moves, i, img, from, to);
      if target.Some? {
        MoveStep(img, pass, before, i, target.value);
        RebaseSectionWord(mod, mem, tab, moves, oldRam, target.value / 4, i, img, from, to);
      } else {
        SkipStep(img, pass, before, i);
      }
      i := i + 1;
    }
  }

  lemma RebasingCount(mod: Module, img: Image, from: Placement, to: Placement, m: seq<Word>)
    requires Rebasing(mod, m, img, from, to)
    ensures mod.header >= 0 && HeaderAt(m, mod.header / 4).numRels == |img.rels|
  {
    hide ImageAt, HeaderAt, ValidPlacement, WellFormed, MetaApart, BasesIn;
    MetaDecodes(img, m, mod.header);
  }

  lemma RebasingPatch(mod: Module, img: Image, from: Placement, to: Placement, m: seq<Word>, m': seq<Word>, i: nat)
    requires Rebasing(mod, m, img, from, to) && Untouched(img, to, m, m') && i < |img.rels|
    ensures Untouched(img, to, m, Patched(img, Moving(to, from), m', i))
  {
    hide Patched, Untouched, ValidPlacement, WellFormed, Described, MetaApart;
    PatchTouchesTargets(img, Moving(to, from), m, m', i);
  }

  lemma SkipStep(img: Image, pass: Pass, m: seq<Word>, i: nat)
    requires !pass.Loading? && i < |img.rels| && TargetAddr(img, pass.at, i).None?
    ensures Stop(img, pass, m, i) == Ok && Patched(img, pass, m, i) == m
  {
    hide TargetAddr, Effect;
  }

  // ----- linking -----

  /** udynlink.c apply_extern_relocations_impl. */
  method ApplyExternRelocations(mod: Module, mem: array<Word>, tab: seq<Section>, resolve: Resolver, incremental: bool,
                                ghost img: Image, ghost p: Placement)
    requires WellFormed(img) && ValidPlacement(img, p, mem.Length) && Attached(mod, mem[..], img, p) && tab == img.tab
    modifies mem
    ensures (Ok, mem[..]) == Walk(img, Linking(p, resolve, incremental), old(mem[..]), 0)
    ensures Untouched(img, p, old(mem[..]), mem[..])
  {
    hide ImageAt, WellFormed, ValidPlacement, MetaIn, Stop, Patched, Described, MetaApart, Patchable, HeaderAt, Get, RelAt, SymAt, SymtWords, TargetAddr, Effect;
    ghost var m := mem[..];
    ghost var pass := Linking(p, resolve, incremental);
    AttachedMeta(mod, img, p, m);
    MetaInDecodes(img, p, m, mod.header);
    var hdr := HeaderAt(mem[..], mod.header / 4);
    var i := 0;
    while i < hdr.numRels
      invariant 0 <= i <= |img.rels| && Untouched(img, p, m, mem[..])
      invariant Walk(img, pass, mem[..], i) == Walk(img, pass, m, 0)
    {
      ghost var before := mem[..];
      AttachedStays(mod, img, p, m, before);
      AttachedDecodes(mod, img, p, before);
      PatchTouchesTargets(img, pass, m, before, i);
      var rel := RelAt(mem[..], mod.header / 4, hdr, i);
      assert rel == img.rels[i];
      var sym := SymAt(SymtWords(mem[..], mod.header / 4, hdr), hdr.symtSize, rel.value);
      var target := GetRelocTarget(mod, mem, tab, i, img, p);
      LinkStep(img, pass, before, i);
      if InPlace(rel) || sym.None? || sym.value.kind != EXTERN || target.None? {
      } else {
        var at := target.value / 4;
        if incremental && mem[at] != 0 {
        } else {
          var host := resolve(sym.value.name);
          mem[at] := if host == DEFERRED then 0 else host;
        }
      }
      assert mem[..] == Patched(img, pass, before, i);
      i := i + 1;
    }
  }

  lemma AttachedDecodes(mod: Module, img: Image, p: Placement, m: seq<Word>)
    requires Attached(mod, m, img, p)
    ensures mod.header >= 0 && HeaderAt(m, mod.header / 4) == img.hdr && SymtWords(m, mod.header / 4, img.hdr) == img.symt
    ensures forall i :: 0 <= i < |img.rels| ==> RelAt(m, mod.header / 4, img.hdr, i) == img.rels[i]
  {
    hide ImageAt, HeaderAt, MetaApart, BasesIn, SymtWords, RelAt;
    MetaDecodes(img, m, mod.header);
  }

  lemma LinkStep(img: Image, pass: Pass, m: seq<Word>, i: nat)
    requires pass.Linking? && i < |img.rels|
    ensures Stop(img, pass, m, i) == Ok
    ensures TargetAddr(img, pass.at, i).None? ==> Patched(img, pass, m, i) == m
    ensures TargetAddr(img, pass.at, i).Some? && 0 <= TargetAddr(img, pass.at, i).value / 4 < |m| ==>
      var at := TargetAddr(img, pass.at, i).value / 4;
      Patched(img, pass, m, i) == m[at := LinkWord(img, pass.resolve, pass.incremental, img.rels[i], m[at])]
  {
    hide LinkWord, TargetAddr;
  }
}
