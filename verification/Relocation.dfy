// The three walks over a relocation table - at load, after a move, and when externs are linked -
// as one function over memory, and what such a walk leaves behind.

module Relocation {
  import opened Words
  import opened Image
  import opened Sections
  import opened Placement

  type Name = seq<Byte>

  /** The host's symbol resolver: 0 for unresolved, 1 for deferred, an address otherwise. */
  type Resolver = Name -> Word
  const DEFERRED: Word := 1

  datatype Error =
    Ok | InvalidSign | RamLenLow | OutOfMemory | BadRelocationTable | UnknownSymbol
    | VersionMismatch | InvalidModule | RamUnaligned | SectionUnresolved | SectionUnaligned | BadSectionTable

  datatype Outcome = Fail(error: Error) | Keep | Write(w: Word)

  datatype Pass =
    | Loading(at: Placement, resolve: Resolver)
    | Moving(at: Placement, from: Placement)
    | Linking(at: Placement, resolve: Resolver, incremental: bool)

  predicate DataForm(rel: Rel) { rel.value >= 0x8000_0000 }
  predicate CodeForm(rel: Rel) { !DataForm(rel) && rel.value >= 0x4000_0000 }
  predicate InPlace(rel: Rel) { DataForm(rel) || CodeForm(rel) }

  /** The module's own address of a symbol (offset_sym), if it has one. */
  function Default(img: Image, p: Placement, sym: Symbol): Option<Word> {
    if img.tab != [] then Runtime(img, p, sym.val)
    else Some(Wrap(sym.val + (if sym.inCode then CodeBase(img, p) else DataBase(img, p))))
  }

  /** The word an in-place relocation puts over the link-time word w. */
  function InPlaceWord(img: Image, p: Placement, rel: Rel, w: Word): Option<Word> {
    if img.tab != [] then Runtime(img, p, w)
    else if DataForm(rel) then Some(Wrap(w + DataBase(img, p) - rel.value % 0x8000_0000))
    else Some(Wrap(w + CodeBase(img, p)))
  }

  function WriteOr(value: Option<Word>, error: Error): Outcome {
    if value.Some? then Write(value.value) else Fail(error)
  }

  /** The symbol forms, by the symbol's type. */
  function SymbolOutcome(img: Image, p: Placement, resolve: Resolver, sym: Symbol): Outcome {
    if sym.kind == INTERNAL || sym.kind == EXPORTED then WriteOr(Default(img, p, sym), BadRelocationTable)
    else if sym.kind == WEAK then
      if Default(img, p, sym).Some? && resolve(sym.name) > DEFERRED then Write(resolve(sym.name))
      else WriteOr(Default(img, p, sym), BadRelocationTable)
    else if sym.kind == EXTERN then
      if resolve(sym.name) == 0 then Fail(UnknownSymbol)
      else Write(if resolve(sym.name) == DEFERRED then 0 else resolve(sym.name))
    else if sym.kind == MODULE_NAME then Fail(BadRelocationTable)
    else Keep
  }

  /** udynlink_load_apply_relocations, one entry: what happens to a target word holding w. */
  function LoadWord(img: Image, p: Placement, resolve: Resolver, rel: Rel, w: Word): Outcome {
    if InPlace(rel) then
      if rel.lotOffset < img.hdr.numLot then Fail(BadRelocationTable)
      else WriteOr(InPlaceWord(img, p, rel, w), BadRelocationTable)
    else
      match ImageSym(img, rel.value)
      case None => Fail(BadRelocationTable)
      case Some(sym) => SymbolOutcome(img, p, resolve, sym)
  }

  /** sect_find_by_runtime: the section whose pre-move bytes hold the address, from index i. */
  function FindRuntimeFrom(img: Image, p: Placement, addr: int, i: int): (r: int)
    ensures r == -1 || i <= r < |img.tab|
    decreases |img.tab| - i
  {
    if i >= |img.tab| then -1
    else if Base(img, p, i) <= addr < Base(img, p, i) + Sec(img.tab, i).size then i
    else FindRuntimeFrom(img, p, addr, i + 1)
  }

  /** rebase_module_pointers and rebase_sections_pointers, one entry: the word that replaces w. */
  function MoveWord(img: Image, from: Placement, to: Placement, rel: Rel, w: Word): Word {
    if img.tab != [] then
      if InPlace(rel) then
        var k := FindRuntimeFrom(img, from, w, 0);
        if rel.lotOffset < img.hdr.numLot || k < 0 then w
        else Wrap(w + Base(img, to, k) - Base(img, from, k))
      else
        match ImageSym(img, rel.value)
        case None => w
        case Some(sym) => MoveSymbol(Runtime(img, from, sym.val), Runtime(img, to, sym.val), sym.kind, w)
    else if DataForm(rel) then Wrap(w + DataBase(img, to) - DataBase(img, from))
    else if CodeForm(rel) then Wrap(w + CodeBase(img, to) - CodeBase(img, from))
    else
      match ImageSym(img, rel.value)
      case None => w
      case Some(sym) =>
        var delta := if sym.inCode then CodeBase(img, to) - CodeBase(img, from)
                     else DataBase(img, to) - DataBase(img, from);
        if sym.kind == INTERNAL || sym.kind == EXPORTED then Wrap(w + delta)
        else if sym.kind == WEAK && Some(w) == Default(img, from, sym) then Wrap(w + delta)
        else w
  }

  function MoveSymbol(was: Option<Word>, becomes: Option<Word>, kind: int, w: Word): Word {
    if becomes.None? then w
    else if kind == INTERNAL || kind == EXPORTED then becomes.value
    else if kind == WEAK && Some(w) == was then becomes.value
    else w
  }

  /** apply_extern_relocations_impl, one entry: deferred and unresolved externs both become 0. */
  function LinkWord(img: Image, resolve: Resolver, incremental: bool, rel: Rel, w: Word): Word {
    if InPlace(rel) then w
    else
      match ImageSym(img, rel.value)
      case None => w
      case Some(sym) =>
        if sym.kind != EXTERN || (incremental && w != 0) then w
        else if resolve(sym.name) == DEFERRED then 0 else resolve(sym.name)
  }

  function Effect(img: Image, pass: Pass, rel: Rel, w: Word): Outcome {
    match pass
    case Loading(at, resolve) => LoadWord(img, at, resolve, rel, w)
    case Moving(at, from) => Write(MoveWord(img, from, at, rel, w))
    case Linking(_, resolve, incremental) => Write(LinkWord(img, resolve, incremental, rel, w))
  }

  // ----- memory -----

  function Get(m: seq<Word>, addr: int): Word {
    At(m, addr / 4)
  }

  function Put(m: seq<Word>, addr: int, w: Word): (m': seq<Word>)
    ensures |m'| == |m|
  {
    if 0 <= addr / 4 < |m| then m[addr / 4 := w] else m
  }

  function Apply(out: Outcome, w: Word): Word {
    if out.Write? then out.w else w
  }

  // ----- the walk -----

  function TargetAddr(img: Image, p: Placement, i: nat): Option<int>
    requires i < |img.rels|
  {
    match RelLoc(img, p.mode, i)
    case None => None
    case Some(loc) => Some(Slot(p, loc))
  }

  /** Ok, or why the walk stops at entry i. */
  function Stop(img: Image, pass: Pass, m: seq<Word>, i: nat): Error
    requires i < |img.rels|
  {
    match TargetAddr(img, pass.at, i)
    case None => if pass.Loading? then BadRelocationTable else Ok
    case Some(addr) =>
      var out := Effect(img, pass, img.rels[i], Get(m, addr));
      if out.Fail? then out.error else Ok
  }

  /** Memory after entry i. */
  function Patched(img: Image, pass: Pass, m: seq<Word>, i: nat): (m': seq<Word>)
    requires i < |img.rels|
    ensures |m'| == |m|
  {
    match TargetAddr(img, pass.at, i)
    case None => m
    case Some(addr) => Put(m, addr, Apply(Effect(img, pass, img.rels[i], Get(m, addr)), Get(m, addr)))
  }

  /** Entries i.. of the table, first to last; a failing entry ends the walk with its error. */
  function Walk(img: Image, pass: Pass, m: seq<Word>, i: nat): (r: (Error, seq<Word>))
    requires i <= |img.rels|
    ensures |r.1| == |m|
    decreases |img.rels| - i
  {
    if i == |img.rels| then (Ok, m)
    else if Stop(img, pass, m, i) != Ok then (Stop(img, pass, m, i), m)
    else Walk(img, pass, Patched(img, pass, m, i), i + 1)
  }

  /** The target of entry j is the word at address `addr`. */
  predicate Hits(img: Image, p: Placement, j: int, addr: int) {
    0 <= j < |img.rels| && TargetAddr(img, p, j).Some? && TargetAddr(img, p, j).value / 4 == addr / 4
  }

  lemma PatchedElsewhere(img: Image, pass: Pass, m: seq<Word>, i: nat, addr: int)
    requires i < |img.rels| && !Hits(img, pass.at, i, addr)
    ensures Get(Patched(img, pass, m, i), addr) == Get(m, addr)
  {
    hide Effect, TargetAddr;
  }

  /** Only target words change. */
  lemma {:induction false} WalkFrame(img: Image, pass: Pass, m: seq<Word>, i: nat, addr: int)
    requires i <= |img.rels|
    requires forall j :: i <= j < |img.rels| ==> !Hits(img, pass.at, j, addr)
    ensures Get(Walk(img, pass, m, i).1, addr) == Get(m, addr)
    decreases |img.rels| - i
  {
    hide Stop, Patched, Get;
    if i == |img.rels| || Stop(img, pass, m, i) != Ok {
    } else {
      PatchedElsewhere(img, pass, m, i, addr);
      WalkFrame(img, pass, Patched(img, pass, m, i), i + 1, addr);
    }
  }

  /** No two entries patch the same word, and every target is in memory. */
  ghost predicate Separate(img: Image, p: Placement, n: int) {
    && (forall j :: 0 <= j < |img.rels| && TargetAddr(img, p, j).Some? ==>
          0 <= TargetAddr(img, p, j).value / 4 < n)
    && (forall i, j :: 0 <= i < |img.rels| && 0 <= j < |img.rels| && i != j && TargetAddr(img, p, i).Some?
          ==> !Hits(img, p, j, TargetAddr(img, p, i).value))
  }

  lemma WellFormedSeparate(img: Image, p: Placement, n: int)
    requires WellFormed(img) && ValidPlacement(img, p, n)
    ensures Separate(img, p, n)
  {
    forall j | 0 <= j < |img.rels| && TargetAddr(img, p, j).Some?
      ensures 0 <= TargetAddr(img, p, j).value / 4 < n
    {
      TargetInMemory(img, p, n, j);
    }
    forall i, j | 0 <= i < |img.rels| && 0 <= j < |img.rels| && i != j && TargetAddr(img, p, i).Some?
      ensures !Hits(img, p, j, TargetAddr(img, p, i).value)
    {
      if TargetAddr(img, p, j).Some? { TargetsApart(img, p, n, i, j); }
    }
  }

  lemma TargetInMemory(img: Image, p: Placement, n: int, i: nat)
    requires WellFormed(img) && ValidPlacement(img, p, n) && i < |img.rels| && TargetAddr(img, p, i).Some?
    ensures 0 <= TargetAddr(img, p, i).value / 4 < n
    ensures TargetAddr(img, p, i) == Some(Slot(p, RelLoc(img, p.mode, i).value))
    ensures InBounds(img, p.mode, RelLoc(img, p.mode, i).value) && !IsBaseSlot(img, RelLoc(img, p.mode, i).value)
  {
    assert Shaped(img);
    hide ValidPlacement, Shaped, WellFormed, RelLoc, Slot, InBounds, IsBaseSlot;
    TargetPlaced(img, p.mode, i);
    SlotInMemory(img, p, n, RelLoc(img, p.mode, i).value);
  }

  lemma TargetsApart(img: Image, p: Placement, n: int, i: nat, j: nat)
    requires WellFormed(img) && ValidPlacement(img, p, n) && i < |img.rels| && j < |img.rels| && i != j
    requires TargetAddr(img, p, i).Some? && TargetAddr(img, p, j).Some?
    ensures TargetAddr(img, p, i).value / 4 != TargetAddr(img, p, j).value / 4
  {
    assert Shaped(img);
    hide ValidPlacement, Shaped, WellFormed, RelLoc, Slot, InBounds, IsBaseSlot;
    TargetInMemory(img, p, n, i);
    TargetInMemory(img, p, n, j);
    TargetsDistinct(img, p.mode, i, j);
    if TargetAddr(img, p, i).value / 4 == TargetAddr(img, p, j).value / 4 {
      SlotInjective(img, p, n, RelLoc(img, p.mode, i).value, RelLoc(img, p.mode, j).value);
    }
  }

  lemma FailIsError(img: Image, pass: Pass, rel: Rel, w: Word)
    ensures Effect(img, pass, rel, w).Fail? ==> Effect(img, pass, rel, w).error != Ok
  {
    hide Default, InPlaceWord, ImageSym, MoveWord, LinkWord;
  }

  /** A walk that succeeds gives every target the effect of its one entry on the original word. */
  lemma {:induction false} WalkAt(img: Image, pass: Pass, m: seq<Word>, i: nat, j: nat)
    requires i <= j < |img.rels| && Separate(img, pass.at, |m|) && Walk(img, pass, m, i).0 == Ok
    ensures pass.Loading? ==> TargetAddr(img, pass.at, j).Some?
    ensures TargetAddr(img, pass.at, j).Some? ==>
      var addr := TargetAddr(img, pass.at, j).value;
      var out := Effect(img, pass, img.rels[j], Get(m, addr));
      !out.Fail? && Get(Walk(img, pass, m, i).1, addr) == Apply(out, Get(m, addr))
    decreases j - i
  {
    hide Effect, TargetAddr;
    var next := Patched(img, pass, m, i);
    if i < j {
      hide Patched, Stop, Get;
      if TargetAddr(img, pass.at, j).Some? {
        PatchedElsewhere(img, pass, m, i, TargetAddr(img, pass.at, j).value);
      }
      WalkAt(img, pass, next, i + 1, j);
    } else if TargetAddr(img, pass.at, j).Some? {
      var addr := TargetAddr(img, pass.at, j).value;
      FailIsError(img, pass, img.rels[j], Get(m, addr));
      WalkFrame(img, pass, next, i + 1, addr);
    }
  }

  /** Conversely, a load walk succeeds when every entry can be applied to its original word. */
  lemma {:induction false} WalkSucceeds(img: Image, pass: Pass, m: seq<Word>, i: nat)
    requires i <= |img.rels| && Separate(img, pass.at, |m|)
    requires forall j :: i <= j < |img.rels| ==> Stop(img, pass, m, j) == Ok
    ensures Walk(img, pass, m, i).0 == Ok
    decreases |img.rels| - i
  {
    if i == |img.rels| {
    } else {
      var next := Patched(img, pass, m, i);
      forall j | i + 1 <= j < |img.rels|
        ensures Stop(img, pass, next, j) == Ok
      {
        assert Stop(img, pass, m, j) == Ok;
        hide Effect, TargetAddr, Patched, Get;
        if TargetAddr(img, pass.at, j).Some? {
          PatchedElsewhere(img, pass, m, i, TargetAddr(img, pass.at, j).value);
        }
      }
      WalkSucceeds(img, pass, next, i + 1);
    }
  }

  /** A walk that stops does so at an entry that cannot be applied to its original word. */
  lemma {:induction false} WalkFailsAt(img: Image, pass: Pass, m: seq<Word>, i: nat) returns (j: nat)
    requires i <= |img.rels| && Separate(img, pass.at, |m|) && Walk(img, pass, m, i).0 != Ok
    ensures i <= j < |img.rels| && Stop(img, pass, m, j) == Walk(img, pass, m, i).0
    ensures forall k :: i <= k < j ==> Stop(img, pass, m, k) == Ok
    decreases |img.rels| - i
  {
    if Stop(img, pass, m, i) != Ok {
      j := i;
    } else {
      var next := Patched(img, pass, m, i);
      j := WalkFailsAt(img, pass, next, i + 1);
      hide Stop, Patched;
      forall k | i < k <= j
        ensures Stop(img, pass, m, k) == Stop(img, pass, next, k)
      {
        StopElsewhere(img, pass, m, i, k);
      }
    }
  }

  /** Whether an entry stops the walk does not depend on the others. */
  lemma StopElsewhere(img: Image, pass: Pass, m: seq<Word>, i: nat, k: nat)
    requires Separate(img, pass.at, |m|) && i < k < |img.rels|
    ensures Stop(img, pass, m, k) == Stop(img, pass, Patched(img, pass, m, i), k)
  {
    hide Effect, TargetAddr, Patched, Get;
    if TargetAddr(img, pass.at, k).Some? {
      PatchedElsewhere(img, pass, m, i, TargetAddr(img, pass.at, k).value);
    }
  }
}
