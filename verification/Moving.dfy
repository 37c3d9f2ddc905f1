// Moving a loaded module: the rebase walk undoes nothing and forgets nothing, so a moved module is
// what loading at the new place gives, however often it is moved.

module Moving {
  import opened Words
  import opened Image
  import opened Layout
  import opened Placement
  import opened Relocation
  import opened Loaded
  import opened Renaming

  /** The move's copies: every word of the module at `from` in m is at `to` in m'. */
  ghost predicate Copied(img: Image, from: Placement, m: seq<Word>, to: Placement, m': seq<Word>) {
    forall loc :: IsCell(img, to.mode, loc) ==> Get(m', Slot(to, loc)) == Get(m, Slot(from, loc))
  }

  ghost predicate SameCells(img: Image, p: Placement, m: seq<Word>, m': seq<Word>) {
    Copied(img, p, m, p, m')
  }

  /** The relocated words of m hold what a load at p writes over the link-time words of c. */
  ghost predicate TargetsHold(img: Image, p: Placement, resolve: Resolver, c: Contents, m: seq<Word>) {
    forall i :: 0 <= i < |img.rels| ==> TargetHolds(img, p, resolve, c, m, i)
  }

  /** Entry i's word moves as it should. */
  predicate MovableEntry(img: Image, from: Placement, to: Placement, resolve: Resolver, c: Contents, i: nat)
    requires i < |img.rels|
  {
    RelLoc(img, from.mode, i).Some? ==>
      MovableWord(img, from, to, resolve, img.rels[i], Cell(c, RelLoc(img, from.mode, i).value))
  }

  predicate Movable(img: Image, from: Placement, to: Placement, resolve: Resolver, c: Contents) {
    forall i :: 0 <= i < |img.rels| ==> MovableEntry(img, from, to, resolve, c, i)
  }

  /** The word at loc moves as it should: no entry targets it, or one whose word does. */
  predicate MovableAt(img: Image, from: Placement, to: Placement, resolve: Resolver, c: Contents, loc: Loc) {
    forall i :: 0 <= i < |img.rels| && RelLoc(img, from.mode, i) == Some(loc) ==> MovableEntry(img, from, to, resolve, c, i)
  }

  /** No word that is neither the placement's nor patched there has changed. */
  ghost predicate ElsewhereKept(img: Image, p: Placement, m: seq<Word>, m': seq<Word>) {
    |m'| == |m| && forall a :: a % 4 == 0 && Outside(img, p, a) ==> Get(m', a) == Get(m, a)
  }

  /** One move: copies, the rebase walk, and the new bases published behind the LOT; nothing else is written. */
  ghost predicate MovedTo(img: Image, from: Placement, m: seq<Word>, to: Placement, m': seq<Word>) {
    && from.mode == to.mode && ValidPlacement(img, from, |m|) && ValidPlacement(img, to, |m'|)
    && BasesIn(img, to, m') && ElsewhereKept(img, to, m, m')
    && exists copy :: |copy| == |m'| && Copied(img, from, m, to, copy)
         && SameCells(img, to, Walk(img, Moving(to, from), copy, 0).1, m')
  }

  lemma MoveWalkSucceeds(img: Image, from: Placement, to: Placement, m: seq<Word>)
    requires WellFormed(img) && ValidPlacement(img, to, |m|)
    ensures Walk(img, Moving(to, from), m, 0).0 == Ok
  {
    WellFormedSeparate(img, to, |m|);
    hide Walk, WellFormed, ValidPlacement, MoveWord;
    WalkSucceeds(img, Moving(to, from), m, 0);
  }

  /** A move leaves every word that is no target as it was. */
  lemma MoveKeepsWord(img: Image, from: Placement, m: seq<Word>, to: Placement, m': seq<Word>, loc: Loc)
    requires WellFormed(img) && MovedTo(img, from, m, to, m')
    requires IsCell(img, to.mode, loc) && !IsTarget(img, to.mode, loc)
    ensures Get(m', Slot(to, loc)) == Get(m, Slot(from, loc))
  {
    hide Walk, WellFormed, ValidPlacement, Get, Slot;
    var copy :| |copy| == |m'| && Copied(img, from, m, to, copy)
             && SameCells(img, to, Walk(img, Moving(to, from), copy, 0).1, m');
    WalkKeepsRest(img, Moving(to, from), copy, loc);
  }

  /** Rebasing re-derives a relocated word for the new place iff the word moves as it should. */
  lemma MoveKeepsTarget(img: Image, from: Placement, m: seq<Word>, to: Placement, m': seq<Word>,
                        resolve: Resolver, c: Contents, i: nat)
    requires WellFormed(img) && MovedTo(img, from, m, to, m') && i < |img.rels|
    requires TargetHolds(img, from, resolve, c, m, i)
    ensures TargetHolds(img, to, resolve, c, m', i) <==> MovableEntry(img, from, to, resolve, c, i)
    ensures !LoadWord(img, to, resolve, img.rels[i], Cell(c, RelLoc(img, to.mode, i).value)).Fail?
  {
    var copy :| |copy| == |m'| && Copied(img, from, m, to, copy)
             && SameCells(img, to, Walk(img, Moving(to, from), copy, 0).1, m');
    hide Shaped;
    WellFormedSeparate(img, to, |m'|);
    MoveWalkSucceeds(img, from, to, copy);
    hide Walk, WellFormed, ValidPlacement, Get, Slot, RelLoc, LoadWord, MoveWord, MovableWord, Separate, BasesIn;
    var loc := RelLoc(img, from.mode, i).value;
    MoveIsReload(img, from, to, resolve, img.rels[i], Cell(c, loc));
    TargetIsCell(img, to, |m'|, i);
    WalkAt(img, Moving(to, from), copy, 0, i);
  }

  lemma MoveKeepsTargets(img: Image, from: Placement, m: seq<Word>, to: Placement, m': seq<Word>,
                         resolve: Resolver, c: Contents)
    requires WellFormed(img) && MovedTo(img, from, m, to, m') && TargetsHold(img, from, resolve, c, m)
    ensures TargetsHold(img, to, resolve, c, m') <==> Movable(img, from, to, resolve, c)
  {
    hide WellFormed, MovedTo, TargetHolds, MovableEntry;
    forall i | 0 <= i < |img.rels|
      ensures TargetHolds(img, to, resolve, c, m', i) <==> MovableEntry(img, from, to, resolve, c, i)
    {
      assert TargetHolds(img, from, resolve, c, m, i);
      MoveKeepsTarget(img, from, m, to, m', resolve, c, i);
    }
  }

  /** A moved module is a loaded module at the new place, with the same contents, iff its words move as they
      should. */
  lemma MovePreserves(img: Image, from: Placement, m: seq<Word>, to: Placement, m': seq<Word>,
                      resolve: Resolver, c: Contents)
    requires WellFormed(img) && MovedTo(img, from, m, to, m') && Represents(img, from, resolve, c, m)
    ensures Represents(img, to, resolve, c, m') <==> Movable(img, from, to, resolve, c)
  {
    hide Walk, WellFormed, ValidPlacement, Get, Slot, RelLoc, LoadWord, BasesIn, IsCell, Movable, TargetHolds;
    MoveKeepsTargets(img, from, m, to, m', resolve, c);
    forall loc | IsCell(img, to.mode, loc) && !IsTarget(img, to.mode, loc)
      ensures Get(m', Slot(to, loc)) == Cell(c, loc)
    {
      MoveKeepsWord(img, from, m, to, m', loc);
    }
  }

  /** Moving commutes with loading. A module with contents c is loaded at `from` and moved to `to`;
      a fresh load at `to` has contents c'. Where the contents agree the words agree exactly if the word
      moves as it should - every word that was not relocated does - and the base arrays agree. */
  lemma MoveCommutesWithLoad(img: Image, from: Placement, to: Placement, resolve: Resolver,
                             c: Contents, loaded: seq<Word>, moved: seq<Word>, c': Contents, anew: seq<Word>)
    requires WellFormed(img) && Represents(img, from, resolve, c, loaded)
    requires MovedTo(img, from, loaded, to, moved)
    requires Represents(img, to, resolve, c', anew)
    ensures forall loc :: IsCell(img, to.mode, loc) && Cell(c, loc) == Cell(c', loc) ==>
      (Get(moved, Slot(to, loc)) == Get(anew, Slot(to, loc)) <==> MovableAt(img, from, to, resolve, c, loc))
    ensures forall k :: 3 <= k < |img.tab| ==> Get(moved, BaseSlot(img, to, k)) == Get(anew, BaseSlot(img, to, k))
  {
    hide Get, Slot, IsCell, Cell, WellFormed, Rendered, MovableAt, BaseSlot, TaggedBase, ValidPlacement, SameCells, Copied, Walk;
    forall loc | IsCell(img, to.mode, loc) && Cell(c, loc) == Cell(c', loc)
      ensures Get(moved, Slot(to, loc)) == Get(anew, Slot(to, loc)) <==> MovableAt(img, from, to, resolve, c, loc)
    {
      MovedWord(img, from, to, resolve, c, loaded, moved, c', anew, loc);
    }
  }

  lemma MovedWord(img: Image, from: Placement, to: Placement, resolve: Resolver,
                  c: Contents, loaded: seq<Word>, moved: seq<Word>, c': Contents, anew: seq<Word>, loc: Loc)
    requires WellFormed(img) && Represents(img, from, resolve, c, loaded) && MovedTo(img, from, loaded, to, moved)
    requires Represents(img, to, resolve, c', anew) && IsCell(img, to.mode, loc) && Cell(c, loc) == Cell(c', loc)
    ensures Get(moved, Slot(to, loc)) == Get(anew, Slot(to, loc)) <==> MovableAt(img, from, to, resolve, c, loc)
  {
    hide Get, Slot, IsCell, Cell, WellFormed, MovedTo, BasesIn, LoadWord, RelLoc, MovableEntry, MovableAt;
    SameModes(img, from, loaded, to, moved);
    if IsTarget(img, to.mode, loc) {
      var i: nat :| i < |img.rels| && RelLoc(img, to.mode, i) == Some(loc);
      assert TargetHolds(img, from, resolve, c, loaded, i) && TargetHolds(img, to, resolve, c', anew, i);
      MoveKeepsTarget(img, from, loaded, to, moved, resolve, c, i);
      OneMovable(img, from, to, resolve, c, loc, i);
    } else {
      MoveKeepsWord(img, from, loaded, to, moved, loc);
      NoneMovable(img, from, to, resolve, c, loc);
    }
  }

  lemma SameModes(img: Image, from: Placement, m: seq<Word>, to: Placement, m': seq<Word>)
    requires MovedTo(img, from, m, to, m')
    ensures from.mode == to.mode
  {
    hide ValidPlacement, BasesIn, Copied, SameCells, Walk;
  }

  lemma OneMovable(img: Image, from: Placement, to: Placement, resolve: Resolver, c: Contents, loc: Loc, i: nat)
    requires WellFormed(img) && i < |img.rels| && RelLoc(img, from.mode, i) == Some(loc)
    ensures MovableAt(img, from, to, resolve, c, loc) <==> MovableEntry(img, from, to, resolve, c, i)
  {
    hide WellFormed, RelLoc, MovableEntry;
    forall l: nat | l < |img.rels| && RelLoc(img, from.mode, l) == Some(loc)
      ensures l == i
    {
      OneTarget(img, from.mode, i, l);
    }
  }

  lemma NoneMovable(img: Image, from: Placement, to: Placement, resolve: Resolver, c: Contents, loc: Loc)
    requires !IsTarget(img, from.mode, loc)
    ensures MovableAt(img, from, to, resolve, c, loc)
  {
    hide RelLoc, MovableEntry;
  }

  lemma OneTarget(img: Image, mode: Mode, i: nat, l: nat)
    requires WellFormed(img) && i < |img.rels| && l < |img.rels| && RelLoc(img, mode, i).Some?
    requires RelLoc(img, mode, i) == RelLoc(img, mode, l)
    ensures i == l
  {
    hide WellFormed, RelLoc;
    if i != l { TargetsDistinct(img, mode, i, l); }
  }

  /** Between moves the module may write any word that was not relocated. */
  ghost predicate Ran(img: Image, p: Placement, m: seq<Word>, m': seq<Word>) {
    && |m'| == |m|
    && (forall i :: 0 <= i < |img.rels| && RelLoc(img, p.mode, i).Some? ==>
          Get(m', Slot(p, RelLoc(img, p.mode, i).value)) == Get(m, Slot(p, RelLoc(img, p.mode, i).value)))
  }

  lemma RunKeepsTargets(img: Image, p: Placement, resolve: Resolver, c: Contents, m: seq<Word>, m': seq<Word>)
    requires TargetsHold(img, p, resolve, c, m) && Ran(img, p, m, m')
    ensures TargetsHold(img, p, resolve, c, m')
  {
    hide Get, Slot, RelLoc, LoadWord;
    forall i: nat | i < |img.rels|
      ensures TargetHolds(img, p, resolve, c, m', i)
    {
      assert TargetHolds(img, p, resolve, c, m, i);
    }
  }

  /** One move, after the module has run. */
  lemma MoveStep(img: Image, resolve: Resolver, c: Contents, from: Placement, there: seq<Word>, left: seq<Word>, to: Placement, next: seq<Word>)
    requires WellFormed(img) && TargetsHold(img, from, resolve, c, there) && Ran(img, from, there, left)
    requires MovedTo(img, from, left, to, next) && Movable(img, from, to, resolve, c)
    ensures TargetsHold(img, to, resolve, c, next) && from.mode == to.mode
    ensures forall loc :: IsCell(img, to.mode, loc) && !IsTarget(img, to.mode, loc) ==> Get(next, Slot(to, loc)) == Get(left, Slot(from, loc))
  {
    hide WellFormed, TargetsHold, Ran, MovedTo, Movable, IsCell, IsTarget, Get, Slot;
    SameModes(img, from, left, to, next);
    RunKeepsTargets(img, from, resolve, c, there, left);
    MoveKeepsTargets(img, from, left, to, next, resolve, c);
    forall loc | IsCell(img, to.mode, loc) && !IsTarget(img, to.mode, loc)
      ensures Get(next, Slot(to, loc)) == Get(left, Slot(from, loc))
    {
      MoveKeepsWord(img, from, left, to, next, loc);
    }
  }

  /** Any chain of moves: placed[j] is where the module is after j moves, there[j] memory on arrival,
      left[j] memory when it leaves again. Every relocated word ends as loading once at the last
      place writes it; every other word is what the module last left in it. */
  lemma {:induction false} MoveChain(img: Image, resolve: Resolver, c: Contents,
                                     placed: seq<Placement>, there: seq<seq<Word>>, left: seq<seq<Word>>)
    requires WellFormed(img) && |placed| == |there| == |left| + 1
    requires TargetsHold(img, placed[0], resolve, c, there[0])
    requires forall j :: 0 <= j < |left| ==> Ran(img, placed[j], there[j], left[j])
    requires forall j :: 0 <= j < |left| ==> MovedTo(img, placed[j], left[j], placed[j + 1], there[j + 1])
    requires forall j :: 0 <= j < |left| ==> Movable(img, placed[j], placed[j + 1], resolve, c)
    ensures TargetsHold(img, placed[|left|], resolve, c, there[|left|])
    ensures |left| > 0 ==> forall loc :: IsCell(img, placed[0].mode, loc) && !IsTarget(img, placed[0].mode, loc) ==>
      Get(there[|left|], Slot(placed[|left|], loc)) == Get(left[|left| - 1], Slot(placed[|left| - 1], loc))
    ensures placed[|left|].mode == placed[0].mode
    decreases |left|
  {
    hide WellFormed, TargetsHold, Ran, MovedTo, Movable, IsCell, IsTarget, Get, Slot;
    var n := |left|;
    if n == 0 {
    } else {
      MoveChain(img, resolve, c, placed[..n], there[..n], left[..n - 1]);
      MoveStep(img, resolve, c, placed[n - 1], there[n - 1], left[n - 1], placed[n], there[n]);
    }
  }
}
