// Which heap blocks a module owns, and giving them back.

module Ownership {
  import opened Words
  import opened Strings
  import opened Image
  import opened Sections
  import opened Layout
  import opened Placement
  import opened Relocation
  import opened Handle
  import opened Memory

  function SectName(e: Section, pool: seq<Byte>): Option<Name> {
    if e.nameOff == 0 then None else Some(CStr(pool, e.nameOff))
  }

  function SectPurpose(e: Section, pool: seq<Byte>): Purpose {
    Purpose(SectName(e, pool), e.align, HostFlags(e))
  }

  function MainPurpose(align: int): Purpose {
    Purpose(None, align, 0)
  }

  /** The request for a main block and its answer. */
  function BlockAnswer(size: int, align: int, reply: int): Event {
    if reply == 0 then Refused(size, MainPurpose(align)) else Allocated(HeapBlock(reply, size, MainPurpose(align)))
  }

  /** `heap` and the blocks recorded for tagged sections 3 .. n + 2; a zero base is no block. */
  function WithTagged(heap: Heap, tab: seq<Section>, pool: seq<Byte>, bases: seq<int>, n: nat): Heap
    requires n <= |bases|
  {
    if n == 0 then heap
    else
      var rest := WithTagged(heap, tab, pool, bases, n - 1);
      if bases[n - 1] == 0 then rest
      else rest[bases[n - 1] := HeapBlock(bases[n - 1], Sec(tab, n + 2).size, SectPurpose(Sec(tab, n + 2), pool))]
  }

  /** `heap` and the module's own main block; a caller's block is not the loader's. */
  function WithMain(heap: Heap, ram: int, foreign: bool, size: int, align: int): Heap {
    if ram == 0 || foreign then heap else heap[ram := HeapBlock(ram, size, MainPurpose(align))]
  }

  predicate Distinct(heap: Heap, bases: seq<int>) {
    && (forall j :: 0 <= j < |bases| && bases[j] != 0 ==> bases[j] !in heap)
    && (forall i, j :: 0 <= i < j < |bases| && bases[i] != 0 ==> bases[i] != bases[j])
  }

  lemma {:induction false} TaggedKeys(heap: Heap, tab: seq<Section>, pool: seq<Byte>, bases: seq<int>, n: nat, a: int)
    requires n <= |bases|
    ensures a in WithTagged(heap, tab, pool, bases, n) <==> a in heap || (a != 0 && exists j :: 0 <= j < n && bases[j] == a)
    decreases n
  {
    if n == 0 {
    } else {
      TaggedKeys(heap, tab, pool, bases, n - 1, a);
      if a == bases[n - 1] && a != 0 { assert bases[n - 1] == a; }
    }
  }

  /** Recording one more base adds its block. */
  lemma {:induction false} RecordAdds(heap: Heap, tab: seq<Section>, pool: seq<Byte>, bases: seq<int>, n: nat, j: nat, base: int)
    requires j < n <= |bases| && bases[j] == 0 && base != 0
    requires forall i :: 0 <= i < n ==> bases[i] != base
    ensures WithTagged(heap, tab, pool, bases[j := base], n)
         == WithTagged(heap, tab, pool, bases, n)[base := HeapBlock(base, Sec(tab, j + 3).size, SectPurpose(Sec(tab, j + 3), pool))]
    decreases n
  {
    hide SectPurpose, Sec;
    if j < n - 1 {
      RecordAdds(heap, tab, pool, bases, n - 1, j, base);
    } else {
      SamePrefix(heap, tab, pool, bases, bases[j := base], n - 1);
    }
  }

  lemma {:induction false} SamePrefix(heap: Heap, tab: seq<Section>, pool: seq<Byte>, bases: seq<int>, bases': seq<int>, n: nat)
    requires n <= |bases| && n <= |bases'| && forall i :: 0 <= i < n ==> bases[i] == bases'[i]
    ensures WithTagged(heap, tab, pool, bases, n) == WithTagged(heap, tab, pool, bases', n)
    decreases n
  {
    hide SectPurpose, Sec;
    if n == 0 {
    } else {
      SamePrefix(heap, tab, pool, bases, bases', n - 1);
    }
  }

  /** Freeing a recorded base takes exactly its block away. */
  lemma {:induction false} ForgetRemoves(heap: Heap, tab: seq<Section>, pool: seq<Byte>, bases: seq<int>, n: nat, j: nat)
    requires j < n <= |bases| && bases[j] != 0 && Distinct(heap, bases)
    ensures bases[j] in WithTagged(heap, tab, pool, bases, n)
    ensures WithTagged(heap, tab, pool, bases, n)[bases[j]]
         == HeapBlock(bases[j], Sec(tab, j + 3).size, SectPurpose(Sec(tab, j + 3), pool))
    ensures WithTagged(heap, tab, pool, bases[j := 0], n) == WithTagged(heap, tab, pool, bases, n) - {bases[j]}
    decreases n
  {
    hide SectPurpose, Sec;
    if j < n - 1 {
      ForgetRemoves(heap, tab, pool, bases, n - 1, j);
    } else {
      SamePrefix(heap, tab, pool, bases, bases[j := 0], n - 1);
      TaggedKeys(heap, tab, pool, bases, n - 1, bases[j]);
    }
  }

  lemma {:induction false} NothingRecorded(heap: Heap, tab: seq<Section>, pool: seq<Byte>, bases: seq<int>, n: nat)
    requires n <= |bases| && forall j :: 0 <= j < n ==> bases[j] == 0
    ensures WithTagged(heap, tab, pool, bases, n) == heap
    decreases n
  {
    if n == 0 {
    } else {
      NothingRecorded(heap, tab, pool, bases, n - 1);
    }
  }

  /** Bases are recorded in table order, one for every non-empty section up to the first gap. */
  predicate RecordedRun(tab: seq<Section>, bases: seq<int>, upTo: int) {
    && |bases| == NumTagged(tab)
    && forall j :: 0 <= j < |bases| ==>
         (if Sec(tab, j + 3).size == 0 || j >= upTo then bases[j] == 0 else bases[j] != 0)
  }

  predicate BaseAt(m: seq<Word>, ram: int, numLot: int, bases: seq<int>, j: nat)
    requires j < |bases|
  {
    Get(m, ram + 4 * (numLot + j)) == bases[j] && 0 <= (ram + 4 * (numLot + j)) / 4 < |m|
  }

  /** Memory records `bases` behind the LOT. */
  predicate BaseArray(m: seq<Word>, ram: int, numLot: int, bases: seq<int>) {
    forall j :: 0 <= j < |bases| ==> BaseAt(m, ram, numLot, bases, j)
  }

  /** udynlink.c free_nonmain_sections: every recorded block goes back once, with its own arguments. */
  method FreeNonmainSections(mod: Module, mem: array<Word>, host: Host, tab: seq<Section>, pool: seq<Byte>, numLot: int,
                             ghost heap: Heap, ghost bases: seq<int>, ghost upTo: int)
    requires mod.ram != 0 ==> BaseArray(mem[..], mod.ram, numLot, bases) && mod.ram % 4 == 0 && numLot >= 0 && mod.ram > 0
    requires RecordedRun(tab, bases, upTo) && Distinct(heap, bases) && 0 !in heap
    requires mod.ram == 0 ==> forall j :: 0 <= j < |bases| ==> bases[j] == 0
    requires Outstanding(host.log) == Some(WithTagged(heap, tab, pool, bases, |bases|))
    modifies host`log
    ensures Outstanding(host.log) == Some(heap) && Asked(host.log) == Asked(old(host.log))
    ensures mod.ram == 0 ==> host.log == old(host.log)
  {
    hide SectPurpose, Sec, WithTagged, Asked, Outstanding;
    if mod.ram == 0 || |tab| <= 3 {
      NothingRecorded(heap, tab, pool, bases, |bases|);
      return;
    }
    ghost var left := bases;
    var k := 3;
    while k < |tab|
      invariant 3 <= k <= |tab| && |left| == |bases|
      invariant forall j :: 0 <= j < |bases| ==> left[j] == if j < k - 3 then 0 else bases[j]
      invariant Outstanding(host.log) == Some(WithTagged(heap, tab, pool, left, |left|))
      invariant Asked(host.log) == Asked(old(host.log))
    {
      ghost var j := k - 3;
      if Sec(tab, k).size != 0 {
        assert BaseAt(mem[..], mod.ram, numLot, bases, j);
        var base := mem[(mod.ram + numLot * 4 + (k - 3) * 4) / 4];
        if base == 0 {
          assert forall i :: j <= i < |bases| ==> bases[i] == 0;
          break;
        }
        OutstandingStep(host.log, Freed(base, SectPurpose(Sec(tab, k), pool)));
        ForgetRemoves(heap, tab, pool, left, |left|, j);
        host.Release(base, SectPurpose(Sec(tab, k), pool));
        left := left[j := 0];
      } else {
        assert bases[j] == 0;
      }
      k := k + 1;
    }
    NothingRecorded(heap, tab, pool, left, |left|);
  }

  /** The books at any moment of a load: beside `heap`, exactly the blocks that the handle and the base
      array record are outstanding. */
  ghost predicate Ledger(mod: Module, host: Host, m: seq<Word>, tab: seq<Section>, pool: seq<Byte>, numLot: int, align: int,
                         size: int, heap: Heap, bases: seq<int>, upTo: int)
    reads mod, host
  {
    var owned := WithMain(heap, mod.ram, mod.foreign, size, align);
    && (if mod.ram == 0 then forall j :: 0 <= j < |bases| ==> bases[j] == 0
        else BaseArray(m, mod.ram, numLot, bases) && mod.ram % 4 == 0 && numLot >= 0 && mod.ram > 0)
    && 0 !in heap && (mod.foreign || mod.ram !in heap)
    && RecordedRun(tab, bases, upTo) && Distinct(owned, bases)
    && Outstanding(host.log) == Some(WithTagged(owned, tab, pool, bases, |bases|))
  }

  /** The shared error exit of a load, and what unloading does: tagged sections first, then the main
      block unless the caller supplied it, then the handle is cleared. */
  method GiveBack(mod: Module, mem: array<Word>, host: Host, tab: seq<Section>, pool: seq<Byte>, numLot: int, align: int,
                  ghost size: int, ghost heap: Heap, ghost bases: seq<int>, ghost upTo: int)
    requires Ledger(mod, host, mem[..], tab, pool, numLot, align, size, heap, bases, upTo)
    modifies mod, host`log
    ensures Outstanding(host.log) == Some(heap) && mod.IsFree() && Asked(host.log) == Asked(old(host.log))
    ensures old(mod.ram) == 0 ==> host.log == old(host.log)
  {
    ghost var owned := WithMain(heap, mod.ram, mod.foreign, size, align);
    hide RecordedRun, Distinct, WithTagged, Asked;
    FreeNonmainSections(mod, mem, host, tab, pool, numLot, owned, bases, upTo);
    if mod.ram != 0 && !mod.foreign {
      OutstandingStep(host.log, Freed(mod.ram, MainPurpose(align)));
      host.Release(mod.ram, MainPurpose(align));
      assert owned - {mod.ram} == heap;
    }
    mod.header, mod.ram, mod.mode, mod.foreign, mod.numNamed := 0, 0, CopyAll, false, 0;
  }
}
