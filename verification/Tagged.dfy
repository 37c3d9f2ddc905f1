// Placing the tagged sections: one host allocation each, recorded behind the LOT before it is checked,
// then filled from the image or zeroed.

module Tagged {
  import opened Words
  import opened Image
  import opened Sections
  import opened Layout
  import opened Placement
  import opened Relocation
  import opened Memory
  import opened Handle
  import opened Ownership

  function PayloadSize(e: Section): int {
    if e.cls == BSS then 0 else e.size
  }

  /** Payloads follow one another in table order; .bss sections have none. */
  function PayloadOffset(tab: seq<Section>, k: int): int
    decreases k
  {
    if k <= 0 then 0 else PayloadOffset(tab, k - 1) + PayloadSize(Sec(tab, k - 1))
  }

  lemma {:induction false} PayloadGrows(tab: seq<Section>, k: int, l: int)
    requires ValidTable(tab) && 0 <= k <= l <= |tab|
    ensures 0 <= PayloadOffset(tab, k) <= PayloadOffset(tab, l) && PayloadOffset(tab, k) % 4 == 0
    decreases l
  {
    hide ValidTable;
    if l <= 0 {
    } else {
      EntryFacts(tab, l - 1);
      if k < l { PayloadGrows(tab, k, l - 1); } else { PayloadGrows(tab, k - 1, l - 1); }
    }
  }

  /** Bytes of the whole image: metadata and payloads. */
  function Extent(img: Image): int {
    CodeOffset(img.hdr) +
      (if img.tab == [] then img.hdr.codeSize + img.hdr.dataSize else PayloadOffset(img.tab, |img.tab|))
  }

  /** The word at byte `off` of section k before relocation: from the image at `src`, or zero. */
  function InitialWord(img: Image, m: seq<Word>, src: int, k: int, off: int): Word {
    if Sec(img.tab, k).cls == BSS then 0
    else Get(m, src + CodeOffset(img.hdr) + PayloadOffset(img.tab, k) + off)
  }

  predicate Filled(img: Image, m: seq<Word>, src: int, k: int, m': seq<Word>, base: int) {
    forall off :: 0 <= off < Sec(img.tab, k).size && off % 4 == 0 ==>
      Get(m', base + off) == InitialWord(img, m, src, k, off)
  }

  predicate InRange(a: int, base: int, size: int) {
    base / 4 <= a < base / 4 + size / 4
  }

  /** A tagged block is aligned, in memory, and clear of the main block and of the image. */
  predicate BlockOk(img: Image, ram: int, mode: Mode, src: int, n: int, base: int, size: int) {
    && base > 0 && base % 4 == 0 && base + size <= 4 * n
    && Apart(base, size, ram, RamSize(img.hdr, img.tab, mode))
    && Apart(base, size, src, Extent(img))
  }

  /** Everything about the bases recorded for sections 3 .. k - 1. */
  ghost predicate Placed(img: Image, ram: int, mode: Mode, src: int, m: seq<Word>, m': seq<Word>, bases: seq<int>, k: int) {
    && |bases| == NumTagged(img.tab) && |m'| == |m|
    && (forall j :: 0 <= j < |bases| && j < k - 3 && bases[j] != 0 ==>
          && BlockOk(img, ram, mode, src, |m|, bases[j], Sec(img.tab, j + 3).size)
          && Filled(img, m, src, j + 3, m', bases[j]))
    && (forall i, j :: 0 <= i < j < |bases| && j < k - 3 && bases[i] != 0 && bases[j] != 0 ==>
          Apart(bases[i], Sec(img.tab, i + 3).size, bases[j], Sec(img.tab, j + 3).size))
  }

  /** The words that placing the tagged sections may write. */
  ghost predicate MayWrite(img: Image, ram: int, bases: seq<int>, a: int) {
    || InRange(a, ram + 4 * img.hdr.numLot, 4 * |bases|)
    || (exists j :: 0 <= j < |bases| && bases[j] != 0 && InRange(a, bases[j], Sec(img.tab, j + 3).size))
  }

  ghost predicate OnlyTagged(img: Image, ram: int, m: seq<Word>, m': seq<Word>, bases: seq<int>) {
    |m'| == |m| && forall a :: 0 <= a < |m| && !MayWrite(img, ram, bases, a) ==> m'[a] == m[a]
  }

  /** The main block is memory the allocator will not hand out again. */
  predicate BlockInUse(taken: seq<Range>, heap: Heap, ram: int, size: int) {
    || (ram in heap && heap[ram].size == size)
    || (exists r :: r in taken && r.addr <= ram && ram + size <= r.addr + r.size)
  }

  /** The block at `base` holds the payload found in `from`, or zeros. */
  predicate FilledFrom(e: Section, from: seq<Word>, payload: int, m: seq<Word>, base: int) {
    forall off :: 0 <= off < e.size && off % 4 == 0 ==>
      Get(m, base + off) == if e.cls == BSS then 0 else Get(from, payload + off)
  }

  /** Only the word at index `slot` and the block at `base` differ. */
  predicate WroteOnly(m: seq<Word>, m': seq<Word>, slot: int, base: int, size: int) {
    |m'| == |m| && forall a :: 0 <= a < |m| && a != slot && !InRange(a, base, size) ==> m'[a] == m[a]
  }

  predicate SameOutside(m: seq<Word>, m': seq<Word>, base: int, size: int) {
    |m'| == |m| && forall a :: 0 <= a < |m| && !InRange(a, base, size) ==> m'[a] == m[a]
  }

  // ----- memory that is someone else's -----

  /** Word `a` lies in memory that is in use: the caller's, or a block of the allocator's. */
  predicate InUse(taken: seq<Range>, heap: Heap, a: int) {
    || (exists r :: r in taken && r.addr <= 4 * a < r.addr + r.size)
    || (exists b :: b in heap && b <= 4 * a < b + heap[b].size)
  }

  /** Every word in use has kept its value, except in one range. */
  ghost predicate InUseKept(taken: seq<Range>, heap: Heap, base: int, size: int, m: seq<Word>, m': seq<Word>) {
    |m'| == |m| && forall a :: 0 <= a < |m| && InUse(taken, heap, a) && !InRange(a, base, size) ==> m'[a] == m[a]
  }

  predicate ClearOf(taken: seq<Range>, heap: Heap, addr: int, size: int) {
    && (forall r :: r in taken ==> Apart(addr, size, r.addr, r.size))
    && (forall b :: b in heap ==> Apart(addr, size, b, heap[b].size))
  }

  /** The tagged sections placed so far are in memory that was not in use. */
  predicate TaggedClear(taken: seq<Range>, heap: Heap, tab: seq<Section>, bases: seq<int>) {
    forall j :: 0 <= j < |bases| && bases[j] != 0 ==> ClearOf(taken, heap, bases[j], Sec(tab, j + 3).size)
  }

  lemma ClearNotInUse(taken: seq<Range>, heap: Heap, addr: int, size: int, a: int)
    requires ClearOf(taken, heap, addr, size) && addr % 4 == 0 && InRange(a, addr, size)
    ensures !InUse(taken, heap, a)
  {}

  lemma SameKeeps(taken: seq<Range>, heap: Heap, base: int, size: int, at: int, n: int, m: seq<Word>, m': seq<Word>)
    requires SameOutside(m, m', at, n) && at % 4 == 0 && base % 4 == 0 && base <= at && at + n <= base + size
    ensures InUseKept(taken, heap, base, size, m, m')
  {
    hide InUse;
  }

  lemma InUseTwice(taken: seq<Range>, heap: Heap, base: int, size: int, m: seq<Word>, m1: seq<Word>, m2: seq<Word>)
    requires InUseKept(taken, heap, base, size, m, m1) && InUseKept(taken, heap, base, size, m1, m2)
    ensures InUseKept(taken, heap, base, size, m, m2)
  {
    hide InUse, InRange;
  }

  lemma WithinBlock(taken: seq<Range>, heap: Heap, base: int, size: int, m: seq<Word>, m1: seq<Word>, m2: seq<Word>)
    requires InUseKept(taken, heap, base, size, m, m1) && SameOutside(m1, m2, base, size)
    ensures InUseKept(taken, heap, base, size, m, m2)
  {
    hide InUse, InRange;
  }

  /** The sections placed so far have cost nobody a word. */
  lemma PlacedKeeps(img: Image, ram: int, mode: Mode, src: int, taken: seq<Range>, heap: Heap, m: seq<Word>, m': seq<Word>,
                    bases: seq<int>, k: int)
    requires ValidTable(img.tab) && 3 <= k <= |img.tab| && ram % 4 == 0 && BlockFront(img) <= RamSize(img.hdr, img.tab, mode)
    requires Placed(img, ram, mode, src, m, m', bases, k) && RecordedRun(img.tab, bases, k - 3)
    requires OnlyTagged(img, ram, m, m', bases) && TaggedClear(taken, heap, img.tab, bases)
    ensures InUseKept(taken, heap, ram, RamSize(img.hdr, img.tab, mode), m, m')
  {
    hide RamSize, Extent, Filled, InUse, ClearOf, Sec;
    forall a | 0 <= a < |m| && InUse(taken, heap, a) && !InRange(a, ram, RamSize(img.hdr, img.tab, mode))
      ensures !MayWrite(img, ram, bases, a)
    {
      forall j | 0 <= j < |bases| && bases[j] != 0
        ensures !InRange(a, bases[j], Sec(img.tab, j + 3).size)
      {
        if InRange(a, bases[j], Sec(img.tab, j + 3).size) { ClearNotInUse(taken, heap, bases[j], Sec(img.tab, j + 3).size, a); }
      }
    }
  }

  /** A free answer is clear of what was in use when the placing began. */
  lemma FreeIsClear(heap: Heap, tab: seq<Section>, pool: seq<Byte>, bases: seq<int>, taken: seq<Range>, live: Heap, p: int, size: int)
    requires Distinct(heap, bases) && live == WithTagged(heap, tab, pool, bases, |bases|)
    requires forall r :: r in taken ==> Apart(p, size, r.addr, r.size)
    requires forall a :: a in live ==> Apart(p, size, a, live[a].size)
    ensures ClearOf(taken, heap, p, size)
  {
    hide WithTagged, Distinct, Apart;
    forall b | b in heap
      ensures Apart(p, size, b, heap[b].size)
    {
      HeapKept(heap, tab, pool, bases, |bases|, b);
    }
  }

  lemma ClearRecords(taken: seq<Range>, heap: Heap, tab: seq<Section>, bases: seq<int>, k: int, p: int)
    requires TaggedClear(taken, heap, tab, bases) && 3 <= k < |bases| + 3 && ClearOf(taken, heap, p, Sec(tab, k).size)
    ensures TaggedClear(taken, heap, tab, bases[k - 3 := p])
  {
    hide ClearOf, Sec;
  }

  lemma SlotKeeps(img: Image, ram: int, mode: Mode, k: int, m: seq<Word>, m': seq<Word>, w: Word)
    requires 3 <= k < |img.tab| && BlockFront(img) <= RamSize(img.hdr, img.tab, mode) && ram % 4 == 0
    requires 0 <= SlotOf(ram, img.hdr.numLot, k) / 4 < |m| && m' == m[SlotOf(ram, img.hdr.numLot, k) / 4 := w]
    ensures SameOutside(m, m', ram, RamSize(img.hdr, img.tab, mode))
  {
    SlotInBlock(img, ram, mode, k);
    hide RamSize, SlotOf;
  }

  /** Fill a block that has been placed: memcpy from the payload, or memset. */
  method FillSection(mem: array<Word>, e: Section, base: int, payload: int)
    requires e.size % 4 == 0 && base % 4 == 0 && 0 <= base && base + e.size <= 4 * mem.Length
    requires e.cls != BSS ==> payload % 4 == 0 && 0 <= payload && payload + e.size <= 4 * mem.Length && Apart(base, e.size, payload, e.size)
    modifies mem
    ensures FilledFrom(e, old(mem[..]), payload, mem[..], base)
    ensures SameOutside(old(mem[..]), mem[..], base, e.size)
  {
    if e.cls == BSS {
      ZeroWords(mem, base, e.size);
    } else {
      CopyWords(mem, base, payload, e.size);
    }
    forall off | 0 <= off < e.size && off % 4 == 0
      ensures Get(mem[..], base + off) == if e.cls == BSS then 0 else old(Get(mem[..], payload + off))
    {
      var a := (base + off) / 4;
      assert base / 4 <= a < base / 4 + e.size / 4;
      assert a - base / 4 + payload / 4 == (payload + off) / 4 || e.cls == BSS;
    }
  }

  // ----- one more section -----

  /** The allocator's answer p for section k = j + 3 is clear of everything in use. */
  lemma AnswerApart(img: Image, pool: seq<Byte>, taken: seq<Range>, heap: Heap, ram: int, mode: Mode, src: int,
                    bases: seq<int>, p: int, size: int, live: Heap)
    requires Distinct(heap, bases) && live == WithTagged(heap, img.tab, pool, bases, |bases|)
    requires RamSize(img.hdr, img.tab, mode) >= 0
    requires p > 0 && size > 0 && p !in live && BlockInUse(taken, heap, ram, RamSize(img.hdr, img.tab, mode))
    requires Range(src, Extent(img)) in taken
    requires forall r :: r in taken ==> Apart(p, size, r.addr, r.size)
    requires forall a :: a in live ==> Apart(p, size, a, live[a].size)
    ensures Apart(p, size, ram, RamSize(img.hdr, img.tab, mode)) && Apart(p, size, src, Extent(img))
    ensures forall j :: 0 <= j < |bases| && bases[j] != 0 ==>
      bases[j] != p && Apart(p, size, bases[j], Sec(img.tab, j + 3).size)
    ensures p !in heap
  {
    hide RamSize, Extent, SectPurpose, WithTagged, Sec;
    forall j | 0 <= j < |bases| && bases[j] != 0
      ensures bases[j] != p && Apart(p, size, bases[j], Sec(img.tab, j + 3).size)
    {
      ForgetRemoves(heap, img.tab, pool, bases, |bases|, j);
    }
    TaggedKeys(heap, img.tab, pool, bases, |bases|, p);
    if ram in heap && heap[ram].size == RamSize(img.hdr, img.tab, mode) {
      HeapKept(heap, img.tab, pool, bases, |bases|, ram);
    }
  }

  lemma {:induction false} HeapKept(heap: Heap, tab: seq<Section>, pool: seq<Byte>, bases: seq<int>, n: nat, a: int)
    requires n <= |bases| && a in heap && Distinct(heap, bases)
    ensures a in WithTagged(heap, tab, pool, bases, n) && WithTagged(heap, tab, pool, bases, n)[a] == heap[a]
    decreases n
  {
    hide SectPurpose, Sec;
    if n == 0 {
    } else {
      HeapKept(heap, tab, pool, bases, n - 1, a);
    }
  }

  lemma FilledKept(img: Image, m: seq<Word>, src: int, k: int, m1: seq<Word>, m2: seq<Word>, base: int)
    requires Filled(img, m, src, k, m1, base) && base % 4 == 0 && |m1| == |m2| && Sec(img.tab, k).size % 4 == 0
    requires forall a :: 0 <= a < |m1| && InRange(a, base, Sec(img.tab, k).size) ==> m2[a] == m1[a]
    ensures Filled(img, m, src, k, m2, base)
  {
    hide InitialWord, Sec;
    forall off | 0 <= off < Sec(img.tab, k).size && off % 4 == 0
      ensures Get(m2, base + off) == InitialWord(img, m, src, k, off)
    {
      assert Get(m1, base + off) == InitialWord(img, m, src, k, off);
      assert InRange((base + off) / 4, base, Sec(img.tab, k).size);
    }
  }

  /** Recording and filling section k keeps what is known about the sections before it. */
  lemma PlacedExtends(img: Image, ram: int, mode: Mode, src: int, m: seq<Word>, m1: seq<Word>, m2: seq<Word>,
                      bases: seq<int>, k: int, p: int, slot: int)
    requires ValidTable(img.tab) && 3 <= k < |img.tab| && Placed(img, ram, mode, src, m, m1, bases, k)
    requires RecordedRun(img.tab, bases, k - 3)
    requires BlockOk(img, ram, mode, src, |m|, p, Sec(img.tab, k).size)
    requires forall j :: 0 <= j < |bases| && bases[j] != 0 ==> Apart(p, Sec(img.tab, k).size, bases[j], Sec(img.tab, j + 3).size)
    requires ram % 4 == 0 && ram <= slot && slot + 4 <= ram + RamSize(img.hdr, img.tab, mode) && slot % 4 == 0
    requires WroteOnly(m1, m2, slot / 4, p, Sec(img.tab, k).size) && Filled(img, m, src, k, m2, p)
    ensures Placed(img, ram, mode, src, m, m2, bases[k - 3 := p], k + 1)
  {
    hide RamSize, Extent, ValidTable, Filled;
    var bases' := bases[k - 3 := p];
    EntryFacts(img.tab, k);
    forall j | 0 <= j < |bases| && j < k - 3 && bases[j] != 0
      ensures Filled(img, m, src, j + 3, m2, bases[j])
    {
      EntryFacts(img.tab, j + 3);
      hide Sec;
      forall a | 0 <= a < |m1| && InRange(a, bases[j], Sec(img.tab, j + 3).size)
        ensures m2[a] == m1[a]
      {
        assert BlockOk(img, ram, mode, src, |m|, bases[j], Sec(img.tab, j + 3).size);
      }
      FilledKept(img, m, src, j + 3, m1, m2, bases[j]);
    }
  }

  /** A section with no bytes is skipped: no request, base 0. */
  lemma PlacedSkips(img: Image, ram: int, mode: Mode, src: int, m: seq<Word>, m': seq<Word>, bases: seq<int>, k: int)
    requires Placed(img, ram, mode, src, m, m', bases, k) && RecordedRun(img.tab, bases, k - 3)
    requires 3 <= k < |img.tab| && Sec(img.tab, k).size == 0
    ensures Placed(img, ram, mode, src, m, m', bases, k + 1) && RecordedRun(img.tab, bases, k - 2)
  {
    hide BlockOk, Filled;
  }

  /** What holds before section k is placed. */
  ghost predicate Placing(img: Image, mod: Module, host: Host, src: int, m: seq<Word>, m': seq<Word>, pool: seq<Byte>,
                          heap: Heap, bases: seq<int>, k: int)
    reads mod, host
  {
    && ValidTable(img.tab) && 3 <= k <= |img.tab|
    && 4 * |m| <= LIMIT && |m'| == |m|
    && mod.ram % 4 == 0 && mod.ram > 0 && mod.ram + RamSize(img.hdr, img.tab, mod.mode) <= 4 * |m|
    && BlockFront(img) <= RamSize(img.hdr, img.tab, mod.mode)
    && src % 4 == 0 && 0 <= src && src + Extent(img) <= 4 * |m|
    && Apart(mod.ram, RamSize(img.hdr, img.tab, mod.mode), src, Extent(img))
    && BlockInUse(host.taken, heap, mod.ram, RamSize(img.hdr, img.tab, mod.mode)) && Range(src, Extent(img)) in host.taken
    && 0 !in heap && Distinct(heap, bases) && RecordedRun(img.tab, bases, k - 3)
    && Outstanding(host.log) == Some(WithTagged(heap, img.tab, pool, bases, |bases|))
    && BaseArray(m', mod.ram, img.hdr.numLot, bases)
    && Placed(img, mod.ram, mod.mode, src, m, m', bases, k)
    && OnlyTagged(img, mod.ram, m, m', bases)
  }

  lemma RecordKeeps(tab: seq<Section>, heap: Heap, bases: seq<int>, k: int, p: int)
    requires 3 <= k < |tab| && Sec(tab, k).size > 0 && p != 0 && p !in heap
    requires RecordedRun(tab, bases, k - 3) && Distinct(heap, bases)
    requires forall j :: 0 <= j < |bases| && bases[j] != 0 ==> bases[j] != p
    ensures |bases| == NumTagged(tab) && k - 3 < |bases| && bases[k - 3] == 0
    ensures RecordedRun(tab, bases[k - 3 := p], k - 2) && Distinct(heap, bases[k - 3 := p])
  {
    hide Sec;
  }

  lemma BaseArrayRecords(m: seq<Word>, ram: int, numLot: int, bases: seq<int>, j: nat, p: Word)
    requires BaseArray(m, ram, numLot, bases) && ram % 4 == 0 && j < |bases|
    ensures var slot := ram + 4 * (numLot + j);
      0 <= slot / 4 < |m| && BaseArray(m[slot / 4 := p], ram, numLot, bases[j := p])
  {
    var slot := ram + 4 * (numLot + j);
    assert BaseAt(m, ram, numLot, bases, j);
    var m' := m[slot / 4 := p];
    var bases' := bases[j := p];
    forall i | 0 <= i < |bases'|
      ensures BaseAt(m', ram, numLot, bases', i)
    {
      assert BaseAt(m, ram, numLot, bases, i);
    }
  }

  lemma BaseArrayKept(img: Image, m: seq<Word>, m': seq<Word>, ram: int, size: int, bases: seq<int>, p: int, n: int)
    requires BaseArray(m, ram, img.hdr.numLot, bases) && |m'| == |m| && ram % 4 == 0 && 0 <= ram && p % 4 == 0 && n % 4 == 0
    requires 4 * (img.hdr.numLot + |bases|) <= size && Apart(p, n, ram, size) && p > 0 && n > 0
    requires forall a :: 0 <= a < |m| && !InRange(a, p, n) ==> m'[a] == m[a]
    ensures BaseArray(m', ram, img.hdr.numLot, bases)
  {
    forall i | 0 <= i < |bases|
      ensures BaseAt(m', ram, img.hdr.numLot, bases, i)
    {
      assert BaseAt(m, ram, img.hdr.numLot, bases, i);
    }
  }

  lemma OnlyTaggedExtends(img: Image, ram: int, m: seq<Word>, m1: seq<Word>, m2: seq<Word>, bases: seq<int>, j: nat, p: int)
    requires OnlyTagged(img, ram, m, m1, bases) && j < |bases| && bases[j] == 0 && p != 0 && ram % 4 == 0
    requires WroteOnly(m1, m2, (ram + 4 * (img.hdr.numLot + j)) / 4, p, Sec(img.tab, j + 3).size)
    ensures OnlyTagged(img, ram, m, m2, bases[j := p])
  {
    hide Sec;
    var bases' := bases[j := p];
    forall a | 0 <= a < |m| && !MayWrite(img, ram, bases', a)
      ensures m2[a] == m[a]
    {
      assert bases'[j] == p && !InRange(a, p, Sec(img.tab, j + 3).size);
      forall i | 0 <= i < |bases| && bases[i] != 0
        ensures !InRange(a, bases[i], Sec(img.tab, i + 3).size)
      {
        assert bases'[i] == bases[i];
      }
      assert !MayWrite(img, ram, bases, a);
    }
  }

  lemma SectionSizes(img: Image, k: int, p: int)
    requires ValidTable(img.tab) && 3 <= k < |img.tab| && p >= 0 && Aligned(p, Sec(img.tab, k).align)
    ensures p % 4 == 0 && Sec(img.tab, k).size % 4 == 0
  {
    hide ValidTable, Aligned, IsPow2;
    EntryFacts(img.tab, k);
    EntryAlign(img.tab, k);
    AlignedFour(p, Sec(img.tab, k).align);
  }

  lemma PayloadFits(img: Image, k: int)
    requires ValidTable(img.tab) && 0 <= k < |img.tab|
    ensures 0 <= PayloadOffset(img.tab, k) && PayloadOffset(img.tab, k) % 4 == 0
    ensures CodeOffset(img.hdr) + PayloadOffset(img.tab, k) + PayloadSize(Sec(img.tab, k)) <= Extent(img)
  {
    hide ValidTable, CodeOffset, Sec, PayloadSize;
    assert img.tab != [];
    PayloadGrows(img.tab, k, |img.tab|);
    PayloadGrows(img.tab, k + 1, |img.tab|);
  }

  /** The image is not touched while sections are placed. */
  lemma ImageKept(img: Image, ram: int, mode: Mode, src: int, m: seq<Word>, m': seq<Word>, bases: seq<int>, k: int, addr: int)
    requires Placed(img, ram, mode, src, m, m', bases, k) && RecordedRun(img.tab, bases, k - 3)
    requires OnlyTagged(img, ram, m, m', bases) && ram % 4 == 0 && ram >= 0 && 0 <= src
    requires BlockFront(img) <= RamSize(img.hdr, img.tab, mode) && Apart(ram, RamSize(img.hdr, img.tab, mode), src, Extent(img))
    requires src <= addr < src + Extent(img) && addr % 4 == 0 && addr / 4 < |m| && src % 4 == 0
    ensures Get(m', addr) == Get(m, addr)
  {
    hide RamSize, Extent, Filled, Sec;
    forall j | 0 <= j < |bases| && bases[j] != 0
      ensures !InRange(addr / 4, bases[j], Sec(img.tab, j + 3).size)
    {
      assert BlockOk(img, ram, mode, src, |m|, bases[j], Sec(img.tab, j + 3).size);
    }
    assert !MayWrite(img, ram, bases, addr / 4);
  }

  lemma SameLength(img: Image, ram: int, m: seq<Word>, m': seq<Word>, bases: seq<int>)
    requires OnlyTagged(img, ram, m, m', bases)
    ensures |m'| == |m|
  {
    hide MayWrite;
  }

  /** The copied words are the image's words of before the load. */
  lemma FilledIsInitial(img: Image, m: seq<Word>, before: seq<Word>, recorded: seq<Word>, after: seq<Word>,
                        ram: int, mode: Mode, src: int, k: int, p: int, slot: int, bases: seq<int>)
    requires ValidTable(img.tab) && 3 <= k < |img.tab|
    requires Placed(img, ram, mode, src, m, before, bases, k) && RecordedRun(img.tab, bases, k - 3)
    requires OnlyTagged(img, ram, m, before, bases) && ram % 4 == 0 && ram >= 0 && 0 <= src && src % 4 == 0
    requires BlockFront(img) <= RamSize(img.hdr, img.tab, mode) && Apart(ram, RamSize(img.hdr, img.tab, mode), src, Extent(img))
    requires src + Extent(img) <= 4 * |m|
    requires 4 * slot >= ram && 4 * slot + 4 <= ram + RamSize(img.hdr, img.tab, mode)
    requires 0 <= slot < |before| && WroteOnly(before, recorded, slot, 0, 0)
    requires FilledFrom(Sec(img.tab, k), recorded, src + CodeOffset(img.hdr) + PayloadOffset(img.tab, k), after, p)
    ensures Filled(img, m, src, k, after, p)
  {
    hide RamSize, Extent, ValidTable, Placed, OnlyTagged, RecordedRun, CodeOffset, PayloadOffset, BlockFront, Sec, Get,
      FilledFrom, Filled, WroteOnly, PayloadSize;
    PayloadFits(img, k);
    SameLength(img, ram, m, before, bases);
    var payload := src + CodeOffset(img.hdr) + PayloadOffset(img.tab, k);
    forall addr | payload <= addr < payload + PayloadSize(Sec(img.tab, k)) && addr % 4 == 0
      ensures Get(recorded, addr) == Get(m, addr)
    {
      ImageKept(img, ram, mode, src, m, before, bases, k, addr);
      ImageNotRecorded(before, recorded, slot, ram, RamSize(img.hdr, img.tab, mode), src, Extent(img), addr);
    }
    FilledTransfers(img, m, src, k, recorded, after, p);
  }

  lemma FilledTransfers(img: Image, m: seq<Word>, src: int, k: int, from: seq<Word>, after: seq<Word>, p: int)
    requires var payload := src + CodeOffset(img.hdr) + PayloadOffset(img.tab, k);
      && payload % 4 == 0 && FilledFrom(Sec(img.tab, k), from, payload, after, p)
      && forall addr :: payload <= addr < payload + PayloadSize(Sec(img.tab, k)) && addr % 4 == 0 ==> Get(from, addr) == Get(m, addr)
    ensures Filled(img, m, src, k, after, p)
  {
    hide CodeOffset, PayloadOffset, Sec, Get;
  }

  lemma ImageNotRecorded(before: seq<Word>, recorded: seq<Word>, slot: int, ram: int, size: int, src: int, extent: int, addr: int)
    requires 0 <= slot < |before| && WroteOnly(before, recorded, slot, 0, 0)
    requires 4 * slot >= ram && 4 * slot + 4 <= ram + size && Apart(ram, size, src, extent)
    requires src <= addr < src + extent && addr % 4 == 0 && src % 4 == 0
    ensures Get(recorded, addr) == Get(before, addr)
  {}

  function SlotOf(ram: int, numLot: int, k: int): int {
    ram + 4 * (numLot + k - 3)
  }

  // ----- what was asked, and what it came to -----

  /** The request for section e and its answer. */
  function SectionAnswer(e: Section, pool: seq<Byte>, reply: Word): Event {
    if reply == 0 then Refused(e.size, SectPurpose(e, pool)) else Allocated(HeapBlock(reply, e.size, SectPurpose(e, pool)))
  }

  /** The requests from section k on, in table order: one for each section that is not empty, up to the first
      that is not served. */
  function Requests(a: Allocator, log: seq<Event>, tab: seq<Section>, pool: seq<Byte>, k: int): seq<Event>
    decreases |tab| - k
  {
    if k >= |tab| then []
    else if Sec(tab, k).size == 0 then Requests(a, log, tab, pool, k + 1)
    else
      var ev := SectionAnswer(Sec(tab, k), pool, Answer(a, log, Sec(tab, k).size));
      [ev] + if Served(ev) then Requests(a, log + [ev], tab, pool, k + 1) else []
  }

  /** What the requests for the tagged sections come to. */
  function SectionsVerdict(asked: seq<Event>): (res: Error)
    ensures res in {Ok, SectionUnresolved, SectionUnaligned}
  {
    if asked == [] || Served(asked[|asked| - 1]) then Ok
    else if asked[|asked| - 1].Refused? then SectionUnresolved
    else SectionUnaligned
  }

  /** All but the last were served. */
  lemma {:induction false} RequestsServed(a: Allocator, log: seq<Event>, tab: seq<Section>, pool: seq<Byte>, k: int)
    ensures var asked := Requests(a, log, tab, pool, k);
      SectionsVerdict(asked) == Ok <==> forall ev :: ev in asked ==> Served(ev)
    decreases |tab| - k
  {
    hide Served, SectPurpose, Answer, Sec;
    if k < |tab| && Sec(tab, k).size == 0 {
      RequestsServed(a, log, tab, pool, k + 1);
    } else if k < |tab| {
      var ev := SectionAnswer(Sec(tab, k), pool, Answer(a, log, Sec(tab, k).size));
      if Served(ev) {
        RequestsServed(a, log + [ev], tab, pool, k + 1);
        var rest := Requests(a, log + [ev], tab, pool, k + 1);
        assert rest != [] ==> ([ev] + rest)[|rest|] == rest[|rest| - 1];
      }
    }
  }

  /** A request for a tagged section that is not empty, answered. */
  /** The tagged sections to be asked for, in table order: those that are not empty. */
  function ToAsk(tab: seq<Section>, k: int): (ks: seq<int>)
    ensures forall n :: 0 <= n < |ks| ==> k <= ks[n] < |tab| && Sec(tab, ks[n]).size != 0
    ensures forall n, o :: 0 <= n < o < |ks| ==> ks[n] < ks[o]
    decreases |tab| - k
  {
    if k >= |tab| then []
    else if Sec(tab, k).size == 0 then ToAsk(tab, k + 1)
    else [k] + ToAsk(tab, k + 1)
  }

  /** Every non-empty section is among them. */
  lemma {:induction false} AllAsked(tab: seq<Section>, k: int, j: int)
    requires k <= j < |tab| && Sec(tab, j).size != 0
    ensures j in ToAsk(tab, k)
    decreases j - k
  {
    if k < j { AllAsked(tab, k + 1, j); }
  }

  /** Event n is the request for section ks[n], with what the allocator answers after those before it. */
  predicate InOrder(a: Allocator, log: seq<Event>, tab: seq<Section>, pool: seq<Byte>, asked: seq<Event>, ks: seq<int>) {
    |asked| <= |ks| && forall n :: 0 <= n < |asked| ==> AnsweredAt(a, log, tab, pool, asked, ks[n], n)
  }

  predicate AnsweredAt(a: Allocator, log: seq<Event>, tab: seq<Section>, pool: seq<Byte>, asked: seq<Event>, k: int, n: nat)
    requires n < |asked|
  {
    asked[n] == SectionAnswer(Sec(tab, k), pool, Answer(a, log + asked[..n], Sec(tab, k).size))
  }

  lemma OneMoreAsked(a: Allocator, log: seq<Event>, tab: seq<Section>, pool: seq<Byte>, ev: Event, rest: seq<Event>, k: int, ks: seq<int>)
    requires ev == SectionAnswer(Sec(tab, k), pool, Answer(a, log, Sec(tab, k).size)) && InOrder(a, log + [ev], tab, pool, rest, ks)
    ensures InOrder(a, log, tab, pool, [ev] + rest, [k] + ks)
  {
    hide SectionAnswer, Answer, Sec;
    var asked := [ev] + rest;
    assert log + asked[..0] == log;
    forall n | 1 <= n < |asked|
      ensures AnsweredAt(a, log, tab, pool, asked, ([k] + ks)[n], n)
    {
      assert AnsweredAt(a, log + [ev], tab, pool, rest, ks[n - 1], n - 1);
      assert log + asked[..n] == (log + [ev]) + rest[..n - 1];
    }
  }

  /** The requests go to these sections in this order; if there are fewer of them, the last was not served. */
  lemma {:induction false} RequestsInOrder(a: Allocator, log: seq<Event>, tab: seq<Section>, pool: seq<Byte>, k: int)
    ensures var (asked, ks) := (Requests(a, log, tab, pool, k), ToAsk(tab, k));
      && InOrder(a, log, tab, pool, asked, ks)
      && (|asked| < |ks| ==> asked != [] && !Served(asked[|asked| - 1]))
    decreases |tab| - k
  {
    if k >= |tab| {
    } else {
      hide SectionAnswer, Answer, Served, Sec, InOrder;
      if Sec(tab, k).size == 0 {
        RequestsInOrder(a, log, tab, pool, k + 1);
      } else {
        var ev := SectionAnswer(Sec(tab, k), pool, Answer(a, log, Sec(tab, k).size));
        if Served(ev) {
          RequestsInOrder(a, log + [ev], tab, pool, k + 1);
          OneMoreAsked(a, log, tab, pool, ev, Requests(a, log + [ev], tab, pool, k + 1), k, ToAsk(tab, k + 1));
        } else {
          NoneAsked(a, log + [ev], tab, pool, ToAsk(tab, k + 1));
          OneMoreAsked(a, log, tab, pool, ev, [], k, ToAsk(tab, k + 1));
        }
      }
    }
  }

  lemma NoneAsked(a: Allocator, log: seq<Event>, tab: seq<Section>, pool: seq<Byte>, ks: seq<int>)
    ensures InOrder(a, log, tab, pool, [], ks)
  {}

  ghost predicate SectionRequest(tab: seq<Section>, pool: seq<Byte>, ev: Event) {
    exists k, reply: Word :: 3 <= k < |tab| && Sec(tab, k).size != 0 && ev == SectionAnswer(Sec(tab, k), pool, reply)
  }

  lemma {:induction false} RequestsAreForSections(a: Allocator, log: seq<Event>, tab: seq<Section>, pool: seq<Byte>, k: int)
    requires k >= 3
    ensures forall ev :: ev in Requests(a, log, tab, pool, k) ==> SectionRequest(tab, pool, ev)
    decreases |tab| - k
  {
    hide Served, SectPurpose, Answer, Sec;
    if k < |tab| && Sec(tab, k).size == 0 {
      RequestsAreForSections(a, log, tab, pool, k + 1);
    } else if k < |tab| {
      var ev := SectionAnswer(Sec(tab, k), pool, Answer(a, log, Sec(tab, k).size));
      assert SectionRequest(tab, pool, ev);
      RequestsAreForSections(a, log + [ev], tab, pool, k + 1);
    }
  }

  /** The request for section k: refused, or recorded and then checked for alignment. */
  method AllocateSection(mod: Module, mem: array<Word>, host: Host, e: Section, k: int, pool: seq<Byte>, numLot: int,
                         ghost img: Image, ghost src: int, ghost m: seq<Word>, ghost heap: Heap, ghost bases: seq<int>)
    returns (res: Error, p: Word, ghost bases': seq<int>, ghost ev: Event)
    requires Placing(img, mod, host, src, m, mem[..], pool, heap, bases, k) && k < |img.tab|
    requires e == Sec(img.tab, k) && e.size > 0 && numLot == img.hdr.numLot
    modifies mem, host`log
    ensures |bases'| == |bases| == NumTagged(img.tab) && Distinct(heap, bases')
    ensures RecordedRun(img.tab, bases', if res == SectionUnresolved then k - 3 else k - 2)
    ensures Outstanding(host.log) == Some(WithTagged(heap, img.tab, pool, bases', |bases'|))
    ensures BaseArray(mem[..], mod.ram, numLot, bases')
    ensures ev == SectionAnswer(e, pool, old(host.Reply(e.size, 4 * mem.Length))) && res == SectionsVerdict([ev])
    ensures host.log == old(host.log) + [ev] && Asked(host.log) == Asked(old(host.log)) + [ev]
    ensures res == Ok ==>
      && bases' == bases[k - 3 := p] && bases[k - 3] == 0 && e.size % 4 == 0
      && BlockOk(img, mod.ram, mod.mode, src, |m|, p, e.size)
      && (forall j :: 0 <= j < |bases| && bases[j] != 0 ==> Apart(p, e.size, bases[j], Sec(img.tab, j + 3).size))
      && 0 <= SlotOf(mod.ram, numLot, k) / 4 < |m|
      && mem[..] == old(mem[..])[SlotOf(mod.ram, numLot, k) / 4 := p]
      && ClearOf(host.taken, heap, p, e.size)
    ensures res != Ok ==> SameOutside(old(mem[..]), mem[..], mod.ram, RamSize(img.hdr, img.tab, mod.mode))
  {
    hide RamSize, Extent, ValidTable, Filled, InitialWord, CodeOffset, PayloadOffset, Distinct, RecordedRun, WithTagged,
      Outstanding, Asked, BaseArray, OnlyTagged, Placed, Sec, SectPurpose, IsPow2, Aligned, BlockInUse, ClearOf, SameOutside;
    ghost var log, live := host.log, Outstanding(host.log).value;
    PurposeOf(e, pool);
    p := host.Malloc(e.size, SectPurpose(e, pool), 4 * mem.Length);
    ev := SectionAnswer(e, pool, p);
    OutstandingStep(log, ev);
    bases' := bases;
    if p == 0 {
      RunLength(img.tab, bases, k - 3);
      NothingWritten(mem[..], mod.ram, RamSize(img.hdr, img.tab, mod.mode));
      return SectionUnresolved, 0, bases, ev;
    }
    FreeIsClear(heap, img.tab, pool, bases, host.taken, live, p, e.size);
    AnswerApart(img, pool, host.taken, heap, mod.ram, mod.mode, src, bases, p, e.size, live);
    RecordKeeps(img.tab, heap, bases, k, p);
    BaseArrayRecords(mem[..], mod.ram, numLot, bases, k - 3, p);
    RecordAdds(heap, img.tab, pool, bases, |bases|, k - 3, p);
    ghost var before := mem[..];
    mem[(mod.ram + numLot * 4 + (k - 3) * 4) / 4] := p;
    assert mem[..] == before[(mod.ram + 4 * (numLot + (k - 3))) / 4 := p];
    bases' := bases[k - 3 := p];
    SlotKeeps(img, mod.ram, mod.mode, k, before, mem[..], p);
    if !Aligned(p, e.align) {
      return SectionUnaligned, p, bases', ev;
    }
    SectionSizes(img, k, p);
    res := Ok;
  }

  lemma NothingWritten(m: seq<Word>, base: int, size: int)
    ensures SameOutside(m, m, base, size)
  {}

  lemma PurposeOf(e: Section, pool: seq<Byte>)
    ensures SectPurpose(e, pool).align == e.align
  {}

  lemma RunLength(tab: seq<Section>, bases: seq<int>, upTo: int)
    requires RecordedRun(tab, bases, upTo)
    ensures |bases| == NumTagged(tab)
  {}

  /** All that is known about the sections before k is known about k as well. */
  lemma SectionDone(img: Image, ram: int, mode: Mode, m: seq<Word>, before: seq<Word>, recorded: seq<Word>, after: seq<Word>,
                    src: int, bases: seq<int>, k: int, p: Word)
    requires ValidTable(img.tab) && 3 <= k < |img.tab| && |bases| == NumTagged(img.tab) && bases[k - 3] == 0
    requires Placed(img, ram, mode, src, m, before, bases, k) && RecordedRun(img.tab, bases, k - 3)
    requires OnlyTagged(img, ram, m, before, bases) && ram % 4 == 0 && ram > 0 && 0 <= src && src % 4 == 0
    requires BlockFront(img) <= RamSize(img.hdr, img.tab, mode) && Apart(ram, RamSize(img.hdr, img.tab, mode), src, Extent(img))
    requires src + Extent(img) <= 4 * |m| && Sec(img.tab, k).size > 0 && Sec(img.tab, k).size % 4 == 0
    requires p != 0 && BlockOk(img, ram, mode, src, |m|, p, Sec(img.tab, k).size)
    requires forall j :: 0 <= j < |bases| && bases[j] != 0 ==> Apart(p, Sec(img.tab, k).size, bases[j], Sec(img.tab, j + 3).size)
    requires 0 <= SlotOf(ram, img.hdr.numLot, k) / 4 < |before| && recorded == before[SlotOf(ram, img.hdr.numLot, k) / 4 := p]
    requires BaseArray(recorded, ram, img.hdr.numLot, bases[k - 3 := p])
    requires SameOutside(recorded, after, p, Sec(img.tab, k).size)
    requires FilledFrom(Sec(img.tab, k), recorded, src + CodeOffset(img.hdr) + PayloadOffset(img.tab, k), after, p)
    ensures BaseArray(after, ram, img.hdr.numLot, bases[k - 3 := p])
    ensures OnlyTagged(img, ram, m, after, bases[k - 3 := p])
    ensures Placed(img, ram, mode, src, m, after, bases[k - 3 := p], k + 1)
  {
    hide RamSize, Extent, ValidTable, Placed, OnlyTagged, RecordedRun, CodeOffset, PayloadOffset, Sec, BlockOk, BaseArray,
      Filled, FilledFrom, SameOutside, SlotOf, BlockFront, WroteOnly;
    var slot := SlotOf(ram, img.hdr.numLot, k);
    SlotInBlock(img, ram, mode, k);
    SameLength(img, ram, m, before, bases);
    WroteBoth(before, recorded, after, slot / 4, p, p, Sec(img.tab, k).size);
    FilledIsInitial(img, m, before, recorded, after, ram, mode, src, k, p, slot / 4, bases);
    KeepBaseArray(img, ram, mode, src, recorded, after, bases[k - 3 := p], p, Sec(img.tab, k).size);
    OnlyTaggedExtends(img, ram, m, before, after, bases, k - 3, p);
    PlacedExtends(img, ram, mode, src, m, before, after, bases, k, p, slot);
  }

  lemma SlotInBlock(img: Image, ram: int, mode: Mode, k: int)
    requires 3 <= k < |img.tab| && BlockFront(img) <= RamSize(img.hdr, img.tab, mode) && ram % 4 == 0
    ensures var slot := SlotOf(ram, img.hdr.numLot, k);
      slot == ram + 4 * (img.hdr.numLot + (k - 3)) && ram <= slot && slot % 4 == 0
      && slot + 4 <= ram + RamSize(img.hdr, img.tab, mode)
  {
    hide RamSize;
  }

  lemma WroteBoth(before: seq<Word>, recorded: seq<Word>, after: seq<Word>, slot: int, w: Word, base: int, size: int)
    requires 0 <= slot < |before| && recorded == before[slot := w] && SameOutside(recorded, after, base, size)
    ensures WroteOnly(before, recorded, slot, 0, 0) && WroteOnly(before, after, slot, base, size)
  {}

  lemma KeepBaseArray(img: Image, ram: int, mode: Mode, src: int, m: seq<Word>, m': seq<Word>, bases: seq<int>, p: int, n: int)
    requires BaseArray(m, ram, img.hdr.numLot, bases) && ram % 4 == 0 && 0 <= ram && n % 4 == 0 && n > 0
    requires BlockFront(img) <= RamSize(img.hdr, img.tab, mode) && |bases| == NumTagged(img.tab)
    requires BlockOk(img, ram, mode, src, |m|, p, n) && SameOutside(m, m', p, n)
    ensures BaseArray(m', ram, img.hdr.numLot, bases)
  {
    hide RamSize, Extent, BaseArray;
    BaseArrayKept(img, m, m', ram, RamSize(img.hdr, img.tab, mode), bases, p, n);
  }

  /** The block and the payload are where FillSection needs them. */
  lemma FillFits(img: Image, ram: int, mode: Mode, src: int, n: int, e: Section, k: int, p: int, payload: int)
    requires ValidTable(img.tab) && 3 <= k < |img.tab| && e == Sec(img.tab, k) && e.size > 0
    requires src % 4 == 0 && 0 <= src && src + Extent(img) <= 4 * n && BlockOk(img, ram, mode, src, n, p, e.size)
    requires payload == src + CodeOffset(img.hdr) + PayloadOffset(img.tab, k)
    ensures p % 4 == 0 && 0 < p && p + e.size <= 4 * n && e.size % 4 == 0
    ensures e.cls != BSS ==> payload % 4 == 0 && 0 <= payload && payload + e.size <= 4 * n && Apart(p, e.size, payload, e.size)
  {
    hide RamSize, Extent, ValidTable, CodeOffset, PayloadOffset, Sec;
    EntryFacts(img.tab, k);
    PayloadFits(img, k);
    assert e.cls != BSS ==> PayloadSize(e) == e.size;
  }

  /** One section: refused, recorded but misaligned, or recorded and filled. */
  method PlaceSection(mod: Module, mem: array<Word>, host: Host, e: Section, k: int, pool: seq<Byte>, numLot: int, payload: int,
                      ghost img: Image, ghost src: int, ghost m: seq<Word>, ghost heap: Heap, ghost bases: seq<int>)
    returns (res: Error, ghost bases': seq<int>, ghost ev: Event)
    requires Placing(img, mod, host, src, m, mem[..], pool, heap, bases, k) && k < |img.tab|
    requires e == Sec(img.tab, k) && e.size > 0 && numLot == img.hdr.numLot
    requires payload == src + CodeOffset(img.hdr) + PayloadOffset(img.tab, k) && TaggedClear(host.taken, heap, img.tab, bases)
    modifies mem, host`log
    ensures res == Ok ==> Placing(img, mod, host, src, m, mem[..], pool, heap, bases', k + 1)
    ensures res == Ok ==> TaggedClear(host.taken, heap, img.tab, bases')
    ensures res != Ok ==> SameOutside(old(mem[..]), mem[..], mod.ram, RamSize(img.hdr, img.tab, mod.mode))
    ensures |bases'| == |bases| && Distinct(heap, bases')
    ensures RecordedRun(img.tab, bases', if res == SectionUnresolved then k - 3 else k - 2)
    ensures Outstanding(host.log) == Some(WithTagged(heap, img.tab, pool, bases', |bases'|))
    ensures BaseArray(mem[..], mod.ram, numLot, bases')
    ensures ev == SectionAnswer(e, pool, old(host.Reply(e.size, 4 * mem.Length))) && res == SectionsVerdict([ev])
    ensures host.log == old(host.log) + [ev] && Asked(host.log) == Asked(old(host.log)) + [ev]
  {
    hide RamSize, Extent, ValidTable, Filled, InitialWord, CodeOffset, PayloadOffset, Distinct, RecordedRun, WithTagged,
      Outstanding, Asked, BaseArray, OnlyTagged, Placed, Sec, SectPurpose, BlockInUse, SectionsVerdict, SectionAnswer, Answer,
      TaggedClear, ClearOf, SameOutside, Apart, BlockOk, SlotOf, BlockFront;
    ghost var before := mem[..];
    var p;
    res, p, bases', ev := AllocateSection(mod, mem, host, e, k, pool, numLot, img, src, m, heap, bases);
    if res != Ok {
      return;
    }
    ghost var recorded := mem[..];
    FillFits(img, mod.ram, mod.mode, src, mem.Length, e, k, p, payload);
    FillSection(mem, e, p, payload);
    SectionDone(img, mod.ram, mod.mode, m, before, recorded, mem[..], src, bases, k, p);
    ClearRecords(host.taken, heap, img.tab, bases, k, p);
  }

  /** The requests since `was` are those for the tagged sections and come to `res`. */
  ghost predicate AnsweredSince(tab: seq<Section>, pool: seq<Byte>, a: Allocator, was: seq<Event>, now: seq<Event>, res: Error) {
    var asked := Requests(a, was, tab, pool, 3);
    Asked(now) == Asked(was) + asked && AskedSince(was, now) == asked && res == SectionsVerdict(asked)
  }

  /** So far every request has been served, and those still to come complete the list. */
  ghost predicate AskedSoFar(a: Allocator, was: seq<Event>, now: seq<Event>, asked: seq<Event>, tab: seq<Section>, pool: seq<Byte>, k: int) {
    && now == was + asked && Asked(now) == Asked(was) + asked && SectionsVerdict(asked) == Ok
    && asked + Requests(a, now, tab, pool, k) == Requests(a, was, tab, pool, 3)
  }

  lemma NoneAskedYet(a: Allocator, log: seq<Event>, tab: seq<Section>, pool: seq<Byte>)
    ensures AskedSoFar(a, log, log, [], tab, pool, 3)
  {
    hide Requests, Asked;
    assert log + [] == log;
    assert [] + Requests(a, log, tab, pool, 3) == Requests(a, log, tab, pool, 3);
  }

  lemma NoneAskedFor(a: Allocator, was: seq<Event>, now: seq<Event>, asked: seq<Event>, tab: seq<Section>, pool: seq<Byte>, k: int)
    requires AskedSoFar(a, was, now, asked, tab, pool, k) && k < |tab| && Sec(tab, k).size == 0
    ensures AskedSoFar(a, was, now, asked, tab, pool, k + 1)
  {
    RequestStep(a, now, tab, pool, k);
    hide Requests, Asked, SectionsVerdict;
  }

  lemma OneAsked(a: Allocator, was: seq<Event>, before: seq<Event>, now: seq<Event>, asked: seq<Event>, tab: seq<Section>, pool: seq<Byte>,
                 k: int, ev: Event, res: Error)
    requires AskedSoFar(a, was, before, asked, tab, pool, k) && k < |tab| && Sec(tab, k).size != 0
    requires ev == SectionAnswer(Sec(tab, k), pool, Answer(a, before, Sec(tab, k).size)) && res == SectionsVerdict([ev])
    requires now == before + [ev] && Asked(now) == Asked(before) + [ev]
    ensures res == Ok ==> AskedSoFar(a, was, now, asked + [ev], tab, pool, k + 1)
    ensures res != Ok ==> AnsweredSince(tab, pool, a, was, now, res)
  {
    RequestStep(a, before, tab, pool, k);
    VerdictServed(asked, ev);
    hide Requests, Asked, SectionsVerdict, SectionAnswer, Answer, Served, AskedSince;
    var rest := Requests(a, now, tab, pool, k + 1);
    assert now == was + (asked + [ev]) && Asked(now) == Asked(was) + (asked + [ev]);
    if Served(ev) {
      assert (asked + [ev]) + rest == asked + ([ev] + rest);
    } else {
      assert [ev] + [] == [ev];
      SinceIs(was, now, asked + [ev]);
    }
  }

  lemma AllAnswered(a: Allocator, was: seq<Event>, now: seq<Event>, asked: seq<Event>, tab: seq<Section>, pool: seq<Byte>, k: int)
    requires AskedSoFar(a, was, now, asked, tab, pool, k) && k >= |tab|
    ensures AnsweredSince(tab, pool, a, was, now, Ok)
  {
    RequestStep(a, now, tab, pool, k);
    hide Requests, Asked, SectionsVerdict, AskedSince;
    assert asked + [] == asked;
    SinceIs(was, now, asked);
  }

  /** The tagged-section loop of udynlink_load_module_image. Whatever the allocator answers, the blocks
      recorded behind the LOT are exactly the ones it is owed back; on success every section is placed. */
  method PlaceTagged(mod: Module, mem: array<Word>, host: Host, tab: seq<Section>, pool: seq<Byte>, numLot: int, src: int,
                     codeOffset: int, ghost img: Image, ghost heap: Heap, ghost bases0: seq<int>)
    returns (res: Error, ghost bases: seq<int>, ghost upTo: int)
    requires Placing(img, mod, host, src, mem[..], mem[..], pool, heap, bases0, 3)
    requires tab == img.tab && numLot == img.hdr.numLot && codeOffset == CodeOffset(img.hdr)
    requires TaggedClear(host.taken, heap, tab, bases0)
    modifies mem, host`log
    ensures InUseKept(host.taken, heap, mod.ram, RamSize(img.hdr, tab, mod.mode), old(mem[..]), mem[..])
    ensures res == Ok ==> TaggedClear(host.taken, heap, tab, bases)
    ensures AnsweredSince(tab, pool, old(host.As(4 * mem.Length)), old(host.log), host.log, res)
    ensures RecordedRun(tab, bases, upTo) && Distinct(heap, bases)
    ensures Outstanding(host.log) == Some(WithTagged(heap, tab, pool, bases, |bases|))
    ensures BaseArray(mem[..], mod.ram, numLot, bases)
    ensures res == Ok ==> Placing(img, mod, host, src, old(mem[..]), mem[..], pool, heap, bases, |tab|)
  {
    hide RamSize, Extent, ValidTable, Filled, InitialWord, CodeOffset, Distinct, RecordedRun, WithTagged,
      Outstanding, Asked, BaseArray, OnlyTagged, Placed, SectPurpose, BlockInUse, SectionsVerdict,
      SectionAnswer, Answer, TaggedClear, InUseKept, SameOutside, AskedSoFar, AnsweredSince;
    ghost var m, log, asked: seq<Event> := mem[..], host.log, [];
    ghost var a := host.As(4 * mem.Length);
    NoneAskedYet(a, log, tab, pool);
    bases := bases0;
    upTo := 0;
    var payload := PayloadOffset(tab, 3);
    var k := 3;
    while k < |tab|
      invariant 3 <= k <= |tab| && payload == PayloadOffset(tab, k) && upTo == k - 3
      invariant Placing(img, mod, host, src, m, mem[..], pool, heap, bases, k) && TaggedClear(host.taken, heap, tab, bases)
      invariant AskedSoFar(a, log, host.log, asked, tab, pool, k)
    {
      ghost var before := host.log;
      var e := Sec(tab, k);
      if e.size == 0 {
        PlacedSkips(img, mod.ram, mod.mode, src, m, mem[..], bases, k);
        NoneAskedFor(a, log, before, asked, tab, pool, k);
      } else {
        ghost var ev, was := *, mem[..];
        PlacedKeeps(img, mod.ram, mod.mode, src, host.taken, heap, m, was, bases, k);
        host.ReplyIs(e.size, 4 * mem.Length);
        res, bases, ev := PlaceSection(mod, mem, host, e, k, pool, numLot, src + codeOffset + payload, img, src, m, heap, bases);
        OneAsked(a, log, before, host.log, asked, tab, pool, k, ev, res);
        asked := asked + [ev];
        if res != Ok {
          WithinBlock(host.taken, heap, mod.ram, RamSize(img.hdr, tab, mod.mode), m, was, mem[..]);
          upTo := if res == SectionUnresolved then k - 3 else k - 2;
          return;
        }
      }
      if e.cls != BSS {
        payload := payload + e.size;
      }
      k := k + 1;
      upTo := k - 3;
    }
    PlacedKeeps(img, mod.ram, mod.mode, src, host.taken, heap, m, mem[..], bases, k);
    AllAnswered(a, log, host.log, asked, tab, pool, k);
    res := Ok;
  }

  lemma RequestStep(a: Allocator, log: seq<Event>, tab: seq<Section>, pool: seq<Byte>, k: int)
    ensures k >= |tab| ==> Requests(a, log, tab, pool, k) == []
    ensures k < |tab| && Sec(tab, k).size == 0 ==> Requests(a, log, tab, pool, k) == Requests(a, log, tab, pool, k + 1)
    ensures k < |tab| && Sec(tab, k).size != 0 ==>
      var ev := SectionAnswer(Sec(tab, k), pool, Answer(a, log, Sec(tab, k).size));
      Requests(a, log, tab, pool, k) == [ev] + if Served(ev) then Requests(a, log + [ev], tab, pool, k + 1) else []
  {
    hide Served, SectionAnswer, Answer;
  }

  lemma NothingRefused()
    ensures SectionsVerdict([]) == Ok
  {}

  lemma VerdictServed(asked: seq<Event>, ev: Event)
    ensures SectionsVerdict(asked + [ev]) == SectionsVerdict([ev])
    ensures SectionsVerdict([ev]) == Ok <==> Served(ev)
  {
    hide Served;
  }
}
