// The map from link-time addresses to sections.

module AddressMap {
  import opened Words
  import opened Image
  import opened Sections

  predicate Sorted(tab: seq<Section>) {
    forall i :: 0 < i < |tab| ==> Follows(tab[i - 1], tab[i])
  }

  /** A main section but the last reaches to the next main section; every other one keeps its size. */
  function Span(tab: seq<Section>, i: nat): int
    requires i < |tab|
  {
    if i + 1 < 3 && i + 1 < |tab| then tab[i + 1].va - tab[i].va else tab[i].size
  }

  predicate InSpan(tab: seq<Section>, i: nat, va: int)
    requires i < |tab|
  {
    tab[i].va <= va < tab[i].va + Span(tab, i)
  }

  /** Inside the section's own bytes, padding excluded. */
  predicate InSection(e: Section, va: int) {
    e.va <= va < e.va + e.size
  }

  /** First section from index `i` whose span holds `va`, or -1. */
  function FindFrom(tab: seq<Section>, va: int, i: nat): (r: int)
    requires i <= |tab|
    ensures r == -1 || i <= r < |tab|
    ensures r >= 0 ==> InSpan(tab, r, va)
    decreases |tab| - i
  {
    if i == |tab| then -1 else if InSpan(tab, i, va) then i else FindFrom(tab, va, i + 1)
  }

  function Find(tab: seq<Section>, va: int): (r: int)
    ensures r == -1 || (0 <= r < |tab| && InSpan(tab, r, va))
  {
    FindFrom(tab, va, 0)
  }

  lemma {:induction false} SpansInOrder(tab: seq<Section>, i: nat, j: nat)
    requires Sorted(tab) && i < j < |tab|
    ensures tab[i].va + Span(tab, i) <= tab[j].va && tab[i].va + tab[i].size <= tab[j].va
    decreases j - i
  {
    assert Follows(tab[j - 1], tab[j]);
    if i + 1 == j {
    } else {
      SpansInOrder(tab, i, j - 1);
    }
  }

  lemma {:induction false} FindFromMisses(tab: seq<Section>, va: int, i: nat)
    requires i <= |tab| && forall j :: i <= j < |tab| ==> !InSpan(tab, j, va)
    ensures FindFrom(tab, va, i) == -1
    decreases |tab| - i
  {
    if i == |tab| {
    } else {
      assert !InSpan(tab, i, va);
      FindFromMisses(tab, va, i + 1);
    }
  }

  lemma {:induction false} FindFromHits(tab: seq<Section>, va: int, i: nat, k: nat)
    requires Sorted(tab) && i <= k < |tab| && InSpan(tab, k, va)
    ensures FindFrom(tab, va, i) == k
    decreases k - i
  {
    if i == k {
    } else {
      SpansInOrder(tab, i, k);
      FindFromHits(tab, va, i + 1, k);
    }
  }

  /** udynlink.c sect_find_by_va, with its early exit at the first section past `va`. */
  method FindByVa(tab: seq<Section>, va: Word) returns (idx: int)
    requires Sorted(tab)
    ensures idx == Find(tab, va)
  {
    for i := 0 to |tab|
      invariant FindFrom(tab, va, i) == Find(tab, va)
    {
      if va < tab[i].va {
        forall j | i <= j < |tab|
          ensures !InSpan(tab, j, va)
        {
          if i < j { SpansInOrder(tab, i, j); }
        }
        FindFromMisses(tab, va, i);
        return -1;
      }
      var span: int := tab[i].size;
      if i + 1 < 3 && i + 1 < |tab| {
        span := tab[i + 1].va - tab[i].va;
      }
      if va - tab[i].va < span {
        return i;
      }
    }
    return -1;
  }

  /** The lookup answers k exactly for the addresses in span k, and -1 exactly for those in none. */
  lemma FindIsExact(tab: seq<Section>, va: int)
    requires Sorted(tab)
    ensures forall k :: 0 <= k < |tab| ==> (Find(tab, va) == k <==> InSpan(tab, k, va))
    ensures Find(tab, va) == -1 <==> forall k :: 0 <= k < |tab| ==> !InSpan(tab, k, va)
  {
    forall k | 0 <= k < |tab| && InSpan(tab, k, va)
      ensures Find(tab, va) == k
    {
      FindFromHits(tab, va, 0, k);
    }
  }

  /** An address inside a section's own bytes is found there. */
  lemma FindInside(tab: seq<Section>, k: nat, va: int)
    requires Sorted(tab) && k < |tab| && InSection(tab[k], va)
    ensures Find(tab, va) == k
  {
    if k + 1 < |tab| {
      SpansInOrder(tab, k, k + 1);
      assert Follows(tab[k], tab[k + 1]);
    }
    FindFromHits(tab, va, 0, k);
  }

  /** End of the last main section an accepted table has: .bss, unless the table stops before. */
  function MainEnd(tab: seq<Section>): int {
    if |tab| >= 3 then tab[2].va + tab[2].size
    else if tab != [] then tab[|tab| - 1].va + tab[|tab| - 1].size
    else 0
  }

  /** y is the first aligned address from x on. */
  ghost predicate FirstAligned(x: int, align: int, y: int) {
    x <= y && Aligned(y, align) && forall z :: x <= z && Aligned(z, align) ==> y <= z
  }

  /** The three main sections are exactly .text up to .data, .data at the first aligned address past .text,
      .bss at the first one past .data, unless an address passes 2^32. */
  lemma MainsArePacked(hdr: Header, text: Section, data: Section, bss: Section)
    requires IsPow2(data.align) && hdr.codeSize + data.align <= LIMIT
    requires IsPow2(bss.align) && hdr.codeSize + data.align + hdr.dataSize + bss.align <= LIMIT
    ensures MainsMatch(hdr, text, data, bss) <==>
      && text.size == data.va && data.size == hdr.dataSize && bss.size == hdr.bssSize
      && FirstAligned(hdr.codeSize, data.align, data.va)
      && FirstAligned(data.va + hdr.dataSize, bss.align, bss.va)
  {
    hide AlignUp, Aligned, IsPow2;
    AlignUpLeast(hdr.codeSize, data.align);
    OneFirst(hdr.codeSize, data.align, AlignUp(hdr.codeSize, data.align), data.va);
    AlignUpLeast(data.va + hdr.dataSize, bss.align);
    OneFirst(data.va + hdr.dataSize, bss.align, AlignUp(data.va + hdr.dataSize, bss.align), bss.va);
    Positive(data.align);
    Positive(bss.align);
  }

  lemma OneFirst(x: int, align: int, y: int, z: int)
    requires FirstAligned(x, align, y)
    ensures FirstAligned(x, align, z) <==> z == y
  {
    hide Aligned;
  }

  lemma Positive(align: int)
    requires IsPow2(align)
    ensures align > 0
  {}

  /** What acceptance buys: disjoint spans in order, no 32-bit wrap before the last section,
      and main spans that tile [0, end of .bss) without holes. */
  lemma AcceptedTable(mem: seq<Word>, h: nat, names: bool, va: Word)
    requires Sectab(mem, h, names).Some?
    ensures var tab := Sectab(mem, h, names).value;
      && Sorted(tab)
      && (forall i, j :: 0 <= i < j < |tab| ==> tab[i].va + Span(tab, i) <= tab[j].va)
      && (forall i :: 0 <= i < |tab| - 1 ==> tab[i].va + tab[i].size < LIMIT)
      && (forall i :: 0 <= i < |tab| ==> 0 <= tab[i].size <= Span(tab, i))
      && (0 <= Find(tab, va) < 3 <==> va < MainEnd(tab))
  {
    var tab := Sectab(mem, h, names).value;
    assert Sorted(tab) && (tab != [] ==> tab[0].va == 0);
    hide Sectab;
    SizesFit(tab);
    forall i, j | 0 <= i < j < |tab|
      ensures tab[i].va + Span(tab, i) <= tab[j].va && tab[i].va + tab[i].size < LIMIT
    {
      SpansInOrder(tab, i, j);
    }
    MainsTile(tab, va);
  }

  lemma MainsTile(tab: seq<Section>, va: Word)
    requires Sorted(tab) && (tab != [] ==> tab[0].va == 0)
    ensures 0 <= Find(tab, va) < 3 <==> va < MainEnd(tab)
  {
    if 0 <= Find(tab, va) < 3 {
      var k := Find(tab, va);
      hide FindFrom;
      if k < 2 && k + 1 < |tab| { SpansInOrder(tab, k, if |tab| >= 3 then 2 else |tab| - 1); }
    } else if va < MainEnd(tab) {
      var k := if |tab| >= 2 && va >= tab[1].va then if |tab| >= 3 && va >= tab[2].va then 2 else 1 else 0;
      FindFromHits(tab, va, 0, k);
    }
  }

  lemma SizesFit(tab: seq<Section>)
    requires Sorted(tab)
    ensures forall i :: 0 <= i < |tab| ==> tab[i].size <= Span(tab, i)
    ensures forall i :: 0 <= i < |tab| - 1 ==> tab[i].va + tab[i].size < LIMIT
  {
    forall i | 0 <= i < |tab| - 1
      ensures tab[i].size <= Span(tab, i) && tab[i].va + tab[i].size < LIMIT
    {
      assert Follows(tab[i], tab[i + 1]);
    }
  }
}
