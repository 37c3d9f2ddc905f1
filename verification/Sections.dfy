// The section table: validation (get_sectab) and the link-address map (sect_find_by_va).

module Sections {
  import opened Words
  import opened Strings
  import opened Image

  const NO_SECTION := Section(0, 0, 0, 4, CODE, 0)

  /** Entry `i`, total so that address arithmetic needs no side conditions. */
  function Sec(tab: seq<Section>, i: int): Section {
    if 0 <= i < |tab| then tab[i] else NO_SECTION
  }

  predicate IsMain(e: Section) { e.flags / 0x8000_0000 == 1 }

  /** Allocator flags: MAIN and the reserved bits 23:16 never reach the host. */
  function HostFlags(e: Section): Word {
    var low := e.flags % 0x8000_0000;
    low / 0x100_0000 * 0x100_0000 + low % 0x1_0000
  }

  /** A mask of two parts finds the bits of each part. */
  lemma {:induction false} AndParts(x: int, hi: int, lo: int, n: int)
    requires x >= 0 && hi >= 0 && IsPow2(n) && 0 <= lo < n
    ensures And(x, hi * n + lo) == And(x / n, hi) * n + And(x % n, lo)
    decreases n
  {
    hide And;
    if n == 1 {
      AndZero(x % 1);
    } else {
      var h := n / 2;
      AndParts(x / 2, hi, lo / 2, h);
      Halved(x, hi, lo, h);
      AndBit(x, hi * n + lo);
      AndBit(x % n, lo);
      var a, b := And(x / n, hi), And(x / 2 % h, lo / 2);
      assert And(x / 2, hi * h + lo / 2) == a * h + b && 2 * (a * h) == a * n;
    }
  }

  lemma AndBit(a: int, b: int)
    requires a >= 0 && b >= 0
    ensures And(a, b) == 2 * And(a / 2, b / 2) + (if a % 2 == 1 && b % 2 == 1 then 1 else 0)
  {
    if a == 0 || b == 0 {
      assert And(a / 2, b / 2) == 0;
    }
  }

  lemma Halved(x: int, hi: int, lo: int, h: int)
    requires x >= 0 && hi >= 0 && h >= 1 && 0 <= lo < 2 * h
    ensures var n := 2 * h;
      && (hi * n + lo) / 2 == hi * h + lo / 2 && (hi * n + lo) % 2 == lo % 2
      && x / 2 / h == x / n && x % n / 2 == x / 2 % h && x % n % 2 == x % 2
      && forall a :: 2 * (a * h) == a * n
  {
    var n := 2 * h;
    assert hi * n + lo == 2 * (hi * h) + lo by { DoubleProduct(hi, h); }
    DivisionEquation(x, n);
    DivisionEquation(x / 2, h);
    var q, r := x / n, x % n;
    assert q * n == 2 * (q * h) by { DoubleProduct(q, h); }
    assert x / 2 == q * h + r / 2;
    DivideUnique(x / 2, h, q, r / 2);
    forall a
      ensures 2 * (a * h) == a * n
    {
      DoubleProduct(a, h);
    }
  }

  /** `flags & ~(MAIN | 0x00FF0000)`. */
  lemma HostFlagsMask(e: Section)
    ensures HostFlags(e) == And(e.flags, 0x7F00_FFFF)
  {
    hide And, IsPow2;
    var x: int := e.flags;
    PowersOfTwo();
    AndParts(x, 0x7F00, 0xFFFF, 0x1_0000);
    AndParts(x / 0x1_0000, 0x7F, 0, 0x100);
    AndIsRemainder(x % 0x1_0000, 0x1_0000);
    AndIsRemainder(x / 0x1_0000 / 0x100, 0x80);
    AndZero(x / 0x1_0000 % 0x100);
    HostParts(x);
  }

  lemma HostParts(x: Word)
    ensures x / 0x1_0000 / 0x100 == x / 0x100_0000 && x % 0x8000_0000 / 0x100_0000 == x / 0x100_0000 % 0x80
    ensures x % 0x8000_0000 % 0x1_0000 == x % 0x1_0000
  {}

  lemma AndZero(x: int)
    ensures And(x, 0) == 0
  {}

  lemma PowersOfTwo()
    ensures IsPow2(0x1_0000) && IsPow2(0x100) && IsPow2(0x80)
  {
    assert IsPow2(1) && IsPow2(2) && IsPow2(4) && IsPow2(8) && IsPow2(16) && IsPow2(32) && IsPow2(64) && IsPow2(128) && IsPow2(256);
    assert IsPow2(512) && IsPow2(1024) && IsPow2(2048) && IsPow2(4096) && IsPow2(8192) && IsPow2(16384) && IsPow2(32768);
  }

  /** The allocator is given a tagged section's flags as they are in an accepted table. */
  lemma HostFlagsKept(e: Section, i: nat)
    requires EntryOk(e, i) && i >= 3
    ensures HostFlags(e) == e.flags
  {
    hide IsPow2;
  }

  // ----- what get_sectab accepts -----

  predicate EntryOk(e: Section, i: nat) {
    && e.align >= 4 && IsPow2(e.align)
    && e.size % 4 == 0
    && e.cls <= BSS
    && e.flags / 0x1_0000 % 0x100 == 0
    && (if i < 3 then IsMain(e) && e.cls == i else !IsMain(e) && e.nameOff != 0)
  }

  predicate NameOk(e: Section, pool: seq<Byte>) {
    e.nameOff == 0 || (e.nameOff < |pool| && HasNul(pool, e.nameOff))
  }

  predicate HeaderOk(hdr: Header) {
    && hdr.flags < 0x100
    && hdr.version >= 0x301
    && NumSections(hdr) > 0
    && hdr.symtSize <= MAX_IMAGE_SIZE
  }

  /** align_up_u32: the sum is taken in 64 bits, the result cast to 32; the mask for 0 is 0. */
  function AlignUp32(x: int, align: int): Word {
    if align == 0 then 0 else Wrap(AlignUp(x, align))
  }

  predicate MainsMatch(hdr: Header, text: Section, data: Section, bss: Section) {
    var dataVa := AlignUp32(hdr.codeSize, data.align);
    && text.size == dataVa
    && data.va == dataVa && data.size == hdr.dataSize
    && bss.va == AlignUp32(dataVa + hdr.dataSize, bss.align) && bss.size == hdr.bssSize
  }

  predicate Follows(prev: Section, e: Section) { prev.va + prev.size <= e.va }

  predicate EntriesOk(tab: seq<Section>, pool: seq<Byte>, names: bool) {
    && (forall i :: 0 <= i < |tab| ==> EntryOk(tab[i], i))
    && (names ==> forall i :: 0 <= i < |tab| ==> NameOk(tab[i], pool))
    && (|tab| > 0 ==> tab[0].va == 0)
    && (forall i :: 0 < i < |tab| ==> Follows(tab[i - 1], tab[i]))
  }

  function Entries(mem: seq<Word>, h: nat, hdr: Header, n: nat): (tab: seq<Section>)
    ensures |tab| == n
  {
    seq(n, (i: int) requires 0 <= i => SectionAt(mem, h, hdr, i))
  }

  /** The table of the image at word `h`, or None when it is rejected; [] without section placement. */
  function Sectab(mem: seq<Word>, h: nat, names: bool): Option<seq<Section>> {
    var hdr := HeaderAt(mem, h);
    if !IsSectioned(hdr) then
      if hdr.flags / 2 % 128 == 0 then Some([]) else None
    else if !HeaderOk(hdr) then None
    else
      var tab := Entries(mem, h, hdr, NumSections(hdr));
      var main := Entries(mem, h, hdr, 3);
      if !EntriesOk(tab, Pool(SymtWords(mem, h, hdr), hdr.symtSize), names)
         || !MainsMatch(hdr, main[0], main[1], main[2]) then None
      else Some(tab)
  }

  /** The checks on one entry, in the order the loop body makes them. */
  method CheckEntry(e: Section, i: nat, pool: seq<Byte>, names: bool) returns (ok: bool)
    ensures ok <==> EntryOk(e, i) && (names ==> NameOk(e, pool))
  {
    if e.align < 4 {
      return false;
    }
    PowerOfTwoTest(e.align);
    if And(e.align, e.align - 1) != 0 || e.size % 4 != 0 || e.cls > BSS || e.flags / 0x1_0000 % 0x100 != 0 {
      return false;
    }
    if i < 3 {
      if !IsMain(e) || e.cls != i {
        return false;
      }
    } else if IsMain(e) || e.nameOff == 0 {
      return false;
    }
    return !names || e.nameOff == 0 || (e.nameOff < |pool| && HasNul(pool, e.nameOff));
  }

  /** udynlink.c get_sectab: one pass over the entries, then the main sections against the header. */
  method GetSectab(mem: array<Word>, h: nat, names: bool) returns (res: Option<seq<Section>>)
    ensures res == Sectab(mem[..], h, names)
  {
    var hdr := HeaderAt(mem[..], h);
    if !IsSectioned(hdr) {
      return if hdr.flags / 2 % 128 != 0 then None else Some([]);
    }
    if hdr.flags >= 0x100 || hdr.version < 0x301 {
      return None;
    }
    var num := NumSections(hdr);
    if num == 0 || hdr.symtSize > MAX_IMAGE_SIZE {
      return None;
    }
    var pool := Pool(SymtWords(mem[..], h, hdr), hdr.symtSize);
    var ok, tab := ScanEntries(mem, h, hdr, num, pool, names);
    // Entries 0..2 are read whatever the count is.
    var text, data, bss := SectionAt(mem[..], h, hdr, 0), SectionAt(mem[..], h, hdr, 1), SectionAt(mem[..], h, hdr, 2);
    if !ok || !MainsMatch(hdr, text, data, bss) {
      return None;
    }
    return Some(tab);
  }

  method ScanEntries(mem: array<Word>, h: nat, hdr: Header, num: nat, pool: seq<Byte>, names: bool)
    returns (ok: bool, tab: seq<Section>)
    ensures ok <==> EntriesOk(Entries(mem[..], h, hdr, num), pool, names)
    ensures ok ==> tab == Entries(mem[..], h, hdr, num)
  {
    hide EntryOk, NameOk, Follows, Pool;
    ghost var all := Entries(mem[..], h, hdr, num);
    tab := [];
    for i := 0 to num
      invariant tab == all[..i] && EntriesOk(tab, pool, names)
    {
      var e := SectionAt(mem[..], h, hdr, i);
      assert e == all[i];
      ok := CheckEntry(e, i, pool, names);
      if !ok {
        return;
      }
      if i == 0 {
        if e.va != 0 {
          ok := false;
          return;
        }
      } else if !Follows(tab[i - 1], e) {
        assert !Follows(all[i - 1], all[i]);
        ok := false;
        return;
      }
      tab := tab + [e];
    }
    assert all[..num] == all;
    ok := true;
  }
}
