// The bit fields of the format. The model reads them with quotients and remainders; here they are shown to be
// what the masks and shifts of the C code read.

module Masks {
  import opened Words
  import opened Image
  import opened Sections
  import opened Relocation
  import Trie = TrieIndex

  /** A power of two, by doubling. */
  function Power(k: nat): (n: nat)
    ensures n > 0
  {
    if k == 0 then 1 else 2 * Power(k - 1)
  }

  lemma {:induction false} PowerIsPow2(k: nat)
    ensures IsPow2(Power(k))
    decreases k
  {
    if k == 0 {
    } else {
      PowerIsPow2(k - 1);
    }
  }

  lemma SomePowers()
    ensures Power(1) == 2 && Power(3) == 8 && Power(7) == 0x80 && Power(8) == 0x100 && Power(27) == 0x800_0000
    ensures Power(30) == 0x4000_0000 && Power(31) == 0x8000_0000
  {
    assert Power(4) == 16 && Power(8) == 256 && Power(12) == 0x1000 && Power(16) == 0x1_0000 && Power(20) == 0x10_0000;
    assert Power(24) == 0x100_0000 && Power(28) == 0x1000_0000;
  }

  /** One bit. */
  lemma BitByMask(x: nat, k: nat)
    ensures And(x, Power(k)) != 0 <==> x / Power(k) % 2 == 1
  {
    hide And, IsPow2, Power;
    PowerIsPow2(k);
    OneBit(x, Power(k));
  }

  lemma OneBit(x: nat, n: nat)
    requires IsPow2(n)
    ensures n > 0 && (And(x, n) != 0 <==> x / n % 2 == 1)
  {
    hide And, IsPow2;
    AndIsRemainder(x, n);
    AndParts(x, 1, 0, n);
    AndZero(x % n);
    assert And(x / n, 1) == x / n % 2 by { TwoIsPow2(); AndIsRemainder(x / n, 2); }
    var bit := And(x / n, 1);
    assert 1 * n + 0 == n && (bit == 0 || bit == 1);
  }

  lemma TwoIsPow2()
    ensures IsPow2(2) && IsPow2(0x80)
  {
    assert IsPow2(1) && IsPow2(2) && IsPow2(4) && IsPow2(8) && IsPow2(16) && IsPow2(32) && IsPow2(64);
  }

  lemma LowBitsByMask(x: nat, width: nat)
    ensures And(x, Power(width) - 1) == x % Power(width)
  {
    hide And, IsPow2;
    PowerIsPow2(width);
    AndIsRemainder(x, Power(width));
  }

  /** Kind, location and name offset of a symbol's first word. */
  lemma SymbolMasks(symt: seq<Word>, size: nat, idx: nat)
    requires SymAt(symt, size, idx).Some?
    ensures var (sym, word) := (SymAt(symt, size, idx).value, At(symt, 2 * idx + 1)); var info := word / 0x800_0000;
      && sym.kind == SymKind(word) == And(info, 0x07)
      && (sym.inCode <==> And(info, 0x08) != 0)
      && NameOffset(word) == And(word, 0x07FF_FFFF)
  {
    hide And, Power, At, Pool;
    SomePowers();
    var word := At(symt, 2 * idx + 1);
    LowBitsByMask(word / 0x800_0000, 3);
    BitByMask(word / 0x800_0000, 3);
    LowBitsByMask(word, 27);
    assert word / 0x800_0000 / 8 == word / 0x4000_0000;
  }

  lemma SectionMasks(e: Section)
    ensures IsMain(e) <==> And(e.flags, 0x8000_0000) != 0
  {
    hide And, Power;
    SomePowers();
    BitByMask(e.flags, 31);
  }

  /** The table's flag and its count of sections. */
  lemma HeaderMasks(hdr: Header)
    ensures IsSectioned(hdr) <==> And(hdr.flags, 0x0001) != 0
    ensures IsSectioned(hdr) && And(hdr.flags, 0x00FE) / 2 <= MAX_SECTIONS ==> NumSections(hdr) == And(hdr.flags, 0x00FE) / 2
    ensures !IsSectioned(hdr) || And(hdr.flags, 0x00FE) / 2 > MAX_SECTIONS ==> NumSections(hdr) == 0
  {
    hide And, Power;
    SomePowers();
    assert Power(0) == 1 by { PowerZero(); }
    BitByMask(hdr.flags, 0);
    CountByMask(hdr.flags);
  }

  lemma CountByMask(flags: nat)
    ensures And(flags, 0x00FE) / 2 == flags / 2 % 128
  {
    hide And, IsPow2;
    TwoIsPow2();
    AndParts(flags, 0x7F, 0, 2);
    AndZero(flags % 2);
    AndIsRemainder(flags / 2, 0x80);
  }

  lemma PowerZero()
    ensures Power(0) == 1
  {}

  /** The two forms of an in-place relocation. */
  lemma RelocationMasks(rel: Rel)
    ensures DataForm(rel) <==> And(rel.value, 0x8000_0000) != 0
    ensures CodeForm(rel) <==> And(rel.value, 0x8000_0000) == 0 && And(rel.value, 0x4000_0000) != 0
    ensures rel.value % 0x8000_0000 == And(rel.value, 0x7FFF_FFFF)
  {
    hide And, Power;
    SomePowers();
    BitByMask(rel.value, 31);
    BitByMask(rel.value, 30);
    LowBitsByMask(rel.value, 31);
  }

  /** Character and leaf flag of a trie node. */
  lemma TrieMasks(t: Trie.Table, i: nat)
    requires i < |t.nodes|
    ensures Trie.Char(t, i) == And(t.nodes[i].chFlags, 0xFF)
    ensures Trie.IsLeaf(t, i) <==> And(t.nodes[i].chFlags, 0x0100) != 0
  {
    hide And, Power;
    SomePowers();
    LowBitsByMask(t.nodes[i].chFlags, 8);
    BitByMask(t.nodes[i].chFlags, 8);
  }
}
