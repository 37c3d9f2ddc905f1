// One format, two readers: the parser decodes bytes, the loader decodes the words that these bytes are in
// little-endian memory. They read the same header, relocations, symbols, sections and payloads.

module Formats {
  import opened Words
  import opened Strings
  import opened Bytes
  import opened Image
  import opened Sections
  import opened Layout
  import opened Relocation
  import opened Renaming
  import opened Memory
  import opened Ownership
  import opened Tagged
  import C = Codec

  // ----- bytes and words -----

  predicate WordIs(m: seq<Word>, h: nat, b: seq<Byte>, i: nat)
    requires i < |b| / 4
  {
    At(m, h + i) == Le32(b, 4 * i)
  }

  /** The words of m from h on are the bytes b, little-endian. */
  predicate Stored(m: seq<Word>, h: nat, b: seq<Byte>) {
    forall i: nat :: i < |b| / 4 ==> WordIs(m, h, b, i)
  }

  lemma IndexedWord(m: seq<Word>, h: nat, b: seq<Byte>, k: nat)
    requires Stored(m, h, b) && 4 * k + 4 <= |b|
    ensures At(m, h + k) == Le32(b, 4 * k)
  {
    hide Le32;
    assert WordIs(m, h, b, k);
  }

  lemma WordAt(m: seq<Word>, h: nat, b: seq<Byte>, off: nat)
    requires Stored(m, h, b) && off % 4 == 0 && off + 4 <= |b|
    ensures At(m, h + off / 4) == Le32(b, off)
  {
    WordBehind(m, h, b, off, 0);
  }

  lemma WordBehind(m: seq<Word>, h: nat, b: seq<Byte>, off: nat, k: nat)
    requires Stored(m, h, b) && off % 4 == 0 && off + 4 * k + 4 <= |b|
    ensures At(m, h + off / 4 + k) == Le32(b, off + 4 * k)
  {
    hide Le32, Stored, At;
    var w := off / 4;
    assert off == 4 * w;
    IndexedWord(m, h, b, w + k);
  }

  /** Byte j of a little-endian word. */
  function ByteNo(w: int, j: nat): int {
    (if j == 0 then w else if j == 1 then w / 0x100 else if j == 2 then w / 0x10000 else w / 0x1000000) % 256
  }

  lemma ByteOfWord(b: seq<Byte>, i: nat, j: nat)
    requires i + 4 <= |b| && j < 4
    ensures ByteNo(Le32(b, i), j) == b[i + j]
  {
    var x0: int, x1: int, x2: int, x3: int := b[i], b[i + 1], b[i + 2], b[i + 3];
    assert (Le32(b, i) as int) == x0 + 256 * x1 + 65536 * x2 + 16777216 * x3;
    BytesOfSum(x0, x1, x2, x3);
  }

  lemma BytesOfSum(x0: int, x1: int, x2: int, x3: int)
    requires 0 <= x0 < 256 && 0 <= x1 < 256 && 0 <= x2 < 256 && 0 <= x3 < 256
    ensures var w := x0 + 256 * x1 + 65536 * x2 + 16777216 * x3;
      w % 256 == x0 && w / 0x100 % 256 == x1 && w / 0x10000 % 256 == x2 && w / 0x1000000 % 256 == x3
  {
    var w := x0 + 256 * x1 + 65536 * x2 + 16777216 * x3;
    assert w == x0 + 256 * (x1 + 256 * x2 + 65536 * x3);
    assert w / 256 == x1 + 256 * x2 + 65536 * x3;
    assert w == (x0 + 256 * x1) + 65536 * (x2 + 256 * x3);
    assert w / 65536 == x2 + 256 * x3;
    assert w / 16777216 == x3;
  }

  // ----- the header -----

  lemma HeadersAgree(m: seq<Word>, h: nat, b: seq<Byte>)
    requires Stored(m, h, b) && |b| >= C.HEADER_SIZE
    ensures var (hdr, parsed) := (HeaderAt(m, h), C.UnpackHeader(b));
      && hdr.version == parsed.version && hdr.numLot == parsed.numLot && hdr.numRels == parsed.numRels && hdr.flags == parsed.flags
      && hdr.symtSize == parsed.symtSize && hdr.codeSize == parsed.codeSize && hdr.dataSize == parsed.dataSize
      && hdr.bssSize == parsed.bssSize && (hdr.sign == SIGN <==> parsed.sign == C.SIGNATURE)
  {
    WordAt(m, h, b, 0);
    WordAt(m, h, b, 4);
    WordAt(m, h, b, 8);
    WordAt(m, h, b, 12);
    WordAt(m, h, b, 16);
    WordAt(m, h, b, 20);
    WordAt(m, h, b, 24);
    WordAt(m, h, b, 28);
    SignatureWord(b);
    Halves(b, 4);
    Halves(b, 8);
    Halves(b, 12);
    hide Le32, Le16, Stored;
  }

  lemma Halves(b: seq<Byte>, i: nat)
    requires i + 4 <= |b|
    ensures Le32(b, i) % 0x10000 == Le16(b, i) && Le32(b, i) / 0x10000 == Le16(b, i + 2)
  {}

  lemma SignatureWord(b: seq<Byte>)
    requires |b| >= 4
    ensures Le32(b, 0) == SIGN <==> b[0..4] == C.SIGNATURE
  {
    assert b[0..4] == [b[0], b[1], b[2], b[3]];
    var x0: int, x1: int, x2: int, x3: int := b[0], b[1], b[2], b[3];
    assert (Le32(b, 0) as int) == x0 + 256 * x1 + 65536 * x2 + 16777216 * x3;
    BytesOfSum(x0, x1, x2, x3);
  }

  /** The headers that the parser accepts, in the loader's terms: the signature, a header of 32 bytes, no flag
      beyond the table's, and for a table what the loader asks except that it caps the symbol table. */
  lemma HeaderVerdicts(m: seq<Word>, h: nat, b: seq<Byte>)
    requires Stored(m, h, b) && |b| >= C.HEADER_SIZE
    ensures var hdr := HeaderAt(m, h);
      C.HeaderAccepted(C.UnpackHeader(b)) <==>
        && hdr.sign == SIGN && HeaderSize(hdr) == C.HEADER_SIZE && hdr.flags < 0x100
        && (if IsSectioned(hdr) then HeaderOk(hdr.(symtSize := 0)) else Sectab(m, h, true) == Some([]))
  {
    HeadersAgree(m, h, b);
    hide C.UnpackHeader, HeaderAt, Stored, EntriesOk, Entries, MainsMatch, SymtWords, Pool;
  }

  /** Where everything is, in the parser's terms. */
  lemma Places(m: seq<Word>, h: nat, b: seq<Byte>)
    requires Stored(m, h, b) && |b| >= C.HEADER_SIZE && C.HeaderAccepted(C.UnpackHeader(b))
    ensures var (hdr, parsed) := (HeaderAt(m, h), C.UnpackHeader(b));
      && HeaderSize(hdr) == 32 && SymtabOffset(hdr) == C.SymtabOffset(parsed) && SectabOffset(hdr) == C.SectabOffset(parsed)
      && NumSections(hdr) == C.NumSections(parsed) && CodeOffset(hdr) == C.CodeOffset(parsed)
      && IsSectioned(hdr) == C.HasSections(parsed)
      && C.SymtabOffset(parsed) == 32 + 8 * parsed.numRels && C.SymtabOffset(parsed) % 4 == 0
      && C.SymtabOffset(parsed) + parsed.symtSize <= C.SectabOffset(parsed) && C.SectabOffset(parsed) % 4 == 0
      && C.CodeOffset(parsed) == C.SectabOffset(parsed) + 24 * C.NumSections(parsed)
  {
    HeadersAgree(m, h, b);
    C.GeometryAgrees(C.UnpackHeader(b), HeaderAt(m, h));
    C.CodeFollowsTable(C.UnpackHeader(b));
    hide C.UnpackHeader, HeaderAt, Stored;
  }

  // ----- relocations -----

  lemma {:induction false} RelocAt(x: seq<Byte>, i: nat)
    requires 8 * i + 8 <= |x|
    ensures i < |C.UnpackRelocs(x)| && C.UnpackRelocs(x)[i] == C.Reloc(Le32(x, 8 * i), Le32(x, 8 * i + 4))
    decreases i
  {
    hide Le32;
    if i == 0 {
    } else {
      RelocAt(x[8..], i - 1);
      C.SubWord(x, 8, |x|, 8 * (i - 1));
      C.SubWord(x, 8, |x|, 8 * (i - 1) + 4);
      assert x[8..|x|] == x[8..];
    }
  }

  lemma RelocWords(m: seq<Word>, h: nat, b: seq<Byte>, end: nat, i: nat)
    requires Stored(m, h, b) && 32 + 8 * i + 8 <= end <= |b|
    ensures At(m, h + 8 + 2 * i) == Le32(b[32..end], 8 * i) && At(m, h + 8 + 2 * i + 1) == Le32(b[32..end], 8 * i + 4)
  {
    hide Le32, Stored, At;
    C.SubWord(b, 32, end, 8 * i);
    C.SubWord(b, 32, end, 8 * i + 4);
    IndexedWord(m, h, b, 8 + 2 * i);
    IndexedWord(m, h, b, 8 + 2 * i + 1);
  }

  lemma RelocsAgree(m: seq<Word>, h: nat, b: seq<Byte>, i: nat)
    requires Stored(m, h, b) && C.Accepts(b) && i < HeaderAt(m, h).numRels
    ensures i < |C.Parse(b).relocs|
    ensures var (rel, parsed) := (RelAt(m, h, HeaderAt(m, h), i), C.Parse(b).relocs[i]);
      parsed.lotOffset == rel.lotOffset && parsed.value == rel.value
  {
    hide Le32, Stored, C.UnpackHeader, HeaderAt, C.CodeOffset, C.SectabOffset, C.SymtabOffset, C.Parse, C.UnpackRelocs, C.NumSections, C.Accepts,
      SectabOffset, CodeOffset, NumSections, SymtabOffset, HeaderSize, C.HeaderAccepted, C.HasSections, At;
    AcceptedBasics(b);
    HeadersAgree(m, h, b);
    Places(m, h, b);
    C.ParsedFields(b);
    var parsed := C.UnpackHeader(b);
    var x := b[C.HEADER_SIZE..C.SymtabOffset(parsed)];
    RelocAt(x, i);
    RelocWords(m, h, b, C.SymtabOffset(parsed), i);
  }

  lemma AcceptedBasics(b: seq<Byte>)
    requires C.Accepts(b)
    ensures |b| >= C.HEADER_SIZE && C.HeaderAccepted(C.UnpackHeader(b))
  {}

  // ----- the symbol table -----

  /** Byte k of the table's words. */
  lemma TableByte(m: seq<Word>, h: nat, b: seq<Byte>, hdr: Header, k: nat)
    requires Stored(m, h, b) && k < hdr.symtSize && SymtabOffset(hdr) % 4 == 0
    requires SymtabOffset(hdr) + hdr.symtSize <= SectabOffset(hdr) <= |b|
    ensures ByteOf(SymtWords(m, h, hdr), k) == b[SymtabOffset(hdr) + k]
  {
    var off, i, j := SymtabOffset(hdr), k / 4, k % 4;
    assert k == 4 * i + j && off + 4 * i + 4 <= SectabOffset(hdr);
    hide Le32, Stored, SymtabOffset, SectabOffset, At, LowBytes, ByteOf, ByteNo;
    WordBehind(m, h, b, off, i);
    ByteOfWord(b, off + 4 * i, j);
    var w, size := Le32(b, off + 4 * i), hdr.symtSize;
    var kept := if 4 * i + 4 <= size then w else LowBytes(w, size % 4);
    assert SymtWords(m, h, hdr)[i] == kept;
    ByteInWord(SymtWords(m, h, hdr), k, i, j, kept);
    if 4 * i + 4 > size {
      LowByte(w, size % 4, j);
    }
  }

  lemma ByteInWord(symt: seq<Word>, k: nat, i: nat, j: nat, w: Word)
    requires k == 4 * i + j && j < 4 && i < |symt| && symt[i] == w
    ensures ByteOf(symt, k) == ByteNo(w, j)
  {
    assert k / 4 == i && k % 4 == j;
  }

  lemma LowByte(w: Word, n: int, j: nat)
    requires 1 <= n < 4 && j < n
    ensures ByteNo(LowBytes(w, n), j) == ByteNo(w, j)
  {
    if n == 2 {
      LowHalf(w);
    } else if n == 3 {
      LowThree(w);
    }
  }

  lemma LowHalf(w: Word)
    ensures w % 0x1_0000 % 256 == w % 256 && w % 0x1_0000 / 0x100 % 256 == w / 0x100 % 256
  {
    var q, r := w / 0x1_0000, w % 0x1_0000;
    assert w == 0x1_0000 * q + r;
    assert w / 256 == 256 * q + r / 256;
  }

  lemma LowThree(w: Word)
    ensures w % 0x100_0000 % 256 == w % 256 && w % 0x100_0000 / 0x100 % 256 == w / 0x100 % 256
    ensures w % 0x100_0000 / 0x1_0000 % 256 == w / 0x1_0000 % 256
  {
    var q, r := w / 0x100_0000, w % 0x100_0000;
    assert w == 0x100_0000 * q + r;
    assert w / 256 == 0x1_0000 * q + r / 256;
    assert w / 0x1_0000 == 256 * q + r / 0x1_0000;
  }

  /** The loader's symbol table, as bytes, is the parser's. */
  lemma SymtabAgrees(m: seq<Word>, h: nat, b: seq<Byte>)
    requires Stored(m, h, b) && C.Accepts(b)
    ensures Pool(SymtWords(m, h, HeaderAt(m, h)), HeaderAt(m, h).symtSize) == C.Parse(b).symtab
  {
    hide Le32, Stored, C.UnpackHeader, HeaderAt, C.CodeOffset, C.SectabOffset, C.SymtabOffset, C.Parse, C.NumSections, C.Accepts,
      SectabOffset, CodeOffset, NumSections, SymtabOffset, HeaderSize, ByteOf, SymtWords;
    AcceptedBasics(b);
    HeadersAgree(m, h, b);
    Places(m, h, b);
    C.ParsedFields(b);
    var hdr, symtab := HeaderAt(m, h), C.Parse(b).symtab;
    forall k | 0 <= k < hdr.symtSize
      ensures ByteOf(SymtWords(m, h, hdr), k) == symtab[k]
    {
      TableByte(m, h, b, hdr, k);
    }
    assert |symtab| == hdr.symtSize;
  }

  lemma {:induction false} SymbolsAt(symtab: seq<Byte>, i: nat, k: nat)
    requires k <= i
    ensures k + |C.SymbolsFrom(symtab, k)| > i <==> i < C.SymbolCount(symtab) && 12 + 8 * i <= |symtab|
    ensures i < C.SymbolCount(symtab) && 12 + 8 * i <= |symtab| ==> C.SymbolsFrom(symtab, k)[i - k] == C.SymbolFrom(symtab, i)
    decreases |symtab| - 8 * k
  {
    hide Le32, C.SymbolFrom;
    if k >= C.SymbolCount(symtab) || 4 + 8 * k + 8 > |symtab| {
    } else if k < i {
      SymbolsAt(symtab, i, k + 1);
    } else {
      SymbolsBehind(symtab, k + 1);
    }
  }

  lemma SymbolsBehind(symtab: seq<Byte>, k: nat)
    ensures |C.SymbolsFrom(symtab, k)| >= 0
  {}

  /** Word i of the table. */
  lemma TableWord(m: seq<Word>, h: nat, b: seq<Byte>, i: nat)
    requires Stored(m, h, b) && C.Accepts(b) && 4 * i + 4 <= HeaderAt(m, h).symtSize
    ensures |C.Parse(b).symtab| == HeaderAt(m, h).symtSize
    ensures At(SymtWords(m, h, HeaderAt(m, h)), i) == Le32(C.Parse(b).symtab, 4 * i)
  {
    hide Le32, Stored, C.UnpackHeader, HeaderAt, C.CodeOffset, C.SectabOffset, C.SymtabOffset, C.Parse, C.NumSections, C.Accepts,
      SectabOffset, CodeOffset, NumSections, SymtabOffset, HeaderSize;
    AcceptedBasics(b);
    HeadersAgree(m, h, b);
    Places(m, h, b);
    C.ParsedFields(b);
    var hdr, off := HeaderAt(m, h), SymtabOffset(HeaderAt(m, h));
    C.SubWord(b, off, off + hdr.symtSize, 4 * i);
    WordBehind(m, h, b, off, i);
  }

  /** The name the parser reports, from the loader's reading of entry i. */
  function ParsedName(symt: seq<Word>, i: nat, sym: Symbol): Option<seq<Byte>> {
    if sym.kind == INTERNAL || At(symt, 2 * i + 1) == 0xFFFF_FFFF then None else Some(sym.name)
  }

  /** Entry i of the symbol table: the loader reads it exactly if the parser does, it is not a first entry of
      another kind than the module's name, and its name, if it has one, begins inside the table; then kind,
      location, value and name are the same. */
  lemma SymbolsAgree(m: seq<Word>, h: nat, b: seq<Byte>, i: nat)
    requires Stored(m, h, b) && C.Accepts(b)
    ensures var symt, size, symbols := SymtWords(m, h, HeaderAt(m, h)), HeaderAt(m, h).symtSize, C.Parse(b).symbols;
      && (SymAt(symt, size, i).Some? <==>
            && i < |symbols| && (i == 0 ==> symbols[i].kind == MODULE_NAME)
            && (symbols[i].kind != INTERNAL ==> symbols[i].nameOff % 0x800_0000 < size))
      && (SymAt(symt, size, i).Some? ==>
            var sym := SymAt(symt, size, i).value;
            && symbols[i].kind == sym.kind && symbols[i].inCode == sym.inCode && symbols[i].val == sym.val
            && symbols[i].name == ParsedName(symt, i, sym))
  {
    hide Le32, Stored, HeaderAt, C.Accepts, SymtWords, Pool, CStr, C.SymbolsFrom;
    ParsedSymbols(b);
    SymtabAgrees(m, h, b);
    var symt, size, symtab := SymtWords(m, h, HeaderAt(m, h)), HeaderAt(m, h).symtSize, C.Parse(b).symtab;
    hide C.Parse;
    SymbolsAt(symtab, i, 0);
    assert |Pool(symt, size)| == size by { PoolLength(symt, size); }
    if size >= 4 { TableWord(m, h, b, 0); }
    if 12 + 8 * i <= size {
      TableWord(m, h, b, 2 * i + 1);
      TableWord(m, h, b, 2 * i + 2);
      assert 4 * (2 * i + 1) == 4 + 8 * i && 4 * (2 * i + 2) == 8 + 8 * i;
    }
  }

  lemma PoolLength(symt: seq<Word>, size: nat)
    ensures |Pool(symt, size)| == size
  {}

  lemma ParsedSymbols(b: seq<Byte>)
    requires C.Accepts(b)
    ensures C.Parse(b).symbols == C.SymbolsFrom(C.Parse(b).symtab, 0)
  {}

  // ----- the section table -----

  lemma {:induction false} SectionOf(x: seq<Byte>, symtab: seq<Byte>, i: nat)
    requires 24 * i + 24 <= |x|
    ensures i < |C.UnpackSections(x, symtab)|
    ensures var s := C.UnpackSections(x, symtab)[i]; var nameOff := Le32(x, 24 * i);
      && s.nameOff == nameOff && s.va == Le32(x, 24 * i + 4) && s.size == Le32(x, 24 * i + 8) && s.align == Le32(x, 24 * i + 12)
      && s.cls == Le32(x, 24 * i + 16) && s.flags == Le32(x, 24 * i + 20)
      && s.name == if nameOff == 0 then None else C.PoolName(symtab, nameOff)
    decreases i
  {
    hide Le32, C.PoolName;
    if i == 0 {
    } else {
      SectionOf(x[24..], symtab, i - 1);
      assert x[24..|x|] == x[24..];
      C.SubWord(x, 24, |x|, 24 * (i - 1));
      C.SubWord(x, 24, |x|, 24 * (i - 1) + 4);
      C.SubWord(x, 24, |x|, 24 * (i - 1) + 8);
      C.SubWord(x, 24, |x|, 24 * (i - 1) + 12);
      C.SubWord(x, 24, |x|, 24 * (i - 1) + 16);
      C.SubWord(x, 24, |x|, 24 * (i - 1) + 20);
    }
  }

  /** The bytes of a header that the parser accepts, and a section table behind it. */
  predicate Tabled(b: seq<Byte>) {
    && |b| >= C.HEADER_SIZE && C.HeaderAccepted(C.UnpackHeader(b)) && C.HasSections(C.UnpackHeader(b))
    && C.CodeOffset(C.UnpackHeader(b)) <= |b|
  }

  function ParsedTable(b: seq<Byte>): seq<C.Section>
    requires Tabled(b)
  {
    C.CodeFollowsTable(C.UnpackHeader(b));
    C.SectionsOf(b, C.UnpackHeader(b))
  }

  function ParsedPool(b: seq<Byte>): seq<Byte>
    requires Tabled(b)
  {
    C.CodeFollowsTable(C.UnpackHeader(b));
    b[C.SymtabOffset(C.UnpackHeader(b))..C.SymtabEnd(C.UnpackHeader(b))]
  }

  lemma ParsedTableIs(b: seq<Byte>)
    requires C.Accepts(b) && C.HasSections(C.UnpackHeader(b))
    ensures Tabled(b) && C.Parse(b).sections == ParsedTable(b) && C.Parse(b).symtab == ParsedPool(b)
  {
    C.CodeFollowsTable(C.UnpackHeader(b));
    hide C.CodeOffset, C.SectabOffset, C.UnpackHeader, C.SectionsOf, C.SymtabOffset, C.SymtabEnd, C.HeaderAccepted, C.TableAccepted, C.UnpackRelocs,
      C.SymbolsFrom, C.Cut, C.PayloadTotal;
  }

  /** Entry k of the section table: every field is the same, and so is the name. */
  lemma SectionsAgree(m: seq<Word>, h: nat, b: seq<Byte>, k: nat)
    requires Stored(m, h, b) && Tabled(b) && k < NumSections(HeaderAt(m, h))
    ensures |ParsedTable(b)| == NumSections(HeaderAt(m, h))
    ensures var (e, s) := (SectionAt(m, h, HeaderAt(m, h), k), ParsedTable(b)[k]);
      && s.nameOff == e.nameOff && s.va == e.va && s.size == e.size && s.align == e.align && s.cls == e.cls && s.flags == e.flags
      && s.name == if e.nameOff == 0 || e.nameOff >= |ParsedPool(b)| then None else Some(CStr(ParsedPool(b), e.nameOff))
  {
    hide Le32, Stored, C.UnpackHeader, HeaderAt, C.CodeOffset, C.SectabOffset, C.SymtabOffset, C.NumSections, C.UnpackSections,
      SectabOffset, CodeOffset, NumSections, SymtabOffset, HeaderSize, C.HeaderAccepted, C.HasSections, CStr;
    HeadersAgree(m, h, b);
    Places(m, h, b);
    var parsed := C.UnpackHeader(b);
    C.CodeFollowsTable(parsed);
    var off, end := C.SectabOffset(parsed), C.SectabOffset(parsed) + 24 * C.NumSections(parsed);
    var x := b[off..end];
    SectionOf(x, ParsedPool(b), k);
    assert ParsedTable(b) == C.UnpackSections(x, ParsedPool(b));
    EntryWords(m, h, b, off, end, k);
  }

  lemma EntryWords(m: seq<Word>, h: nat, b: seq<Byte>, off: nat, end: nat, k: nat)
    requires Stored(m, h, b) && off % 4 == 0 && off + 24 * k + 24 <= end <= |b|
    ensures var p := h + off / 4 + 6 * k;
      && At(m, p) == Le32(b[off..end], 24 * k) && At(m, p + 1) == Le32(b[off..end], 24 * k + 4)
      && At(m, p + 2) == Le32(b[off..end], 24 * k + 8) && At(m, p + 3) == Le32(b[off..end], 24 * k + 12)
      && At(m, p + 4) == Le32(b[off..end], 24 * k + 16) && At(m, p + 5) == Le32(b[off..end], 24 * k + 20)
  {
    EntryWord(m, h, b, off, end, k, 0);
    EntryWord(m, h, b, off, end, k, 1);
    EntryWord(m, h, b, off, end, k, 2);
    EntryWord(m, h, b, off, end, k, 3);
    EntryWord(m, h, b, off, end, k, 4);
    EntryWord(m, h, b, off, end, k, 5);
    hide Le32, Stored;
  }

  lemma EntryWord(m: seq<Word>, h: nat, b: seq<Byte>, off: nat, end: nat, k: nat, j: nat)
    requires Stored(m, h, b) && off % 4 == 0 && off + 24 * k + 24 <= end <= |b| && j < 6
    ensures At(m, h + off / 4 + 6 * k + j) == Le32(b[off..end], 24 * k + 4 * j)
  {
    hide Le32, Stored;
    C.SubWord(b, off, end, 24 * k + 4 * j);
    WordBehind(m, h, b, off, 6 * k + j);
  }

  // ----- what the two accept -----

  /** What the loader asks of a section table beyond what the parser does: the three main sections first and
      agreeing with the header, a name for every other one, terminated names, and not too many symbols. */
  predicate LoaderOnly(hdr: Header, tab: seq<Section>, mains: seq<Section>, pool: seq<Byte>) {
    && hdr.symtSize <= MAX_IMAGE_SIZE
    && (forall i :: 0 <= i < |tab| ==> if i < 3 then IsMain(tab[i]) && tab[i].cls == i else !IsMain(tab[i]) && tab[i].nameOff != 0)
    && (forall i :: 0 <= i < |tab| && tab[i].nameOff != 0 && tab[i].nameOff < |pool| ==> HasNul(pool, tab[i].nameOff))
    && (|tab| > 0 ==> tab[0].va == 0)
    && |mains| == 3 && MainsMatch(hdr, mains[0], mains[1], mains[2])
  }

  /** A table that the loader accepts the parser accepts, and the loader accepts one that the parser does exactly
      under these further conditions. */
  lemma TablesAgree(m: seq<Word>, h: nat, b: seq<Byte>)
    requires Stored(m, h, b) && Tabled(b)
    ensures var hdr := HeaderAt(m, h); var tab := Entries(m, h, hdr, NumSections(hdr));
      && (Sectab(m, h, true).Some? <==> C.TableAccepted(ParsedTable(b)) && LoaderOnly(hdr, tab, Entries(m, h, hdr, 3), ParsedPool(b)))
      && (Sectab(m, h, true).Some? ==> Sectab(m, h, true) == Some(tab))
  {
    hide Stored, C.UnpackHeader, HeaderAt, C.CodeOffset, C.SectabOffset, C.SymtabOffset, SectionAt, C.TableAccepted, ParsedTable, ParsedPool,
      SectabOffset, CodeOffset, SymtabOffset, HeaderSize, SymtWords, Pool, EntriesOk, MainsMatch, LoaderOnly, NumSections, Entries;
    var hdr := HeaderAt(m, h);
    var tab, pool := Entries(m, h, hdr, NumSections(hdr)), ParsedPool(b);
    HeadersAgree(m, h, b);
    Places(m, h, b);
    TablePool(m, h, b);
    SectionedHeader(C.UnpackHeader(b));
    forall k | 0 <= k < |tab|
      ensures k < |ParsedTable(b)| && SameEntry(tab[k], ParsedTable(b)[k], pool)
    {
      SectionsAgree(m, h, b, k);
      assert tab[k] == SectionAt(m, h, hdr, k) by { EntryIs(m, h, hdr, NumSections(hdr), k); }
    }
    SameLength(m, h, b);
    VerdictsAgree(hdr, tab, Entries(m, h, hdr, 3), ParsedTable(b), pool);
  }

  /** A table of one .text without the marker of main sections: the parser accepts it, no loader does. */
  lemma UnmarkedTable(hdr: Header, mains: seq<Section>, pool: seq<Byte>)
    ensures var (e, s) := (Section(0, 0, 4, 4, CODE, 0), C.Section(0, 0, 4, 4, CODE, 0, None));
      SameEntry(e, s, pool) && C.TableAccepted([s]) && !LoaderOnly(hdr, [e], mains, pool)
  {
    hide MainsMatch, HasNul;
    assert IsPow2(4) by { FourIsPow2(); }
    assert !IsMain(Section(0, 0, 4, 4, CODE, 0));
  }

  lemma EntryIs(m: seq<Word>, h: nat, hdr: Header, n: nat, k: nat)
    requires k < n
    ensures Entries(m, h, hdr, n)[k] == SectionAt(m, h, hdr, k)
  {
    hide SectionAt;
  }

  lemma SectionedHeader(parsed: C.Header)
    requires C.HeaderAccepted(parsed) && C.HasSections(parsed)
    ensures parsed.flags < 0x100 && parsed.version >= 0x301 && 1 <= C.NumSections(parsed)
  {}

  lemma SameLength(m: seq<Word>, h: nat, b: seq<Byte>)
    requires Stored(m, h, b) && Tabled(b)
    ensures |ParsedTable(b)| == NumSections(HeaderAt(m, h)) > 0
  {
    hide Stored, C.UnpackHeader, HeaderAt, C.CodeOffset, C.SectabOffset, C.SymtabOffset, NumSections, ParsedTable;
    Places(m, h, b);
    SectionedHeader(C.UnpackHeader(b));
    SectionsAgree(m, h, b, 0);
  }

  lemma TablePool(m: seq<Word>, h: nat, b: seq<Byte>)
    requires Stored(m, h, b) && Tabled(b)
    ensures Pool(SymtWords(m, h, HeaderAt(m, h)), HeaderAt(m, h).symtSize) == ParsedPool(b)
  {
    hide Le32, Stored, C.UnpackHeader, HeaderAt, C.CodeOffset, C.SectabOffset, C.SymtabOffset, C.NumSections,
      SectabOffset, CodeOffset, NumSections, SymtabOffset, HeaderSize, ByteOf, SymtWords, C.HeaderAccepted, C.HasSections, Pool;
    HeadersAgree(m, h, b);
    Places(m, h, b);
    PoolBytes(m, h, b, HeaderAt(m, h));
  }

  lemma PoolBytes(m: seq<Word>, h: nat, b: seq<Byte>, hdr: Header)
    requires Stored(m, h, b) && SymtabOffset(hdr) % 4 == 0 && SymtabOffset(hdr) + hdr.symtSize <= SectabOffset(hdr) <= |b|
    ensures Pool(SymtWords(m, h, hdr), hdr.symtSize) == b[SymtabOffset(hdr)..SymtabOffset(hdr) + hdr.symtSize]
  {
    hide Stored, SectabOffset, SymtabOffset, ByteOf, SymtWords;
    forall k | 0 <= k < hdr.symtSize
      ensures ByteOf(SymtWords(m, h, hdr), k) == b[SymtabOffset(hdr) + k]
    {
      TableByte(m, h, b, hdr, k);
    }
  }

  predicate SameEntry(e: Section, s: C.Section, pool: seq<Byte>) {
    && s.nameOff == e.nameOff && s.va == e.va && s.size == e.size && s.align == e.align && s.cls == e.cls && s.flags == e.flags
    && s.name == if e.nameOff == 0 || e.nameOff >= |pool| then None else Some(CStr(pool, e.nameOff))
  }

  lemma EntryVerdicts(e: Section, s: C.Section, pool: seq<Byte>, i: nat)
    requires SameEntry(e, s, pool)
    ensures EntryOk(e, i) && NameOk(e, pool) <==>
      && C.EntryAccepted(s)
      && (if i < 3 then IsMain(e) && e.cls == i else !IsMain(e) && e.nameOff != 0)
      && (e.nameOff != 0 && e.nameOff < |pool| ==> HasNul(pool, e.nameOff))
  {
    hide CStr, IsPow2, And;
    if e.align >= 4 {
      PowerOfTwoTest(e.align);
    }
  }

  lemma VerdictsAgree(hdr: Header, tab: seq<Section>, mains: seq<Section>, sections: seq<C.Section>, pool: seq<Byte>)
    requires |tab| == |sections| > 0 && |mains| == 3 && forall k :: 0 <= k < |tab| ==> SameEntry(tab[k], sections[k], pool)
    requires hdr.flags < 0x100 && hdr.version >= 0x301
    ensures hdr.symtSize <= MAX_IMAGE_SIZE && EntriesOk(tab, pool, true) && MainsMatch(hdr, mains[0], mains[1], mains[2])
      <==> C.TableAccepted(sections) && LoaderOnly(hdr, tab, mains, pool)
  {
    hide MainsMatch, CStr, HasNul, IsMain;
    forall k | 0 <= k < |tab|
      ensures EntryOk(tab[k], k) && NameOk(tab[k], pool) <==>
        && C.EntryAccepted(sections[k])
        && (if k < 3 then IsMain(tab[k]) && tab[k].cls == k else !IsMain(tab[k]) && tab[k].nameOff != 0)
        && (tab[k].nameOff != 0 && tab[k].nameOff < |pool| ==> HasNul(pool, tab[k].nameOff))
    {
      EntryVerdicts(tab[k], sections[k], pool, k);
    }
    forall k | 0 < k < |tab|
      ensures Follows(tab[k - 1], tab[k]) <==> sections[k - 1].va + sections[k - 1].size <= sections[k].va
    {
      assert SameEntry(tab[k - 1], sections[k - 1], pool) && SameEntry(tab[k], sections[k], pool);
    }
    hide EntryOk, NameOk, C.EntryAccepted, Follows, SameEntry;
  }

  // ----- payloads -----

  /** Payload bytes in front of section k. */
  function Before(sections: seq<C.Section>, k: nat): nat
    requires k <= |sections|
    decreases k
  {
    if k == 0 then 0 else C.PayloadSize(sections[0]) + Before(sections[1..], k - 1)
  }

  lemma {:induction false} BeforeStep(sections: seq<C.Section>, k: nat)
    requires k < |sections|
    ensures Before(sections, k + 1) == Before(sections, k) + C.PayloadSize(sections[k])
    decreases k
  {
    if k == 0 {
      assert Before(sections[1..], 0) == 0;
    } else {
      BeforeStep(sections[1..], k - 1);
    }
  }

  lemma {:induction false} CutAt(x: seq<Byte>, sections: seq<C.Section>, k: nat)
    requires |x| >= C.PayloadTotal(sections) && k < |sections|
    ensures Before(sections, k) + C.PayloadSize(sections[k]) <= C.PayloadTotal(sections)
    ensures C.Cut(x, sections)[k] == x[Before(sections, k)..Before(sections, k) + C.PayloadSize(sections[k])]
    decreases k
  {
    hide C.PayloadSize;
    if k == 0 {
      assert x[0..C.PayloadSize(sections[0])] == x[..C.PayloadSize(sections[0])];
    } else {
      var n := C.PayloadSize(sections[0]);
      CutAt(x[n..], sections[1..], k - 1);
      Behind(x, n, Before(sections[1..], k - 1), C.PayloadSize(sections[k]));
    }
  }

  lemma Behind(x: seq<Byte>, n: nat, from: nat, size: nat)
    requires n + from + size <= |x|
    ensures x[n..][from..from + size] == x[n + from..n + from + size]
  {}

  lemma {:induction false} OffsetsAgree(tab: seq<Section>, sections: seq<C.Section>, pool: seq<Byte>, k: nat)
    requires |tab| == |sections| && k <= |tab| && forall i :: 0 <= i < |tab| ==> SameEntry(tab[i], sections[i], pool)
    ensures PayloadOffset(tab, k) == Before(sections, k)
    decreases k
  {
    if k == 0 {
    } else {
      OffsetsAgree(tab, sections, pool, k - 1);
      BeforeStep(sections, k - 1);
      assert SameEntry(tab[k - 1], sections[k - 1], pool);
    }
  }

  /** A word of a section's payload is what the loader reads for that section from the image at 4 * h. */
  lemma PayloadsAgree(m: seq<Word>, h: nat, b: seq<Byte>, img: Image, k: nat, off: nat)
    requires Stored(m, h, b) && C.Accepts(b) && C.HasSections(C.UnpackHeader(b))
    requires ImageAt(m, 4 * h) == Some(img) && ValidTable(img.tab)
    requires k < |img.tab| && img.tab[k].cls != BSS && off % 4 == 0 && off + 4 <= img.tab[k].size
    ensures k < |C.Parse(b).payloads| && |C.Parse(b).payloads[k]| == img.tab[k].size
    ensures Le32(C.Parse(b).payloads[k], off) == InitialWord(img, m, 4 * h, k, off)
  {
    hide Le32, Stored, C.UnpackHeader, HeaderAt, C.CodeOffset, C.SectabOffset, C.SymtabOffset, C.NumSections, C.Accepts, C.Parse, C.Cut,
      SectabOffset, CodeOffset, NumSections, SymtabOffset, HeaderSize, C.HeaderAccepted, C.HasSections, C.PayloadTotal, ParsedTable, ParsedPool,
      C.SectionsOf, Tabled, PayloadOffset, ImageAt, ValidTable, SectionAt, C.UnpackRelocs;
    AcceptedBasics(b);
    HeadersAgree(m, h, b);
    Places(m, h, b);
    ParsedTableIs(b);
    TableOf(m, h, b, img);
    C.ParsedFields(b);
    PayloadRoom(b);
    var sections, code := ParsedTable(b), C.CodeOffset(C.UnpackHeader(b));
    CutAt(b[code..], sections, k);
    OffsetsAgree(img.tab, sections, ParsedPool(b), k);
    PayloadGrows(img.tab, k, k);
    assert SameEntry(img.tab[k], sections[k], ParsedPool(b));
    var at, size := PayloadOffset(img.tab, k), img.tab[k].size;
    PayloadWord(m, h, b, code, at, size, off);
  }

  /** Without a table: .text right behind the metadata, .data right behind .text. */
  lemma FlatPayloadsAgree(m: seq<Word>, h: nat, b: seq<Byte>, k: nat, off: nat)
    requires Stored(m, h, b) && C.Accepts(b) && !C.HasSections(C.UnpackHeader(b)) && HeaderAt(m, h).codeSize % 4 == 0
    requires k < 2 && off % 4 == 0 && off + 4 <= if k == 0 then HeaderAt(m, h).codeSize else HeaderAt(m, h).dataSize
    ensures k < |C.Parse(b).payloads|
    ensures var hdr := HeaderAt(m, h); var size, front := (if k == 0 then hdr.codeSize else hdr.dataSize), (if k == 0 then 0 else hdr.codeSize);
      && |C.Parse(b).payloads[k]| == size
      && Le32(C.Parse(b).payloads[k], off) == Get(m, 4 * h + CodeOffset(hdr) + front + off)
  {
    hide Le32, Stored, C.UnpackHeader, HeaderAt, C.CodeOffset, C.SectabOffset, C.SymtabOffset, C.NumSections, C.Accepts, C.Parse, C.Cut,
      SectabOffset, CodeOffset, NumSections, SymtabOffset, HeaderSize, C.HeaderAccepted, C.PayloadTotal, C.UnpackRelocs, C.HasSections;
    AcceptedBasics(b);
    var sections, code, sizes := C.Parse(b).sections, C.CodeOffset(C.UnpackHeader(b)), HeaderAt(m, h);
    HeadersAgree(m, h, b);
    Places(m, h, b);
    PayloadRoom(b);
    FlatSections(b);
    CutAt(b[code..], sections, k);
    assert Before(sections, 0) == 0;
    BeforeStep(sections, 0);
    PayloadWord(m, h, b, code, if k == 0 then 0 else sizes.codeSize, if k == 0 then sizes.codeSize else sizes.dataSize, off);
  }

  lemma FlatSections(b: seq<Byte>)
    requires C.Accepts(b) && !C.HasSections(C.UnpackHeader(b))
    ensures C.Parse(b).sections == C.Synthesized(C.UnpackHeader(b))
  {
    hide C.CodeOffset, C.SectabOffset, C.UnpackHeader, C.SymtabOffset, C.SymtabEnd, C.HeaderAccepted, C.TableAccepted, C.UnpackRelocs,
      C.SymbolsFrom, C.Cut, C.PayloadTotal;
  }

  lemma PayloadWord(m: seq<Word>, h: nat, b: seq<Byte>, code: nat, at: nat, size: nat, off: nat)
    requires Stored(m, h, b) && code % 4 == 0 && at % 4 == 0 && off % 4 == 0 && off + 4 <= size && code + at + size <= |b|
    ensures Le32(b[code..][at..at + size], off) == At(m, (4 * h + code + at + off) / 4)
  {
    hide Le32, Stored;
    C.SubSlice(b, code, |b|, at, at + size);
    assert b[code..|b|] == b[code..];
    C.SubWord(b, code + at, code + at + size, off);
    WordAt(m, h, b, code + at + off);
    assert (4 * h + code + at + off) / 4 == h + (code + at + off) / 4;
  }

  lemma PayloadRoom(b: seq<Byte>)
    requires C.Accepts(b)
    ensures 0 <= C.CodeOffset(C.UnpackHeader(b)) <= |b|
    ensures |b[C.CodeOffset(C.UnpackHeader(b))..]| >= C.PayloadTotal(C.Parse(b).sections)
    ensures C.Parse(b).payloads == C.Cut(b[C.CodeOffset(C.UnpackHeader(b))..], C.Parse(b).sections)
  {
    hide C.CodeOffset, C.SectabOffset, C.UnpackHeader, C.SectionsOf, C.SymtabOffset, C.SymtabEnd, C.HeaderAccepted, C.TableAccepted, C.UnpackRelocs,
      C.SymbolsFrom, C.Cut, C.PayloadTotal;
  }

  lemma TableOf(m: seq<Word>, h: nat, b: seq<Byte>, img: Image)
    requires Stored(m, h, b) && Tabled(b) && ImageAt(m, 4 * h) == Some(img)
    ensures img.hdr == HeaderAt(m, h) && |img.tab| == |ParsedTable(b)|
    ensures forall i :: 0 <= i < |img.tab| ==> SameEntry(img.tab[i], ParsedTable(b)[i], ParsedPool(b))
  {
    hide Stored, HeaderAt, SectionAt, ParsedTable, ParsedPool, SymtWords, Pool, EntriesOk, MainsMatch, NumSections, C.UnpackHeader, HeaderOk,
      C.CodeOffset;
    Places(m, h, b);
    SameLength(m, h, b);
    assert 4 * h / 4 == h;
    var hdr := HeaderAt(m, h);
    assert img.tab == Entries(m, h, hdr, NumSections(hdr));
    forall i | 0 <= i < |img.tab|
      ensures SameEntry(img.tab[i], ParsedTable(b)[i], ParsedPool(b))
    {
      SectionsAgree(m, h, b, i);
    }
  }

  /** What the host is asked to allocate a section for is what the parser decodes: its name, its alignment, its flags
      without the marker of main sections and the reserved bits. */
  lemma PurposeAgrees(m: seq<Word>, h: nat, b: seq<Byte>, img: Image, k: nat)
    requires Stored(m, h, b) && Tabled(b) && Sectab(m, h, true).Some? && ImageAt(m, 4 * h) == Some(img) && k < |img.tab|
    ensures k < |ParsedTable(b)|
    ensures SectPurpose(img.tab[k], Pool(img.symt, img.hdr.symtSize)) ==
      Purpose(ParsedTable(b)[k].name, ParsedTable(b)[k].align, And(ParsedTable(b)[k].flags, 0x7F00_FFFF))
  {
    hide Stored, HeaderAt, SectionAt, ParsedTable, ParsedPool, SymtWords, Pool, NumSections, C.UnpackHeader, HeaderOk, C.CodeOffset,
      Sectab, And, HostFlags, Tabled;
    TableOf(m, h, b, img);
    TablePool(m, h, b);
    NamedEntry(m, h, img, k);
    HostFlagsMask(img.tab[k]);
  }

  lemma NamedEntry(m: seq<Word>, h: nat, img: Image, k: nat)
    requires Sectab(m, h, true).Some? && ImageAt(m, 4 * h) == Some(img) && k < |img.tab|
    ensures img.symt == SymtWords(m, h, img.hdr) && img.hdr == HeaderAt(m, h)
    ensures NameOk(img.tab[k], Pool(img.symt, img.hdr.symtSize))
  {
    hide HeaderAt, SectionAt, SymtWords, Pool, MainsMatch, NumSections, HeaderOk, HasNul, EntryOk;
    assert 4 * h / 4 == h;
  }
}
