// The image codec: parse_module and ModuleImage.to_bytes, on bytes, with validation on.

module Codec {
  import opened Words
  import opened Strings
  import opened Bytes
  import Image

  datatype Header = Header(sign: seq<Byte>, modVersion: Half, version: Half, arch: Half, numLot: Half, numRels: Half, flags: Half,
                           symtSize: Word, codeSize: Word, dataSize: Word, bssSize: Word)

  datatype Reloc = Reloc(lotOffset: Word, value: Word)

  datatype Symbol = Symbol(index: nat, nameOff: Word, val: Word, name: Option<seq<Byte>>, kind: int, inCode: bool)

  datatype Section = Section(nameOff: Word, va: int, size: int, align: Word, cls: Word, flags: Word, name: Option<seq<Byte>>)

  /** `symtab` and `sectab` are the raw tables; symbols and sections are decoded from them. */
  datatype ModuleImage = ModuleImage(header: Header, relocs: seq<Reloc>, symbols: seq<Symbol>, sections: seq<Section>,
                                     payloads: seq<seq<Byte>>, symtab: seq<Byte>, sectab: seq<Byte>,
                                     sectabOffset: nat, codeOffset: nat)

  const HEADER_SIZE := 32
  const SIGNATURE: seq<Byte> := [85, 68, 76, 77]
  const BSS := 2

  // ----- geometry -----

  function Align4(n: nat): (r: nat)
    ensures n <= r < n + 4 && r % 4 == 0
  {
    (n + 3) / 4 * 4
  }

  function SymtabOffset(h: Header): nat {
    HEADER_SIZE + 8 * h.numRels
  }

  function SymtabEnd(h: Header): nat {
    SymtabOffset(h) + h.symtSize
  }

  function SectabOffset(h: Header): nat {
    Align4(SymtabEnd(h))
  }

  function NumSections(h: Header): nat {
    h.flags / 2 % 128
  }

  predicate HasSections(h: Header) {
    h.flags % 2 == 1
  }

  function CodeOffset(h: Header): nat {
    Align4(SectabOffset(h) + 24 * NumSections(h))
  }

  // ----- header, relocations, symbols -----

  function UnpackHeader(b: seq<Byte>): Header
    requires |b| >= HEADER_SIZE
  {
    Header(b[0..4], Le16(b, 4), Le16(b, 6), Le16(b, 8), Le16(b, 10), Le16(b, 12), Le16(b, 14),
           Le32(b, 16), Le32(b, 20), Le32(b, 24), Le32(b, 28))
  }

  function PackHeader(h: Header): seq<Byte> {
    h.sign + Pack16(h.modVersion) + Pack16(h.version) + Pack16(h.arch) + Pack16(h.numLot) + Pack16(h.numRels) + Pack16(h.flags)
      + Pack32(h.symtSize) + Pack32(h.codeSize) + Pack32(h.dataSize) + Pack32(h.bssSize)
  }

  /** The checks on the header alone. */
  predicate HeaderAccepted(h: Header) {
    && h.sign == SIGNATURE
    && (h.version >= 0x300 || h.version < 0x200)
    && h.flags < 0x100
    && (if HasSections(h) then 1 <= NumSections(h) <= 63 && h.version >= 0x301 else NumSections(h) == 0)
  }

  function UnpackRelocs(x: seq<Byte>): (r: seq<Reloc>)
    ensures |r| == |x| / 8
  {
    if |x| < 8 then [] else [Reloc(Le32(x, 0), Le32(x, 4))] + UnpackRelocs(x[8..])
  }

  function PackRelocs(rels: seq<Reloc>): (b: seq<Byte>)
    ensures |b| == 8 * |rels|
  {
    if rels == [] then [] else Pack32(rels[0].lotOffset) + Pack32(rels[0].value) + PackRelocs(rels[1..])
  }

  /** _pool_name. */
  function PoolName(symtab: seq<Byte>, off: nat): Option<seq<Byte>> {
    if off >= |symtab| then None else Some(CStr(symtab, off))
  }

  function SymbolCount(symtab: seq<Byte>): nat {
    if |symtab| >= 4 then Le32(symtab, 0) else 0
  }

  function SymbolFrom(symtab: seq<Byte>, i: nat): Symbol
    requires 4 + 8 * i + 8 <= |symtab|
  {
    var word := Le32(symtab, 4 + 8 * i);
    var kind := word / 0x800_0000 % 8;
    Symbol(i, word, Le32(symtab, 8 + 8 * i),
           if kind == 0 || word == 0xFFFF_FFFF then None else PoolName(symtab, word % 0x800_0000),
           kind, word / 0x4000_0000 % 2 == 1)
  }

  /** Entries i.. as far as they fit. */
  function SymbolsFrom(symtab: seq<Byte>, i: nat): seq<Symbol>
    decreases |symtab| - 8 * i
  {
    if i >= SymbolCount(symtab) || 4 + 8 * i + 8 > |symtab| then []
    else [SymbolFrom(symtab, i)] + SymbolsFrom(symtab, i + 1)
  }

  // ----- sections -----

  function UnpackSection(x: seq<Byte>, symtab: seq<Byte>): Section
    requires |x| >= 24
  {
    var nameOff := Le32(x, 0);
    Section(nameOff, Le32(x, 4), Le32(x, 8), Le32(x, 12), Le32(x, 16), Le32(x, 20),
            if nameOff == 0 then None else PoolName(symtab, nameOff))
  }

  function UnpackSections(x: seq<Byte>, symtab: seq<Byte>): (r: seq<Section>)
    ensures |r| == |x| / 24
  {
    if |x| < 24 then [] else [UnpackSection(x, symtab)] + UnpackSections(x[24..], symtab)
  }

  predicate EntryAccepted(s: Section) {
    && (s.nameOff == 0 || s.name.Some?)
    && s.size % 4 == 0 && s.align >= 4 && And(s.align, s.align - 1) == 0 && s.cls <= BSS && s.flags / 0x1_0000 % 0x100 == 0
  }

  predicate TableAccepted(sections: seq<Section>) {
    && (forall i :: 0 <= i < |sections| ==> EntryAccepted(sections[i]))
    && (forall i :: 0 < i < |sections| ==> sections[i - 1].va + sections[i - 1].size <= sections[i].va)
  }

  /** The reporting view of an image without a table. */
  function Synthesized(h: Header): seq<Section> {
    [Section(0, 0, h.codeSize, 4, 0, 0x8000_0000, None),
     Section(0, h.codeSize, h.dataSize, 4, 1, 0x8000_0000, None),
     Section(0, (h.codeSize as int) + (h.dataSize as int), h.bssSize, 4, 2, 0x8000_0000, None)]
  }

  // ----- payloads -----

  function PayloadSize(s: Section): nat {
    if s.cls == BSS || s.size < 0 then 0 else s.size
  }

  function PayloadTotal(sections: seq<Section>): nat {
    if sections == [] then 0 else PayloadSize(sections[0]) + PayloadTotal(sections[1..])
  }

  /** Cut x, which is long enough, into the sections' payloads. */
  function Cut(x: seq<Byte>, sections: seq<Section>): (r: seq<seq<Byte>>)
    requires |x| >= PayloadTotal(sections)
    ensures |r| == |sections|
  {
    if sections == [] then []
    else [x[..PayloadSize(sections[0])]] + Cut(x[PayloadSize(sections[0])..], sections[1..])
  }

  function Flatten(payloads: seq<seq<Byte>>): seq<Byte> {
    if payloads == [] then [] else payloads[0] + Flatten(payloads[1..])
  }

  // ----- the specification of the two directions -----

  /** Everything in front of the payloads. */
  function MetaBytes(img: ModuleImage): seq<Byte> {
    var tables := PackHeader(img.header) + PackRelocs(img.relocs) + img.symtab;
    var out := tables + Zeros(img.sectabOffset - |tables|) + img.sectab;
    out + Zeros(img.codeOffset - |out|)
  }

  function Serialize(img: ModuleImage): seq<Byte> {
    MetaBytes(img) + Flatten(img.payloads)
  }

  function SectionsOf(b: seq<Byte>, h: Header): seq<Section>
    requires SectabOffset(h) + 24 * NumSections(h) <= |b|
  {
    if HasSections(h) then
      UnpackSections(b[SectabOffset(h)..SectabOffset(h) + 24 * NumSections(h)], b[SymtabOffset(h)..SymtabEnd(h)])
    else Synthesized(h)
  }

  /** What parse_module accepts. */
  predicate Accepts(b: seq<Byte>) {
    && |b| >= HEADER_SIZE
    && var h := UnpackHeader(b);
    && HeaderAccepted(h)
    && SectabOffset(h) + 24 * NumSections(h) <= |b|
    && (HasSections(h) ==> TableAccepted(SectionsOf(b, h)))
    && CodeOffset(h) + PayloadTotal(SectionsOf(b, h)) <= |b|
  }

  function Parse(b: seq<Byte>): ModuleImage
    requires Accepts(b)
  {
    var h := UnpackHeader(b);
    var symtab := b[SymtabOffset(h)..SymtabEnd(h)];
    var sections := SectionsOf(b, h);
    ModuleImage(h, UnpackRelocs(b[HEADER_SIZE..SymtabOffset(h)]), SymbolsFrom(symtab, 0), sections,
                Cut(b[CodeOffset(h)..], sections), symtab,
                if HasSections(h) then b[SectabOffset(h)..SectabOffset(h) + 24 * NumSections(h)] else [],
                if HasSections(h) then SectabOffset(h) else 0, CodeOffset(h))
  }

  // ----- each part there and back -----

  lemma PackedHeaderParts(h: Header)
    requires |h.sign| == 4
    ensures var b := PackHeader(h);
      && |b| == HEADER_SIZE && b[0..4] == h.sign
      && b[4..6] == Pack16(h.modVersion) && b[6..8] == Pack16(h.version) && b[8..10] == Pack16(h.arch)
      && b[10..12] == Pack16(h.numLot) && b[12..14] == Pack16(h.numRels) && b[14..16] == Pack16(h.flags)
      && b[16..20] == Pack32(h.symtSize) && b[20..24] == Pack32(h.codeSize)
      && b[24..28] == Pack32(h.dataSize) && b[28..32] == Pack32(h.bssSize)
  {
    hide Pack16, Pack32;
  }

  lemma UnpackPacked(h: Header)
    requires |h.sign| == 4
    ensures |PackHeader(h)| == HEADER_SIZE && UnpackHeader(PackHeader(h)) == h
  {
    hide Pack16, Pack32, Le16, Le32, PackHeader;
    PackedHeaderParts(h);
    var b := PackHeader(h);
    Read16(b, 4, h.modVersion);
    Read16(b, 6, h.version);
    Read16(b, 8, h.arch);
    Read16(b, 10, h.numLot);
    Read16(b, 12, h.numRels);
    Read16(b, 14, h.flags);
    Read32(b, 16, h.symtSize);
    Read32(b, 20, h.codeSize);
    Read32(b, 24, h.dataSize);
    Read32(b, 28, h.bssSize);
  }

  lemma PackUnpacked(b: seq<Byte>)
    requires |b| >= HEADER_SIZE
    ensures PackHeader(UnpackHeader(b)) == b[..HEADER_SIZE]
  {
    hide Pack16, Pack32, Le16, Le32;
    Repack16(b, 4);
    Repack16(b, 6);
    Repack16(b, 8);
    Repack16(b, 10);
    Repack16(b, 12);
    Repack16(b, 14);
    Repack32(b, 16);
    Repack32(b, 20);
    Repack32(b, 24);
    Repack32(b, 28);
    assert b[0..16] == b[0..4] + b[4..6] + b[6..8] + b[8..10] + b[10..12] + b[12..14] + b[14..16];
    assert b[..HEADER_SIZE] == b[0..16] + b[16..20] + b[20..24] + b[24..28] + b[28..32];
  }

  /** The header is read from the first 32 bytes only. */
  lemma HeaderPrefix(b: seq<Byte>, x: seq<Byte>)
    requires |x| == HEADER_SIZE && |b| >= HEADER_SIZE && b[..HEADER_SIZE] == x
    ensures UnpackHeader(b) == UnpackHeader(x)
  {
    PackUnpacked(b);
    PackUnpacked(x);
    assert x[..HEADER_SIZE] == x;
    UnpackPacked(UnpackHeader(b));
    UnpackPacked(UnpackHeader(x));
    hide UnpackHeader, PackHeader;
  }

  lemma {:induction false} RelocsPackUnpacked(x: seq<Byte>)
    requires |x| % 8 == 0
    ensures PackRelocs(UnpackRelocs(x)) == x
    decreases |x|
  {
    if |x| < 8 {
    } else {
      RelocsPackUnpacked(x[8..]);
      Repack32(x, 0);
      Repack32(x, 4);
      hide Pack32, Le32;
      var r := UnpackRelocs(x);
      assert r[1..] == UnpackRelocs(x[8..]);
      assert x == x[0..4] + x[4..8] + x[8..];
    }
  }

  lemma {:induction false} RelocsUnpackPacked(rels: seq<Reloc>)
    ensures UnpackRelocs(PackRelocs(rels)) == rels
    decreases |rels|
  {
    if rels == [] {
    } else {
      RelocsUnpackPacked(rels[1..]);
      hide Pack32, Le32;
      var b := PackRelocs(rels);
      assert b[0..4] == Pack32(rels[0].lotOffset) && b[4..8] == Pack32(rels[0].value) && b[8..] == PackRelocs(rels[1..]);
      Read32(b, 0, rels[0].lotOffset);
      Read32(b, 4, rels[0].value);
    }
  }

  lemma {:induction false} FlattenCut(x: seq<Byte>, sections: seq<Section>)
    requires |x| >= PayloadTotal(sections)
    ensures Flatten(Cut(x, sections)) == x[..PayloadTotal(sections)]
    ensures forall k :: 0 <= k < |sections| ==> |Cut(x, sections)[k]| == PayloadSize(sections[k])
    decreases |sections|
  {
    if sections == [] {
    } else {
      var n := PayloadSize(sections[0]);
      FlattenCut(x[n..], sections[1..]);
      var cut := Cut(x, sections);
      assert cut[1..] == Cut(x[n..], sections[1..]);
      assert x[..n] + x[n..][..PayloadTotal(sections[1..])] == x[..PayloadTotal(sections)];
    }
  }

  predicate PayloadsFit(payloads: seq<seq<Byte>>, sections: seq<Section>) {
    |payloads| == |sections| && forall k :: 0 <= k < |sections| ==> |payloads[k]| == PayloadSize(sections[k])
  }

  lemma {:induction false} CutFlatten(payloads: seq<seq<Byte>>, sections: seq<Section>, rest: seq<Byte>)
    requires PayloadsFit(payloads, sections)
    ensures |Flatten(payloads)| == PayloadTotal(sections)
    ensures Cut(Flatten(payloads) + rest, sections) == payloads
    decreases |sections|
  {
    if sections == [] {
    } else {
      var n := PayloadSize(sections[0]);
      CutFlatten(payloads[1..], sections[1..], rest);
      var x := Flatten(payloads) + rest;
      assert x[..n] == payloads[0] && x[n..] == Flatten(payloads[1..]) + rest;
    }
  }

  // ----- the whole image -----

  /** A decoded image that hangs together. */
  predicate WellFormed(img: ModuleImage) {
    var h := img.header;
    && HeaderAccepted(h)
    && |img.relocs| == h.numRels && |img.symtab| == h.symtSize && img.symbols == SymbolsFrom(img.symtab, 0)
    && img.codeOffset == CodeOffset(h)
    && (if HasSections(h) then
          img.sectabOffset == SectabOffset(h) && |img.sectab| == 24 * NumSections(h)
          && img.sections == UnpackSections(img.sectab, img.symtab) && TableAccepted(img.sections)
        else img.sectabOffset == 0 && img.sectab == [] && img.sections == Synthesized(h))
    && PayloadsFit(img.payloads, img.sections)
  }

  function ImageSize(b: seq<Byte>): nat
    requires Accepts(b)
  {
    var h := UnpackHeader(b);
    CodeOffset(h) + PayloadTotal(SectionsOf(b, h))
  }

  /** The bytes that round the symbol table up to a word are zero. */
  predicate ZeroPadding(b: seq<Byte>)
    requires Accepts(b)
  {
    var h := UnpackHeader(b);
    forall i :: SymtabEnd(h) <= i < SectabOffset(h) ==> b[i] == 0
  }

  lemma CodeFollowsTable(h: Header)
    ensures CodeOffset(h) == SectabOffset(h) + 24 * NumSections(h)
    ensures HEADER_SIZE <= SymtabOffset(h) <= SymtabEnd(h) <= SectabOffset(h)
  {
    var t := SectabOffset(h) + 24 * NumSections(h);
    assert t % 4 == 0;
  }

  /** The four pieces in front of the payloads. */
  lemma MetaOfWellFormed(img: ModuleImage)
    requires WellFormed(img)
    ensures var h := img.header;
      && MetaBytes(img) == PackHeader(h) + PackRelocs(img.relocs) + img.symtab + Zeros(SectabOffset(h) - SymtabEnd(h)) + img.sectab
      && |PackHeader(h)| == HEADER_SIZE && |MetaBytes(img)| == CodeOffset(h)
  {
    var h := img.header;
    UnpackPacked(h);
    CodeFollowsTable(h);
    hide PackHeader, PackRelocs, CodeOffset, SectabOffset, UnpackHeader, UnpackSections, SymbolsFrom, TableAccepted, Synthesized, PayloadsFit;
    var tables := PackHeader(h) + PackRelocs(img.relocs) + img.symtab;
    assert |tables| == SymtabEnd(h);
    if HasSections(h) {
      assert |tables + Zeros(SectabOffset(h) - SymtabEnd(h)) + img.sectab| == CodeOffset(h);
    } else {
      assert tables + Zeros(-|tables|) + [] == tables;
      assert CodeOffset(h) == SectabOffset(h);
    }
  }

  lemma Slices(s: seq<Byte>, a: seq<Byte>, b: seq<Byte>, c: seq<Byte>, d: seq<Byte>, e: seq<Byte>, f: seq<Byte>,
               i: int, j: int, k: int, l: int)
    requires s == a + b + c + d + e + f
    requires i == |a| + |b| && j == i + |c| && k == j + |d| && l == k + |e|
    ensures |s| == l + |f| && 0 <= |a| <= i <= j <= k <= l
    ensures s[..|a|] == a && s[|a|..i] == b && s[i..j] == c && s[k..l] == e && s[l..] == f
  {
    var r4 := e + f;
    var r3 := d + r4;
    var r2 := c + r3;
    var r1 := b + r2;
    Regroup(a, b, c, d, e, f);
    assert s[0..] == a + r1;
    Behind(s, a, r1, 0);
    Behind(s, b, r2, |a|);
    Behind(s, c, r3, i);
    Behind(s, d, r4, j);
    Behind(s, e, f, k);
  }

  lemma Regroup(a: seq<Byte>, b: seq<Byte>, c: seq<Byte>, d: seq<Byte>, e: seq<Byte>, f: seq<Byte>)
    ensures a + b + c + d + e + f == a + (b + (c + (d + (e + f))))
  {
    assert (a + b + c + d) + e + f == (a + b + c + d) + (e + f);
    assert (a + b + c) + d + (e + f) == (a + b + c) + (d + (e + f));
    assert (a + b) + c + (d + (e + f)) == (a + b) + (c + (d + (e + f)));
  }

  lemma Behind(s: seq<Byte>, x: seq<Byte>, rest: seq<Byte>, at: int)
    requires 0 <= at <= |s| && s[at..] == x + rest
    ensures at + |x| <= |s| && s[at..at + |x|] == x && s[at + |x|..] == rest
  {
    assert s[at..][..|x|] == x && s[at..][|x|..] == rest;
  }

  /** Where the pieces of a serialized image are. */
  lemma SerializedParts(img: ModuleImage)
    requires WellFormed(img)
    ensures var h, s := img.header, Serialize(img);
      && HEADER_SIZE <= SymtabOffset(h) <= SymtabEnd(h) <= SectabOffset(h)
      && CodeOffset(h) == SectabOffset(h) + 24 * NumSections(h) <= |s|
      && s[..HEADER_SIZE] == PackHeader(h) && s[HEADER_SIZE..SymtabOffset(h)] == PackRelocs(img.relocs)
      && s[SymtabOffset(h)..SymtabEnd(h)] == img.symtab
      && s[SectabOffset(h)..SectabOffset(h) + 24 * NumSections(h)] == img.sectab
      && s[CodeOffset(h)..] == Flatten(img.payloads)
  {
    var h, s := img.header, Serialize(img);
    MetaOfWellFormed(img);
    CodeFollowsTable(h);
    hide PackHeader, PackRelocs, CodeOffset, SectabOffset, UnpackHeader, UnpackSections, SymbolsFrom, TableAccepted, Synthesized, PayloadsFit,
      UnpackRelocs, Flatten, Cut, PayloadTotal, HeaderAccepted, MetaBytes;
    Slices(s, PackHeader(h), PackRelocs(img.relocs), img.symtab, Zeros(SectabOffset(h) - SymtabEnd(h)), img.sectab, Flatten(img.payloads),
           SymtabOffset(h), SymtabEnd(h), SectabOffset(h), CodeOffset(h));
  }

  /** Parsing a serialized image gives the image back. */
  lemma ParseSerialized(img: ModuleImage)
    requires WellFormed(img)
    ensures Accepts(Serialize(img)) && Parse(Serialize(img)) == img
  {
    var h, s := img.header, Serialize(img);
    SerializedParts(img);
    CutFlatten(img.payloads, img.sections, []);
    assert Flatten(img.payloads) + [] == Flatten(img.payloads);
    UnpackPacked(h);
    HeaderPrefix(s, PackHeader(h));
    RelocsUnpackPacked(img.relocs);
    hide PackHeader, PackRelocs, CodeOffset, SectabOffset, UnpackHeader, UnpackSections, SymbolsFrom, TableAccepted, Synthesized, PayloadsFit,
      UnpackRelocs, Flatten, Cut, PayloadTotal, HeaderAccepted, Serialize, SymtabOffset;
    assert UnpackHeader(s) == h;
    assert SectionsOf(s, h) == img.sections;
  }

  /** What parsing gives hangs together. */
  lemma ParsedWellFormed(b: seq<Byte>)
    requires Accepts(b)
    ensures WellFormed(Parse(b))
  {
    var h := UnpackHeader(b);
    CodeFollowsTable(h);
    FlattenCut(b[CodeOffset(h)..], SectionsOf(b, h));
    hide CodeOffset, SectabOffset, UnpackHeader, UnpackSections, SymbolsFrom, TableAccepted, Synthesized, Flatten, Cut, PayloadTotal, HeaderAccepted;
  }

  /** A parsed image serializes to the pieces of its bytes, with zeros for the padding. */
  lemma SerializedPieces(b: seq<Byte>)
    requires Accepts(b)
    ensures var h := UnpackHeader(b);
      && HEADER_SIZE <= SymtabOffset(h) <= SymtabEnd(h) <= SectabOffset(h) <= CodeOffset(h) && ImageSize(b) <= |b|
      && Serialize(Parse(b)) == b[..HEADER_SIZE] + b[HEADER_SIZE..SymtabOffset(h)] + b[SymtabOffset(h)..SymtabEnd(h)]
           + Zeros(SectabOffset(h) - SymtabEnd(h)) + b[SectabOffset(h)..CodeOffset(h)]
           + b[CodeOffset(h)..][..PayloadTotal(SectionsOf(b, h))]
  {
    hide PackHeader, PackRelocs, CodeOffset, SectabOffset, UnpackHeader, UnpackSections, SymbolsFrom, TableAccepted, Synthesized,
      UnpackRelocs, Flatten, Cut, PayloadTotal, HeaderAccepted, WellFormed, MetaBytes, SectionsOf, SymtabEnd, Parse;
    var h, img := UnpackHeader(b), Parse(b);
    ParsedFields(b);
    ParsedWellFormed(b);
    MetaOfWellFormed(img);
    CodeFollowsTable(h);
    PackUnpacked(b);
    RelocsPackUnpacked(b[HEADER_SIZE..SymtabOffset(h)]);
    FlattenCut(b[CodeOffset(h)..], SectionsOf(b, h));
  }

  lemma ParsedFields(b: seq<Byte>)
    requires Accepts(b)
    ensures var h, img := UnpackHeader(b), Parse(b);
      && HEADER_SIZE <= SymtabOffset(h) <= SymtabEnd(h) <= SectabOffset(h) <= CodeOffset(h) <= |b|
      && img.header == h && img.relocs == UnpackRelocs(b[HEADER_SIZE..SymtabOffset(h)])
      && img.symtab == b[SymtabOffset(h)..SymtabEnd(h)] && img.sectab == b[SectabOffset(h)..CodeOffset(h)]
      && img.payloads == Cut(b[CodeOffset(h)..], SectionsOf(b, h))
  {
    var h := UnpackHeader(b);
    CodeFollowsTable(h);
    hide CodeOffset, SectabOffset, UnpackHeader, UnpackSections, SymbolsFrom, TableAccepted, Synthesized, UnpackRelocs, Cut, PayloadTotal,
      HeaderAccepted, SectionsOf, NumSections;
    if !HasSections(h) { assert b[SectabOffset(h)..CodeOffset(h)] == [] by { NoTable(b, h); } }
  }

  lemma NoTable(b: seq<Byte>, h: Header)
    requires HeaderAccepted(h) && !HasSections(h) && CodeOffset(h) <= |b|
    ensures SectabOffset(h) <= CodeOffset(h) && b[SectabOffset(h)..CodeOffset(h)] == []
  {
    CodeFollowsTable(h);
    hide CodeOffset, SectabOffset;
  }

  /** Serializing a parsed image gives the bytes back exactly when they end with the last payload and
      the padding is zero. */
  lemma SerializeParsed(b: seq<Byte>)
    requires Accepts(b)
    ensures Serialize(Parse(b)) == b <==> |b| == ImageSize(b) && ZeroPadding(b)
  {
    hide CodeOffset, SectabOffset, UnpackHeader, SectionsOf, SymtabOffset, SymtabEnd, PayloadTotal, Serialize, Parse, HeaderAccepted, TableAccepted;
    var h := UnpackHeader(b);
    SerializedPieces(b);
    Assemble(b, SymtabOffset(h), SymtabEnd(h), SectabOffset(h), CodeOffset(h), PayloadTotal(SectionsOf(b, h)));
  }

  lemma Assemble(b: seq<Byte>, i: nat, j: nat, k: nat, l: nat, n: nat)
    requires HEADER_SIZE <= i <= j <= k <= l && l + n <= |b|
    ensures b[..HEADER_SIZE] + b[HEADER_SIZE..i] + b[i..j] + Zeros(k - j) + b[k..l] + b[l..][..n] == b
      <==> |b| == l + n && forall m :: j <= m < k ==> b[m] == 0
  {
    var z := Zeros(k - j);
    var s := b[..HEADER_SIZE] + b[HEADER_SIZE..i] + b[i..j] + z + b[k..l] + b[l..][..n];
    assert |s| == l + n;
    forall m | 0 <= m < |s|
      ensures s[m] == if j <= m < k then 0 else b[m]
    {}
  }

  // ----- the parser and the serializer -----

  lemma RelocStep(data: seq<Byte>, lo: nat, hi: nat)
    requires lo + 8 <= hi <= |data|
    ensures UnpackRelocs(data[lo..hi]) == [Reloc(Le32(data, lo), Le32(data, lo + 4))] + UnpackRelocs(data[lo + 8..hi])
  {
    var x := data[lo..hi];
    SubWord(data, lo, hi, 0);
    SubWord(data, lo, hi, 4);
    assert x[8..] == data[lo + 8..hi];
    hide Le32;
  }

  lemma SubSlice(data: seq<Byte>, lo: nat, hi: nat, i: nat, j: nat)
    requires i <= j && lo + j <= hi <= |data|
    ensures data[lo..hi][i..j] == data[lo + i..lo + j]
  {
    forall k | 0 <= k < j - i
      ensures data[lo..hi][i..j][k] == data[lo + i..lo + j][k]
    {}
  }

  lemma SubWord(data: seq<Byte>, lo: nat, hi: nat, i: nat)
    requires lo + i + 4 <= hi <= |data|
    ensures Le32(data[lo..hi], i) == Le32(data, lo + i)
  {
    var x := data[lo..hi];
    SubSlice(data, lo, hi, i, i + 4);
    Moved32(data, lo + i, x[i..i + 4]);
    Moved32(x, i, x[i..i + 4]);
  }

  method ParseRelocs(data: seq<Byte>, off: nat, n: nat) returns (rels: seq<Reloc>)
    requires off + 8 * n <= |data|
    ensures rels == UnpackRelocs(data[off..off + 8 * n])
  {
    hide UnpackRelocs, Le32;
    rels := [];
    for i := 0 to n
      invariant rels + UnpackRelocs(data[off + 8 * i..off + 8 * n]) == UnpackRelocs(data[off..off + 8 * n])
    {
      RelocStep(data, off + 8 * i, off + 8 * n);
      rels := rels + [Reloc(Le32(data, off + 8 * i), Le32(data, off + 8 * i + 4))];
    }
    assert data[off + 8 * n..off + 8 * n] == [] && UnpackRelocs([]) == [] by { NoRelocs(); }
  }

  lemma NoRelocs()
    ensures UnpackRelocs([]) == []
  {}

  method ParseSymbols(symtab: seq<Byte>) returns (symbols: seq<Symbol>)
    ensures symbols == SymbolsFrom(symtab, 0)
  {
    hide SymbolFrom, Le32;
    var count := SymbolCount(symtab);
    symbols := [];
    for i := 0 to count
      invariant symbols + SymbolsFrom(symtab, i) == SymbolsFrom(symtab, 0)
    {
      var at := 4 + i * 8;
      if at + 8 > |symtab| {
        break;
      }
      symbols := symbols + [SymbolFrom(symtab, i)];
    }
  }

  /** The entries one by one, each checked as it is read. */
  method ReadEntries(data: seq<Byte>, off: nat, n: nat, symtab: seq<Byte>) returns (ok: bool, sections: seq<Section>)
    requires off + 24 * n <= |data|
    ensures var all := UnpackSections(data[off..off + 24 * n], symtab);
      (ok <==> forall i :: 0 <= i < |all| ==> EntryAccepted(all[i])) && (ok ==> sections == all)
  {
    hide UnpackSection, UnpackSections, EntryAccepted;
    ghost var all := UnpackSections(data[off..off + 24 * n], symtab);
    sections := [];
    for i := 0 to n
      invariant sections + UnpackSections(data[off + 24 * i..off + 24 * n], symtab) == all
      invariant |sections| == i && forall j :: 0 <= j < i ==> EntryAccepted(all[j])
    {
      SectionStep(data, off + 24 * i, off + 24 * n, symtab);
      var e := UnpackSection(data[off + 24 * i..], symtab);
      assert all[i] == e;
      if !EntryAccepted(e) {
        return false, sections;
      }
      sections := sections + [e];
    }
    assert data[off + 24 * n..off + 24 * n] == [] && UnpackSections([], symtab) == [] by { NoEntries(symtab); }
    return true, sections;
  }

  /** _parse_section_table: None for ValueError. */
  method ParseSections(data: seq<Byte>, off: nat, n: nat, symtab: seq<Byte>) returns (r: Option<seq<Section>>)
    requires off + 24 * n <= |data|
    ensures var all := UnpackSections(data[off..off + 24 * n], symtab);
      r == if TableAccepted(all) then Some(all) else None
  {
    hide UnpackSection, UnpackSections, EntryAccepted;
    var ok, sections := ReadEntries(data, off, n, symtab);
    if !ok {
      return None;
    }
    var k := 1;
    while k < |sections|
      invariant forall j :: 0 < j < k && j < |sections| ==> sections[j - 1].va + sections[j - 1].size <= sections[j].va
    {
      if sections[k].va < sections[k - 1].va + sections[k - 1].size {
        return None;
      }
      k := k + 1;
    }
    r := Some(sections);
  }

  lemma NoEntries(symtab: seq<Byte>)
    ensures UnpackSections([], symtab) == []
  {}

  lemma SectionStep(data: seq<Byte>, lo: nat, hi: nat, symtab: seq<Byte>)
    requires lo + 24 <= hi <= |data|
    ensures UnpackSections(data[lo..hi], symtab) == [UnpackSection(data[lo..], symtab)] + UnpackSections(data[lo + 24..hi], symtab)
  {
    var x := data[lo..hi];
    assert x[24..] == data[lo + 24..hi] && x[..24] == data[lo..][..24];
    SectionPrefix(data[lo..], x, symtab);
    hide UnpackSection;
  }

  lemma SectionPrefix(b: seq<Byte>, x: seq<Byte>, symtab: seq<Byte>)
    requires |x| >= 24 && |b| >= 24 && b[..24] == x[..24]
    ensures UnpackSection(b, symtab) == UnpackSection(x, symtab)
  {
    Word6(b, x, 0);
    Word6(b, x, 4);
    Word6(b, x, 8);
    Word6(b, x, 12);
    Word6(b, x, 16);
    Word6(b, x, 20);
    hide Le32;
  }

  lemma Word6(b: seq<Byte>, x: seq<Byte>, i: int)
    requires |x| >= 24 && |b| >= 24 && b[..24] == x[..24] && 0 <= i <= 20
    ensures Le32(b, i) == Le32(x, i)
  {
    assert b[..24][i..i + 4] == b[i..i + 4] && x[..24][i..i + 4] == x[i..i + 4];
    Moved32(b, i, b[i..i + 4]);
    Moved32(x, i, b[i..i + 4]);
  }

  method CutPayloads(data: seq<Byte>, codeOffset: nat, sections: seq<Section>) returns (r: Option<seq<seq<Byte>>>)
    ensures r.Some? <==> codeOffset + PayloadTotal(sections) <= |data|
    ensures r.Some? ==> r.value == Cut(data[codeOffset..], sections)
  {
    var payloads, off := [], codeOffset;
    for k := 0 to |sections|
      invariant codeOffset <= off && off + PayloadTotal(sections[k..]) == codeOffset + PayloadTotal(sections)
      invariant off <= |data| && codeOffset + PayloadTotal(sections) <= |data| ==>
        payloads + Cut(data[off..], sections[k..]) == Cut(data[codeOffset..], sections)
      invariant codeOffset + PayloadTotal(sections) <= |data| ==> off <= |data|
    {
      var s := sections[k];
      assert sections[k..][1..] == sections[k + 1..] && sections[k..][0] == s;
      if off + PayloadSize(s) > |data| {
        return None;
      }
      payloads := payloads + [data[off..off + PayloadSize(s)]];
      assert data[off..][..PayloadSize(s)] == data[off..off + PayloadSize(s)];
      assert data[off..][PayloadSize(s)..] == data[off + PayloadSize(s)..];
      off := off + PayloadSize(s);
    }
    if off > |data| {
      return None;
    }
    r := Some(payloads);
  }

  /** parse_module(data): None for any of its errors. */
  method ParseModule(data: seq<Byte>) returns (r: Option<ModuleImage>)
    ensures r == if Accepts(data) then Some(Parse(data)) else None
  {
    hide UnpackHeader, UnpackRelocs, SymbolsFrom, UnpackSections, TableAccepted, Cut, PayloadTotal, Synthesized;
    if |data| < HEADER_SIZE {
      return None;
    }
    var h := UnpackHeader(data);
    if !HeaderAccepted(h) {
      return None;
    }
    hide HeaderAccepted;
    CodeFollowsTable(h);
    hide CodeOffset, SectabOffset;
    var symtabOff := SymtabOffset(h);
    if |data| < symtabOff + h.symtSize + 24 * NumSections(h) {
      return None;
    }
    var relocs := ParseRelocs(data, HEADER_SIZE, h.numRels);
    var symtab := data[symtabOff..symtabOff + h.symtSize];
    var symbols := ParseSymbols(symtab);
    var sections, sectab, sectabOff := Synthesized(h), [], 0;
    if HasSections(h) {
      sectabOff := SectabOffset(h);
      if sectabOff + 24 * NumSections(h) > |data| {
        return None;
      }
      var table := ParseSections(data, sectabOff, NumSections(h), symtab);
      if table.None? {
        return None;
      }
      sections, sectab := table.value, data[sectabOff..sectabOff + 24 * NumSections(h)];
    }
    var payloads := CutPayloads(data, CodeOffset(h), sections);
    if payloads.None? {
      return None;
    }
    r := Some(ModuleImage(h, relocs, symbols, sections, payloads.value, symtab, sectab, sectabOff, CodeOffset(h)));
  }

  /** payload_image_offset: where section k's payload goes. */
  method PayloadImageOffset(img: ModuleImage, k: nat) returns (off: nat)
    requires PayloadsFit(img.payloads, img.sections) && k <= |img.sections|
    ensures off == img.codeOffset + |Flatten(img.payloads[..k])|
  {
    off := img.codeOffset;
    for j := 0 to k
      invariant off == img.codeOffset + |Flatten(img.payloads[..j])|
    {
      FlattenSnoc(img.payloads, j);
      if img.sections[j].cls != BSS {
        off := off + PayloadSize(img.sections[j]);
      }
    }
  }

  lemma {:induction false} FlattenSnoc(payloads: seq<seq<Byte>>, j: nat)
    requires j < |payloads|
    ensures Flatten(payloads[..j + 1]) == Flatten(payloads[..j]) + payloads[j]
    decreases j
  {
    if j > 0 {
      FlattenSnoc(payloads[1..], j - 1);
      assert payloads[..j][1..] == payloads[1..][..j - 1] && payloads[..j + 1][1..] == payloads[1..][..j];
    } else {
      assert payloads[..1] == [payloads[0]] && payloads[..0] == [];
      assert Flatten([payloads[0]]) == payloads[0] + Flatten([]);
    }
  }

  lemma {:induction false} FlattenFits(payloads: seq<seq<Byte>>, sections: seq<Section>, k: nat)
    requires PayloadsFit(payloads, sections) && k <= |payloads|
    ensures |Flatten(payloads[..k])| <= |Flatten(payloads)| == PayloadTotal(sections)
    ensures k < |payloads| ==> |Flatten(payloads[..k])| + |payloads[k]| <= PayloadTotal(sections)
    decreases |payloads| - k
  {
    if k < |payloads| {
      FlattenFits(payloads, sections, k + 1);
      FlattenSnoc(payloads, k);
    } else {
      assert payloads[..k] == payloads;
      CutFlatten(payloads, sections, []);
    }
  }

  /** Header and tables, padded up to the payloads. */
  method MetaOut(img: ModuleImage) returns (out: seq<Byte>)
    ensures out == MetaBytes(img)
  {
    hide PackHeader, PackRelocs;
    out := PackHeader(img.header);
    out := out + PackRelocs(img.relocs);
    out := out + img.symtab;
    out := out + Zeros(img.sectabOffset - |out|);
    out := out + img.sectab;
    out := out + Zeros(img.codeOffset - |out|);
  }

  /** The buffer with the payloads in `done` in place. */
  predicate Buffer(b: seq<Byte>, out: seq<Byte>, done: seq<Byte>, total: nat) {
    |done| <= total && b == out + done + Zeros(total - |done|)
  }

  lemma PlacePayload(out: seq<Byte>, done: seq<Byte>, payload: seq<Byte>, total: nat, b: seq<Byte>)
    requires Buffer(b, out, done, total) && |done| + |payload| <= total
    ensures var off := |out| + |done|;
      && off + |payload| <= |b|
      && Buffer(b[..off] + payload + b[off + |payload|..], out, done + payload, total)
    ensures payload == [] ==> Buffer(b, out, done + payload, total)
  {
    assert payload == [] ==> done + payload == done;
    var off := |out| + |done|;
    Behind(b, out + done, Zeros(total - |done|), 0);
    var z := Zeros(total - |done|);
    assert z == Zeros(|payload|) + Zeros(total - |done| - |payload|);
    Behind(b, Zeros(|payload|), Zeros(total - |done| - |payload|), off);
  }

  /** to_bytes: the tables, then every payload at its own offset in a zeroed buffer. */
  method ToBytes(img: ModuleImage) returns (b: seq<Byte>)
    requires WellFormed(img)
    ensures b == Serialize(img)
  {
    MetaOfWellFormed(img);
    hide PackHeader, PackRelocs, CodeOffset, SectabOffset, SymbolsFrom, UnpackSections, TableAccepted, HeaderAccepted, Synthesized,
      MetaBytes, Flatten, PayloadTotal, Zeros, Buffer;
    assert PayloadsFit(img.payloads, img.sections) && img.codeOffset == |MetaBytes(img)|;
    hide WellFormed;
    var out := MetaOut(img);
    var total := PayloadTotal(img.sections);
    b := out + Zeros(total);
    FlattenNone(img.payloads);
    BufferStarts(out, total);
    for k := 0 to |img.sections|
      invariant Buffer(b, out, Flatten(img.payloads[..k]), total)
    {
      ghost var done := Flatten(img.payloads[..k]);
      FlattenFits(img.payloads, img.sections, k);
      FlattenSnoc(img.payloads, k);
      PlacePayload(out, done, img.payloads[k], total, b);
      if img.sections[k].cls != BSS {
        var off := PayloadImageOffset(img, k);
        b := b[..off] + img.payloads[k] + b[off + |img.payloads[k]|..];
      }
    }
    assert img.payloads[..|img.sections|] == img.payloads;
    FlattenFits(img.payloads, img.sections, |img.sections|);
    BufferEnds(b, out, Flatten(img.payloads), total);
  }

  lemma BufferStarts(out: seq<Byte>, total: nat)
    ensures Buffer(out + Zeros(total), out, [], total)
  {
    assert out + [] == out;
  }

  lemma BufferEnds(b: seq<Byte>, out: seq<Byte>, done: seq<Byte>, total: nat)
    requires Buffer(b, out, done, total) && |done| == total
    ensures b == out + done
  {
    assert Zeros(0) == [];
  }

  lemma FlattenNone(payloads: seq<seq<Byte>>)
    ensures Flatten(payloads[..0]) == []
  {}

  /** Parser and loader agree on where everything is, for every header the parser accepts. */
  lemma GeometryAgrees(h: Header, hdr: Image.Header)
    requires HeaderAccepted(h)
    requires hdr.version == h.version && hdr.numRels == h.numRels && hdr.flags == h.flags && hdr.symtSize == h.symtSize
    ensures Image.HeaderSize(hdr) == HEADER_SIZE && Image.SymtabOffset(hdr) == SymtabOffset(h)
    ensures Image.NumSections(hdr) == NumSections(h) && Image.SectabOffset(hdr) == SectabOffset(h)
    ensures Image.CodeOffset(hdr) == CodeOffset(h)
  {}
}
