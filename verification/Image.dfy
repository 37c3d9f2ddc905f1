// The module image as the loader reads it: 32-bit words at some place in memory,
// decoded field by field (udynlink.h, "Module image header").

module Image {
  import opened Words
  import opened Strings

  /** The header fields the loader uses; `version` is udynlink_version. */
  datatype Header = Header(sign: Word, version: int, numLot: nat, numRels: nat, flags: nat,
                           symtSize: Word, codeSize: Word, dataSize: Word, bssSize: Word)

  datatype Section = Section(nameOff: Word, va: Word, size: Word, align: Word, cls: Word, flags: Word)

  datatype Rel = Rel(lotOffset: Word, value: Word)

  datatype Symbol = Symbol(name: seq<Byte>, val: Word, kind: int, inCode: bool)

  /** A decoded image. `tab` is empty for an image without section placement. */
  datatype Image = Image(hdr: Header, rels: seq<Rel>, symt: seq<Word>, tab: seq<Section>)

  const SIGN: Word := 0x4D4C4455
  const MAX_SECTIONS := 63
  const MAX_IMAGE_SIZE := 4 * 1024 * 1024
  const MAX_RAM_SIZE := 16 * 1024 * 1024
  const LOADER_VERSION := 0x301

  const CODE := 0
  const DATA := 1
  const BSS := 2

  const INTERNAL := 0
  const EXPORTED := 1
  const EXTERN := 2
  const MODULE_NAME := 3
  const WEAK := 4

  // Words of memory; reading past the end gives 0.

  function At(mem: seq<Word>, i: int): Word {
    if 0 <= i < |mem| then mem[i] else 0
  }

  function HeaderAt(mem: seq<Word>, h: nat): Header {
    Header(At(mem, h), At(mem, h + 1) / 0x10000,
           At(mem, h + 2) / 0x10000, At(mem, h + 3) % 0x10000, At(mem, h + 3) / 0x10000,
           At(mem, h + 4), At(mem, h + 5), At(mem, h + 6), At(mem, h + 7))
  }

  // Geometry of the metadata; all of it depends on the header alone.

  function Up4(x: nat): (r: nat)
    ensures r % 4 == 0 && x <= r < x + 4
  {
    (x + 3) / 4 * 4
  }

  function HeaderSize(hdr: Header): nat {
    if hdr.version >= 0x300 then 32 else if hdr.version >= 0x200 then 36 else 32
  }

  function SymtabOffset(hdr: Header): nat {
    HeaderSize(hdr) + 8 * hdr.numRels
  }

  function SectabOffset(hdr: Header): nat {
    Up4(SymtabOffset(hdr) + hdr.symtSize)
  }

  predicate IsSectioned(hdr: Header) {
    hdr.flags % 2 == 1
  }

  /** Section count from the header flags; an invalid count is read as 0. */
  function NumSections(hdr: Header): (n: nat)
    ensures n <= MAX_SECTIONS
  {
    var n := hdr.flags / 2 % 128;
    if !IsSectioned(hdr) || n > MAX_SECTIONS then 0 else n
  }

  function CodeOffset(hdr: Header): (r: nat)
    ensures r % 4 == 0 && r >= 32
  {
    Up4(SectabOffset(hdr) + 24 * NumSections(hdr))
  }

  // The tables behind the header.

  function RelAt(mem: seq<Word>, h: nat, hdr: Header, i: nat): Rel {
    var p := h + HeaderSize(hdr) / 4 + 2 * i;
    Rel(At(mem, p), At(mem, p + 1))
  }

  /** The low `n` bytes of a word, n < 4. */
  function LowBytes(w: Word, n: int): Word {
    if n == 1 then w % 0x100 else if n == 2 then w % 0x1_0000 else w % 0x100_0000
  }

  /** The symbol table's words; of a last partial word only the bytes that belong to the table. */
  function SymtWords(mem: seq<Word>, h: nat, hdr: Header): seq<Word> {
    seq<Word>((hdr.symtSize + 3) / 4, (i: int) =>
      var w := At(mem, h + SymtabOffset(hdr) / 4 + i);
      if 4 * i + 4 <= hdr.symtSize then w else LowBytes(w, hdr.symtSize % 4))
  }

  function SectionAt(mem: seq<Word>, h: nat, hdr: Header, i: nat): Section {
    var p := h + SectabOffset(hdr) / 4 + 6 * i;
    Section(At(mem, p), At(mem, p + 1), At(mem, p + 2), At(mem, p + 3), At(mem, p + 4), At(mem, p + 5))
  }

  // Symbols.

  function ByteOf(symt: seq<Word>, k: nat): Byte {
    var w := At(symt, k / 4);
    (if k % 4 == 0 then w else if k % 4 == 1 then w / 0x100
     else if k % 4 == 2 then w / 0x10000 else w / 0x1000000) % 256
  }

  /** The symbol table as bytes; the string pool is a part of it. */
  function Pool(symt: seq<Word>, size: nat): seq<Byte> {
    seq<Byte>(size, (k: int) requires 0 <= k => ByteOf(symt, k))
  }

  function SymKind(nameWord: Word): (k: int)
    ensures 0 <= k < 8
  {
    nameWord / 0x0800_0000 % 8
  }

  function NameOffset(nameWord: Word): (k: int)
    ensures 0 <= k < 0x0800_0000
  {
    nameWord % 0x0800_0000
  }

  /** get_sym_at_raw: the entry at `idx`, or None when it does not fit in the table. */
  function SymAt(symt: seq<Word>, size: nat, idx: nat): Option<Symbol> {
    if size / 4 < 1 || idx >= At(symt, 0) || 2 * idx + 2 >= size / 4 then None
    else
      var nameWord := At(symt, 2 * idx + 1);
      var kind := SymKind(nameWord);
      if idx == 0 && kind != MODULE_NAME then None
      else if kind != INTERNAL && NameOffset(nameWord) >= size then None
      else
        Some(Symbol(if kind == INTERNAL then [] else CStr(Pool(symt, size), NameOffset(nameWord)),
                    At(symt, 2 * idx + 2), kind, nameWord / 0x4000_0000 % 2 == 1))
  }

  function ImageSym(img: Image, idx: nat): Option<Symbol> {
    SymAt(img.symt, img.hdr.symtSize, idx)
  }
}
