// udynlink_lookup_symbol on a loaded module: which entry, and what address it reports.

module Symbols {
  import opened Words
  import opened Image
  import opened Sections
  import opened AddressMap
  import opened Placement
  import opened Relocation
  import opened Loaded
  import opened Renaming
  import opened Handle
  import opened Walks
  import opened Lookup
  import opened Formats
  import C = Codec

  predicate OwnKind(kind: int) {
    kind == INTERNAL || kind == EXPORTED || kind == WEAK
  }

  /** The value reported for a symbol: the module's own address (0 if no section has it), a host
      override for a weak one, the raw value for the rest. */
  function Reported(img: Image, p: Placement, resolve: Resolver, sym: Symbol): Word {
    if !OwnKind(sym.kind) then sym.val
    else if sym.kind == WEAK && resolve(sym.name) > DEFERRED then resolve(sym.name)
    else match Default(img, p, sym) case None => 0 case Some(w) => w
  }

  /** What a caller gets: the value, and whether the symbol is in code. */
  datatype Looked = Looked(value: Word, inCode: bool)

  /** udynlink.c udynlink_lookup_symbol. */
  method LookupSymbol(mod: Module, mem: array<Word>, name: seq<Byte>, resolve: Resolver, ghost img: Image, ghost p: Placement)
    returns (r: Option<Looked>)
    requires WellFormed(img) && ValidPlacement(img, p, mem.Length) && Attached(mod, mem[..], img, p)
    requires WellFormedTable(img.symt, img.hdr.symtSize) && IsNumNamed(img.symt, img.hdr.symtSize, mod.numNamed)
    ensures r.None? <==> forall i :: !Matches(img.symt, img.hdr.symtSize, name, i)
    ensures r.Some? ==> exists i: nat ::
      && Matches(img.symt, img.hdr.symtSize, name, i) && ImageSym(img, i).Some?
      && r.value == Looked(Reported(img, p, resolve, ImageSym(img, i).value), ImageSym(img, i).value.inCode)
  {
    hide WellFormed, ValidPlacement, Attached, WellFormedTable, IsNumNamed, NameAt, HeaderAt, SymtWords, SymAt, Default, Sectab;
    AttachedDecodes(mod, img, p, mem[..]);
    AttachedTable(mod, img, p, mem[..]);
    var hdr := HeaderAt(mem[..], mod.header / 4);
    var symt := SymtWords(mem[..], mod.header / 4, hdr);
    var view := GetSectab(mem, mod.header / 4, false);
    var idx;
    if mod.numNamed > 0 {
      idx := BinarySearch(symt, hdr.symtSize, mod.numNamed, name);
    } else {
      idx := LinearScan(symt, hdr.symtSize, name);
    }
    if idx.None? {
      return None;
    }
    EntryIsSymbol(symt, hdr.symtSize, idx.value);
    var sym := SymAt(symt, hdr.symtSize, idx.value).value;
    var value := sym.val;
    if sym.kind == INTERNAL || sym.kind == EXPORTED || sym.kind == WEAK {
      var own := OwnAddress(mod, mem, view.value, sym, img, p);
      value := if own.Some? then own.value else 0;
    }
    if sym.kind == WEAK {
      var host := resolve(sym.name);
      if host == DEFERRED {
      } else if host > 0 {
        value := host;
      }
    }
    assert ImageSym(img, idx.value) == Some(sym);
    r := Some(Looked(value, sym.inCode));
  }

  lemma AttachedTable(mod: Module, img: Image, p: Placement, m: seq<Word>)
    requires Attached(mod, m, img, p)
    ensures mod.header >= 0 && Sectab(m, mod.header / 4, false) == Some(img.tab)
  {
    hide ImageAt, Sectab, MetaApart, BasesIn;
    MetaDecodes(img, m, mod.header);
  }

  /** What a lookup reports is what the load bound: a word relocated by a symbol of the module's own
      holds the value a lookup with the same resolver gives for it, wherever the module is. */
  lemma ReportedIsBound(img: Image, p: Placement, resolve: Resolver, c: Contents, m: seq<Word>, i: nat)
    requires Represents(img, p, resolve, c, m) && i < |img.rels| && !InPlace(img.rels[i])
    requires ImageSym(img, img.rels[i].value).Some? && OwnKind(ImageSym(img, img.rels[i].value).value.kind)
    ensures RelLoc(img, p.mode, i).Some?
    ensures Get(m, Slot(p, RelLoc(img, p.mode, i).value)) == Reported(img, p, resolve, ImageSym(img, img.rels[i].value).value)
  {
    hide RelLoc, Get, Slot, Cell, BasesIn, Default, ImageSym;
    assert TargetHolds(img, p, resolve, c, m, i);
  }

  /** With a section table: a symbol of the module's own that no host overrides is reported where its section is,
      whichever section has its address, and as 0 if none has. */
  lemma ReportedPlace(img: Image, p: Placement, resolve: Resolver, sym: Symbol)
    requires img.tab != [] && Sorted(img.tab) && OwnKind(sym.kind) && (sym.kind == WEAK ==> resolve(sym.name) in {0, DEFERRED})
    ensures forall k :: 0 <= k < |img.tab| && InSpan(img.tab, k, sym.val) ==>
      Reported(img, p, resolve, sym) == Wrap(Base(img, p, k) + sym.val - img.tab[k].va)
    ensures (forall k :: 0 <= k < |img.tab| ==> !InSpan(img.tab, k, sym.val)) ==> Reported(img, p, resolve, sym) == 0
  {
    hide Find, Base, InSpan;
    FindIsExact(img.tab, sym.val);
  }

  /** An override is reported for a weak symbol alone; an external symbol and the module's name are reported as
      their raw value, which is what the parser reads from the bytes of the image. */
  lemma ReportedRaw(m: seq<Word>, h: nat, b: seq<Byte>, img: Image, p: Placement, resolve: Resolver, i: nat)
    requires Stored(m, h, b) && C.Accepts(b) && ImageAt(m, 4 * h) == Some(img) && ImageSym(img, i).Some?
    requires !OwnKind(ImageSym(img, i).value.kind)
    ensures i < |C.Parse(b).symbols| && Reported(img, p, resolve, ImageSym(img, i).value) == C.Parse(b).symbols[i].val
  {
    hide Stored, C.Accepts, C.Parse, HeaderAt, SymtWords, SymAt;
    assert 4 * h / 4 == h;
    ImageIsStored(m, h, img);
    SymbolsAgree(m, h, b, i);
  }

  lemma ImageIsStored(m: seq<Word>, h: nat, img: Image)
    requires ImageAt(m, 4 * h) == Some(img)
    ensures img.symt == SymtWords(m, h, HeaderAt(m, h)) && img.hdr == HeaderAt(m, h)
  {
    hide HeaderAt, SymtWords, Sectab;
    assert 4 * h / 4 == h;
  }
}
