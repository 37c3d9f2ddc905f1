// udynlink_thunk_make_call: from a symbol's name to an address that can be called.

module Calls {
  import opened Words
  import opened Image
  import opened Placement
  import opened Relocation
  import opened Handle
  import opened Lookup
  import opened Symbols
  import opened Thumb
  import opened Thunks

  /** An entry of the symbol table with the name, for a function. */
  predicate Callable(img: Image, name: seq<Byte>, i: nat) {
    Matches(img.symt, img.hdr.symtSize, name, i) && ImageSym(img, i).Some? && ImageSym(img, i).value.inCode
  }

  /** What a call for an address leaves and answers. */
  ghost predicate Served(pool: Pool, was: Holdings, func: Word, ram: Word, r: int)
    reads pool, pool.buf
  {
    var (after, answer) := Called(pool.size, was, func, ram);
    pool.Held() == after
      && match answer
         case None => r == 0
         case Some(k) => r != 0 && Enters(r, pool.Address(StubOff(k))) && pool.Answers(func, r)
  }

  /** udynlink_thunk_make_call. A name the module does not have gets no stub, nor does a data symbol; a
      function is served as its reported address and the module's base deserve. */
  method MakeCall(pool: Pool, mod: Module, mem: array<Word>, name: seq<Byte>, resolve: Resolver,
                  ghost img: Image, ghost p: Placement) returns (r: int)
    requires WellFormed(img) && ValidPlacement(img, p, mem.Length) && Attached(mod, mem[..], img, p) && p.ram < LIMIT
    requires WellFormedTable(img.symt, img.hdr.symtSize) && IsNumNamed(img.symt, img.hdr.symtSize, mod.numNamed)
    requires pool.Valid()
    modifies pool, pool.buf
    ensures pool.Valid() && old(pool.stubs) <= pool.stubs && old(pool.gateways) <= pool.gateways
    ensures (forall i: nat :: !Callable(img, name, i)) ==>
      r == 0 && pool.Held() == old(pool.Held()) && pool.buf[..] == old(pool.buf[..])
    ensures (exists i: nat :: Matches(img.symt, img.hdr.symtSize, name, i)) ==> exists i: nat ::
      && Matches(img.symt, img.hdr.symtSize, name, i) && ImageSym(img, i).Some?
      && if ImageSym(img, i).value.inCode
         then Served(pool, old(pool.Held()), Reported(img, p, resolve, ImageSym(img, i).value), p.ram, r)
         else r == 0 && pool.Held() == old(pool.Held())
  {
    hide WellFormed, WellFormedTable, IsNumNamed, Matches, ImageSym, Reported, StubWritten, GatewayWritten, MetaApart, Apart,
      TextSize, TaggedPlaced, Enters, Called, StubOf, CallReaches;
    assert 0 <= mod.ram == p.ram;
    hide ValidPlacement, Attached, Described;
    var sym := LookupSymbol(mod, mem, name, resolve, img, p);
    if sym.None? {
      return 0;
    }
    ghost var i: nat :| && Matches(img.symt, img.hdr.symtSize, name, i) && ImageSym(img, i).Some?
      && sym.value == Looked(Reported(img, p, resolve, ImageSym(img, i).value), ImageSym(img, i).value.inCode);
    if !sym.value.inCode {
      return 0;
    }
    assert Callable(img, name, i);
    r := pool.MakeCall(sym.value.value, mod.ram);
  }
}
