// The whole load of the module of PaddedModule, with its tagged section, in a concrete memory.

module PaddedLoad {
  import opened Words
  import opened Image
  import opened Sections
  import opened AddressMap
  import opened Layout
  import opened Placement
  import opened Relocation
  import opened Loaded
  import opened Renaming
  import opened Memory
  import opened Handle
  import opened Ownership
  import opened Tagged
  import opened MainBlock
  import opened Staging
  import opened Lookup
  import opened Loader
  import P = PaddedModule

  function Nothing(): seq<Word> {
    [0, 0, 0, 0, 0, 0, 0, 0, 0, 0, 0, 0, 0, 0, 0, 0, 0, 0, 0, 0, 0, 0, 0, 0, 0, 0, 0, 0]
  }

  /** The image at 112, nothing below it. */
  function Stored(): seq<Word> {
    Nothing() + P.Metadata() + [5, 8, 0x77]
  }

  lemma StoredImage()
    ensures |Stored()| == 69 && ImageAt(Stored(), 112) == Some(P.PaddedImage())
  {
    assert |P.Metadata()| == 38;
    P.ImageAbove(Nothing());
  }

  lemma NamesAccepted(m: seq<Word>, h: nat, tab: seq<Section>)
    requires Sectab(m, h, false) == Some(tab) && tab != []
    requires var hdr := HeaderAt(m, h); forall i :: 0 <= i < |tab| ==> NameOk(tab[i], Pool(SymtWords(m, h, hdr), hdr.symtSize))
    ensures Sectab(m, h, true) == Some(tab)
  {
    hide HeaderAt, SymtWords, Pool, EntryOk, NameOk, MainsMatch, Follows;
  }

  lemma SymbolTable()
    ensures var (symt, size) := (P.PaddedImage().symt, P.PaddedImage().hdr.symtSize);
      && WellFormedTable(symt, size) && forall i :: 0 <= i < 4 ==> NameOk(P.Table()[i], Pool(symt, size))
  {
    var pool := Pool(P.PaddedImage().symt, 16);
    assert pool[12] == 0;
    hide Pool;
  }

  lemma StoredPlan()
    ensures Passes(Stored(), 112, CopyTextData) && TableReadable(Stored(), 112)
  {
    hide ImageAt, Sectab, Stored, HeaderAt, SymtWords, Pool, RamSize, CodeOffset, MainAlign, MainOffset, BlockFront, NameOk, WellFormedTable, PayloadOffset;
    StoredImage();
    MetaDecodes(P.PaddedImage(), Stored(), 112);
    SymbolTable();
    P.TableEntries();
    NamesAccepted(Stored(), 28, P.Table());
    P.Sizes();
    Counts();
  }

  lemma Counts()
    ensures Extent(P.PaddedImage()) == 164 && Folded(P.PaddedImage()) == 0 && Total(TaggedSizes(P.PaddedImage().tab)) == 4
  {
    hide CodeOffset, RamSize, MainAlign, MainOffset, BlockFront;
    P.Sizes();
    P.FourWords();
    var tab := P.PaddedImage().tab;
    assert PayloadOffset(tab, 1) == 4 && PayloadOffset(tab, 2) == 8 && PayloadOffset(tab, 3) == 8;
    assert TaggedSizes(tab) == [4] && [4][1..] == [];
  }

  /** The image and the buffer for the main block. */
  function Taken(): seq<Range> {
    [Range(112, 164), Range(16, 36)]
  }

  lemma StoredOk()
    ensures CallerOk(Stored(), 112, CopyTextData, 16, 36, Taken())
  {
    hide ImageAt, Passes, TableReadable, WellFormed, WellFormedTable, Extent, Stored;
    StoredImage();
    StoredPlan();
    SymbolTable();
    P.Shape();
    Counts();
    assert Taken()[0] == Range(112, 164) && Taken()[1] == Range(16, 36);
  }

  /** The one request, and its answer. */
  function Section3(): Event {
    Allocated(HeapBlock(56, 4, SectPurpose(P.Table()[3], Pool(P.PaddedImage().symt, 16))))
  }

  lemma AllocatorIsFree(a: Allocator)
    requires a.taken == Taken() && a.limit == 276 && a.answers(0) == 56
    ensures Answer(a, [], 4) == 56
  {
    assert Outstanding([]) == Some(map[]);
  }

  lemma OneRequest(a: Allocator)
    requires a.taken == Taken() && a.limit == 276 && a.answers(0) == 56
    ensures Requests(a, [], P.PaddedImage().tab, Pool(P.PaddedImage().symt, P.PaddedImage().hdr.symtSize), 3) == [Section3()]
    ensures Served(Section3())
  {
    hide Answer, Pool, Aligned, Served;
    AllocatorIsFree(a);
    Section3Served();
    var tab, pool := P.PaddedImage().tab, Pool(P.PaddedImage().symt, 16);
    assert |tab| == 4 && tab == P.Table() && Sec(tab, 3) == tab[3] && tab[3].size == 4;
    hide SectPurpose;
    assert Requests(a, [] + [Section3()], tab, pool, 4) == [];
  }

  lemma Section3Served()
    ensures Served(Section3())
  {
    hide Pool;
    assert And(56, 3) == 0 by { assert And(14, 0) == 0 && And(28, 1) == 0; }
  }

  /** The word of .data is the 8 that the image brings, and 8 has a run-time address. */
  lemma EntryApplies(p: Placement, resolve: Resolver, c: Contents)
    requires p.mode == CopyTextData && Pristine(P.PaddedImage(), CopyTextData, 112, Stored(), c)
    ensures forall i: nat, error :: i < |P.PaddedImage().rels| ==> !EntryFails(P.PaddedImage(), p, resolve, c, i, error)
  {
    hide ImageAt, Stored, RelLoc, Find, Base, MainOffset, InitialWord, Cell;
    var img := P.PaddedImage();
    P.Target(p);
    P.Found();
    DataWord(c);
  }

  lemma DataWord(c: Contents)
    requires Pristine(P.PaddedImage(), CopyTextData, 112, Stored(), c)
    ensures Cell(c, Block(16)) == 8
  {
    hide Cell, MainOffset, CodeOffset, RamSize, MainAlign, BlockFront, MetaPristine, InitialWord;
    P.Sizes();
    P.FourWords();
    var img := P.PaddedImage();
    assert SectionLoc(img, CopyTextData, 1, 0) == Block(16);
    assert Cell(c, SectionLoc(img, CopyTextData, 1, 0)) == InitialWord(img, Stored(), 112, 1, 0);
    FirstDataWord();
  }

  lemma FirstDataWord()
    ensures InitialWord(P.PaddedImage(), Stored(), 112, 1, 0) == 8
  {
    hide CodeOffset, RamSize, MainAlign, MainOffset, BlockFront;
    P.Sizes();
    P.FourWords();
    assert |P.Metadata()| == 38;
    hide P.Metadata;
    assert PayloadOffset(P.PaddedImage().tab, 1) == 4;
  }

  lemma PaddedLoads(img: Image, p: Placement, resolve: Resolver, c: Contents, a: Allocator, now: seq<Event>, res: Error)
    requires Accounted(Stored(), 112, img, p, resolve, c, 16, 36, a, [], now, res) && p.mode == CopyTextData
    requires a.taken == Taken() && a.limit == 276 && a.answers(0) == 56
    ensures img == P.PaddedImage() && res == Ok && Asked(now) == [Section3()]
  {
    hide ImageAt, Stored, Explained, EntryFails, Pristine, ValidPlacement, AskedSince, Requests, RamSize, MainOffset, CodeOffset, BlockFront,
      MainAlign, Aligned, P.PaddedImage, Section3;
    StoredImage();
    P.Sizes();
    P.SixteenAligned();
    OneRequest(a);
    var asked := AskedSince([], now);
    AskedAre(img, p, resolve, c, a, asked, res);
    ExplainedFailure(img, p, resolve, c, 16, 36, a, [], asked, res);
    if ReachedEntries(res) {
      EntryApplies(p, resolve, c);
    }
    assert Asked([]) == [];
  }

  lemma AskedAre(img: Image, p: Placement, resolve: Resolver, c: Contents, a: Allocator, asked: seq<Event>, res: Error)
    requires Explained(img, p, resolve, c, 16, 36, a, [], asked, res) && img == P.PaddedImage() && p.mode == CopyTextData
    requires Requests(a, [], img.tab, Pool(img.symt, img.hdr.symtSize), 3) == [Section3()]
    ensures asked == [Section3()]
  {
    hide EntriesVerdict, Pool, Requests, RamSize, MainOffset, CodeOffset, BlockFront, MainAlign, Aligned, P.PaddedImage, Section3, Answer;
    P.Sizes();
    P.SixteenAligned();
    var none: seq<Event> := [];
    assert none + none == none;
  }

  /** What is recorded for the section is what the allocator gave. */
  lemma PlacedThere(mod: Module, host: Host, p: Placement, resolve: Resolver, c: Contents, m: seq<Word>)
    requires IsLoaded(mod, host, P.PaddedImage(), p, resolve, c, m, map[]) && p.mode == CopyTextData && p.text == 264
    requires Asked(host.log) == [Section3()] && mod.foreign && mod.ram == 16
    ensures p == P.PlacedAt(16, 56)
  {
    hide WellFormed, ValidPlacement, MetaApart, BasesIn, ImageAt, RamSize, Represents, BlockFront, CodeOffset, Outstanding, Asked, Pool,
      SectPurpose, P.PaddedImage, MainAlign;
    P.FourWords();
    TaggedOne(p, |m|);
    var heap := Outstanding(host.log).value;
    OutstandingAsked(host.log);
    var tab, pool := P.PaddedImage().tab, Pool(P.PaddedImage().symt, P.PaddedImage().hdr.symtSize);
    assert p.tagged[0] != 0;
    assert WithTagged(map[], tab, pool, p.tagged, 0) == map[];
    assert p.tagged[0] in heap;
    assert p.tagged == [56];
  }

  lemma TaggedOne(p: Placement, n: int)
    requires ValidPlacement(P.PaddedImage(), p, n)
    ensures |p.tagged| == 1
  {
    hide RamSize;
    P.FourWords();
  }

  /** The load with a block of the caller's at 16 and the tagged section where the allocator answers, at 56. */
  method LoadPadded(resolve: Resolver) returns (mod: Module, mem: array<Word>, host: Host, res: Error, ghost c: Contents)
    ensures res == Ok && IsLoaded(mod, host, P.PaddedImage(), P.PlacedAt(16, 56), resolve, c, mem[..], map[])
    ensures Pristine(P.PaddedImage(), CopyTextData, 112, Stored(), c) && mod.foreign && mod.header == 112
  {
    hide *;
    StoredImage();
    StoredPlan();
    StoredOk();
    Sizes();
    var words := Stored();
    mem := new Word[69](i requires 0 <= i < 69 => words[i]);
    assert mem[..] == words;
    mod := new Module();
    host := new Host(n => 56);
    host.taken := Taken();
    ghost var a := host.As(276);
    AsIs(host);
    ghost var img, p, reply;
    label Start:
    res, img, p, c := LoadModule(mod, mem, host, 112, 16, 36, CopyTextData, resolve, map[]);
    PaddedLoads(img, p, resolve, c, a, host.log, res);
    reply := old@Start(host.Reply(RamSize(img.hdr, img.tab, CopyTextData), 4 * mem.Length));
    BlockIs(mod, host, p, resolve, c, mem[..], reply);
    PlacedThere(mod, host, p, resolve, c, mem[..]);
  }

  lemma Sizes()
    ensures RamSize(P.PaddedImage().hdr, P.PaddedImage().tab, CopyTextData) == 36 && 112 + CodeOffset(P.PaddedImage().hdr) == 264
    ensures Outstanding([]) == Some(map[])
  {
    hide RamSize, MainOffset, CodeOffset, MainAlign, BlockFront;
    P.Sizes();
  }

  lemma AsIs(host: Host)
    requires host.taken == Taken() && host.answers(0) == 56
    ensures var a := host.As(276); a.taken == Taken() && a.limit == 276 && a.answers(0) == 56
  {}

  lemma BlockIs(mod: Module, host: Host, p: Placement, resolve: Resolver, c: Contents, m: seq<Word>,
                reply: int)
    requires IsLoaded(mod, host, P.PaddedImage(), p, resolve, c, m, map[]) && p.mode == CopyTextData
    requires mod.header == HeaderOf(P.PaddedImage(), p, 112)
    requires BlockGiven(mod.ram, mod.foreign, 36, 16, reply)
    ensures mod.foreign && mod.ram == 16 && mod.header == 112
  {}
}
