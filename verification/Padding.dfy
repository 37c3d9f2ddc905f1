// The map from link-time to run-time addresses also covers the padding behind a main section. Link-time
// and run-time padding differ when the main sections do not start where the link space does, and then
// two link addresses may share one run-time address.

module Padding {
  import opened Words
  import opened Image
  import opened Sections
  import opened AddressMap
  import opened Layout
  import opened Placement
  import opened Renaming

  /** What section k's link addresses, padding included, become. */
  predicate SpanFits(img: Image, p: Placement, k: nat)
    requires k < |img.tab|
  {
    0 <= Base(img, p, k) && Base(img, p, k) + Span(img.tab, k) <= LIMIT && img.tab[k].va + Span(img.tab, k) <= LIMIT
  }

  predicate SpanApart(img: Image, p: Placement, k: nat, l: nat)
    requires k < |img.tab| && l < |img.tab|
  {
    Apart(Base(img, p, k), Span(img.tab, k), Base(img, p, l), Span(img.tab, l))
  }

  predicate SpansFit(img: Image, p: Placement) {
    forall k :: 0 <= k < |img.tab| ==> SpanFits(img, p, k)
  }

  /** The run-time images of the spans do not meet. */
  predicate SpansApart(img: Image, p: Placement) {
    forall k, l :: 0 <= k < l < |img.tab| ==> SpanApart(img, p, k, l)
  }

  predicate Collide(img: Image, p: Placement, va: Word, va': Word) {
    va != va' && Find(img.tab, va) >= 0 && Find(img.tab, va') >= 0 && Runtime(img, p, va) == Runtime(img, p, va')
  }

  lemma RuntimeOfSpan(img: Image, p: Placement, k: nat, va: Word)
    requires Sorted(img.tab) && SpansFit(img, p) && k < |img.tab| && InSpan(img.tab, k, va)
    ensures Find(img.tab, va) == k && Runtime(img, p, va) == Some(Base(img, p, k) + (va - img.tab[k].va))
  {
    hide Base;
    FindFromHits(img.tab, va, 0, k);
    assert SpanFits(img, p, k);
  }

  lemma ApartNoCollision(img: Image, p: Placement, va: Word, va': Word)
    requires Sorted(img.tab) && SpansFit(img, p) && SpansApart(img, p)
    ensures !Collide(img, p, va, va')
  {
    var k, l := Find(img.tab, va), Find(img.tab, va');
    if k >= 0 && l >= 0 {
      RuntimeOfSpan(img, p, k, va);
      RuntimeOfSpan(img, p, l, va');
      hide Base, Find, Runtime;
      assert k < l ==> SpanApart(img, p, k, l);
      assert l < k ==> SpanApart(img, p, l, k);
    }
  }

  lemma MeetingSpansCollide(img: Image, p: Placement, k: nat, l: nat) returns (va: Word, va': Word)
    requires Sorted(img.tab) && SpansFit(img, p) && k < l < |img.tab| && !SpanApart(img, p, k, l)
    ensures Collide(img, p, va, va')
  {
    assert SpanFits(img, p, k) && SpanFits(img, p, l);
    SpansInOrder(img.tab, k, l);
    var a, b := Base(img, p, k), Base(img, p, l);
    hide Base;
    va := img.tab[k].va + if a < b then b - a else 0;
    va' := img.tab[l].va + if a < b then 0 else a - b;
    RuntimeOfSpan(img, p, k, va);
    RuntimeOfSpan(img, p, l, va');
  }

  /** The map is injective on everything it covers exactly when the spans are apart at run time. */
  lemma PaddingAliasExact(img: Image, p: Placement)
    requires Sorted(img.tab) && SpansFit(img, p)
    ensures (forall va: Word, va': Word :: !Collide(img, p, va, va')) <==> SpansApart(img, p)
  {
    hide Collide, SpanApart;
    if SpansApart(img, p) {
      forall va: Word, va': Word
        ensures !Collide(img, p, va, va')
      {
        ApartNoCollision(img, p, va, va');
      }
    } else {
      var k, l :| 0 <= k < l < |img.tab| && !SpanApart(img, p, k, l);
      var va, va' := MeetingSpansCollide(img, p, k, l);
    }
  }

  // ----- when there is none -----

  /** Rounding up commutes with an offset that is aligned itself. */
  lemma AlignUpShifts(s: int, x: int, align: int)
    requires s >= 0 && x >= 0 && IsPow2(align) && Aligned(s, align)
    ensures AlignUp(s + x, align) == s + AlignUp(x, align)
  {
    hide And, Aligned, AlignUp, IsPow2;
    AlignUpLeast(x, align);
    AlignUpLeast(s + x, align);
    AlignedSum(s, AlignUp(x, align), align);
    AlignedSum(s, AlignUp(s + x, align) - s, align);
  }

  /** If what comes before the main sections is a multiple of their largest alignment, they are laid out
      in the block as they were linked, padding and all. */
  lemma AlignedFrontKeepsLayout(img: Image, mode: Mode, k: nat)
    requires ValidTable(img.tab) && MainsMatch(img.hdr, img.tab[0], img.tab[1], img.tab[2]) && !mode.Xip? && k < 3
    requires AlignUp(img.hdr.codeSize, img.tab[1].align) < LIMIT
    requires AlignUp(AlignUp(img.hdr.codeSize, img.tab[1].align) + img.hdr.dataSize, img.tab[2].align) < LIMIT
    requires Aligned(MainStart(img.hdr, img.tab, mode), MainAlign(img.tab))
    ensures MainOffset(img.hdr, img.tab, mode, k) == MainStart(img.hdr, img.tab, mode) + img.tab[k].va
  {
    hide MainStart, AlignUp, Aligned, IsPow2, MaxAlign;
    var tab, start := img.tab, MainStart(img.hdr, img.tab, mode);
    MaxAlignBounds(tab, 3);
    EntryAlign(tab, 0);
    EntryAlign(tab, 1);
    EntryAlign(tab, 2);
    assert tab[0].va == 0;
    hide ValidTable;
    AlignedWeaken(start, tab[0].align, MainAlign(tab));
    AlignedWeaken(start, tab[1].align, MainAlign(tab));
    AlignedWeaken(start, tab[2].align, MainAlign(tab));
    AlignUpIdentity(start, tab[0].align);
    AlignUpLeast(img.hdr.codeSize, tab[1].align);
    AlignUpIdentity(tab[1].va, tab[1].align);
    AlignUpShifts(start, tab[1].va, tab[1].align);
    AlignUpLeast(tab[1].va + tab[1].size, tab[2].align);
    AlignUpShifts(start, tab[1].va + tab[1].size, tab[2].align);
    assert LaidOut(tab, start, 0, 0) == start;
    assert LaidOut(tab, start, 0, 1) == start + tab[1].va;
    assert LaidOut(tab, start, 0, 2) == start + tab[1].va + tab[1].size;
  }

  // ----- when there is one -----

  lemma RoundTwelve()
    ensures AlignUp(12, 16) == 16 && AlignUp(8, 16) == 16
  {
    assert And(3, 1) == 1 && And(6, 3) == 2 && And(13, 7) == 5 && And(27, 15) == 11;
    assert And(2, 1) == 0 && And(5, 3) == 1 && And(11, 7) == 3 && And(23, 15) == 7;
  }

  /** One word each of .text, .data and .bss, a LOT of one slot, .bss aligned to 16. */
  function ExampleTable(): seq<Section> {
    [Section(0, 0, 4, 4, CODE, 0x8000_0000), Section(0, 4, 4, 4, DATA, 0x8000_0000), Section(0, 16, 4, 16, BSS, 0x8000_0000)]
  }

  /** Version 3.1, three sections, no relocations, an empty symbol table. */
  function ExampleImage(): seq<Word> {
    [SIGN, 0x301_0000, 0x1_0000, 0x7_0000, 4, 4, 4, 4, 0,
     0, 0, 4, 4, CODE, 0x8000_0000, 0, 4, 4, 4, DATA, 0x8000_0000, 0, 16, 4, 16, BSS, 0x8000_0000]
  }

  lemma ExampleHeader()
    ensures HeaderAt(ExampleImage(), 0) == Header(SIGN, 0x301, 1, 0, 7, 4, 4, 4, 4)
    ensures var hdr := HeaderAt(ExampleImage(), 0);
      SectabOffset(hdr) == 36 && NumSections(hdr) == 3 && IsSectioned(hdr) && CodeOffset(hdr) == 108
  {}

  lemma ExampleEntry(k: nat)
    requires k < 3
    ensures SectionAt(ExampleImage(), 0, HeaderAt(ExampleImage(), 0), k) == ExampleTable()[k]
  {
    ExampleHeader();
    hide HeaderAt, SectabOffset;
  }

  lemma ExampleMatches()
    ensures var tab := ExampleTable(); MainsMatch(HeaderAt(ExampleImage(), 0), tab[0], tab[1], tab[2])
  {
    ExampleHeader();
    hide HeaderAt, AlignUp;
    RoundTwelve();
    UpToFour(4);
  }

  lemma ExampleAccepted(names: bool)
    ensures Sectab(ExampleImage(), 0, names) == Some(ExampleTable())
  {
    var m, tab := ExampleImage(), ExampleTable();
    ExampleHeader();
    ExampleEntry(0);
    ExampleEntry(1);
    ExampleEntry(2);
    ExampleMatches();
    ExampleEntries();
    var hdr := HeaderAt(m, 0);
    hide HeaderAt, SectabOffset, CodeOffset, SectionAt, SymtWords, Pool, EntriesOk, MainsMatch, ExampleImage, ExampleTable;
    assert Entries(m, 0, hdr, 3) == tab;
  }

  lemma ExampleEntries()
    ensures forall pool: seq<Byte>, names :: EntriesOk(ExampleTable(), pool, names)
  {
    assert IsPow2(4) && IsPow2(16) by { assert IsPow2(1) && IsPow2(2) && IsPow2(4) && IsPow2(8); }
    var tab := ExampleTable();
    assert Follows(tab[0], tab[1]) && Follows(tab[1], tab[2]);
  }

  lemma ExampleLayout(img: Image, p: Placement)
    requires img.tab == ExampleTable() && img.hdr.numLot == 1 && p == Placement(CopyTextData, 16, 0, [])
    ensures Base(img, p, 0) == 20 && Base(img, p, 1) == 24 && Base(img, p, 2) == 32
    ensures RamSize(img.hdr, img.tab, p.mode) == 20
  {
    hide AlignUp, CodeOffset;
    RoundTwelve();
    UpToFour(4);
    UpToFour(8);
    var tab, start := img.tab, MainStart(img.hdr, img.tab, p.mode);
    assert LaidOut(tab, start, 0, 0) == 4;
    assert LaidOut(tab, start, 0, 1) == 8;
    assert LaidOut(tab, start, 0, 2) == 12;
  }

  lemma ExampleFits(img: Image, p: Placement)
    requires img.tab == ExampleTable() && img.hdr.codeSize == 4 && img.rels == [] && p == Placement(CopyTextData, 16, 0, [])
    requires Base(img, p, 0) == 20 && Base(img, p, 1) == 24 && Base(img, p, 2) == 32 && RamSize(img.hdr, img.tab, p.mode) == 20
    ensures Sorted(img.tab) && WellFormed(img) && ValidPlacement(img, p, 16) && SpansFit(img, p)
  {
    hide RamSize, Base, EntryOk;
    ExampleEntries();
  }

  lemma DecodedExample() returns (img: Image)
    ensures ImageAt(ExampleImage(), 0) == Some(img) && Sectab(ExampleImage(), 0, true) == Some(img.tab)
    ensures img.tab == ExampleTable() && img.rels == [] && img.hdr.codeSize == 4 && img.hdr.numLot == 1
  {
    ExampleAccepted(true);
    ExampleAccepted(false);
    ExampleHeader();
    hide HeaderAt, SymtWords, Sectab, SectabOffset, CodeOffset, NumSections, ExampleImage, ExampleTable, RelAt;
    var hdr := HeaderAt(ExampleImage(), 0);
    img := ImageAt(ExampleImage(), 0).value;
  }

  lemma ExampleCollides(img: Image, p: Placement)
    requires img.tab == ExampleTable() && Sorted(img.tab) && SpansFit(img, p)
    requires Base(img, p, 1) == 24 && Base(img, p, 2) == 32
    ensures Collide(img, p, 12, 16)
  {
    hide Base, SpansFit, Sorted;
    RuntimeOfSpan(img, p, 1, 12);
    RuntimeOfSpan(img, p, 2, 16);
    hide Find, Runtime;
  }

  /** An accepted image, a valid placement, and two link addresses - one in the padding behind .data, one
      the first of .bss - with the same run-time address. */
  lemma PaddingAliasExample() returns (img: Image, p: Placement, va: Word, va': Word)
    ensures ImageAt(ExampleImage(), 0) == Some(img) && Sectab(ExampleImage(), 0, true) == Some(img.tab)
    ensures WellFormed(img) && ValidPlacement(img, p, 16) && SpansFit(img, p)
    ensures Collide(img, p, va, va')
  {
    img := DecodedExample();
    p := Placement(CopyTextData, 16, 0, []);
    va, va' := 12, 16;
    ExampleLayout(img, p);
    ExampleFits(img, p);
    hide *;
    ExampleCollides(img, p);
  }
}
