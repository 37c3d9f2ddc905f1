// Between the copies and the relocations of a load: what has been put where, and that this is a
// placed module with the image's contents.

module Staging {
  import opened Words
  import opened Image
  import opened Sections
  import opened Layout
  import opened Placement
  import opened Relocation
  import opened Loaded
  import opened Renaming
  import opened Handle
  import opened Ownership
  import opened Tagged
  import opened MainBlock

  predicate KeptIn(m: seq<Word>, m': seq<Word>, lo: int, hi: int) {
    |m'| == |m| && forall a :: lo <= a < hi && a % 4 == 0 ==> Get(m', a) == Get(m, a)
  }

  lemma KeptTwice(m1: seq<Word>, m2: seq<Word>, m3: seq<Word>, lo: int, hi: int)
    requires KeptIn(m1, m2, lo, hi) && KeptIn(m2, m3, lo, hi)
    ensures KeptIn(m1, m3, lo, hi)
  {
    hide Get;
  }

  lemma KeptLess(m: seq<Word>, m': seq<Word>, lo: int, hi: int, lo': int, hi': int)
    requires KeptIn(m, m', lo, hi) && lo <= lo' && hi' <= hi
    ensures KeptIn(m, m', lo', hi')
  {
    hide Get;
  }

  lemma OutsideKept(m: seq<Word>, m': seq<Word>, base: int, size: int, lo: int, hi: int)
    requires SameOutside(m, m', base, size) && base % 4 == 0 && size % 4 == 0 && hi >= lo
    requires Apart(lo, hi - lo, base, size)
    ensures KeptIn(m, m', lo, hi)
  {
    forall a | lo <= a < hi && a % 4 == 0
      ensures Get(m', a) == Get(m, a)
    {
      assert !InRange(a / 4, base, size);
    }
  }

  lemma BodyKeepsImage(img: Image, p: Placement, src: int, m: seq<Word>, m': seq<Word>)
    requires RoomFor(img, p, src, |m|) && WroteBody(img, p, m, m') && BlockFront(img) <= RamSize(img.hdr, img.tab, p.mode)
    ensures KeptIn(m, m', src, src + Extent(img))
  {
    SameLengthBody(img, p, m, m');
    hide RamSize, Extent, RoomFor, WroteBody, Get, BlockFront;
    forall a | src <= a < src + Extent(img) && a % 4 == 0
      ensures Get(m', a) == Get(m, a)
    {
      ImageWordsKept(img, p, src, m, m', a);
    }
  }

  lemma FilledInKept(img: Image, m: seq<Word>, src: int, k: int, m1: seq<Word>, m2: seq<Word>, base: int)
    requires Filled(img, m, src, k, m1, base) && KeptIn(m1, m2, base, base + Sec(img.tab, k).size) && base % 4 == 0
    ensures Filled(img, m, src, k, m2, base)
  {
    hide InitialWord, Sec, Get;
    forall off | 0 <= off < Sec(img.tab, k).size && off % 4 == 0
      ensures Get(m2, base + off) == InitialWord(img, m, src, k, off)
    {
      assert Get(m1, base + off) == InitialWord(img, m, src, k, off);
    }
  }

  /** Words copied from an unchanged image are the original image's words. */
  lemma FilledFromOriginal(img: Image, m0: seq<Word>, m: seq<Word>, src: int, k: int, m': seq<Word>, base: int)
    requires ValidTable(img.tab) && 0 <= k < |img.tab| && src % 4 == 0
    requires Filled(img, m, src, k, m', base) && KeptIn(m0, m, src, src + Extent(img))
    ensures Filled(img, m0, src, k, m', base)
  {
    hide Sec, Get, CodeOffset, PayloadOffset, Extent, ValidTable;
    PayloadFits(img, k);
    forall off | 0 <= off < Sec(img.tab, k).size && off % 4 == 0
      ensures Get(m', base + off) == InitialWord(img, m0, src, k, off)
    {
      assert Get(m', base + off) == InitialWord(img, m, src, k, off);
    }
  }

  // ----- tagged sections leave the rest alone -----

  lemma TaggedKeeps(img: Image, ram: int, mode: Mode, src: int, m: seq<Word>, m': seq<Word>, bases: seq<int>)
    requires Placed(img, ram, mode, src, m, m', bases, |img.tab|) && RecordedRun(img.tab, bases, |img.tab| - 3)
    requires OnlyTagged(img, ram, m, m', bases) && ram % 4 == 0 && ram >= 0 && 0 <= src && src % 4 == 0
    requires BlockFront(img) <= RamSize(img.hdr, img.tab, mode) && Apart(ram, RamSize(img.hdr, img.tab, mode), src, Extent(img))
    requires src + Extent(img) <= 4 * |m| && ram + RamSize(img.hdr, img.tab, mode) <= 4 * |m|
    ensures KeptIn(m, m', src, src + Extent(img))
    ensures KeptIn(m, m', ram + BlockFront(img), ram + RamSize(img.hdr, img.tab, mode))
  {
    SameLength(img, ram, m, m', bases);
    hide RamSize, Extent, Placed, OnlyTagged, RecordedRun, Get, BlockFront;
    forall a | src <= a < src + Extent(img) && a % 4 == 0
      ensures Get(m', a) == Get(m, a)
    {
      ImageKept(img, ram, mode, src, m, m', bases, |img.tab|, a);
    }
    forall a | ram + BlockFront(img) <= a < ram + RamSize(img.hdr, img.tab, mode) && a % 4 == 0
      ensures Get(m', a) == Get(m, a)
    {
      BodyWordKept(img, ram, mode, src, m, m', bases, a);
    }
  }

  lemma BodyWordKept(img: Image, ram: int, mode: Mode, src: int, m: seq<Word>, m': seq<Word>, bases: seq<int>, a: int)
    requires Placed(img, ram, mode, src, m, m', bases, |img.tab|) && RecordedRun(img.tab, bases, |img.tab| - 3)
    requires OnlyTagged(img, ram, m, m', bases) && ram % 4 == 0 && ram >= 0
    requires ram + BlockFront(img) <= a < ram + RamSize(img.hdr, img.tab, mode) <= 4 * |m| && a % 4 == 0
    ensures Get(m', a) == Get(m, a)
  {
    hide RamSize, Extent, Filled, Sec;
    forall j | 0 <= j < |bases| && bases[j] != 0
      ensures !InRange(a / 4, bases[j], Sec(img.tab, j + 3).size)
    {
      assert BlockOk(img, ram, mode, src, |m|, bases[j], Sec(img.tab, j + 3).size);
    }
    assert !MayWrite(img, ram, bases, a / 4);
  }

  // ----- all sections -----

  ghost predicate AllFilled(img: Image, p: Placement, src: int, m0: seq<Word>, m: seq<Word>) {
    forall k :: 0 <= k < |img.tab| ==> Filled(img, m0, src, k, m, Base(img, p, k))
  }

  /** The state after the main copies (m1), the tagged sections (m2) and the zeroed .bss (m3). */
  ghost predicate Staged(img: Image, p: Placement, src: int, m0: seq<Word>, m1: seq<Word>, m2: seq<Word>, m3: seq<Word>) {
    && Shaped(img) && img.tab != [] && RoomFor(img, p, src, |m0|) && |p.tagged| == NumTagged(img.tab)
    && RecordedRun(img.tab, p.tagged, |img.tab| - 3)
    && WroteBody(img, p, m0, m1) && MainFilled(img, p, src, m0, m1)
    && OnlyTagged(img, p.ram, m1, m2, p.tagged) && Placed(img, p.ram, p.mode, src, m1, m2, p.tagged, |img.tab|)
    && SameOutside(m2, m3, Base(img, p, 2), Sec(img.tab, 2).size)
    && ZeroRange(m3, Base(img, p, 2), Sec(img.tab, 2).size)
  }

  /** What stays as it was while a module is staged. */
  lemma StagedKeeps(img: Image, p: Placement, src: int, m0: seq<Word>, m1: seq<Word>, m2: seq<Word>, m3: seq<Word>)
    requires Staged(img, p, src, m0, m1, m2, m3)
    ensures KeptIn(m0, m1, src, src + Extent(img)) && KeptIn(m0, m3, src, src + Extent(img))
    ensures KeptIn(m1, m3, p.ram + BlockFront(img), Base(img, p, 2))
    ensures |m0| == |m1| == |m2| == |m3|
    ensures BlockFront(img) <= RamSize(img.hdr, img.tab, p.mode) && 0 <= p.ram && p.ram % 4 == 0 && 0 <= src && src % 4 == 0
    ensures p.ram + BlockFront(img) <= Base(img, p, 2) && Base(img, p, 2) % 4 == 0 && Sec(img.tab, 2).size % 4 == 0
    ensures Base(img, p, 2) + Sec(img.tab, 2).size == p.ram + RamSize(img.hdr, img.tab, p.mode)
  {
    hide RamSize, Extent, MainOffset, ValidTable, RecordedRun, Placed, OnlyTagged, WroteBody, SameOutside, Base, Sec, KeptIn,
      BlockFront, CodeOffset, Shaped, MainFilled, ZeroRange, RoomFor;
    RoomParts(img, p, src, |m0|);
    TableShape(img);
    BssLast(img, p);
    BodyKeepsImage(img, p, src, m0, m1);
    SameLengthBody(img, p, m0, m1);
    SameLength(img, p.ram, m1, m2, p.tagged);
    TaggedKeeps(img, p.ram, p.mode, src, m1, m2, p.tagged);
    var at, n := Base(img, p, 2), Sec(img.tab, 2).size;
    FrontPositive(img);
    InsideApart(at, n, p.ram, RamSize(img.hdr, img.tab, p.mode), src, Extent(img), src, Extent(img));
    OutsideKept(m2, m3, at, n, src, src + Extent(img));
    OutsideKept(m2, m3, at, n, p.ram + BlockFront(img), at);
    KeptTwice(m0, m1, m2, src, src + Extent(img));
    KeptTwice(m0, m2, m3, src, src + Extent(img));
    KeptLess(m1, m2, p.ram + BlockFront(img), p.ram + RamSize(img.hdr, img.tab, p.mode), p.ram + BlockFront(img), at);
    KeptTwice(m1, m2, m3, p.ram + BlockFront(img), at);
    assert |m3| == |m2| by { SameSize(m2, m3, at, n); }
  }

  lemma SameSize(m: seq<Word>, m': seq<Word>, base: int, size: int)
    requires SameOutside(m, m', base, size)
    ensures |m'| == |m|
  {}

  lemma RoomParts(img: Image, p: Placement, src: int, n: int)
    requires RoomFor(img, p, src, n) && Shaped(img) && img.tab != []
    ensures 0 <= p.ram && p.ram % 4 == 0 && p.ram + RamSize(img.hdr, img.tab, p.mode) <= 4 * n
    ensures 0 <= src && src % 4 == 0 && src + Extent(img) <= 4 * n && 0 <= Extent(img)
    ensures Apart(p.ram, RamSize(img.hdr, img.tab, p.mode), src, Extent(img)) && p.text == src + CodeOffset(img.hdr)
    ensures BlockFront(img) <= RamSize(img.hdr, img.tab, p.mode)
  {
    hide RamSize, Extent, Shaped, CodeOffset, BlockFront;
    ExtentCovers(img);
    BlockWords(img, p.mode);
  }

  lemma BssLast(img: Image, p: Placement)
    requires Shaped(img) && img.tab != [] && 0 <= p.ram && p.ram % 4 == 0
    ensures Base(img, p, 2) % 4 == 0 && Sec(img.tab, 2).size % 4 == 0 && Sec(img.tab, 2).cls == BSS && Sec(img.tab, 2).size >= 0
    ensures p.ram + BlockFront(img) <= Base(img, p, 2)
    ensures Base(img, p, 2) + Sec(img.tab, 2).size == p.ram + RamSize(img.hdr, img.tab, p.mode)
  {
    hide RamSize, MainOffset, ValidTable, CodeOffset;
    assert ValidTable(img.tab);
    hide Shaped;
    MainSectionRoom(img, p, 2);
    SectionPlaced(img.hdr, img.tab, p.mode, 2);
  }

  lemma StagedMain(img: Image, p: Placement, src: int, m0: seq<Word>, m1: seq<Word>, m2: seq<Word>, m3: seq<Word>, k: int)
    requires Staged(img, p, src, m0, m1, m2, m3) && 0 <= k < 2 && InBlock(p, k)
    ensures Filled(img, m0, src, k, m3, Base(img, p, k))
  {
    hide RamSize, Extent, MainOffset, ValidTable, RecordedRun, Placed, OnlyTagged, WroteBody, SameOutside, Base, Sec, KeptIn,
      BlockFront, CodeOffset, Shaped, ZeroRange, RoomFor, Filled;
    StagedKeeps(img, p, src, m0, m1, m2, m3);
    TableShape(img);
    MainSectionRoom(img, p, k);
    MainsDisjoint(img, p, k, 2);
    KeptLess(m1, m3, p.ram + BlockFront(img), Base(img, p, 2), Base(img, p, k), Base(img, p, k) + Sec(img.tab, k).size);
    FilledInKept(img, m0, src, k, m1, m3, Base(img, p, k));
  }

  lemma StagedText(img: Image, p: Placement, src: int, m0: seq<Word>, m1: seq<Word>, m2: seq<Word>, m3: seq<Word>)
    requires Staged(img, p, src, m0, m1, m2, m3) && p.mode.Xip?
    ensures Filled(img, m0, src, 0, m3, Base(img, p, 0))
  {
    hide RamSize, Extent, MainOffset, ValidTable, RecordedRun, Placed, OnlyTagged, WroteBody, SameOutside, Sec, KeptIn,
      BlockFront, CodeOffset, Shaped, ZeroRange, MainFilled;
    StagedKeeps(img, p, src, m0, m1, m2, m3);
    SectionPayload(img, 0);
    TextIsPayload(img, m0, src, m3);
  }

  lemma TextIsPayload(img: Image, m0: seq<Word>, src: int, m: seq<Word>)
    requires Shaped(img) && img.tab != [] && KeptIn(m0, m, src, src + Extent(img)) && src % 4 == 0
    requires CodeOffset(img.hdr) + PayloadOffset(img.tab, 0) + Sec(img.tab, 0).size <= Extent(img)
    ensures Filled(img, m0, src, 0, m, src + CodeOffset(img.hdr))
  {
    hide ValidTable, Extent;
    assert ValidTable(img.tab);
    EntryFacts(img.tab, 0);
    hide Shaped, Get;
  }

  lemma StagedBss(img: Image, p: Placement, src: int, m0: seq<Word>, m3: seq<Word>)
    requires Shaped(img) && img.tab != [] && 0 <= p.ram && p.ram % 4 == 0
    requires ZeroRange(m3, Base(img, p, 2), Sec(img.tab, 2).size)
    ensures Filled(img, m0, src, 2, m3, Base(img, p, 2))
  {
    hide RamSize, MainOffset, Base, Shaped, Sec, Get, CodeOffset, BlockFront, PayloadOffset;
    BssLast(img, p);
    forall off | 0 <= off < Sec(img.tab, 2).size && off % 4 == 0
      ensures Get(m3, Base(img, p, 2) + off) == InitialWord(img, m0, src, 2, off)
    {
      assert WordZero(m3, Base(img, p, 2), off);
    }
  }

  lemma StagedTagged(img: Image, p: Placement, src: int, m0: seq<Word>, m1: seq<Word>, m2: seq<Word>, m3: seq<Word>, k: int)
    requires Staged(img, p, src, m0, m1, m2, m3) && 3 <= k < |img.tab|
    ensures Filled(img, m0, src, k, m3, Base(img, p, k))
  {
    hide RamSize, Extent, MainOffset, ValidTable, OnlyTagged, WroteBody, SameOutside, KeptIn, Sec,
      BlockFront, CodeOffset, Shaped, ZeroRange, RoomFor, MainFilled, Filled, Base;
    StagedKeeps(img, p, src, m0, m1, m2, m3);
    TableShape(img);
    var j := k - 3;
    assert Base(img, p, k) == p.tagged[j] by { TaggedBaseAt(img, p, k); }
    if Sec(img.tab, k).size == 0 {
      EmptyFilled(img, m0, src, k, m3, Base(img, p, k));
    } else {
      assert BlockOk(img, p.ram, p.mode, src, |m1|, p.tagged[j], Sec(img.tab, k).size);
      assert Filled(img, m1, src, k, m2, p.tagged[j]);
      var size := Sec(img.tab, k).size;
      TaggedApartFromBss(p.tagged[j], size, p.ram, RamSize(img.hdr, img.tab, p.mode), Base(img, p, 2), Sec(img.tab, 2).size,
        BlockFront(img)) by { assert 0 <= BlockFront(img) by { FrontPositive(img); } }
      OutsideKept(m2, m3, Base(img, p, 2), Sec(img.tab, 2).size, p.tagged[j], p.tagged[j] + size);
      FilledInKept(img, m1, src, k, m2, m3, p.tagged[j]);
      FilledFromOriginal(img, m0, m1, src, k, m3, p.tagged[j]);
    }
  }

  lemma FrontPositive(img: Image)
    ensures 0 <= BlockFront(img)
  {}

  lemma TaggedBaseAt(img: Image, p: Placement, k: int)
    requires 3 <= k < |img.tab| && |p.tagged| == NumTagged(img.tab)
    ensures Base(img, p, k) == p.tagged[k - 3]
  {}

  lemma EmptyFilled(img: Image, m0: seq<Word>, src: int, k: int, m: seq<Word>, base: int)
    requires Sec(img.tab, k).size == 0
    ensures Filled(img, m0, src, k, m, base)
  {}

  lemma TaggedApartFromBss(base: int, size: int, ram: int, room: int, at: int, n: int, front: int)
    requires Apart(base, size, ram, room) && ram + front <= at && at + n == ram + room && n >= 0 && size >= 0 && front >= 0
    ensures Apart(base, size, at, n)
  {}

  lemma StagedFilled(img: Image, p: Placement, src: int, m0: seq<Word>, m1: seq<Word>, m2: seq<Word>, m3: seq<Word>)
    requires Staged(img, p, src, m0, m1, m2, m3)
    ensures AllFilled(img, p, src, m0, m3)
  {
    StagedKeeps(img, p, src, m0, m1, m2, m3);
    forall k | 0 <= k < |img.tab|
      ensures Filled(img, m0, src, k, m3, Base(img, p, k))
    {
      hide RamSize, Extent, MainOffset, ValidTable, RecordedRun, Placed, OnlyTagged, WroteBody, SameOutside, KeptIn, Sec,
        BlockFront, CodeOffset, Shaped, ZeroRange, RoomFor, MainFilled, Filled, Base;
      if k >= 3 {
        StagedTagged(img, p, src, m0, m1, m2, m3, k);
      } else if k == 2 {
        StagedBss(img, p, src, m0, m3);
      } else if InBlock(p, k) {
        StagedMain(img, p, src, m0, m1, m2, m3, k);
      } else {
        StagedText(img, p, src, m0, m1, m2, m3);
      }
    }
  }

  // ----- the placement -----

  lemma TextInImage(img: Image, p: Placement, src: int, n: int)
    requires Shaped(img) && RoomFor(img, p, src, n)
    ensures 0 <= p.text && p.text % 4 == 0 && src <= p.text && p.text + TextSize(img, p.mode) <= src + Extent(img)
    ensures TextSize(img, p.mode) >= 0
  {
    hide RamSize, Extent, CodeOffset;
    ExtentCovers(img);
    if img.tab != [] { SectionPayload(img, 0); }
  }

  lemma PlacedIsTaggedPlaced(img: Image, p: Placement, src: int, m1: seq<Word>, m2: seq<Word>, k: int)
    requires 3 <= k < |img.tab| && |p.tagged| == NumTagged(img.tab) && RecordedRun(img.tab, p.tagged, |img.tab| - 3)
    requires Placed(img, p.ram, p.mode, src, m1, m2, p.tagged, |img.tab|)
    requires src <= p.text && p.text + TextSize(img, p.mode) <= src + Extent(img) && TextSize(img, p.mode) >= 0
    ensures TaggedPlaced(img, p, |m1|, k)
  {
    hide RamSize, Extent, Filled, TextSize, Sec;
    TaggedBaseAt(img, p, k);
    var j := k - 3;
    if Sec(img.tab, k).size != 0 {
      assert BlockOk(img, p.ram, p.mode, src, |m1|, p.tagged[j], Sec(img.tab, j + 3).size);
    }
  }

  lemma PlacedPairs(img: Image, p: Placement, src: int, m1: seq<Word>, m2: seq<Word>, k: int, l: int)
    requires 3 <= k < l < |img.tab| && |p.tagged| == NumTagged(img.tab) && RecordedRun(img.tab, p.tagged, |img.tab| - 3)
    requires Placed(img, p.ram, p.mode, src, m1, m2, p.tagged, |img.tab|)
    ensures Apart(TaggedBase(p, k), Sec(img.tab, k).size, TaggedBase(p, l), Sec(img.tab, l).size)
  {
    hide RamSize, Extent, Filled, TextSize, Sec, BlockOk;
    var i, j := k - 3, l - 3;
    assert p.tagged[i] != 0 && p.tagged[j] != 0 ==> Apart(p.tagged[i], Sec(img.tab, i + 3).size, p.tagged[j], Sec(img.tab, j + 3).size);
  }

  /** Placed tagged sections, a block with room and the image make a placement. */
  lemma PlacedIsValid(img: Image, p: Placement, src: int, m1: seq<Word>, m2: seq<Word>)
    requires Shaped(img) && RoomFor(img, p, src, |m1|) && 4 * |m1| <= LIMIT
    requires RecordedRun(img.tab, p.tagged, |img.tab| - 3)
    requires img.tab != [] ==> Placed(img, p.ram, p.mode, src, m1, m2, p.tagged, |img.tab|)
    ensures ValidPlacement(img, p, |m1|)
  {
    hide RamSize, Extent, CodeOffset, TaggedPlaced, Placed, Shaped, TextSize, TaggedBase, Sec;
    RunLength(img.tab, p.tagged, |img.tab| - 3);
    TextInImage(img, p, src, |m1|);
    forall k | 3 <= k < |img.tab|
      ensures TaggedPlaced(img, p, |m1|, k)
    {
      PlacedIsTaggedPlaced(img, p, src, m1, m2, k);
    }
    forall k, l | 3 <= k < l < |img.tab|
      ensures Apart(TaggedBase(p, k), Sec(img.tab, k).size, TaggedBase(p, l), Sec(img.tab, l).size)
    {
      PlacedPairs(img, p, src, m1, m2, k, l);
    }
  }

  // ----- the metadata -----

  /** The image itself is out of the relocations' reach: its metadata is no part of the module. */
  lemma SourceApart(img: Image, p: Placement, src: int, n: int)
    requires Shaped(img) && RoomFor(img, p, src, n)
    requires forall k :: 3 <= k < |img.tab| ==> Apart(TaggedBase(p, k), Sec(img.tab, k).size, src, Extent(img))
    ensures MetaApart(img, p, src)
  {
    hide RamSize, Extent, CodeOffset, TaggedBase, TextSize, Sec;
    ExtentCovers(img);
    TextInImage(img, p, src, n);
    hide Shaped;
    forall a | src <= a < src + CodeOffset(img.hdr)
      ensures Outside(img, p, a)
    {
      forall k | 3 <= k < |img.tab|
        ensures !(TaggedBase(p, k) <= a < TaggedBase(p, k) + Sec(img.tab, k).size)
      {
      }
    }
  }

  lemma TaggedClearOfImage(img: Image, p: Placement, src: int, m1: seq<Word>, m2: seq<Word>, k: int)
    requires 3 <= k < |img.tab| && |p.tagged| == NumTagged(img.tab)
    requires Placed(img, p.ram, p.mode, src, m1, m2, p.tagged, |img.tab|)
    requires RecordedRun(img.tab, p.tagged, |img.tab| - 3)
    ensures Apart(TaggedBase(p, k), Sec(img.tab, k).size, src, Extent(img))
  {
    hide RamSize, Extent, Filled, Sec;
    TaggedBaseAt(img, p, k);
    var j := k - 3;
    if Sec(img.tab, k).size != 0 {
      assert BlockOk(img, p.ram, p.mode, src, |m1|, p.tagged[j], Sec(img.tab, j + 3).size);
    }
  }

  /** The copy in the block lies in front of the main sections. */
  lemma CopyApart(img: Image, p: Placement)
    requires p.mode.CopyAll?
    ensures MetaApart(img, p, p.ram + BlockFront(img))
  {
    hide RamSize, CodeOffset, Outside;
  }

  lemma HeaderApart(img: Image, p: Placement, src: int)
    requires MetaApart(img, p, src)
    ensures MetaApart(img, p, HeaderOf(img, p, src))
  {
    hide MetaApart, RamSize, CodeOffset;
    if p.mode.CopyAll? { CopyApart(img, p); }
  }

  lemma ImageKeptDecodes(img: Image, src: int, m: seq<Word>, m': seq<Word>)
    requires Shaped(img) && 0 <= src && src % 4 == 0 && ImageAt(m, src) == Some(img) && KeptIn(m, m', src, src + Extent(img))
    ensures ImageAt(m', src) == Some(img)
  {
    hide CodeOffset, ImageAt, Extent;
    ExtentCovers(img);
    ShapedHasMains(img);
    hide Shaped;
    forall j | 0 <= j < CodeOffset(img.hdr) / 4
      ensures SameWord(m, src / 4, m', src / 4, j)
    {
      assert Get(m', src + 4 * j) == Get(m, src + 4 * j);
    }
    ImageFrame(m, src, m', src);
  }

  lemma StagedHeader(img: Image, p: Placement, src: int, m0: seq<Word>, m1: seq<Word>, m2: seq<Word>, m3: seq<Word>)
    requires Staged(img, p, src, m0, m1, m2, m3) && ImageAt(m0, src) == Some(img)
    requires p.mode.CopyAll? ==> MetaCopied(img, p, src, m0, m1)
    ensures ImageAt(m3, HeaderOf(img, p, src)) == Some(img)
  {
    hide RamSize, Extent, MainOffset, ValidTable, RecordedRun, Placed, OnlyTagged, WroteBody, SameOutside, KeptIn, Sec,
      BlockFront, CodeOffset, Shaped, ZeroRange, RoomFor, MainFilled, Filled, Base, ImageAt, MetaCopied;
    StagedKeeps(img, p, src, m0, m1, m2, m3);
    if p.mode.CopyAll? {
      CopyBehindFront(img, p);
      KeptLess(m1, m3, p.ram + BlockFront(img), Base(img, p, 2), p.ram + BlockFront(img), p.ram + BlockFront(img) + CodeOffset(img.hdr));
      CopiedMetaDecodes(img, p, src, m0, m1, m3);
    } else {
      ImageKeptDecodes(img, src, m0, m3);
    }
  }

  lemma CopyBehindFront(img: Image, p: Placement)
    requires Shaped(img) && img.tab != [] && p.mode.CopyAll? && 0 <= p.ram && p.ram % 4 == 0
    ensures p.ram + BlockFront(img) + CodeOffset(img.hdr) <= Base(img, p, 2)
  {
    hide RamSize, MainOffset, CodeOffset, Shaped, Base, BlockFront;
    MainSectionRoom(img, p, 2);
  }

  lemma CopiedMetaDecodes(img: Image, p: Placement, src: int, m0: seq<Word>, m1: seq<Word>, m3: seq<Word>)
    requires Shaped(img) && 0 <= src && src % 4 == 0 && 0 <= p.ram && p.ram % 4 == 0 && ImageAt(m0, src) == Some(img)
    requires MetaCopied(img, p, src, m0, m1)
    requires KeptIn(m1, m3, p.ram + BlockFront(img), p.ram + BlockFront(img) + CodeOffset(img.hdr))
    ensures ImageAt(m3, p.ram + BlockFront(img)) == Some(img)
  {
    hide CodeOffset, ImageAt;
    ShapedHasMains(img);
    hide Shaped;
    var h := p.ram + BlockFront(img);
    FrontPositive(img);
    assert h % 4 == 0;
    hide BlockFront;
    forall j | 0 <= j < CodeOffset(img.hdr) / 4
      ensures SameWord(m0, src / 4, m3, h / 4, j)
    {
      assert SameWord(m0, src / 4, m1, h / 4, j);
      assert Get(m3, h + 4 * j) == Get(m1, h + 4 * j);
    }
    ImageFrame(m0, src, m3, h);
  }

  // ----- link-time contents -----

  function Slice(m: seq<Word>, base: int, size: int): seq<Word> {
    seq<Word>(if size <= 0 then 0 else size / 4, (i: int) => Get(m, base + 4 * i))
  }

  /** The contents of a module that has been placed but not relocated. */
  function Snapshot(img: Image, p: Placement, m: seq<Word>): Contents {
    Contents(Slice(m, p.ram, RamSize(img.hdr, img.tab, p.mode)), Slice(m, p.text, TextSize(img, p.mode)),
             seq<seq<Word>>(NumTagged(img.tab), (j: int) => Slice(m, TaggedBase(p, j + 3), Sec(img.tab, j + 3).size)))
  }

  lemma WordOf(m: seq<Word>, base: int, size: int, off: int)
    requires 0 <= off < size && off % 4 == 0 && size % 4 == 0
    ensures At(Slice(m, base, size), off / 4) == Get(m, base + off)
  {
    assert 4 * (off / 4) == off;
  }

  lemma SnapshotCell(img: Image, p: Placement, m: seq<Word>, loc: Loc)
    requires Shaped(img) && InBounds(img, p.mode, loc)
    ensures Cell(Snapshot(img, p, m), loc) == Get(m, Slot(p, loc))
  {
    hide RamSize, Shaped, Get, Slice, TextSize;
    WordSizes(img, p.mode, if loc.Tagged? then loc.k else 0);
    match loc
    case Block(off) => WordOf(m, p.ram, RamSize(img.hdr, img.tab, p.mode), off);
    case Text(off) => WordOf(m, p.text, TextSize(img, p.mode), off);
    case Tagged(k, off) => WordOf(m, TaggedBase(p, k), Sec(img.tab, k).size, off);
  }

  lemma SnapshotHolds(img: Image, p: Placement, m: seq<Word>)
    requires Shaped(img)
    ensures Holds(img, p, Snapshot(img, p, m), m)
  {
    hide RamSize, Shaped, Get, Snapshot, Cell, Slot, InBounds, IsBaseSlot;
    forall loc | IsCell(img, p.mode, loc)
      ensures Get(m, Slot(p, loc)) == Cell(Snapshot(img, p, m), loc)
    {
      SnapshotCell(img, p, m, loc);
    }
  }

  /** Contents as the image gives them: every section's payload, zeros for .bss, and what COPY_ALL copies
      of the metadata. */
  ghost predicate Pristine(img: Image, mode: Mode, src: int, m0: seq<Word>, c: Contents) {
    PayloadsPristine(img, mode, src, m0, c) && MetaPristine(img, mode, src, m0, c)
  }

  /** The metadata in a COPY_ALL block. Without section placement, what follows the symbol table in its
      last word is zero. */
  function MetaWord(img: Image, m0: seq<Word>, src: int, off: int): Word {
    if img.tab == [] && img.hdr.symtSize % 4 != 0 && off == WholeMeta(img.hdr)
    then LowBytes(Get(m0, src + off), img.hdr.symtSize % 4)
    else Get(m0, src + off)
  }

  predicate MetaCell(img: Image, src: int, m0: seq<Word>, c: Contents, off: int) {
    Cell(c, Block(BlockFront(img) + off)) == MetaWord(img, m0, src, off)
  }

  ghost predicate MetaPristine(img: Image, mode: Mode, src: int, m0: seq<Word>, c: Contents) {
    mode.CopyAll? ==> forall off :: 0 <= off < CodeOffset(img.hdr) && off % 4 == 0 ==> MetaCell(img, src, m0, c, off)
  }

  ghost predicate PayloadsPristine(img: Image, mode: Mode, src: int, m0: seq<Word>, c: Contents) {
    if img.tab != [] then
      forall k, off :: 0 <= k < |img.tab| && 0 <= off < Sec(img.tab, k).size && off % 4 == 0 ==>
        Cell(c, SectionLoc(img, mode, k, off)) == InitialWord(img, m0, src, k, off)
    else
      && (!mode.Xip? ==> forall off :: 0 <= off < img.hdr.codeSize && off % 4 == 0 ==>
            Cell(c, Block(FlatCodeOffset(img.hdr, mode) + off)) == Get(m0, src + CodeOffset(img.hdr) + off))
      && (forall off :: 0 <= off < img.hdr.dataSize && off % 4 == 0 ==>
            Cell(c, Block(FlatDataOffset(img.hdr, mode) + off)) == Get(m0, src + CodeOffset(img.hdr) + img.hdr.codeSize + off))
      && (forall off :: 0 <= off < img.hdr.bssSize && off % 4 == 0 ==>
            Cell(c, Block(FlatBssOffset(img.hdr, mode) + off)) == 0)
  }

  lemma FilledIsPristine(img: Image, p: Placement, src: int, m0: seq<Word>, m: seq<Word>)
    requires Shaped(img) && img.tab != [] && AllFilled(img, p, src, m0, m)
    ensures PayloadsPristine(img, p.mode, src, m0, Snapshot(img, p, m))
  {
    hide RamSize, Shaped, Get, Snapshot, Cell, Slot, InBounds, IsBaseSlot, SectionLoc, InitialWord, Base;
    forall k, off | 0 <= k < |img.tab| && 0 <= off < Sec(img.tab, k).size && off % 4 == 0
      ensures Cell(Snapshot(img, p, m), SectionLoc(img, p.mode, k, off)) == InitialWord(img, m0, src, k, off)
    {
      SectionWord(img, p, k, off);
      SnapshotCell(img, p, m, SectionLoc(img, p.mode, k, off));
      assert Filled(img, m0, src, k, m, Base(img, p, k));
    }
  }

  lemma FlatCell(img: Image, p: Placement, m: seq<Word>, off: int)
    requires Shaped(img) && off % 4 == 0 && 0 <= off < RamSize(img.hdr, img.tab, p.mode)
    ensures Cell(Snapshot(img, p, m), Block(off)) == Get(m, p.ram + off)
  {
    hide RamSize, Shaped, Get, Snapshot, Cell;
    SnapshotCell(img, p, m, Block(off));
  }

  /** Where the flat parts lie in the block. */
  lemma FlatParts(img: Image, p: Placement)
    requires Shaped(img) && img.tab == []
    ensures var code, data, bss := FlatCodeOffset(img.hdr, p.mode), FlatDataOffset(img.hdr, p.mode), FlatBssOffset(img.hdr, p.mode);
      && code >= 0 && code % 4 == 0 && data >= 0 && data % 4 == 0 && bss >= 0 && bss % 4 == 0
      && (!p.mode.Xip? ==> CodeBase(img, p) == p.ram + code && code + img.hdr.codeSize <= RamSize(img.hdr, img.tab, p.mode))
      && DataBase(img, p) == p.ram + data && data + img.hdr.dataSize <= RamSize(img.hdr, img.tab, p.mode)
      && DataBase(img, p) + img.hdr.dataSize == p.ram + bss && bss + img.hdr.bssSize <= RamSize(img.hdr, img.tab, p.mode)
  {
    hide RamSize, Shaped, CodeOffset, FlatCodeOffset, FlatDataOffset, BlockFront, Extent;
    FlatOffsets(img, p);
    WordSum(FlatDataOffset(img.hdr, p.mode), img.hdr.dataSize, 0, 0, 0);
  }

  lemma FlatFilledIsPristine(img: Image, p: Placement, src: int, m0: seq<Word>, m: seq<Word>)
    requires Shaped(img) && img.tab == [] && FlatFilled(img, p, src, m0, m)
    ensures PayloadsPristine(img, p.mode, src, m0, Snapshot(img, p, m))
  {
    hide RamSize, Shaped, Get, Snapshot, Cell, CodeOffset, FlatCodeOffset, FlatDataOffset, FlatBssOffset, CodeBase, DataBase,
      CopiedRange, ZeroRange;
    FlatParts(img, p);
    var payload := src + CodeOffset(img.hdr);
    if !p.mode.Xip? {
      CopiedCells(img, p, payload, m0, m, FlatCodeOffset(img.hdr, p.mode), img.hdr.codeSize);
    }
    CopiedCells(img, p, payload + img.hdr.codeSize, m0, m, FlatDataOffset(img.hdr, p.mode), img.hdr.dataSize);
    ZeroCells(img, p, m, FlatBssOffset(img.hdr, p.mode), img.hdr.bssSize);
  }

  lemma CopiedCells(img: Image, p: Placement, from: int, m0: seq<Word>, m: seq<Word>, at: int, size: int)
    requires Shaped(img) && at >= 0 && at % 4 == 0 && at + size <= RamSize(img.hdr, img.tab, p.mode)
    requires CopiedRange(m0, from, m, p.ram + at, size)
    ensures forall off :: 0 <= off < size && off % 4 == 0 ==> Cell(Snapshot(img, p, m), Block(at + off)) == Get(m0, from + off)
  {
    hide RamSize, Shaped, Get, Snapshot, Cell;
    forall off | 0 <= off < size && off % 4 == 0
      ensures Cell(Snapshot(img, p, m), Block(at + off)) == Get(m0, from + off)
    {
      FlatCell(img, p, m, at + off);
      assert WordCopied(m0, from, m, p.ram + at, off);
      assert p.ram + at + off == p.ram + (at + off);
    }
  }

  lemma ZeroCells(img: Image, p: Placement, m: seq<Word>, at: int, size: int)
    requires Shaped(img) && at >= 0 && at % 4 == 0 && at + size <= RamSize(img.hdr, img.tab, p.mode)
    requires ZeroRange(m, p.ram + at, size)
    ensures forall off :: 0 <= off < size && off % 4 == 0 ==> Cell(Snapshot(img, p, m), Block(at + off)) == 0
  {
    hide RamSize, Shaped, Get, Snapshot, Cell;
    forall off | 0 <= off < size && off % 4 == 0
      ensures Cell(Snapshot(img, p, m), Block(at + off)) == 0
    {
      FlatCell(img, p, m, at + off);
      assert WordZero(m, p.ram + at, off);
      assert p.ram + at + off == p.ram + (at + off);
    }
  }

  /** Where the metadata is in the block. */
  lemma MetaCellPlace(img: Image, p: Placement, off: int)
    requires Shaped(img) && p.mode.CopyAll? && 0 <= off < CodeOffset(img.hdr) && off % 4 == 0
    ensures 0 <= BlockFront(img) && (BlockFront(img) + off) % 4 == 0 && BlockFront(img) + off < RamSize(img.hdr, img.tab, p.mode)
    ensures img.tab != [] && p.ram >= 0 && p.ram % 4 == 0 ==> p.ram + BlockFront(img) + off + 4 <= Base(img, p, 2)
  {
    hide RamSize, MainOffset, CodeOffset, Shaped, MainStart, Base;
    FrontPositive(img);
    assert BlockFront(img) % 4 == 0;
    hide BlockFront;
    StartFacts(img, p.mode);
    if img.tab == [] {
      FlatMetaPlace(img, p);
    } else {
      TabledBlockWords(img, p.mode);
      if p.ram >= 0 && p.ram % 4 == 0 { MetaBeforeBss(img, p, off); }
    }
    EndOfWords(BlockFront(img), CodeOffset(img.hdr), off);
  }

  lemma EndOfWords(a: int, size: int, off: int)
    requires a % 4 == 0 && size % 4 == 0 && 0 <= off < size && off % 4 == 0
    ensures (a + off) % 4 == 0 && off + 4 <= size
  {}

  lemma FlatMetaPlace(img: Image, p: Placement)
    requires Shaped(img) && img.tab == [] && p.mode.CopyAll?
    ensures BlockFront(img) + CodeOffset(img.hdr) <= RamSize(img.hdr, img.tab, p.mode)
  {
    hide RamSize, CodeOffset, Shaped, BlockFront;
    FlatOffsets(img, p);
    FlatParts(img, p);
  }

  lemma MetaBeforeBss(img: Image, p: Placement, off: int)
    requires Shaped(img) && img.tab != [] && p.mode.CopyAll? && p.ram >= 0 && p.ram % 4 == 0
    requires 0 <= off < CodeOffset(img.hdr) && off % 4 == 0
    ensures p.ram + BlockFront(img) + off + 4 <= Base(img, p, 2)
  {
    assert CodeOffset(img.hdr) % 4 == 0;
    hide RamSize, CodeOffset, Shaped, BlockFront, MainStart, Base;
    MainSectionRoom(img, p, 2);
    EndOfWords(0, CodeOffset(img.hdr), off);
  }

  lemma MetaCellIs(img: Image, p: Placement, src: int, m0: seq<Word>, m: seq<Word>, off: int)
    requires Shaped(img) && p.mode.CopyAll? && 0 <= off < CodeOffset(img.hdr) && off % 4 == 0
    requires Get(m, p.ram + BlockFront(img) + off) == MetaWord(img, m0, src, off)
    ensures MetaCell(img, src, m0, Snapshot(img, p, m), off)
  {
    hide RamSize, CodeOffset, BlockFront, Shaped, Snapshot, Cell, Get, MetaWord, Base;
    MetaCellPlace(img, p, off);
    FlatCell(img, p, m, BlockFront(img) + off);
    assert p.ram + (BlockFront(img) + off) == p.ram + BlockFront(img) + off;
  }

  lemma CopiedWordAt(m: seq<Word>, w: int, m': seq<Word>, w': int, n: int, src: int, dst: int, off: int)
    requires SameWords(m, w, m', w', n) && src % 4 == 0 && dst % 4 == 0 && w == src / 4 && w' == dst / 4
    requires 0 <= off < 4 * n && off % 4 == 0
    ensures Get(m', dst + off) == Get(m, src + off)
  {
    assert SameWord(m, w, m', w', off / 4);
    assert (dst + off) / 4 == w' + off / 4 && (src + off) / 4 == w + off / 4;
  }

  lemma StagedMeta(img: Image, p: Placement, src: int, m0: seq<Word>, m1: seq<Word>, m2: seq<Word>, m3: seq<Word>)
    requires Staged(img, p, src, m0, m1, m2, m3) && (p.mode.CopyAll? ==> MetaCopied(img, p, src, m0, m1))
    ensures MetaPristine(img, p.mode, src, m0, Snapshot(img, p, m3))
  {
    hide RamSize, Extent, MainOffset, ValidTable, RecordedRun, Placed, OnlyTagged, WroteBody, SameOutside, Base, Sec, CodeOffset,
      Shaped, ZeroRange, RoomFor, MainFilled, Snapshot, Cell, Get, MetaCell, SameWords;
    StagedKeeps(img, p, src, m0, m1, m2, m3);
    assert BlockFront(img) % 4 == 0;
    hide BlockFront;
    if p.mode.CopyAll? {
      forall off | 0 <= off < CodeOffset(img.hdr) && off % 4 == 0
        ensures MetaCell(img, src, m0, Snapshot(img, p, m3), off)
      {
        MetaCellPlace(img, p, off);
        var at := p.ram + BlockFront(img);
        CopiedWordAt(m0, src / 4, m1, at / 4, CodeOffset(img.hdr) / 4, src, at, off);
        assert at % 4 == 0 && (at + off) % 4 == 0;
        assert Get(m3, at + off) == Get(m1, at + off);
        MetaCellIs(img, p, src, m0, m3, off);
      }
    }
  }

  lemma FlatMetaWord(img: Image, p: Placement, src: int, m0: seq<Word>, m: seq<Word>, off: int)
    requires img.tab == [] && p.mode.CopyAll? && FlatMeta(img, p, src, m0, m) && p.ram % 4 == 0 && src % 4 == 0
    requires !IsSectioned(img.hdr) && 0 <= off < CodeOffset(img.hdr) && off % 4 == 0
    ensures Get(m, p.ram + BlockFront(img) + off) == MetaWord(img, m0, src, off)
  {
    hide Get, SameWords, CodeOffset, SymtabOffset, WholeMeta, LowBytes, BlockFront, IsSectioned;
    WholeMetaFits(img.hdr);
    WholeMetaCovers(img.hdr);
    FrontInWords(img);
    var at, whole := p.ram + BlockFront(img), WholeMeta(img.hdr);
    assert FlatMetaCopied(img.hdr, m0, src / 4, m, at / 4);
    if off < whole {
      CopiedWordAt(m0, src / 4, m, at / 4, whole / 4, src, at, off);
    } else {
      hide FlatMetaCopied;
      LastMetaWord(img.hdr, m0, src, m, at, off);
    }
  }

  lemma FrontInWords(img: Image)
    ensures BlockFront(img) % 4 == 0
  {}

  lemma FlatMetaPristine(img: Image, p: Placement, src: int, m0: seq<Word>, m: seq<Word>)
    requires Shaped(img) && img.tab == [] && FlatMeta(img, p, src, m0, m) && p.ram % 4 == 0 && src % 4 == 0
    requires !IsSectioned(img.hdr)
    ensures MetaPristine(img, p.mode, src, m0, Snapshot(img, p, m))
  {
    hide RamSize, Shaped, Snapshot, Cell, Get, MetaCell, MetaWord, FlatMeta, CodeOffset, BlockFront;
    if p.mode.CopyAll? {
      forall off | 0 <= off < CodeOffset(img.hdr) && off % 4 == 0
        ensures MetaCell(img, src, m0, Snapshot(img, p, m), off)
      {
        FlatMetaWord(img, p, src, m0, m, off);
        MetaCellIs(img, p, src, m0, m, off);
      }
    }
  }

  lemma LastMetaWord(hdr: Header, m0: seq<Word>, src: int, m: seq<Word>, at: int, off: int)
    requires FlatMetaCopied(hdr, m0, src / 4, m, at / 4) && src % 4 == 0 && at % 4 == 0
    requires hdr.symtSize % 4 != 0 && off == WholeMeta(hdr)
    ensures Get(m, at + off) == LowBytes(Get(m0, src + off), hdr.symtSize % 4)
  {
    WholeMetaFits(hdr);
    hide WholeMeta, CodeOffset, SymtabOffset, SameWords, LowBytes;
    assert (at + off) / 4 == at / 4 + off / 4 && (src + off) / 4 == src / 4 + off / 4;
  }

  /** Without a section table the code starts right behind the symbol table's last word. */
  lemma WholeMetaCovers(hdr: Header)
    requires !IsSectioned(hdr)
    ensures CodeOffset(hdr) == WholeMeta(hdr) + (if hdr.symtSize % 4 == 0 then 0 else 4)
  {
    SymtabAligned(hdr);
    var q, r: int := hdr.symtSize / 4, hdr.symtSize % 4;
    var t := SymtabOffset(hdr);
    assert hdr.symtSize == 4 * q + r;
    assert NumSections(hdr) == 0;
    hide SymtabOffset;
    assert Up4(t + hdr.symtSize) == t + 4 * q + (if r == 0 then 0 else 4);
  }

  // ----- ready for the relocations -----

  /** The module is where p says, its contents are the image's, and both copies of the metadata are safe. */
  ghost predicate Ready(mod: Module, img: Image, p: Placement, src: int, m0: seq<Word>, m: seq<Word>)
    reads mod
  {
    && WellFormed(img) && ValidPlacement(img, p, |m|) && Attached(mod, m, img, p) && MetaIn(img, p, m, src)
    && Holds(img, p, Snapshot(img, p, m), m) && Pristine(img, p.mode, src, m0, Snapshot(img, p, m))
  }

  lemma RecordedIsRead(img: Image, p: Placement, m: seq<Word>)
    requires |p.tagged| == NumTagged(img.tab) && BaseArray(m, p.ram, img.hdr.numLot, p.tagged)
    ensures BasesIn(img, p, m)
  {
    hide Get;
    forall k | 3 <= k < |img.tab|
      ensures Get(m, BaseSlot(img, p, k)) == TaggedBase(p, k)
    {
      assert BaseAt(m, p.ram, img.hdr.numLot, p.tagged, k - 3);
    }
  }

  lemma ReadIsRecorded(img: Image, p: Placement, m: seq<Word>)
    requires WellFormed(img) && ValidPlacement(img, p, |m|) && BasesIn(img, p, m)
    ensures BaseArray(m, p.ram, img.hdr.numLot, p.tagged)
  {
    assert |p.tagged| == NumTagged(img.tab) && BlockPlaced(img, p, |m|) by { hide RamSize, WellFormed; }
    forall j | 0 <= j < |p.tagged|
      ensures BaseAt(m, p.ram, img.hdr.numLot, p.tagged, j)
    {
      BaseRead(img, p, m, j);
    }
  }

  lemma BaseRead(img: Image, p: Placement, m: seq<Word>, j: nat)
    requires WellFormed(img) && BlockPlaced(img, p, |m|) && BasesIn(img, p, m) && j < |p.tagged| == NumTagged(img.tab)
    ensures BaseAt(m, p.ram, img.hdr.numLot, p.tagged, j)
  {
    hide RamSize, WellFormed, Get, BlockPlaced;
    BaseSlotInMemory(img, p, |m|, j + 3);
    assert Get(m, BaseSlot(img, p, j + 3)) == TaggedBase(p, j + 3);
    assert BaseSlot(img, p, j + 3) == p.ram + 4 * (img.hdr.numLot + j);
  }

  lemma BothPristine(img: Image, mode: Mode, src: int, m0: seq<Word>, c: Contents)
    requires PayloadsPristine(img, mode, src, m0, c) && MetaPristine(img, mode, src, m0, c)
    ensures Pristine(img, mode, src, m0, c)
  {}

  /** A staged sectioned module is ready. */
  lemma StagedIsReady(mod: Module, img: Image, p: Placement, src: int, m0: seq<Word>, m1: seq<Word>, m2: seq<Word>, m3: seq<Word>)
    requires WellFormed(img) && 4 * |m0| <= LIMIT && Staged(img, p, src, m0, m1, m2, m3) && ImageAt(m0, src) == Some(img)
    requires p.mode.CopyAll? ==> MetaCopied(img, p, src, m0, m1)
    requires mod.ram == p.ram && mod.mode == p.mode && mod.header == HeaderOf(img, p, src)
    requires RamSize(img.hdr, img.tab, p.mode) > 0 ==> p.ram > 0
    requires BaseArray(m3, p.ram, img.hdr.numLot, p.tagged)
    ensures Ready(mod, img, p, src, m0, m3)
  {
    hide RamSize, Extent, MainOffset, ValidTable, Staged, KeptIn, Sec, WellFormed, BlockFront, CodeOffset, Shaped, Base,
      ImageAt, MetaCopied, BaseArray, ValidPlacement, Holds, Pristine, PayloadsPristine, MetaPristine, Snapshot, MetaApart, AllFilled, BasesIn,
      HeaderOf;
    StagedPlacement(img, p, src, m0, m1, m2, m3);
    StagedFilled(img, p, src, m0, m1, m2, m3);
    StagedShape(img, p, src, m0, m1, m2, m3);
    FilledIsPristine(img, p, src, m0, m3);
    StagedMeta(img, p, src, m0, m1, m2, m3);
    BothPristine(img, p.mode, src, m0, Snapshot(img, p, m3));
    SnapshotHolds(img, p, m3);
    StagedHeader(img, p, src, m0, m1, m2, m3);
    RecordedIsRead(img, p, m3);
  }

  lemma StagedShape(img: Image, p: Placement, src: int, m0: seq<Word>, m1: seq<Word>, m2: seq<Word>, m3: seq<Word>)
    requires Staged(img, p, src, m0, m1, m2, m3) && ImageAt(m0, src) == Some(img)
    ensures Shaped(img) && img.tab != [] && |p.tagged| == NumTagged(img.tab) && ImageAt(m3, src) == Some(img)
    ensures src >= 0 && src % 4 == 0 && MetaApart(img, p, src) && MetaApart(img, p, HeaderOf(img, p, src))
    ensures HeaderOf(img, p, src) >= 0 && HeaderOf(img, p, src) % 4 == 0
    ensures p.mode.Xip? ==> p.text == HeaderOf(img, p, src) + CodeOffset(img.hdr)
    ensures p.mode.CopyAll? ==> HeaderOf(img, p, src) == p.ram + BlockFront(img)
  {
    hide RamSize, Extent, MainOffset, ValidTable, RecordedRun, Placed, OnlyTagged, WroteBody, SameOutside, KeptIn, Sec,
      BlockFront, CodeOffset, Shaped, ZeroRange, RoomFor, MainFilled, Base, ImageAt, MetaApart, HeaderOf, TaggedBase;
    StagedKeeps(img, p, src, m0, m1, m2, m3);
    ImageKeptDecodes(img, src, m0, m3);
    forall k | 3 <= k < |img.tab|
      ensures Apart(TaggedBase(p, k), Sec(img.tab, k).size, src, Extent(img))
    {
      TaggedClearOfImage(img, p, src, m1, m2, k);
    }
    SourceApart(img, p, src, |m0|);
    HeaderApart(img, p, src);
    HeaderFacts(img, p, src, |m0|);
  }

  lemma StagedPlacement(img: Image, p: Placement, src: int, m0: seq<Word>, m1: seq<Word>, m2: seq<Word>, m3: seq<Word>)
    requires 4 * |m0| <= LIMIT && Staged(img, p, src, m0, m1, m2, m3)
    ensures ValidPlacement(img, p, |m3|)
  {
    hide RamSize, Extent, MainOffset, ValidTable, RecordedRun, Placed, OnlyTagged, WroteBody, SameOutside, KeptIn, Sec,
      BlockFront, CodeOffset, Shaped, ZeroRange, MainFilled, Base, ValidPlacement, RoomFor;
    StagedKeeps(img, p, src, m0, m1, m2, m3);
    RoomSameLength(img, p, src, m0, m1);
    PlacedIsValid(img, p, src, m1, m2);
  }

  lemma RoomSameLength(img: Image, p: Placement, src: int, m0: seq<Word>, m1: seq<Word>)
    requires RoomFor(img, p, src, |m0|) && |m1| == |m0|
    ensures RoomFor(img, p, src, |m1|)
  {}

  lemma HeaderFacts(img: Image, p: Placement, src: int, n: int)
    requires RoomFor(img, p, src, n)
    ensures HeaderOf(img, p, src) >= 0 && HeaderOf(img, p, src) % 4 == 0
    ensures p.mode.Xip? ==> p.text == HeaderOf(img, p, src) + CodeOffset(img.hdr)
    ensures p.mode.CopyAll? ==> HeaderOf(img, p, src) == p.ram + BlockFront(img)
  {
    hide RamSize, Extent, CodeOffset;
    FrontPositive(img);
  }

  /** So is a module without section placement. */
  lemma FlatIsReady(mod: Module, img: Image, p: Placement, src: int, m0: seq<Word>, m: seq<Word>)
    requires WellFormed(img) && img.tab == [] && 4 * |m0| <= LIMIT && RoomFor(img, p, src, |m0|) && p.tagged == []
    requires WroteBody(img, p, m0, m) && FlatFilled(img, p, src, m0, m) && FlatMeta(img, p, src, m0, m)
    requires ImageAt(m0, src) == Some(img) && Described(mod, m, img, p) && mod.header == HeaderOf(img, p, src)
    ensures Ready(mod, img, p, src, m0, m)
  {
    assert Shaped(img);
    hide RamSize, Extent, ValidTable, RecordedRun, Placed, WroteBody, KeptIn, Sec, WellFormed, BlockFront, CodeOffset,
      Shaped, RoomFor, FlatFilled, FlatMeta, ImageAt, ValidPlacement, Holds, Pristine, PayloadsPristine, MetaPristine, Snapshot, MetaApart, BasesIn,
      HeaderOf;
    SameLengthBody(img, p, m0, m);
    FrontFits(img, p.mode);
    BodyKeepsImage(img, p, src, m0, m);
    PlacedIsValid(img, p, src, m0, m) by { EmptyRun(p.tagged, img); }
    FlatFilledIsPristine(img, p, src, m0, m);
    FlatUnsectioned(img, m0, src);
    RoomInWords(img, p, src, |m0|);
    FlatMetaPristine(img, p, src, m0, m);
    BothPristine(img, p.mode, src, m0, Snapshot(img, p, m));
    SnapshotHolds(img, p, m);
    ImageSourceOk(img, p, src, m0, m);
    SourceApart(img, p, src, |m0|);
    HeaderApart(img, p, src);
  }

  lemma RoomInWords(img: Image, p: Placement, src: int, n: int)
    requires RoomFor(img, p, src, n)
    ensures p.ram % 4 == 0 && src % 4 == 0
  {}

  lemma EmptyRun(tagged: seq<int>, img: Image)
    requires img.tab == [] && tagged == []
    ensures RecordedRun(img.tab, tagged, |img.tab| - 3)
  {}

  lemma FrontFits(img: Image, mode: Mode)
    requires Shaped(img)
    ensures BlockFront(img) <= RamSize(img.hdr, img.tab, mode)
  {
    hide RamSize, Shaped, BlockFront;
    BlockWords(img, mode);
  }

  lemma FrontNeedsBlock(img: Image, mode: Mode)
    requires WellFormed(img) && |img.tab| > 3
    ensures RamSize(img.hdr, img.tab, mode) > 0
  {
    hide RamSize, Shaped, CodeOffset;
    FrontFits(img, mode);
  }

  lemma ImageSourceOk(img: Image, p: Placement, src: int, m0: seq<Word>, m: seq<Word>)
    requires Shaped(img) && RoomFor(img, p, src, |m0|) && ImageAt(m0, src) == Some(img) && KeptIn(m0, m, src, src + Extent(img))
    ensures 0 <= src && src % 4 == 0 && ImageAt(m, src) == Some(img)
  {
    hide RamSize, Extent, CodeOffset, Shaped, ImageAt, KeptIn;
    ImageKeptDecodes(img, src, m0, m);
  }
}
