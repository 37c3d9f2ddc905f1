// Little-endian fields, as struct packs them.

module Bytes {
  import opened Words

  type Half = x: int | 0 <= x < 0x1_0000

  function Le16(b: seq<Byte>, i: int): Half
    requires 0 <= i && i + 2 <= |b|
  {
    (b[i] as int) + 256 * (b[i + 1] as int)
  }

  function Le32(b: seq<Byte>, i: int): Word
    requires 0 <= i && i + 4 <= |b|
  {
    (Le16(b, i) as int) + 0x1_0000 * (Le16(b, i + 2) as int)
  }

  function Pack16(h: Half): (b: seq<Byte>)
    ensures |b| == 2
  {
    [h % 256, h / 256]
  }

  function Pack32(w: Word): (b: seq<Byte>)
    ensures |b| == 4
  {
    Pack16(w % 0x1_0000) + Pack16(w / 0x1_0000)
  }

  lemma Packed16(h: Half)
    ensures Le16(Pack16(h), 0) == h
  {}

  lemma Packed32(w: Word)
    ensures Le32(Pack32(w), 0) == w
  {
    Packed16(w % 0x1_0000);
    Packed16(w / 0x1_0000);
    var b := Pack32(w);
    assert b[0..2] == Pack16(w % 0x1_0000) && b[2..4] == Pack16(w / 0x1_0000);
    Moved16(b, 0, Pack16(w % 0x1_0000));
    Moved16(b, 2, Pack16(w / 0x1_0000));
    hide Le16, Pack16;
  }

  lemma Moved16(b: seq<Byte>, i: int, x: seq<Byte>)
    requires 0 <= i && i + 2 <= |b| && |x| == 2 && b[i..i + 2] == x
    ensures Le16(b, i) == Le16(x, 0)
  {
    assert b[i..i + 2][0] == b[i] && b[i..i + 2][1] == b[i + 1];
  }

  lemma Moved32(b: seq<Byte>, i: int, x: seq<Byte>)
    requires 0 <= i && i + 4 <= |b| && |x| == 4 && b[i..i + 4] == x
    ensures Le32(b, i) == Le32(x, 0)
  {
    assert b[i..i + 2] == x[0..2] && b[i + 2..i + 4] == x[2..4];
    Moved16(b, i, x[0..2]);
    Moved16(b, i + 2, x[2..4]);
    Moved16(x, 0, x[0..2]);
    Moved16(x, 2, x[2..4]);
    hide Le16;
  }

  /** Reading what was packed at i. */
  lemma Read16(b: seq<Byte>, i: int, h: Half)
    requires 0 <= i && i + 2 <= |b| && b[i..i + 2] == Pack16(h)
    ensures Le16(b, i) == h
  {
    Moved16(b, i, Pack16(h));
    Packed16(h);
  }

  lemma Read32(b: seq<Byte>, i: int, w: Word)
    requires 0 <= i && i + 4 <= |b| && b[i..i + 4] == Pack32(w)
    ensures Le32(b, i) == w
  {
    hide Pack32, Le32;
    Moved32(b, i, Pack32(w));
    Packed32(w);
  }

  /** Packing what was read at i. */
  lemma Repack16(b: seq<Byte>, i: int)
    requires 0 <= i && i + 2 <= |b|
    ensures Pack16(Le16(b, i)) == b[i..i + 2]
  {
    var lo: int, hi: int := b[i], b[i + 1];
    assert (lo + 256 * hi) % 256 == lo && (lo + 256 * hi) / 256 == hi;
  }

  lemma Repack32(b: seq<Byte>, i: int)
    requires 0 <= i && i + 4 <= |b|
    ensures Pack32(Le32(b, i)) == b[i..i + 4]
  {
    Repack16(b, i);
    Repack16(b, i + 2);
    var lo: int, hi: int := Le16(b, i), Le16(b, i + 2);
    hide Le16, Pack16;
    assert (lo + 0x1_0000 * hi) % 0x1_0000 == lo && (lo + 0x1_0000 * hi) / 0x1_0000 == hi;
    assert b[i..i + 4] == b[i..i + 2] + b[i + 2..i + 4];
  }

  function Zeros(n: int): (z: seq<Byte>)
    ensures |z| == if n > 0 then n else 0
  {
    seq<Byte>(if n > 0 then n else 0, (i: int) => 0)
  }
}
