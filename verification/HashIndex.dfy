// The host-side hash index: a Bloom filter, buckets, and chains that end in an odd hash value.

module HashIndex {
  import opened Words
  import opened Relocation

  /** Symbol idx has its name and address at idx and its hash value at idx - symoffset. */
  datatype Table = Table(symoffset: nat, bloomShift: nat, bloom: seq<Word>, buckets: seq<nat>, hashes: seq<Word>,
                         names: seq<Name>, addrs: seq<Word>)

  // ----- the hash -----

  function HashFrom(h: Word, name: Name): Word
    decreases |name|
  {
    if name == [] then h else HashFrom(Wrap(h * 33 + name[0]), name[1..])
  }

  function GnuHash(name: Name): Word {
    HashFrom(5381, name)
  }

  /** Each byte multiplies what came before by 33 and is added. */
  lemma {:induction false} HashOneMore(h: Word, name: Name, c: Byte)
    ensures HashFrom(h, name + [c]) == Wrap(HashFrom(h, name) * 33 + c)
    decreases |name|
  {
    if name == [] {
      assert (name + [c])[1..] == [];
    } else {
      HashOneMore(Wrap(h * 33 + name[0]), name[1..], c);
      assert (name + [c])[1..] == name[1..] + [c];
    }
  }

  lemma NothingHashed(h: Word)
    ensures HashFrom(h, []) == h
  {}

  /** Hashing one byte further into a name. */
  lemma HashPrefix(name: Name, i: nat)
    requires i < |name|
    ensures GnuHash(name[..i + 1]) == Wrap(GnuHash(name[..i]) * 33 + name[i])
  {
    HashOneMore(5381, name[..i], name[i]);
    assert name[..i] + [name[i]] == name[..i + 1];
  }

  /** The hash of "printf". */
  lemma HashOfPrintf(name: Name)
    requires name == [112, 114, 105, 110, 116, 102]
    ensures GnuHash([]) == 5381 && GnuHash(name) == 0x156B_2BB8
  {
    hide HashFrom;
    NothingHashed(5381);
    assert name[..0] == [] && GnuHash([]) == 5381;
    hide GnuHash;
    HashPrefix(name, 0);
    assert GnuHash(name[..1]) == 177685;
    HashPrefix(name, 1);
    assert GnuHash(name[..2]) == 5863719;
    HashPrefix(name, 2);
    assert GnuHash(name[..3]) == 193502832;
    HashPrefix(name, 3);
    assert GnuHash(name[..4]) == 2090626270;
    HashPrefix(name, 4);
    assert GnuHash(name[..5]) == 271190290;
    HashPrefix(name, 5);
    assert name[..6] == name;
  }

  method ComputeHash(name: Name) returns (h: Word)
    ensures h == GnuHash(name)
  {
    h := 5381;
    for i := 0 to |name|
      invariant HashFrom(h, name[i..]) == GnuHash(name)
    {
      assert name[i..][1..] == name[i + 1..];
      h := Wrap(h * 33 + name[i]);
    }
  }

  // ----- masks of one or two bits -----

  function Pow(k: nat): (p: nat)
    ensures p > 0
  {
    if k == 0 then 1 else 2 * Pow(k - 1)
  }

  /** (1 << i) | (1 << j). */
  function TwoBits(i: nat, j: nat): nat {
    if i == j then Pow(i) else Pow(i) + Pow(j)
  }

  predicate Bit(w: int, k: nat)
    decreases k
  {
    if k == 0 then w % 2 == 1 else Bit(w / 2, k - 1)
  }

  lemma {:induction false} OneBit(w: nat, k: nat)
    ensures And(w, Pow(k)) == if Bit(w, k) then Pow(k) else 0
    decreases k
  {
    if w == 0 {
      ZeroBit(k);
    } else if k > 0 {
      OneBit(w / 2, k - 1);
      assert Pow(k) / 2 == Pow(k - 1) && Pow(k) % 2 == 0;
    } else {
      assert Pow(0) / 2 == 0 && And(w / 2, 0) == 0;
    }
  }

  lemma {:induction false} ZeroBit(k: nat)
    ensures !Bit(0, k)
  {
    if k == 0 {
    } else {
      ZeroBit(k - 1);
    }
  }

  /** The filter's test (w & mask) == mask is a test of both bits. */
  lemma {:induction false} MaskTest(w: nat, i: nat, j: nat)
    ensures And(w, TwoBits(i, j)) == TwoBits(i, j) <==> Bit(w, i) && Bit(w, j)
    decreases i + j
  {
    if i == j {
      OneBit(w, i);
    } else if w == 0 {
      ZeroBit(i);
    } else if i > 0 && j > 0 {
      MaskTest(w / 2, i - 1, j - 1);
      assert TwoBits(i, j) == 2 * TwoBits(i - 1, j - 1);
      hide Pow, TwoBits;
      AndDouble(w, TwoBits(i - 1, j - 1));
    } else {
      LowAndOther(w, if i == 0 then j else i);
    }
  }

  /** A mask whose lowest bit is clear. */
  lemma AndDouble(w: nat, m: nat)
    requires w > 0
    ensures And(w, 2 * m) == 2 * And(w / 2, m)
  {
    assert (2 * m) / 2 == m && (2 * m) % 2 == 0;
    if m == 0 { assert And(w / 2, 0) == 0; }
  }

  /** A mask of bit 0 and one other. */
  lemma LowAndOther(w: nat, k: nat)
    requires w > 0 && k > 0
    ensures And(w, Pow(0) + Pow(k)) == Pow(0) + Pow(k) <==> Bit(w, 0) && Bit(w, k)
  {
    OneBit(w / 2, k - 1);
    var m := Pow(k - 1);
    assert Pow(0) + Pow(k) == 1 + 2 * m;
    hide Pow;
    assert (1 + 2 * m) / 2 == m && (1 + 2 * m) % 2 == 1;
  }

  // ----- the table -----

  function SecondBit(t: Table, h: Word): nat {
    h / Pow(t.bloomShift) % 32
  }

  /** The filter word for h has both of h's bits, indexed by the modulus. */
  predicate Covered(t: Table, h: Word) {
    |t.bloom| > 0 && var w := t.bloom[h / 32 % |t.bloom|]; Bit(w, h % 32) && Bit(w, SecondBit(t, h))
  }

  predicate InTable(t: Table, i: int) {
    t.symoffset <= i < |t.names| && |t.names| == t.symoffset + |t.hashes|
  }

  /** No terminator at j. */
  predicate Continues(t: Table, j: int) {
    t.symoffset <= j < t.symoffset + |t.hashes| && t.hashes[j - t.symoffset] % 2 == 0
  }

  /** Symbol i is on the chain of its bucket: in or behind the start, with no terminator before it. */
  predicate OnChain(t: Table, i: int)
    requires InTable(t, i) && |t.buckets| > 0
  {
    var start := t.buckets[GnuHash(t.names[i]) % |t.buckets|];
    t.symoffset <= start <= i && forall j :: start <= j < i ==> Continues(t, j)
  }

  /** The shape the generator's tests check. Empty buckets may point anywhere in the table, or before it. */
  ghost predicate WellFormed(t: Table) {
    && |t.bloom| > 0 && IsPow2(|t.bloom|) && t.bloomShift < 32 && |t.buckets| > 0
    && |t.names| == |t.addrs| == t.symoffset + |t.hashes|
    && (t.hashes != [] ==> t.hashes[|t.hashes| - 1] % 2 == 1)
    && (forall b :: 0 <= b < |t.buckets| ==> t.buckets[b] < t.symoffset || t.buckets[b] < |t.names|)
    && (forall i :: InTable(t, i) ==> t.hashes[i - t.symoffset] / 2 == GnuHash(t.names[i]) / 2)
    && (forall i :: InTable(t, i) ==> Covered(t, GnuHash(t.names[i])) && OnChain(t, i))
  }

  predicate Names(t: Table, name: Name, i: int) {
    InTable(t, i) && t.names[i] == name
  }

  /** The mask index is the modulus. */
  lemma MaskIndex(t: Table, h: Word)
    requires IsPow2(|t.bloom|)
    ensures |t.bloom| > 0 && And(h / 32, |t.bloom| - 1) == h / 32 % |t.bloom|
  {
    hide And, IsPow2;
    AndIsRemainder(h / 32, |t.bloom|);
  }

  /** Neither the filter nor the bucket rejects a name of the table. */
  lemma NotFound(t: Table, name: Name)
    requires WellFormed(t)
    requires !Covered(t, GnuHash(name)) || t.buckets[GnuHash(name) % |t.buckets|] < t.symoffset
    ensures forall i :: t.symoffset <= i < |t.names| ==> !Names(t, name, i)
    ensures UniqueNames(t) ==> Answer(AsMap(t), name) == None
  {
    hide GnuHash, Covered, AsMap, Answer;
    forall i | t.symoffset <= i < |t.names|
      ensures !Names(t, name, i)
    {
      assert InTable(t, i) ==> Covered(t, GnuHash(t.names[i])) && OnChain(t, i);
    }
    if UniqueNames(t) { MapLacks(t, name); }
  }

  ghost predicate UniqueNames(t: Table) {
    forall i, j :: InTable(t, i) && InTable(t, j) && t.names[i] == t.names[j] ==> i == j
  }

  /** The table as a plain map from names to addresses. */
  ghost function AsMap(t: Table): map<Name, Word>
    requires |t.names| == |t.addrs| == t.symoffset + |t.hashes| && UniqueNames(t)
  {
    map i: int | t.symoffset <= i < |t.names| :: t.names[i] := t.addrs[i]
  }

  /** The answer of a plain map. */
  function Answer(m: map<Name, Word>, name: Name): Option<Word> {
    if name in m then Some(m[name]) else None
  }

  lemma MapHas(t: Table, name: Name, i: int)
    requires |t.names| == |t.addrs| == t.symoffset + |t.hashes| && UniqueNames(t) && Names(t, name, i)
    ensures Answer(AsMap(t), name) == Some(t.addrs[i])
  {}

  lemma MapLacks(t: Table, name: Name)
    requires |t.names| == |t.addrs| == t.symoffset + |t.hashes| && UniqueNames(t)
    requires forall i :: t.symoffset <= i < |t.names| ==> !Names(t, name, i)
    ensures Answer(AsMap(t), name) == None
  {
    forall i | t.symoffset <= i < |t.names|
      ensures t.names[i] != name
    {
      assert !Names(t, name, i);
    }
  }

  /** udynlink_resolve_hashed_symbol: the address of a symbol with the name, or None. */
  method Resolve(t: Table, name: Name) returns (r: Option<Word>)
    requires WellFormed(t)
    ensures r.Some? ==> exists i :: Names(t, name, i) && r.value == t.addrs[i]
    ensures r.None? ==> forall i :: t.symoffset <= i < |t.names| ==> !Names(t, name, i)
    ensures UniqueNames(t) ==> r == Answer(AsMap(t), name)
  {
    hide IsPow2, And, HashFrom, Bit, Pow;
    var h := ComputeHash(name);
    var mask := TwoBits(h % 32, SecondBit(t, h));
    MaskIndex(t, h);
    var w := t.bloom[And(h / 32, |t.bloom| - 1)];
    MaskTest(w, h % 32, SecondBit(t, h));
    if And(w, mask) != mask {
      assert !Covered(t, h);
      NotFound(t, name);
      return None;
    }
    hide Covered, SecondBit, TwoBits;
    var idx := t.buckets[h % |t.buckets|];
    if idx < t.symoffset {
      NotFound(t, name);
      return None;
    }
    ghost var start := idx;
    while true
      invariant t.symoffset <= start <= idx < |t.names|
      invariant forall i :: start <= i < idx ==> !Names(t, name, i)
      decreases |t.names| - idx
    {
      var hv := t.hashes[idx - t.symoffset];
      if hv / 2 == h / 2 {
        if t.names[idx] == name {
          if UniqueNames(t) { MapHas(t, name, idx); }
          return Some(t.addrs[idx]);
        }
      }
      assert !Names(t, name, idx);
      if hv % 2 == 1 {
        break;
      }
      idx := idx + 1;
    }
    forall i | t.symoffset <= i < |t.names|
      ensures !Names(t, name, i)
    {
      assert InTable(t, i) ==> OnChain(t, i);
      assert !Continues(t, idx);
    }
    if UniqueNames(t) { MapLacks(t, name); }
    return None;
  }
}
