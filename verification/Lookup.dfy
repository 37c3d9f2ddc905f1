// Symbol lookup: the sorted-prefix test made once at load, the binary search it licenses, and the
// linear scan used otherwise.

module Lookup {
  import opened Words
  import opened Strings
  import opened Image

  function Count(symt: seq<Word>): Word {
    At(symt, 0)
  }

  function KindAt(symt: seq<Word>, i: int): int {
    SymKind(At(symt, 2 * i + 1))
  }

  function NameOff(symt: seq<Word>, i: int): int {
    NameOffset(At(symt, 2 * i + 1))
  }

  function NameAt(symt: seq<Word>, size: nat, i: int): seq<Byte> {
    CStr(Pool(symt, size), NameOff(symt, i))
  }

  predicate EntryFits(symt: seq<Word>, size: nat, i: int) {
    && 2 * i + 2 < size / 4
    && (KindAt(symt, i) != INTERNAL ==> NameOff(symt, i) < size && HasNul(Pool(symt, size), NameOff(symt, i)))
  }

  /** What the toolchain emits: fewer than 65536 entries, all inside the table, names terminated. */
  predicate WellFormedTable(symt: seq<Word>, size: nat) {
    && size >= 4 && 0 < Count(symt) < 0x10000
    && KindAt(symt, 0) == MODULE_NAME
    && forall i :: 0 <= i < Count(symt) ==> EntryFits(symt, size, i)
  }

  predicate Named(symt: seq<Word>, i: int) {
    KindAt(symt, i) != INTERNAL
  }

  /** Entries 1 .. n are exactly the named ones. */
  predicate NamedFirst(symt: seq<Word>, n: int) {
    forall i :: 1 <= i < Count(symt) ==> (Named(symt, i) <==> i <= n)
  }

  predicate NotAfter(s: seq<Byte>, t: seq<Byte>) {
    !Before(t, s)
  }

  predicate SortedNames(symt: seq<Word>, size: nat, n: int) {
    forall i, j :: 1 <= i < j <= n ==> NotAfter(NameAt(symt, size, i), NameAt(symt, size, j))
  }

  // ----- strncmp with the remaining bytes of the table as its bound -----

  /** The sign of strncmp(b + p, b + q, n). */
  function Compare(b: seq<Byte>, p: nat, q: nat, n: nat): int
    requires p + n <= |b| && q + n <= |b|
    decreases n
  {
    if n == 0 then 0
    else if b[p] != b[q] then b[p] - b[q]
    else if b[p] == 0 then 0
    else Compare(b, p + 1, q + 1, n - 1)
  }

  method StrNCmp(b: seq<Byte>, p: nat, q: nat, n: nat) returns (r: int)
    requires p + n <= |b| && q + n <= |b|
    ensures r == Compare(b, p, q, n)
  {
    var k := 0;
    while k < n
      invariant 0 <= k <= n && Compare(b, p + k, q + k, n - k) == Compare(b, p, q, n)
    {
      if b[p + k] != b[q + k] {
        r := b[p + k];
        r := r - b[q + k];
        return;
      }
      if b[p + k] == 0 {
        return 0;
      }
      k := k + 1;
    }
    return 0;
  }

  function Room(b: seq<Byte>, p: nat, q: nat): nat
    requires p <= |b| && q <= |b|
  {
    if |b| - p < |b| - q then |b| - p else |b| - q
  }

  /** The current name runs to the end of the table and is where the previous one begins: the bound then
      ends the comparison before the difference. */
  predicate CutShort(b: seq<Byte>, p: nat, q: nat) {
    !HasNul(b, q) && CStr(b, q) < CStr(b, p)
  }

  /** The bounded comparison is the comparison of the whole names but for those cut short. */
  lemma {:induction false} BoundedOrder(b: seq<Byte>, p: nat, q: nat)
    requires p <= |b| && q <= |b|
    ensures Compare(b, p, q, Room(b, p, q)) > 0 <==> Before(CStr(b, q), CStr(b, p)) && !CutShort(b, p, q)
    decreases |b| - p
  {
    if p == |b| {
      assert CStr(b, p) == [];
    } else if q == |b| {
      assert CStr(b, q) == [];
    } else if b[p] != b[q] {
      DifferentStarts(b, p, q);
    } else if b[p] == 0 {
      assert CStr(b, p) == [] && CStr(b, q) == [];
    } else {
      BoundedOrder(b, p + 1, q + 1);
      assert CStr(b, p) == [b[p]] + CStr(b, p + 1) && CStr(b, q) == [b[q]] + CStr(b, q + 1);
      assert Room(b, p + 1, q + 1) == Room(b, p, q) - 1;
      NulLater(b, q);
      hide CStr, Room, HasNul;
      SameFirst(b[p], CStr(b, q + 1), CStr(b, p + 1));
    }
  }

  lemma DifferentStarts(b: seq<Byte>, p: nat, q: nat)
    requires p < |b| && q < |b| && b[p] != b[q]
    ensures b[p] > b[q] <==> Before(CStr(b, q), CStr(b, p)) && !CutShort(b, p, q)
  {
    if b[q] == 0 {
      assert HasNul(b, q);
    }
  }

  lemma SameFirst(c: Byte, s: seq<Byte>, t: seq<Byte>)
    ensures Before([c] + s, [c] + t) == Before(s, t)
    ensures [c] + s < [c] + t <==> s < t
  {
    assert ([c] + s)[1..] == s && ([c] + t)[1..] == t;
    if [c] + s < [c] + t {
      assert forall i :: 0 <= i < |s| ==> s[i] == ([c] + s)[i + 1] == ([c] + t)[i + 1] == t[i];
    }
  }

  lemma NulLater(b: seq<Byte>, p: nat)
    requires p < |b| && b[p] != 0
    ensures HasNul(b, p) <==> HasNul(b, p + 1)
  {
    if HasNul(b, p) {
      var k :| p <= k < |b| && b[k] == 0;
      assert p + 1 <= k;
    }
  }

  /** The sortedness check reads the order of the names exactly unless the current one is cut short; in
      particular it does for every terminated one. */
  lemma BoundLosesNothing(b: seq<Byte>, p: nat, q: nat)
    requires p <= |b| && q <= |b|
    ensures (Compare(b, p, q, Room(b, p, q)) > 0 <==> Before(CStr(b, q), CStr(b, p))) <==> !CutShort(b, p, q)
    ensures HasNul(b, q) ==> !CutShort(b, p, q)
  {
    BoundedOrder(b, p, q);
    hide HasNul;
    if CutShort(b, p, q) {
      PrefixBefore(CStr(b, q), CStr(b, p));
    }
  }

  lemma {:induction false} PrefixBefore(s: seq<Byte>, t: seq<Byte>)
    requires s < t
    ensures Before(s, t)
    decreases |s|
  {
    if s == [] {
    } else {
      PrefixBefore(s[1..], t[1..]);
    }
  }

  /** Two names without a terminator, out of order, that the check lets pass: a missing terminator is not
      reported as a difference. */
  lemma UnterminatedPasses()
    ensures var b: seq<Byte> := [97, 97];
      !HasNul(b, 0) && !HasNul(b, 1) && Before(CStr(b, 1), CStr(b, 0)) && Compare(b, 0, 1, Room(b, 0, 1)) == 0
  {
    var b: seq<Byte> := [97, 97];
    assert CStr(b, 2) == [] && CStr(b, 1) == [97] && CStr(b, 0) == [97, 97];
    assert Compare(b, 1, 2, 0) == 0;
  }

  // ----- the order -----

  lemma NotAfterTransitive(s: seq<Byte>, t: seq<Byte>, u: seq<Byte>)
    requires NotAfter(s, t) && NotAfter(t, u)
    ensures NotAfter(s, u)
  {
    hide Before;
    Trichotomy(s, t);
    Trichotomy(t, u);
    if Before(u, s) {
      if s == t || t == u {
      } else {
        BeforeTransitive(s, t, u);
        BeforeAsymmetric(u, s);
      }
    }
  }

  lemma SortedExtends(symt: seq<Word>, size: nat, n: int)
    requires SortedNames(symt, size, n) && n >= 1
    requires NotAfter(NameAt(symt, size, n), NameAt(symt, size, n + 1))
    ensures SortedNames(symt, size, n + 1)
  {
    hide NotAfter, NameAt;
    forall i, j | 1 <= i < j <= n + 1
      ensures NotAfter(NameAt(symt, size, i), NameAt(symt, size, j))
    {
      if j == n + 1 && i < n {
        NotAfterTransitive(NameAt(symt, size, i), NameAt(symt, size, n), NameAt(symt, size, j));
      }
    }
  }

  // ----- compute_num_named_syms_raw -----

  /** n is the length of a sorted prefix holding all named entries, or 0 if there is none. */
  predicate IsNumNamed(symt: seq<Word>, size: nat, n: int) {
    if n > 0 then n < Count(symt) && NamedFirst(symt, n) && SortedNames(symt, size, n)
    else n == 0 && forall k :: 0 < k < Count(symt) ==> !(NamedFirst(symt, k) && SortedNames(symt, size, k))
  }

  /** udynlink.c compute_num_named_syms_raw. */
  method ComputeNumNamed(symt: seq<Word>, size: nat) returns (n: nat)
    requires WellFormedTable(symt, size)
    ensures IsNumNamed(symt, size, n)
  {
    hide NameAt, Pool, NotAfter, HasNul;
    var words := size / 4;
    var found, last := false, 0;
    var i := 1;
    while i < Count(symt)
      invariant 1 <= i <= Count(symt) && 0 <= last < i
      invariant found <==> last < i - 1
      invariant forall k :: 1 <= k < i ==> (Named(symt, k) <==> k <= last)
    {
      assert EntryFits(symt, size, i);
      if i * 2 + 1 >= words {
        break;
      }
      if KindAt(symt, i) == INTERNAL {
        found := true;
      } else {
        if found {
          NoPrefix(symt, size, i - 1, i);
          return 0;
        }
        last := i % 0x10000;
      }
      i := i + 1;
    }
    n := CheckSorted(symt, size, last);
    if n == 0 {
      forall k | 0 < k < Count(symt) && NamedFirst(symt, k)
        ensures !SortedNames(symt, size, k)
      {
        SamePrefix(symt, k, last);
      }
    }
  }

  lemma NoPrefix(symt: seq<Word>, size: nat, local: int, named: int)
    requires 1 <= local < named < Count(symt) && !Named(symt, local) && Named(symt, named)
    ensures forall k :: 0 < k < Count(symt) ==> !NamedFirst(symt, k)
  {}

  lemma SamePrefix(symt: seq<Word>, k: int, l: int)
    requires NamedFirst(symt, k) && NamedFirst(symt, l) && 0 < k < Count(symt) && 0 <= l < Count(symt)
    ensures k == l
  {
    assert Named(symt, k);
    assert l > k ==> !Named(symt, l);
  }

  /** The second loop: every name against its predecessor. */
  method CheckSorted(symt: seq<Word>, size: nat, last: nat) returns (n: nat)
    requires WellFormedTable(symt, size) && last < Count(symt)
    requires NamedFirst(symt, last)
    ensures n == (if SortedNames(symt, size, last) then last else 0)
  {
    hide NotAfter, HasNul;
    var pool := Pool(symt, size);
    hide Pool;
    var i := 2;
    while i <= last
      invariant 2 <= i && (i <= last + 1 || last < 2)
      invariant SortedNames(symt, size, if i <= last then i - 1 else last)
    {
      var prev, cur := NameOff(symt, i - 1), NameOff(symt, i);
      assert EntryFits(symt, size, i - 1) && EntryFits(symt, size, i);
      assert Named(symt, i - 1) && Named(symt, i);
      PoolLength(symt, size);
      if prev >= size || cur >= size {
        assert false;
      }
      var c := StrNCmp(pool, prev, cur, Room(pool, prev, cur));
      BoundLosesNothing(pool, prev, cur);
      if c > 0 {
        assert !NotAfter(NameAt(symt, size, i - 1), NameAt(symt, size, i)) by { OutOfOrder(symt, size, i); }
        return 0;
      }
      assert NotAfter(NameAt(symt, size, i - 1), NameAt(symt, size, i)) by { InOrder(symt, size, i); }
      SortedExtends(symt, size, i - 1);
      i := i + 1;
    }
    return last;
  }

  lemma PoolLength(symt: seq<Word>, size: nat)
    ensures |Pool(symt, size)| == size
  {}

  lemma OutOfOrder(symt: seq<Word>, size: nat, i: int)
    requires Before(NameAt(symt, size, i), NameAt(symt, size, i - 1))
    ensures !NotAfter(NameAt(symt, size, i - 1), NameAt(symt, size, i))
  {}

  lemma InOrder(symt: seq<Word>, size: nat, i: int)
    requires !Before(NameAt(symt, size, i), NameAt(symt, size, i - 1))
    ensures NotAfter(NameAt(symt, size, i - 1), NameAt(symt, size, i))
  {}

  // ----- the two searches -----

  predicate Matches(symt: seq<Word>, size: nat, name: seq<Byte>, i: int) {
    1 <= i < Count(symt) && Named(symt, i) && NameAt(symt, size, i) == name
  }

  /** A search is right when it returns an entry with the name, or there is none. */
  ghost predicate Found(symt: seq<Word>, size: nat, name: seq<Byte>, r: Option<nat>) {
    if r.Some? then Matches(symt, size, name, r.value) else forall i :: !Matches(symt, size, name, i)
  }

  lemma EntryIsSymbol(symt: seq<Word>, size: nat, i: nat)
    requires WellFormedTable(symt, size)
    ensures SymAt(symt, size, i).Some? <==> i < Count(symt)
    ensures i < Count(symt) ==>
      var sym := SymAt(symt, size, i).value;
      sym.kind == KindAt(symt, i) && (Named(symt, i) ==> sym.name == NameAt(symt, size, i))
  {
    hide Pool, HasNul;
    if i < Count(symt) { assert EntryFits(symt, size, i); }
  }

  /** udynlink_lookup_symbol with num_named_syms > 0. */
  method BinarySearch(symt: seq<Word>, size: nat, n: nat, name: seq<Byte>) returns (r: Option<nat>)
    requires WellFormedTable(symt, size) && n > 0 && IsNumNamed(symt, size, n)
    ensures Found(symt, size, name, r)
  {
    hide NameAt, NotAfter, WellFormedTable, SymAt;
    var lo, hi := 1, n;
    while lo <= hi
      invariant 1 <= lo && hi <= n
      invariant forall i :: Matches(symt, size, name, i) ==> lo <= i <= hi
      decreases hi - lo
    {
      var mid := lo + (hi - lo) / 2;
      EntryIsSymbol(symt, size, mid);
      var sym := SymAt(symt, size, mid);
      if sym.None? {
        break;
      }
      var s := sym.value.name;
      if s == name {
        return Some(mid);
      } else if Before(s, name) {
        BelowExcluded(symt, size, n, name, mid);
        lo := mid + 1;
      } else {
        AboveExcluded(symt, size, n, name, mid);
        hi := mid - 1;
      }
    }
    return None;
  }

  lemma BelowExcluded(symt: seq<Word>, size: nat, n: int, name: seq<Byte>, mid: int)
    requires SortedNames(symt, size, n) && 1 <= mid <= n && Before(NameAt(symt, size, mid), name)
    ensures forall i :: 1 <= i <= mid ==> NameAt(symt, size, i) != name
  {
    hide NameAt;
    forall i | 1 <= i <= mid
      ensures NameAt(symt, size, i) != name
    {
      if i == mid {
        BeforeAsymmetric(NameAt(symt, size, mid), name);
      } else {
        assert NotAfter(NameAt(symt, size, i), NameAt(symt, size, mid));
      }
    }
  }

  lemma AboveExcluded(symt: seq<Word>, size: nat, n: int, name: seq<Byte>, mid: int)
    requires SortedNames(symt, size, n) && 1 <= mid <= n
    requires NameAt(symt, size, mid) != name && !Before(NameAt(symt, size, mid), name)
    ensures forall i :: mid <= i <= n ==> NameAt(symt, size, i) != name
  {
    hide NameAt;
    Trichotomy(NameAt(symt, size, mid), name);
    forall i | mid < i <= n
      ensures NameAt(symt, size, i) != name
    {
      assert NotAfter(NameAt(symt, size, mid), NameAt(symt, size, i));
    }
  }

  /** udynlink_lookup_symbol's fallback: the first entry with the name. */
  method LinearScan(symt: seq<Word>, size: nat, name: seq<Byte>) returns (r: Option<nat>)
    requires WellFormedTable(symt, size)
    ensures Found(symt, size, name, r)
    ensures r.Some? ==> forall i :: i < r.value ==> !Matches(symt, size, name, i)
  {
    assert Count(symt) > 0;
    hide NameAt, WellFormedTable, SymAt;
    var idx := 1;
    while true
      invariant 1 <= idx <= Count(symt)
      invariant forall i :: i < idx ==> !Matches(symt, size, name, i)
      decreases Count(symt) - idx
    {
      EntryIsSymbol(symt, size, idx);
      var sym := SymAt(symt, size, idx);
      if sym.None? {
        return None;
      }
      if sym.value.kind != INTERNAL && sym.value.name == name {
        return Some(idx);
      }
      idx := idx + 1;
    }
  }

  predicate UniqueNames(symt: seq<Word>, size: nat) {
    forall i, j :: 1 <= i < j < Count(symt) && Named(symt, i) && Named(symt, j) ==>
      NameAt(symt, size, i) != NameAt(symt, size, j)
  }

  /** Hence the fast search refines the slow one: they find a name in the same tables, and with
      unique names they find the same entry. */
  lemma FastIsSlow(symt: seq<Word>, size: nat, name: seq<Byte>, fast: Option<nat>, slow: Option<nat>)
    requires Found(symt, size, name, fast) && Found(symt, size, name, slow)
    ensures fast.Some? <==> slow.Some?
    ensures UniqueNames(symt, size) ==> fast == slow
  {
    hide NameAt;
  }
}
