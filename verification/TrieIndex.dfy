// The host-side trie index: siblings in strictly increasing character order, one level per character.

module TrieIndex {
  import opened Words
  import opened Bytes
  import opened Relocation

  const NONE := 0xFFFF

  datatype Node = Node(chFlags: Half, sibling: Half, child: Half, leaf: Half)

  datatype Table = Table(root: Half, nodes: seq<Node>, addrs: seq<Word>)

  function Char(t: Table, i: int): int
    requires 0 <= i < |t.nodes|
  {
    t.nodes[i].chFlags % 0x100
  }

  predicate IsLeaf(t: Table, i: int)
    requires 0 <= i < |t.nodes|
  {
    t.nodes[i].chFlags / 0x100 % 2 == 1
  }

  predicate LinkOk(t: Table, i: int) {
    i == NONE || i < |t.nodes|
  }

  /** Siblings have strictly increasing characters; links and leaf indices are in range. */
  predicate WellFormed(t: Table) {
    && |t.nodes| < NONE && LinkOk(t, t.root)
    && forall i :: 0 <= i < |t.nodes| ==> NodeOk(t, i)
  }

  predicate NodeOk(t: Table, i: int)
    requires 0 <= i < |t.nodes|
  {
    var n := t.nodes[i];
    && LinkOk(t, n.sibling) && LinkOk(t, n.child)
    && (n.sibling != NONE ==> Char(t, n.sibling) > Char(t, i))
    && (IsLeaf(t, i) ==> n.leaf < |t.addrs|)
  }

  /** Node i is on the level that starts at `from`. The sibling order is the termination measure. */
  predicate OnLevel(t: Table, from: int, i: int)
    requires WellFormed(t) && 0 <= from && LinkOk(t, from)
    decreases if from == NONE then 0 else 256 - Char(t, from)
  {
    from != NONE && (from == i || (assert NodeOk(t, from); OnLevel(t, t.nodes[from].sibling, i)))
  }

  /** The level below node i, or the top level. */
  function Below(t: Table, i: int): int
    requires i < |t.nodes|
  {
    if i < 0 then t.root else t.nodes[i].child
  }

  lemma BelowOk(t: Table, i: int)
    requires WellFormed(t) && i < |t.nodes|
    ensures 0 <= Below(t, i) && LinkOk(t, Below(t, i))
  {
    if i >= 0 { assert NodeOk(t, i); }
  }

  /** A path from the root: each node on the level below the one before it. */
  predicate RootPath(t: Table, path: seq<int>)
    requires WellFormed(t)
  {
    && (forall k :: 0 <= k < |path| ==> 0 <= path[k] < |t.nodes|)
    && (forall k :: 0 <= k < |path| ==> OnLevelBelow(t, Above(path, k), path[k]))
  }

  /** The node before position k of a path; -1 for the root. */
  function Above(path: seq<int>, k: nat): int
    requires k <= |path|
  {
    if k == 0 then -1 else path[k - 1]
  }

  predicate OnLevelBelow(t: Table, above: int, i: int)
    requires WellFormed(t)
  {
    above < |t.nodes| && (BelowOk(t, above); OnLevel(t, Below(t, above), i))
  }

  predicate Spells(t: Table, path: seq<int>, name: Name)
    requires WellFormed(t)
  {
    RootPath(t, path) && |path| == |name| && forall k :: 0 <= k < |path| ==> Char(t, path[k]) == name[k]
  }

  lemma {:induction false} OnLevelInRange(t: Table, from: int, i: int)
    requires WellFormed(t) && 0 <= from && LinkOk(t, from) && OnLevel(t, from, i)
    ensures 0 <= i < |t.nodes| && Char(t, i) >= Char(t, from)
    decreases if from == NONE then 0 else 256 - Char(t, from)
  {
    if from == i {
    } else {
      assert NodeOk(t, from);
      OnLevelInRange(t, t.nodes[from].sibling, i);
    }
  }

  /** A level has one node for a character. */
  lemma {:induction false} OnePerChar(t: Table, from: int, i: int, j: int)
    requires WellFormed(t) && 0 <= from && LinkOk(t, from) && OnLevel(t, from, i) && OnLevel(t, from, j)
    requires 0 <= i < |t.nodes| && 0 <= j < |t.nodes| && Char(t, i) == Char(t, j)
    ensures i == j
    decreases if from == NONE then 0 else 256 - Char(t, from)
  {
    assert NodeOk(t, from);
    if from == i && from != j {
      OnLevelInRange(t, t.nodes[from].sibling, j);
    } else if from == j && from != i {
      OnLevelInRange(t, t.nodes[from].sibling, i);
    } else if from != i {
      OnePerChar(t, t.nodes[from].sibling, i, j);
    }
  }

  lemma OneBelow(t: Table, above: int, i: int, j: int)
    requires WellFormed(t) && OnLevelBelow(t, above, i) && OnLevelBelow(t, above, j)
    requires 0 <= i < |t.nodes| && 0 <= j < |t.nodes| && Char(t, i) == Char(t, j)
    ensures i == j
  {
    hide OnLevel;
    BelowOk(t, above);
    OnePerChar(t, Below(t, above), i, j);
  }

  lemma SameNext(t: Table, p: seq<int>, q: seq<int>, name: Name, n: nat)
    requires WellFormed(t) && Spells(t, p, name) && Spells(t, q, name) && n < |name|
    requires n > 0 ==> p[n - 1] == q[n - 1]
    ensures p[n] == q[n]
  {
    assert OnLevelBelow(t, Above(p, n), p[n]) && OnLevelBelow(t, Above(q, n), q[n]);
    assert Char(t, p[n]) == name[n] == Char(t, q[n]);
    hide OnLevelBelow;
    OneBelow(t, Above(p, n), p[n], q[n]);
  }

  lemma SpellsLength(t: Table, p: seq<int>, name: Name)
    requires WellFormed(t) && Spells(t, p, name)
    ensures |p| == |name|
  {}

  /** A name is spelled by at most one path. */
  lemma {:induction false} OnePath(t: Table, p: seq<int>, q: seq<int>, name: Name)
    requires WellFormed(t) && Spells(t, p, name) && Spells(t, q, name)
    ensures p == q
    decreases |name|
  {
    hide Spells, WellFormed;
    SpellsLength(t, p, name);
    SpellsLength(t, q, name);
    if name == [] {
    } else {
      var n := |name| - 1;
      SpellsPrefix(t, p, name, n);
      SpellsPrefix(t, q, name, n);
      OnePath(t, p[..n], q[..n], name[..n]);
      assert n > 0 ==> p[..n][n - 1] == q[..n][n - 1];
      SameNext(t, p, q, name, n);
      assert p == p[..n] + [p[n]] && q == q[..n] + [q[n]];
    }
  }

  lemma SpellsPrefix(t: Table, p: seq<int>, name: Name, n: nat)
    requires WellFormed(t) && Spells(t, p, name) && n <= |name|
    ensures Spells(t, p[..n], name[..n])
  {
    var q := p[..n];
    forall k | 0 <= k < |q|
      ensures OnLevelBelow(t, Above(q, k), q[k])
    {
      assert OnLevelBelow(t, Above(p, k), p[k]);
    }
  }

  lemma SpellsMore(t: Table, p: seq<int>, name: Name, i: int, c: Byte)
    requires WellFormed(t) && Spells(t, p, name) && 0 <= i < |t.nodes| && Char(t, i) == c
    requires OnLevelBelow(t, Above(p, |p|), i)
    ensures Spells(t, p + [i], name + [c])
  {
    hide OnLevel, NodeOk;
    var q := p + [i];
    forall k | 0 <= k < |q|
      ensures OnLevelBelow(t, Above(q, k), q[k])
    {
      assert k < |p| ==> OnLevelBelow(t, Above(p, k), p[k]);
    }
  }

  /** A longer spelling extends the only shorter one by a node of the level below. */
  lemma SpellsStep(t: Table, p: seq<int>, name: Name, n: nat, q: seq<int>)
    requires WellFormed(t) && n < |name| && Spells(t, p, name[..n]) && Spells(t, q, name)
    ensures OnLevelBelow(t, Above(p, |p|), q[n]) && Char(t, q[n]) == name[n]
  {
    SpellsPrefix(t, q, name, n);
    OnePath(t, p, q[..n], name[..n]);
    assert OnLevelBelow(t, Above(q, n), q[n]);
    assert n > 0 ==> p[n - 1] == q[..n][n - 1];
  }

  /** The inner loop: the node for c on a level. Stopping at a larger character loses nothing. */
  method Match(t: Table, level: Half, c: Byte) returns (r: Option<Half>)
    requires WellFormed(t) && LinkOk(t, level)
    ensures r.Some? ==> r.value < |t.nodes| && OnLevel(t, level, r.value) && Char(t, r.value) == c
    ensures r.None? ==> forall i :: 0 <= i < |t.nodes| && OnLevel(t, level, i) ==> Char(t, i) != c
  {
    var cur := level;
    while cur != NONE
      invariant LinkOk(t, cur)
      invariant forall i :: OnLevel(t, cur, i) ==> OnLevel(t, level, i)
      invariant forall i :: 0 <= i < |t.nodes| && OnLevel(t, level, i) && Char(t, i) == c ==> OnLevel(t, cur, i)
      decreases if cur == NONE then 0 else 256 - Char(t, cur)
    {
      assert NodeOk(t, cur);
      var ch := Char(t, cur);
      if ch == c {
        return Some(cur);
      }
      if ch > c {
        forall i | 0 <= i < |t.nodes| && OnLevel(t, cur, i)
          ensures Char(t, i) != c
        {
          OnLevelInRange(t, cur, i);
        }
        return None;
      }
      cur := t.nodes[cur].sibling;
    }
    return None;
  }

  /** Some root path spells the name and ends in a leaf with this address. */
  predicate IsAnswer(t: Table, path: seq<int>, name: Name, addr: Word)
    requires WellFormed(t)
  {
    && Spells(t, path, name) && path != [] && 0 <= path[|path| - 1] < |t.nodes| && IsLeaf(t, path[|path| - 1])
    && var leaf := t.nodes[path[|path| - 1]].leaf; leaf < |t.addrs| && addr == t.addrs[leaf]
  }

  /** udynlink_resolve_trie_symbol. */
  method Resolve(t: Table, name: Name) returns (r: Option<Word>)
    requires WellFormed(t)
    ensures r.Some? ==> exists path :: IsAnswer(t, path, name, r.value)
    ensures r.None? ==> forall path, addr :: !IsAnswer(t, path, name, addr)
  {
    hide OnLevelBelow, OnLevel, Spells;
    if |t.nodes| == 0 {
      NoNodes(t, name);
      return None;
    }
    SpellsNothing(t);
    assert name[..0] == [];
    var nextLevel: Half := t.root;
    var matched: Half := NONE;
    ghost var path: seq<int> := [];
    var p := 0;
    while p < |name|
      invariant 0 <= p <= |name| && |path| == p && Spells(t, path, name[..p])
      invariant if p == 0 then matched == NONE else matched < |t.nodes| && matched as int == path[p - 1]
      invariant LinkOk(t, nextLevel) && nextLevel as int == Below(t, Above(path, |path|))
    {
      var m := Match(t, nextLevel, name[p]);
      if m.None? {
        NoWay(t, path, name, p, nextLevel);
        return None;
      }
      matched := m.value;
      assert OnLevelBelow(t, Above(path, |path|), matched) by {
        LevelIs(t, Above(path, |path|), nextLevel, matched);
      }
      SpellsMore(t, path, name[..p], matched, name[p]);
      assert name[..p + 1] == name[..p] + [name[p]];
      path := path + [matched];
      BelowOk(t, matched);
      nextLevel := t.nodes[matched].child;
      p := p + 1;
    }
    assert name[..p] == name;
    if matched != NONE && IsLeaf(t, matched) {
      assert NodeOk(t, matched);
      assert IsAnswer(t, path, name, t.addrs[t.nodes[matched].leaf]);
      return Some(t.addrs[t.nodes[matched].leaf]);
    }
    OnlyThisPath(t, path, name);
    return None;
  }

  lemma SpellsNothing(t: Table)
    requires WellFormed(t)
    ensures Spells(t, [], [])
  {}

  lemma NoNodes(t: Table, name: Name)
    requires WellFormed(t) && |t.nodes| == 0
    ensures forall path, addr :: !IsAnswer(t, path, name, addr)
  {
    hide OnLevelBelow;
  }

  lemma LevelIs(t: Table, above: int, level: int, i: int)
    requires WellFormed(t) && above < |t.nodes| && level == Below(t, above) && 0 <= level && LinkOk(t, level) && OnLevel(t, level, i)
    ensures OnLevelBelow(t, above, i)
  {
    hide OnLevel;
  }

  /** With no node for the next character, no path spells the name. */
  lemma NoWay(t: Table, path: seq<int>, name: Name, p: nat, level: int)
    requires WellFormed(t) && p < |name| && Spells(t, path, name[..p]) && 0 <= level && LinkOk(t, level)
    requires level == Below(t, Above(path, |path|))
    requires forall i :: 0 <= i < |t.nodes| && OnLevel(t, level, i) ==> Char(t, i) != name[p]
    ensures forall q, addr :: !IsAnswer(t, q, name, addr)
  {
    hide OnLevel;
    forall q, addr
      ensures !IsAnswer(t, q, name, addr)
    {
      if Spells(t, q, name) {
        SpellsStep(t, path, name, p, q);
      }
    }
  }

  lemma OnlyThisPath(t: Table, path: seq<int>, name: Name)
    requires WellFormed(t) && Spells(t, path, name)
    requires path != [] ==> 0 <= path[|path| - 1] < |t.nodes| && !IsLeaf(t, path[|path| - 1])
    ensures forall q, addr :: !IsAnswer(t, q, name, addr)
  {
    hide OnLevelBelow;
    forall q, addr
      ensures !IsAnswer(t, q, name, addr)
    {
      if Spells(t, q, name) { OnePath(t, path, q, name); }
    }
  }
}
