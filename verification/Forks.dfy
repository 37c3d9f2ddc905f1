// What happens on a library the loading stack cannot cope with: on every fork there is an order of
// requirements that makes the manager load a module inside its own load.

module Forks {
  import opened Words
  import opened Relocation
  import opened Deps
  import opened DepChains

  /** A host that finds every image, with loads that only fail for want of a requirement. */
  const WILLING := Host(id => false, (id, left) => false)

  /** The same images, each with its requirements in some order. */
  ghost predicate Permuted(lib: Library, lib': Library) {
    && lib.Keys == lib'.Keys
    && forall n :: n in lib ==> lib'[n].name == lib[n].name && multiset(lib'[n].needs) == multiset(lib[n].needs)
  }

  /** The same requirement graph. */
  ghost predicate SameNeeds(lib: Library, lib': Library) {
    && lib.Keys == lib'.Keys
    && forall n :: n in lib ==> lib'[n].name == lib[n].name && forall m :: m in lib'[n].needs <==> m in lib[n].needs
  }

  /** Every requirement can be found. */
  predicate Complete(lib: Library) {
    forall n, m :: n in lib && m in lib[n].needs ==> m in lib
  }

  const EMPTY := State([], [], 1)

  /** Loading `root` with an empty registry ends well: nothing twice, nothing missing. */
  ghost predicate LoadsOnce(lib: Library, root: Name, capacity: nat)
    requires root in lib
  {
    exists depth: nat :: EndsWell(lib, root, capacity, depth)
  }

  ghost predicate EndsWell(lib: Library, root: Name, capacity: nat, depth: nat)
    requires root in lib
  {
    var out := Load(World(lib, WILLING, capacity), depth, EMPTY, lib[root]);
    out.Ended? && out.ok && NoneTwice(out.state.entries) && |out.state.entries| <= |lib|
    && ClosedUpTo(out.state.entries, []) && root in NamesOf(out.state.entries)
  }

  // ----- what any load does -----

  /** A load that ended only added to the registry and only took from the stack. */
  lemma {:induction false} LoadKeeps(w: World, depth: nat, s: State, package: Package)
    requires Load(w, depth, s, package).Ended?
    ensures var t := Load(w, depth, s, package).state; s.entries <= t.entries && t.loading <= s.loading
    decreases depth, 0, 0
  {
    if !(package.name.Some? && package.name.value in s.loading) {
      hide Requirements;
      RequirementsKeep(w, depth - 1, Entered(s, package), s.nextId, package.needs);
    }
  }

  lemma {:induction false} RequirementsKeep(w: World, depth: nat, s: State, id: nat, needs: seq<Name>)
    requires Requirements(w, depth, s, id, needs).Ended?
    ensures var t := Requirements(w, depth, s, id, needs).state; s.entries <= t.entries && t.loading <= s.loading
    decreases depth, 2, |needs|
  {
    if needs == [] || w.host.fails(id, |needs|) {
    } else {
      hide Load;
      var r := Resolve(w, depth, s, needs[0]);
      if !(needs[0] in s.loading || needs[0] in NamesOf(s.entries)) && !w.host.refuses(s.nextId) && needs[0] in w.lib {
        LoadKeeps(w, depth, s, w.lib[needs[0]]);
      }
      if r.ok {
        RequirementsKeep(w, depth, r.state, id, needs[1..]);
      }
    }
  }

  /** The call of the first requirement, when it is neither being loaded nor there. */
  lemma FirstLoaded(w: World, depth: nat, s: State, id: nat, needs: seq<Name>, t: State)
    requires needs != [] && needs[0] !in s.loading && needs[0] !in NamesOf(s.entries)
    requires Requirements(w, depth, s, id, needs) == Ended(true, t)
    ensures needs[0] in w.lib
    ensures var out := Load(w, depth, s, w.lib[needs[0]]);
      && out.Ended? && out.ok && Requirements(w, depth, out.state, id, needs[1..]) == Ended(true, t)
      && s.entries <= out.state.entries <= t.entries && out.state.loading <= s.loading
  {
    hide Load;
    LoadKeeps(w, depth, s, w.lib[needs[0]]);
    var out := Load(w, depth, s, w.lib[needs[0]]);
    RequirementsKeep(w, depth, out.state, id, needs[1..]);
  }

  // ----- straight down -----

  /** Each image of the path requires the next one first. */
  predicate FirstNeeds(lib: Library, path: seq<Name>) {
    && (forall i :: 0 <= i < |path| ==> path[i] in lib && lib[path[i]].name == Some(path[i]))
    && (forall i :: 0 < i < |path| ==> NeedsFirst(lib, path[i - 1], path[i]))
  }

  predicate NeedsFirst(lib: Library, n: Name, next: Name) {
    n in lib && lib[n].needs != [] && lib[n].needs[0] == next
  }

  predicate Distinct(path: seq<Name>) {
    forall i, j :: 0 <= i < j < |path| ==> path[i] != path[j]
  }

  function PushedAll(stack: seq<Name>, path: seq<Name>): (r: seq<Name>)
    ensures stack <= r && (|stack| <= MAX_DEPTH ==> |r| <= MAX_DEPTH)
    ensures forall n :: n in r ==> n in stack || n in path
    decreases |path|
  {
    if path == [] then stack else PushedAll(Pushed(stack, path[0]), path[1..])
  }

  predicate Apart(path: seq<Name>, s: State) {
    forall n :: n in path ==> n !in s.loading && n !in NamesOf(s.entries)
  }

  /** How the state t' at the bottom of the path relates to the one the whole load leaves. */
  ghost predicate Within(before: seq<Handle>, path: seq<Name>, t: State, t': State) {
    && before <= t'.entries <= t.entries
    && (|t.loading| + |path| <= |t'.loading| || t.loading == [])
    && (NoneTwice(t.entries) ==> forall n :: n in path ==> n !in NamesOf(t'.entries))
    && (path != [] ==> path[0] in NamesOf(t.entries))
  }

  lemma WithinMore(s: State, path: seq<Name>, t: State, inner: State, below: State, t': State)
    requires |path| > 1 && Within(s.entries, path[1..], below, t')
    requires s.entries <= below.entries <= inner.entries <= t.entries && inner.loading <= below.loading
    requires |t.loading| + 1 <= |inner.loading| || t.loading == []
    requires path[0] in NamesOf(t.entries) && (NoneTwice(t.entries) ==> path[0] !in NamesOf(inner.entries))
    ensures Within(s.entries, path, t, t')
  {
    NoneTwiceBefore(below.entries, t.entries);
    NamesKept(t'.entries, inner.entries);
    hide NamesOf, NoneTwice;
    assert path == [path[0]] + path[1..];
  }

  /** The load of the first name leads straight down to the requirements of the last; what happens there,
      happens while all of them are being loaded. */
  lemma {:induction false} Descend(w: World, depth: nat, s: State, path: seq<Name>, t: State)
    returns (depth': nat, at: State, id: nat, t': State)
    requires path != [] && FirstNeeds(w.lib, path) && Distinct(path) && Apart(path, s) && |s.loading| <= MAX_DEPTH
    requires Load(w, depth, s, w.lib[path[0]]) == Ended(true, t) && |t.entries| < w.capacity
    ensures at.entries == s.entries && at.loading == PushedAll(s.loading, path)
    ensures Requirements(w, depth', at, id, w.lib[path[|path| - 1]].needs) == Ended(true, t')
    ensures Within(s.entries, path, t, t') && t'.loading <= at.loading
    decreases |path|
  {
    hide *;
    var inner;
    at, id, inner := OneDown(w, depth, s, path, t);
    if |path| == 1 {
      depth', t' := depth - 1, inner;
      WithinOne(s, path, t, at, inner);
    } else {
      StillApart(w, s, path);
      var below := NextDown(w, depth - 1, at, id, path, inner);
      var rest := path[1..];
      assert rest[|rest| - 1] == path[|path| - 1] && rest[0] == path[1];
      depth', at, id, t' := Descend(w, depth - 1, at, rest, below);
      WithinMore(s, path, t, inner, below, t');
    }
  }

  lemma WithinOne(s: State, path: seq<Name>, t: State, at: State, inner: State)
    requires |path| == 1 && s.entries <= inner.entries <= t.entries && at.loading == Pushed(s.loading, path[0])
    requires |t.loading| + 1 <= |inner.loading| || t.loading == []
    requires path[0] in NamesOf(t.entries) && (NoneTwice(t.entries) ==> path[0] !in NamesOf(inner.entries))
    ensures Within(s.entries, path, t, inner) && at.loading == PushedAll(s.loading, path)
  {
    hide NamesOf, NoneTwice;
    assert path[1..] == [];
  }

  lemma OneDown(w: World, depth: nat, s: State, path: seq<Name>, t: State) returns (at: State, id: nat, inner: State)
    requires path != [] && FirstNeeds(w.lib, path) && Apart(path, s) && |s.loading| <= MAX_DEPTH
    requires Load(w, depth, s, w.lib[path[0]]) == Ended(true, t) && |t.entries| < w.capacity
    ensures depth > 0 && at == Entered(s, w.lib[path[0]]) && id == s.nextId
    ensures at.entries == s.entries && at.loading == Pushed(s.loading, path[0]) && |at.loading| <= MAX_DEPTH
    ensures PushedAll(s.loading, path) == PushedAll(at.loading, path[1..])
    ensures Requirements(w, depth - 1, at, id, w.lib[path[0]].needs) == Ended(true, inner)
    ensures s.entries <= inner.entries <= t.entries && inner.loading <= at.loading
    ensures |t.loading| + 1 <= |inner.loading| || t.loading == []
    ensures path[0] in NamesOf(t.entries) && (NoneTwice(t.entries) ==> path[0] !in NamesOf(inner.entries))
  {
    StartsApart(w.lib, s, path);
    hide NoneTwice, NamesOf, Load;
    at, id, inner := LoadOpens(w, depth, s, w.lib[path[0]], t);
  }

  lemma NextDown(w: World, depth: nat, at: State, id: nat, path: seq<Name>, inner: State) returns (below: State)
    requires |path| > 1 && FirstNeeds(w.lib, path) && Apart(path[1..], at)
    requires Requirements(w, depth, at, id, w.lib[path[0]].needs) == Ended(true, inner)
    ensures Load(w, depth, at, w.lib[path[1]]) == Ended(true, below)
    ensures at.entries <= below.entries <= inner.entries && inner.loading <= below.loading <= at.loading
  {
    assert NeedsFirst(w.lib, path[0], path[1]);
    assert path[1..][0] == path[1] && path[1] in path[1..];
    hide Requirements, Load, NamesOf;
    FirstLoaded(w, depth, at, id, w.lib[path[0]].needs, inner);
    below := Load(w, depth, at, w.lib[path[1]]).state;
    RequirementsKeep(w, depth, below, id, w.lib[path[0]].needs[1..]);
  }

  lemma StartsApart(lib: Library, s: State, path: seq<Name>)
    requires path != [] && FirstNeeds(lib, path) && Apart(path, s)
    ensures path[0] in lib && lib[path[0]].name == Some(path[0]) && path[0] !in s.loading
  {
    assert path[0] in path;
  }

  /** What is inside a load that succeeded with room to spare. */
  lemma LoadOpens(w: World, depth: nat, s: State, package: Package, t: State) returns (at: State, id: nat, inner: State)
    requires package.name.Some? && package.name.value !in s.loading
    requires Load(w, depth, s, package) == Ended(true, t) && |t.entries| < w.capacity
    ensures depth > 0 && at == Entered(s, package) && id == s.nextId
    ensures Requirements(w, depth - 1, at, id, package.needs) == Ended(true, inner)
    ensures s.entries <= inner.entries <= t.entries && inner.loading <= at.loading && t.loading == Popped(inner.loading)
    ensures package.name.value in NamesOf(t.entries)
    ensures NoneTwice(t.entries) ==> package.name.value !in NamesOf(inner.entries)
  {
    at, id := Entered(s, package), s.nextId;
    inner := Requirements(w, depth - 1, at, id, package.needs).state;
    hide Requirements, NoneTwice, NamesOf;
    RequirementsKeep(w, depth - 1, at, id, package.needs);
    RegisteredLast(inner.entries, Handle(id, package));
    assert t.entries == inner.entries + [Handle(id, package)];
  }

  lemma RegisteredLast(entries: seq<Handle>, mod: Handle)
    requires mod.package.name.Some?
    ensures mod.package.name.value in NamesOf(entries + [mod])
    ensures NoneTwice(entries + [mod]) ==> mod.package.name.value !in NamesOf(entries)
  {
    NamesOfMore(entries, mod);
    if mod.package.name.value in NamesOf(entries) {
      var all := entries + [mod];
      var i :| 0 <= i < |entries| && entries[i].package.name == mod.package.name;
      assert all[i].package.name == all[|entries|].package.name;
    }
  }

  lemma NoneTwiceBefore(a: seq<Handle>, b: seq<Handle>)
    requires a <= b
    ensures NoneTwice(b) ==> NoneTwice(a)
  {}

  lemma StillApart(w: World, s: State, path: seq<Name>)
    requires |path| > 1 && FirstNeeds(w.lib, path) && Distinct(path) && Apart(path, s)
    ensures var at := Entered(s, w.lib[path[0]]);
      Apart(path[1..], at) && FirstNeeds(w.lib, path[1..]) && Distinct(path[1..]) && path[1] in path[1..]
  {
    hide NamesOf;
    assert forall i :: 0 < i < |path[1..]| ==> path[1..][i - 1] == path[i] && path[1..][i] == path[i + 1];
  }

  lemma {:induction false} PushedAllPrefix(stack: seq<Name>, path: seq<Name>)
    requires |stack| <= MAX_DEPTH
    ensures PushedAll(stack, path) <= stack + path
    decreases |path|
  {
    if path == [] {
    } else {
      PushedAllPrefix(Pushed(stack, path[0]), path[1..]);
      assert stack + path == stack + [path[0]] + path[1..];
      assert |stack| == MAX_DEPTH ==> PushedAll(stack, path) == stack;
    }
  }

  // ----- what a load can register -----

  lemma ReachesMore(lib: Library, avoid: seq<Name>, n: Name, r: Name, m: Name)
    requires Needs(lib, n, r) && n !in avoid && Reaches(lib, avoid, r, m)
    ensures Reaches(lib, avoid, n, m)
  {
    var path :| Route(lib, avoid, path) && path[0] == r && path[|path| - 1] == m;
    var longer := [n] + path;
    assert forall i :: 0 < i < |longer| ==> longer[i] == path[i - 1];
    assert Route(lib, avoid, longer);
  }

  lemma ReachesSelf(lib: Library, avoid: seq<Name>, n: Name)
    requires n !in avoid
    ensures Reaches(lib, avoid, n, n)
  {
    var path := [n];
    assert Route(lib, avoid, path);
  }

  ghost predicate OnlyReached(lib: Library, avoid: seq<Name>, n: Name, before: seq<Handle>, after: seq<Handle>) {
    forall m :: m in NamesOf(after) ==> m in NamesOf(before) || Reaches(lib, avoid, n, m)
  }

  /** A load that registers none of the names to avoid registers only what it reaches without them. */
  lemma {:induction false} LoadReaches(w: World, depth: nat, s: State, n: Name, avoid: seq<Name>, t: State)
    requires Named(w.lib) && n in w.lib && n !in avoid
    requires Load(w, depth, s, w.lib[n]) == Ended(true, t) && |t.entries| < w.capacity
    requires forall a :: a in avoid ==> a !in NamesOf(t.entries)
    ensures OnlyReached(w.lib, avoid, n, s.entries, t.entries)
    decreases depth, 0, 0
  {
    var mod := Handle(s.nextId, w.lib[n]);
    var inner := Requirements(w, depth - 1, Entered(s, w.lib[n]), s.nextId, w.lib[n].needs).state;
    assert t.entries == inner.entries + [mod];
    NamesOfMore(inner.entries, mod);
    ReachesSelf(w.lib, avoid, n);
    hide Requirements, NamesOf, Reaches;
    RequirementsReach(w, depth - 1, Entered(s, w.lib[n]), s.nextId, w.lib[n].needs, n, avoid, inner);
  }

  lemma {:induction false} RequirementsReach(w: World, depth: nat, s: State, id: nat, needs: seq<Name>, n: Name, avoid: seq<Name>, t: State)
    requires Named(w.lib) && n !in avoid && forall r :: r in needs ==> Needs(w.lib, n, r)
    requires Requirements(w, depth, s, id, needs) == Ended(true, t) && |t.entries| < w.capacity
    requires forall a :: a in avoid ==> a !in NamesOf(t.entries)
    ensures OnlyReached(w.lib, avoid, n, s.entries, t.entries)
    decreases depth, 2, |needs|
  {
    if needs == [] {
    } else {
      var r := Resolve(w, depth, s, needs[0]).state;
      assert Resolve(w, depth, s, needs[0]).ok && Needs(w.lib, n, needs[0]);
      RequirementsKeep(w, depth, r, id, needs[1..]);
      NamesKept(r.entries, t.entries);
      if r != s {
        var out := Load(w, depth, s, w.lib[needs[0]]);
        assert out == Ended(true, r);
        hide Resolve, Requirements;
        LoadRegisters(w, depth, s, needs[0], r);
        hide Load, NamesOf;
        LoadReaches(w, depth, s, needs[0], avoid, r);
        ReachedThrough(w.lib, avoid, n, needs[0], s.entries, r.entries);
      }
      hide Resolve, Load, NamesOf, Reaches;
      RequirementsReach(w, depth, r, id, needs[1..], n, avoid, t);
    }
  }

  lemma LoadRegisters(w: World, depth: nat, s: State, n: Name, t: State)
    requires Named(w.lib) && n in w.lib && Load(w, depth, s, w.lib[n]) == Ended(true, t) && |t.entries| < w.capacity
    ensures n in NamesOf(t.entries)
  {
    hide NamesOf, NoneTwice, Requirements;
    var at, id, inner := LoadOpens(w, depth, s, w.lib[n], t);
  }

  lemma ReachedThrough(lib: Library, avoid: seq<Name>, n: Name, r: Name, before: seq<Handle>, after: seq<Handle>)
    requires Needs(lib, n, r) && n !in avoid && OnlyReached(lib, avoid, r, before, after)
    ensures OnlyReached(lib, avoid, n, before, after)
  {
    hide NamesOf, Reaches, Needs;
    forall m | m in NamesOf(after) && m !in NamesOf(before)
      ensures Reaches(lib, avoid, n, m)
    {
      ReachesMore(lib, avoid, n, r, m);
    }
  }

  // ----- a fork in the order that hurts -----

  /** The image requires these first, in this order. */
  predicate Leads(lib: Library, n: Name, front: seq<Name>) {
    n in lib && front <= lib[n].needs
  }

  /** Down the trunk, down the side chain, and only then the way back. */
  predicate Arranged(lib: Library, trunk: seq<Name>, deep: seq<Name>, back: seq<Name>, j: nat) {
    && j < |trunk| && FirstNeeds(lib, trunk) && FirstNeeds(lib, deep) && FirstNeeds(lib, back)
    && Leads(lib, trunk[|trunk| - 1],
             (if deep != [] then [deep[0]] else []) + [if back != [] then back[0] else trunk[j]])
    && (back != [] ==> NeedsFirst(lib, back[|back| - 1], trunk[j]))
    && Distinct(trunk + deep) && Distinct(trunk + back)
  }

  lemma DistinctParts(a: seq<Name>, b: seq<Name>)
    requires Distinct(a + b)
    ensures Distinct(a) && Distinct(b) && forall n :: n in a ==> n !in b
  {
    var s := a + b;
    assert forall i :: 0 <= i < |a| ==> s[i] == a[i];
    assert forall i :: 0 <= i < |b| ==> s[|a| + i] == b[i];
  }

  lemma NotInPrefix(path: seq<Name>, stack: seq<Name>, j: nat)
    requires Distinct(path) && stack <= path && |stack| <= j < |path|
    ensures path[j] !in stack
  {}

  /** At the end of the trunk, about to go back: trunk[j] is being loaded but no longer on the stack. */
  ghost predicate AboutToReturn(s: State, trunk: seq<Name>, back: seq<Name>, j: nat)
    requires j < |trunk|
  {
    && s.loading <= trunk && |s.loading| <= MAX_DEPTH && trunk[j] !in s.loading
    && (forall n :: n in trunk ==> n !in NamesOf(s.entries))
    && (forall n :: n in back ==> n !in NamesOf(s.entries))
  }

  lemma TrunkStack(trunk: seq<Name>, stack: seq<Name>)
    requires stack == PushedAll([], trunk)
    ensures stack <= trunk && |stack| <= MAX_DEPTH
  {
    PushedAllPrefix([], trunk);
    assert [] + trunk == trunk;
  }

  lemma NotDeepEnough(lib: Library, trunk: seq<Name>, deep: seq<Name>, back: seq<Name>, j: nat, at: State)
    requires Arranged(lib, trunk, deep, back, j) && deep == [] && j >= MAX_DEPTH
    requires at.entries == [] && at.loading == PushedAll([], trunk)
    ensures AboutToReturn(at, trunk, back, j)
  {
    DistinctParts(trunk, back);
    TrunkStack(trunk, at.loading);
    NotInPrefix(trunk, at.loading, j);
  }

  /** The side chain: everything it reaches is registered, and its pops have reached trunk[j]. */
  lemma SideTrip(w: World, depth: nat, trunk: seq<Name>, deep: seq<Name>, back: seq<Name>, j: nat, at: State, id: nat, t: State)
    returns (s: State)
    requires Named(w.lib) && Arranged(w.lib, trunk, deep, back, j) && deep != [] && |deep| + j >= MAX_DEPTH
    requires forall n :: n in back ==> !Reaches(w.lib, trunk, deep[0], n)
    requires at.entries == [] && at.loading == PushedAll([], trunk)
    requires Requirements(w, depth, at, id, w.lib[trunk[|trunk| - 1]].needs) == Ended(true, t)
    requires |t.entries| < w.capacity && NoneTwice(t.entries) && forall n :: n in trunk ==> n !in NamesOf(t.entries)
    ensures AboutToReturn(s, trunk, back, j) && s.entries <= t.entries
    ensures Requirements(w, depth, s, id, w.lib[trunk[|trunk| - 1]].needs[1..]) == Ended(true, t)
  {
    var needs := w.lib[trunk[|trunk| - 1]].needs;
    DistinctParts(trunk, deep);
    DistinctParts(trunk, back);
    TrunkStack(trunk, at.loading);
    assert deep[0] in deep && needs[0] == deep[0];
    assert Apart(deep, at);
    hide Requirements, Load, Distinct, FirstNeeds, Apart;
    FirstLoaded(w, depth, at, id, needs, t);
    s := Load(w, depth, at, w.lib[deep[0]]).state;
    SideStack(w, depth, deep, at, s);
    NotInPrefix(trunk, s.loading, j) by { assert Distinct(trunk); }
    NamesKept(s.entries, t.entries);
    hide NamesOf, Reaches;
    LoadReaches(w, depth, at, deep[0], trunk, s);
    hide Arranged;
  }

  lemma SideStack(w: World, depth: nat, deep: seq<Name>, at: State, s: State)
    requires deep != [] && FirstNeeds(w.lib, deep) && Distinct(deep) && Apart(deep, at) && |at.loading| <= MAX_DEPTH
    requires Load(w, depth, at, w.lib[deep[0]]) == Ended(true, s) && |s.entries| < w.capacity
    ensures |s.loading| <= MAX_DEPTH - |deep| || s.loading == []
  {
    hide Requirements, Load, Distinct, FirstNeeds, Apart, NamesOf, NoneTwice;
    var d, bottom, id, t := Descend(w, depth, at, deep, s);
  }

  /** The way back: trunk[j] is taken for new, loaded, and registered, inside its own load. */
  lemma WayBack(w: World, depth: nat, trunk: seq<Name>, back: seq<Name>, j: nat, s: State, id: nat, needs: seq<Name>, t: State)
    requires j < |trunk| && FirstNeeds(w.lib, back) && Distinct(trunk + back) && AboutToReturn(s, trunk, back, j) && Named(w.lib)
    requires back != [] ==> NeedsFirst(w.lib, back[|back| - 1], trunk[j])
    requires needs != [] && needs[0] == if back != [] then back[0] else trunk[j]
    requires Requirements(w, depth, s, id, needs) == Ended(true, t) && |t.entries| < w.capacity
    ensures trunk[j] in NamesOf(t.entries)
  {
    DistinctParts(trunk, back);
    assert trunk[j] in trunk;
    hide Distinct, Requirements, Load, NamesOf;
    if back == [] {
      Reload(w, depth, s, id, needs, t);
    } else {
      assert back[0] in back && Apart(back, s);
      hide FirstNeeds, Apart;
      FirstLoaded(w, depth, s, id, needs, t);
      var after := Load(w, depth, s, w.lib[back[0]]).state;
      var d, at, id', bottom := Descend(w, depth, s, back, after);
      Reload(w, d, at, id', w.lib[back[|back| - 1]].needs, bottom);
      NamesKept(bottom.entries, t.entries);
    }
  }

  lemma Reload(w: World, depth: nat, s: State, id: nat, needs: seq<Name>, t: State)
    requires Named(w.lib) && needs != [] && needs[0] !in s.loading && needs[0] !in NamesOf(s.entries)
    requires Requirements(w, depth, s, id, needs) == Ended(true, t) && |t.entries| < w.capacity
    ensures needs[0] in NamesOf(t.entries)
  {
    hide Requirements, Load, NamesOf;
    FirstLoaded(w, depth, s, id, needs, t);
    var after := Load(w, depth, s, w.lib[needs[0]]).state;
    LoadRegisters(w, depth, s, needs[0], after);
    NamesKept(after.entries, t.entries);
  }

  /** In that order no depth of recursion makes the load end well. */
  lemma ArrangedForkFails(lib: Library, trunk: seq<Name>, deep: seq<Name>, back: seq<Name>, j: nat, depth: nat)
    requires Named(lib) && Arranged(lib, trunk, deep, back, j) && |deep| + j >= MAX_DEPTH
    requires deep != [] ==> forall n :: n in back ==> !Reaches(lib, trunk, deep[0], n)
    ensures trunk[0] in lib && !EndsWell(lib, trunk[0], |lib| + 1, depth)
  {
    var w := World(lib, WILLING, |lib| + 1);
    DistinctParts(trunk, deep);
    if EndsWell(lib, trunk[0], |lib| + 1, depth) {
      var t := Load(w, depth, EMPTY, lib[trunk[0]]).state;
      hide Requirements, Load, Distinct, FirstNeeds, Leads;
      var d, at, id, t1 := Descend(w, depth, EMPTY, trunk, t);
      NoneTwiceBefore(t1.entries, t.entries);
      hide NoneTwice, ClosedUpTo, NamesOf, Reaches;
      ReentersTrunk(w, d, trunk, deep, back, j, at, id, t1);
    }
  }

  lemma ReentersTrunk(w: World, depth: nat, trunk: seq<Name>, deep: seq<Name>, back: seq<Name>, j: nat, at: State, id: nat, t: State)
    requires Named(w.lib) && Arranged(w.lib, trunk, deep, back, j) && |deep| + j >= MAX_DEPTH
    requires deep != [] ==> forall n :: n in back ==> !Reaches(w.lib, trunk, deep[0], n)
    requires at.entries == [] && at.loading == PushedAll([], trunk)
    requires Requirements(w, depth, at, id, w.lib[trunk[|trunk| - 1]].needs) == Ended(true, t)
    requires |t.entries| < w.capacity && NoneTwice(t.entries)
    ensures exists n :: n in trunk && n in NamesOf(t.entries)
  {
    hide Requirements, Distinct, FirstNeeds, NamesOf, Reaches, NoneTwice, AboutToReturn;
    var needs := w.lib[trunk[|trunk| - 1]].needs;
    assert trunk[j] in trunk;
    if deep == [] {
      NotDeepEnough(w.lib, trunk, deep, back, j, at);
      WayBack(w, depth, trunk, back, j, at, id, needs, t);
    } else if forall n :: n in trunk ==> n !in NamesOf(t.entries) {
      var s := SideTrip(w, depth, trunk, deep, back, j, at, id, t);
      WayBack(w, depth, trunk, back, j, s, id, needs[1..], t);
    }
  }

  // ----- arranging a library -----

  /** What follows the first n on the path. */
  function Next(path: seq<Name>, n: Name): seq<Name> {
    if |path| < 2 then [] else if path[0] == n then [path[1]] else Next(path[1..], n)
  }

  lemma {:induction false} NextAt(path: seq<Name>, i: nat)
    requires i + 1 < |path| && forall k :: 0 <= k < i ==> path[k] != path[i]
    ensures Next(path, path[i]) == [path[i + 1]]
    decreases i
  {
    if i == 0 {
    } else {
      assert path[0] != path[i];
      NextAt(path[1..], i - 1);
    }
  }

  lemma {:induction false} NextNone(path: seq<Name>, n: Name)
    requires forall i :: 0 <= i < |path| - 1 ==> path[i] != n
    ensures Next(path, n) == []
    decreases |path|
  {
    if |path| < 2 {
    } else {
      assert path[0] != n;
      NextNone(path[1..], n);
    }
  }

  predicate Linked(lib: Library, path: seq<Name>) {
    forall i :: 0 < i < |path| ==> Needs(lib, path[i - 1], path[i])
  }

  lemma {:induction false} NextNeeded(lib: Library, path: seq<Name>, n: Name)
    requires Linked(lib, path)
    ensures forall m :: m in Next(path, n) ==> Needs(lib, n, m)
    decreases |path|
  {
    if |path| < 2 {
    } else {
      assert Needs(lib, path[0], path[1]);
      assert forall i :: 0 < i < |path[1..]| ==> path[1..][i - 1] == path[i] && path[1..][i] == path[i + 1];
      NextNeeded(lib, path[1..], n);
    }
  }

  /** The two ways to go from the trunk, as paths; the second ends where it began to be bad. */
  function SideWay(trunk: seq<Name>, deep: seq<Name>): seq<Name>
    requires trunk != []
  {
    [trunk[|trunk| - 1]] + deep
  }

  function MainWay(trunk: seq<Name>, back: seq<Name>, j: nat): seq<Name>
    requires j < |trunk|
  {
    trunk + back + [trunk[j]]
  }

  function Front(trunk: seq<Name>, deep: seq<Name>, back: seq<Name>, j: nat, n: Name): seq<Name>
    requires j < |trunk|
  {
    Next(SideWay(trunk, deep), n) + Next(MainWay(trunk, back, j), n)
  }

  /** s without the first x, if there is one. */
  function Without(s: seq<Name>, x: Name): seq<Name> {
    if s == [] then [] else if s[0] == x then s[1..] else [s[0]] + Without(s[1..], x)
  }

  lemma {:induction false} WithoutOne(s: seq<Name>, x: Name)
    ensures multiset(Without(s, x)) == multiset(s) - multiset{x}
    decreases |s|
  {
    if s == [] {
    } else {
      assert s == [s[0]] + s[1..];
      if s[0] != x { WithoutOne(s[1..], x); }
    }
  }

  /** The names of `front` moved to the front of `needs`. */
  function Fronted(front: seq<Name>, needs: seq<Name>): seq<Name> {
    if front == [] then needs else [front[0]] + Fronted(front[1..], Without(needs, front[0]))
  }

  lemma {:induction false} FrontedPermutes(front: seq<Name>, needs: seq<Name>)
    requires multiset(front) <= multiset(needs)
    ensures multiset(Fronted(front, needs)) == multiset(needs)
    decreases |front|
  {
    if front == [] {
    } else {
      assert front == [front[0]] + front[1..];
      WithoutOne(needs, front[0]);
      FrontedPermutes(front[1..], Without(needs, front[0]));
    }
  }

  lemma {:induction false} FrontedStarts(front: seq<Name>, needs: seq<Name>)
    ensures front <= Fronted(front, needs)
    decreases |front|
  {
    if front == [] {
    } else {
      FrontedStarts(front[1..], Without(needs, front[0]));
    }
  }

  /** Every image requires first what the fork needs first. */
  function Arrange(lib: Library, trunk: seq<Name>, deep: seq<Name>, back: seq<Name>, j: nat): Library
    requires j < |trunk|
  {
    map n | n in lib :: Package(lib[n].name, Fronted(Front(trunk, deep, back, j, n), lib[n].needs))
  }

  lemma PathLinked(lib: Library, path: seq<Name>)
    requires SimplePath(lib, path)
    ensures Linked(lib, path)
  {
    forall i | 0 < i < |path|
      ensures Needs(lib, path[i - 1], path[i])
    {
      assert path[i] in lib[path[i - 1]].needs && path[i - 1] in lib;
    }
  }

  lemma WaysLinked(lib: Library, trunk: seq<Name>, deep: seq<Name>, back: seq<Name>, j: nat)
    requires Fork(lib, trunk, deep, back, j)
    ensures Linked(lib, SideWay(trunk, deep)) && Linked(lib, MainWay(trunk, back, j))
  {
    PathLinked(lib, trunk + deep);
    PathLinked(lib, trunk + back);
    assert Needs(lib, (trunk + back)[|trunk + back| - 1], trunk[j]);
    hide SimplePath, Reaches, Needs;
    var side, main := SideWay(trunk, deep), MainWay(trunk, back, j);
    assert forall i :: 0 <= i < |side| ==> side[i] == (trunk + deep)[|trunk| - 1 + i];
    forall i | 0 < i < |side|
      ensures Needs(lib, side[i - 1], side[i])
    {
      var k := |trunk| - 1 + i;
      assert Needs(lib, (trunk + deep)[k - 1], (trunk + deep)[k]);
    }
    assert forall i :: 0 <= i < |trunk + back| ==> main[i] == (trunk + back)[i];
    forall i | 0 < i < |main|
      ensures Needs(lib, main[i - 1], main[i])
    {
      if i < |main| - 1 {
        assert Needs(lib, (trunk + back)[i - 1], (trunk + back)[i]);
      }
    }
  }

  lemma ArrangeSame(lib: Library, trunk: seq<Name>, deep: seq<Name>, back: seq<Name>, j: nat)
    requires Fork(lib, trunk, deep, back, j) && Named(lib)
    ensures Permuted(lib, Arrange(lib, trunk, deep, back, j)) && Named(Arrange(lib, trunk, deep, back, j))
  {
    WaysLinked(lib, trunk, deep, back, j);
    SideClear(lib, trunk, deep, back, j);
    hide Fork, Linked, Next, Front, Fronted, Distinct;
    forall n | n in lib
      ensures multiset(Arrange(lib, trunk, deep, back, j)[n].needs) == multiset(lib[n].needs)
    {
      NextNeeded(lib, SideWay(trunk, deep), n);
      NextNeeded(lib, MainWay(trunk, back, j), n);
      FrontOnce(lib, trunk, deep, back, j, n);
      FrontedPermutes(Front(trunk, deep, back, j, n), lib[n].needs);
    }
  }

  lemma {:induction false} NextInTail(path: seq<Name>, n: Name)
    ensures |Next(path, n)| <= 1 && forall m :: m in Next(path, n) ==> m in path[1..]
    decreases |path|
  {
    if |path| < 2 {
    } else {
      NextInTail(path[1..], n);
    }
  }

  lemma FrontOnce(lib: Library, trunk: seq<Name>, deep: seq<Name>, back: seq<Name>, j: nat, n: Name)
    requires j < |trunk| && n in lib && forall m :: m in deep ==> m !in trunk && m !in back
    requires forall m :: m in Next(SideWay(trunk, deep), n) ==> Needs(lib, n, m)
    requires forall m :: m in Next(MainWay(trunk, back, j), n) ==> Needs(lib, n, m)
    ensures multiset(Front(trunk, deep, back, j, n)) <= multiset(lib[n].needs)
  {
    var side, main, needs := Next(SideWay(trunk, deep), n), Next(MainWay(trunk, back, j), n), lib[n].needs;
    NextInTail(SideWay(trunk, deep), n);
    NextInTail(MainWay(trunk, back, j), n);
    assert SideWay(trunk, deep)[1..] == deep;
    assert forall m :: m in main ==> m in trunk || m in back;
    hide Next, SideWay, MainWay;
    TwoOnce(side, main, needs);
  }

  lemma TwoOnce(a: seq<Name>, b: seq<Name>, s: seq<Name>)
    requires |a| <= 1 && |b| <= 1 && (forall m :: m in a ==> m in s && m !in b) && (forall m :: m in b ==> m in s)
    ensures multiset(a + b) <= multiset(s)
  {
    if a != [] {
      assert a == [a[0]] && a[0] in a;
    }
    if b != [] {
      assert b == [b[0]] && b[0] in b;
    }
  }

  /** The side chain keeps clear of the way back. */
  lemma SideClear(lib: Library, trunk: seq<Name>, deep: seq<Name>, back: seq<Name>, j: nat)
    requires Fork(lib, trunk, deep, back, j)
    ensures Distinct(trunk + deep) && Distinct(trunk + back)
    ensures forall n :: n in deep ==> n !in trunk && n !in back
    ensures forall n :: n in trunk ==> n !in back
  {
    DistinctParts(trunk, deep);
    DistinctParts(trunk, back);
    PathLinked(lib, trunk + deep);
    hide SimplePath, Distinct, Wanted;
    forall i | 0 <= i < |deep|
      ensures deep[i] !in back
    {
      var path := deep[..i + 1];
      forall k | 0 < k < |path|
        ensures Needs(lib, path[k - 1], path[k])
      {
        assert Needs(lib, (trunk + deep)[|trunk| + k - 1], (trunk + deep)[|trunk| + k]);
      }
      assert Route(lib, trunk, path) && path[0] == deep[0] && path[|path| - 1] == deep[i];
      assert Reaches(lib, trunk, deep[0], deep[i]);
    }
  }

  lemma FrontOnMain(lib: Library, trunk: seq<Name>, deep: seq<Name>, back: seq<Name>, j: nat, i: nat)
    requires Fork(lib, trunk, deep, back, j) && i < |trunk + back|
    ensures var main := MainWay(trunk, back, j);
      Front(trunk, deep, back, j, main[i]) == (if i == |trunk| - 1 && deep != [] then [deep[0]] else []) + [main[i + 1]]
  {
    SideClear(lib, trunk, deep, back, j);
    hide Fork;
    var side, main := SideWay(trunk, deep), MainWay(trunk, back, j);
    assert main[..|trunk + back|] == trunk + back;
    assert main[i] == (trunk + back)[i];
    NextAt(main, i);
    if i == |trunk| - 1 && deep != [] {
      NextAt(side, 0);
    } else {
      assert (trunk + back)[|trunk| - 1] == trunk[|trunk| - 1];
      assert deep != [] ==> main[i] != trunk[|trunk| - 1];
      assert main[i] !in deep;
      NextNone(side, main[i]);
    }
  }

  lemma FrontOnSide(lib: Library, trunk: seq<Name>, deep: seq<Name>, back: seq<Name>, j: nat, i: nat)
    requires Fork(lib, trunk, deep, back, j) && i + 1 < |deep|
    ensures Front(trunk, deep, back, j, deep[i]) == [deep[i + 1]]
  {
    SideClear(lib, trunk, deep, back, j);
    DistinctParts(trunk, deep);
    hide Fork;
    var side, main := SideWay(trunk, deep), MainWay(trunk, back, j);
    assert deep[i] in deep;
    NextAt(side, i + 1);
    NextNone(main, deep[i]);
  }

  lemma ArrangeArranges(lib: Library, trunk: seq<Name>, deep: seq<Name>, back: seq<Name>, j: nat)
    requires Fork(lib, trunk, deep, back, j) && Named(lib)
    ensures Arranged(Arrange(lib, trunk, deep, back, j), trunk, deep, back, j)
  {
    SideClear(lib, trunk, deep, back, j);
    ForkInLibrary(lib, trunk, deep, back, j);
    hide Fork, Distinct, Leads, NeedsFirst;
    TrunkArranged(lib, trunk, deep, back, j);
    ForkArranged(lib, trunk, deep, back, j);
    BackArranged(lib, trunk, deep, back, j);
    SideArranged(lib, trunk, deep, back, j);
  }

  lemma LeadsOnMain(lib: Library, trunk: seq<Name>, deep: seq<Name>, back: seq<Name>, j: nat, i: nat)
    requires Fork(lib, trunk, deep, back, j) && i < |trunk + back|
    ensures var main := MainWay(trunk, back, j); var lib' := Arrange(lib, trunk, deep, back, j);
      && Leads(lib', main[i], (if i == |trunk| - 1 && deep != [] then [deep[0]] else []) + [main[i + 1]])
      && (i != |trunk| - 1 || deep == [] ==> NeedsFirst(lib', main[i], main[i + 1]))
  {
    ForkInLibrary(lib, trunk, deep, back, j);
    FrontOnMain(lib, trunk, deep, back, j, i);
    hide Fork, Front, Fronted;
    FrontedStarts(Front(trunk, deep, back, j, MainWay(trunk, back, j)[i]), lib[MainWay(trunk, back, j)[i]].needs);
    assert MainWay(trunk, back, j)[i] == (trunk + back)[i];
  }

  lemma TrunkArranged(lib: Library, trunk: seq<Name>, deep: seq<Name>, back: seq<Name>, j: nat)
    requires Fork(lib, trunk, deep, back, j)
    ensures forall i :: 0 < i < |trunk| ==> NeedsFirst(Arrange(lib, trunk, deep, back, j), trunk[i - 1], trunk[i])
  {
    assert j < |trunk|;
    hide Leads, NeedsFirst, Arrange, Fork;
    forall i | 0 < i < |trunk|
      ensures NeedsFirst(Arrange(lib, trunk, deep, back, j), trunk[i - 1], trunk[i])
    {
      assert MainWay(trunk, back, j)[i - 1] == trunk[i - 1] && MainWay(trunk, back, j)[i] == trunk[i];
      LeadsOnMain(lib, trunk, deep, back, j, i - 1);
    }
  }

  lemma BackArranged(lib: Library, trunk: seq<Name>, deep: seq<Name>, back: seq<Name>, j: nat)
    requires Fork(lib, trunk, deep, back, j)
    ensures forall i :: 0 < i < |back| ==> NeedsFirst(Arrange(lib, trunk, deep, back, j), back[i - 1], back[i])
    ensures back != [] ==> NeedsFirst(Arrange(lib, trunk, deep, back, j), back[|back| - 1], trunk[j])
  {
    assert j < |trunk|;
    hide Leads, NeedsFirst, Arrange, Fork;
    var main := MainWay(trunk, back, j);
    forall i | 0 < i < |back|
      ensures NeedsFirst(Arrange(lib, trunk, deep, back, j), back[i - 1], back[i])
    {
      assert main[|trunk| + i - 1] == back[i - 1] && main[|trunk| + i] == back[i];
      LeadsOnMain(lib, trunk, deep, back, j, |trunk| + i - 1);
    }
    if back != [] {
      assert main[|trunk + back| - 1] == back[|back| - 1] && main[|trunk + back|] == trunk[j];
      LeadsOnMain(lib, trunk, deep, back, j, |trunk + back| - 1);
    }
  }

  lemma ForkArranged(lib: Library, trunk: seq<Name>, deep: seq<Name>, back: seq<Name>, j: nat)
    requires Fork(lib, trunk, deep, back, j)
    ensures Leads(Arrange(lib, trunk, deep, back, j), trunk[|trunk| - 1],
                  (if deep != [] then [deep[0]] else []) + [if back != [] then back[0] else trunk[j]])
  {
    assert 0 < |trunk|;
    hide Leads, NeedsFirst, Arrange, Fork;
    var main := MainWay(trunk, back, j);
    assert main[|trunk| - 1] == trunk[|trunk| - 1] && main[|trunk|] == if back != [] then back[0] else trunk[j];
    LeadsOnMain(lib, trunk, deep, back, j, |trunk| - 1);
  }

  lemma SideArranged(lib: Library, trunk: seq<Name>, deep: seq<Name>, back: seq<Name>, j: nat)
    requires Fork(lib, trunk, deep, back, j)
    ensures forall i :: 0 < i < |deep| ==> NeedsFirst(Arrange(lib, trunk, deep, back, j), deep[i - 1], deep[i])
  {
    ForkInLibrary(lib, trunk, deep, back, j);
    forall i | 0 < i < |deep|
      ensures NeedsFirst(Arrange(lib, trunk, deep, back, j), deep[i - 1], deep[i])
    {
      FrontOnSide(lib, trunk, deep, back, j, i - 1);
      hide Front, Fronted;
      FrontedStarts(Front(trunk, deep, back, j, deep[i - 1]), lib[deep[i - 1]].needs);
    }
  }

  lemma ForkInLibrary(lib: Library, trunk: seq<Name>, deep: seq<Name>, back: seq<Name>, j: nat)
    requires Fork(lib, trunk, deep, back, j)
    ensures forall i :: 0 <= i < |trunk| ==> trunk[i] in lib
    ensures forall i :: 0 <= i < |deep| ==> deep[i] in lib
    ensures forall i :: 0 <= i < |back| ==> back[i] in lib
  {
    hide Reaches, Wanted;
    var a, b := trunk + deep, trunk + back;
    assert forall i :: 0 <= i < |trunk| ==> a[i] == trunk[i];
    assert forall i :: 0 <= i < |deep| ==> a[|trunk| + i] == deep[i];
    assert forall i :: 0 <= i < |back| ==> b[|trunk| + i] == back[i];
  }

  // ----- the exact condition -----

  lemma RouteSame(lib: Library, lib': Library, avoid: seq<Name>, path: seq<Name>)
    requires SameNeeds(lib, lib')
    ensures Route(lib, avoid, path) <==> Route(lib', avoid, path)
  {
    forall i | 0 < i < |path|
      ensures Needs(lib, path[i - 1], path[i]) <==> Needs(lib', path[i - 1], path[i])
    {
    }
    hide Needs;
  }

  lemma ReachesSame(lib: Library, lib': Library, avoid: seq<Name>, n: Name, m: Name)
    requires SameNeeds(lib, lib') && Reaches(lib', avoid, n, m)
    ensures Reaches(lib, avoid, n, m)
  {
    var path :| Route(lib', avoid, path) && path[0] == n && path[|path| - 1] == m;
    RouteSame(lib, lib', avoid, path);
  }

  lemma SimplePathSame(lib: Library, lib': Library, path: seq<Name>)
    requires SameNeeds(lib, lib')
    ensures SimplePath(lib, path) <==> SimplePath(lib', path)
  {}

  lemma SameBack(lib: Library, lib': Library)
    requires SameNeeds(lib, lib')
    ensures SameNeeds(lib', lib)
  {}

  lemma ForkSame(lib: Library, lib': Library, trunk: seq<Name>, deep: seq<Name>, back: seq<Name>, j: nat)
    requires SameNeeds(lib, lib') && Fork(lib', trunk, deep, back, j)
    ensures Fork(lib, trunk, deep, back, j)
  {
    SameBack(lib, lib');
    SimplePathSame(lib, lib', trunk + deep);
    SimplePathSame(lib, lib', trunk + back);
    assert Wanted(lib, trunk + back, trunk[j]);
    hide SimplePath, Wanted, Reaches;
    forall n | deep != [] && n in back
      ensures !Reaches(lib, trunk, deep[0], n)
    {
      if Reaches(lib, trunk, deep[0], n) {
        ReachesSame(lib', lib, trunk, deep[0], n);
      }
    }
  }

  lemma PermutedSame(lib: Library, lib': Library)
    requires Permuted(lib, lib')
    ensures SameNeeds(lib, lib')
  {
    forall n, m | n in lib
      ensures m in lib'[n].needs <==> m in lib[n].needs
    {
      assert m in lib'[n].needs <==> m in multiset(lib'[n].needs);
    }
  }

  /** Every fork can be arranged to hurt. */
  lemma ForkFails(lib: Library, trunk: seq<Name>, deep: seq<Name>, back: seq<Name>, j: nat) returns (lib': Library)
    requires Named(lib) && Fork(lib, trunk, deep, back, j)
    ensures Permuted(lib, lib') && trunk[0] in lib' && !LoadsOnce(lib', trunk[0], |lib'| + 1)
  {
    lib' := Arrange(lib, trunk, deep, back, j);
    ArrangeSame(lib, trunk, deep, back, j);
    PermutedSame(lib, lib');
    ArrangeArranges(lib, trunk, deep, back, j);
    forall n | deep != [] && n in back
      ensures !Reaches(lib', trunk, deep[0], n)
    {
      if Reaches(lib', trunk, deep[0], n) {
        ReachesSame(lib, lib', trunk, deep[0], n);
      }
    }
    hide Arranged, EndsWell, SameNeeds, Permuted, Reaches, SimplePath, Wanted;
    var capacity := |lib'| + 1;
    ArrangedForkFails(lib', trunk, deep, back, j, 0);
    forall depth: nat
      ensures !EndsWell(lib', trunk[0], capacity, depth)
    {
      ArrangedForkFails(lib', trunk, deep, back, j, depth);
    }
  }

  /** Without forks every order of requirements loads every root well. */
  lemma NoForkLoadsOnce(lib: Library, root: Name, capacity: nat)
    requires Named(lib) && Complete(lib) && NoFork(lib) && root in lib && capacity >= |lib|
    ensures LoadsOnce(lib, root, capacity)
  {
    var w, depth := World(lib, WILLING, capacity), |lib| + 2;
    assert Unregistered(lib, []) == lib.Keys;
    hide NoFork, Load, Unregistered;
    OutermostLoad(w, depth, EMPTY, lib[root]);
    WillingSucceeds(w, depth, EMPTY, root);
    var out := Load(w, depth, EMPTY, lib[root]);
    NameThere(out.state.entries, Handle(1, lib[root]));
    hide NamesOf, NoneTwice, ClosedUpTo, Complete, Named;
    assert EndsWell(lib, root, capacity, depth);
  }

  /** With a willing host a load that is not cut short succeeds. */
  lemma {:induction false} WillingSucceeds(w: World, depth: nat, s: State, n: Name)
    requires Complete(w.lib) && Named(w.lib) && w.host == WILLING && n in w.lib && n !in s.loading
    requires Load(w, depth, s, w.lib[n]).Ended?
    ensures Load(w, depth, s, w.lib[n]).ok
    decreases depth, 0, 0
  {
    hide Requirements;
    WillingMeets(w, depth - 1, Entered(s, w.lib[n]), s.nextId, w.lib[n].needs);
  }

  lemma {:induction false} WillingMeets(w: World, depth: nat, s: State, id: nat, needs: seq<Name>)
    requires Complete(w.lib) && Named(w.lib) && w.host == WILLING && forall n :: n in needs ==> n in w.lib
    requires Requirements(w, depth, s, id, needs).Ended?
    ensures Requirements(w, depth, s, id, needs).ok
    decreases depth, 2, |needs|
  {
    if needs == [] {
    } else {
      hide Load;
      var r := Resolve(w, depth, s, needs[0]);
      if needs[0] !in s.loading && needs[0] !in NamesOf(s.entries) {
        WillingSucceeds(w, depth, s, needs[0]);
      }
      hide Resolve;
      WillingMeets(w, depth, r.state, id, needs[1..]);
    }
  }

  /** Any order, any root, any registry large enough. */
  ghost predicate AllOrdersLoadOnce(lib: Library) {
    forall lib', root, capacity: nat :: Permuted(lib, lib') && root in lib' && capacity >= |lib'| ==> LoadsOnce(lib', root, capacity)
  }

  /** The eight-entry loading stack does its job exactly on the requirement graphs without a fork: there,
      and only there, whatever the order of requirements, every load from an empty registry ends with each
      module it needs registered once. */
  lemma StackSufficesExactly(lib: Library)
    requires Named(lib) && Complete(lib)
    ensures AllOrdersLoadOnce(lib) <==> NoFork(lib)
  {
    if NoFork(lib) {
      forall lib', root, capacity: nat | Permuted(lib, lib') && root in lib' && capacity >= |lib'|
        ensures LoadsOnce(lib', root, capacity)
      {
        PermutedSame(lib, lib');
        NoForkSame(lib, lib');
        assert Named(lib') && Complete(lib');
        NoForkLoadsOnce(lib', root, capacity);
      }
    } else {
      var trunk, deep, back, j: nat :| Fork(lib, trunk, deep, back, j);
      hide Fork, LoadsOnce, Permuted;
      var lib' := ForkFails(lib, trunk, deep, back, j);
    }
  }

  lemma NoForkSame(lib: Library, lib': Library)
    requires SameNeeds(lib, lib') && NoFork(lib)
    ensures NoFork(lib')
  {
    hide Fork;
    forall trunk, deep, back, j: nat
      ensures !Fork(lib', trunk, deep, back, j)
    {
      if Fork(lib', trunk, deep, back, j) { ForkSame(lib, lib', trunk, deep, back, j); }
    }
  }
}
