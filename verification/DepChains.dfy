// Why the recursion of the dependency manager ends and what it leaves behind, on every library whose
// requirement graph its eight-entry stack can cope with.

module DepChains {
  import opened Words
  import opened Relocation
  import opened Deps
  import opened DepHistory

  // ----- the requirement graph -----

  predicate Named(lib: Library) {
    forall n :: n in lib ==> lib[n].name == Some(n)
  }

  /** Names that require one another, none twice. */
  predicate SimplePath(lib: Library, path: seq<Name>) {
    && (forall i :: 0 <= i < |path| ==> path[i] in lib)
    && (forall i :: 0 < i < |path| ==> path[i] in lib[path[i - 1]].needs)
    && (forall i, j :: 0 <= i < j < |path| ==> path[i] != path[j])
  }

  predicate Needs(lib: Library, n: Name, next: Name) {
    n in lib && next in lib[n].needs
  }

  /** Each name requires the next, and none is to be avoided. */
  predicate Route(lib: Library, avoid: seq<Name>, path: seq<Name>) {
    && path != []
    && (forall i :: 0 <= i < |path| ==> path[i] !in avoid)
    && (forall i :: 0 < i < |path| ==> Needs(lib, path[i - 1], path[i]))
  }

  ghost predicate Reaches(lib: Library, avoid: seq<Name>, from: Name, to: Name) {
    exists path :: Route(lib, avoid, path) && path[0] == from && path[|path| - 1] == to
  }

  /** The last of the chain may require the name. */
  predicate Wanted(lib: Library, chain: seq<Name>, name: Name) {
    chain != [] ==> chain[|chain| - 1] in lib && name in lib[chain[|chain| - 1]].needs
  }

  /** What the stack cannot cope with. From the end of a chain `trunk` a further chain `deep` goes so far
      down that on the way back the pops without a push take trunk[j] off the stack; and from the same
      place a way `back`, not covered by what `deep` loads, leads to a module that requires trunk[j]. */
  ghost predicate Fork(lib: Library, trunk: seq<Name>, deep: seq<Name>, back: seq<Name>, j: nat) {
    && j < |trunk| && |deep| + j >= MAX_DEPTH
    && SimplePath(lib, trunk + deep) && SimplePath(lib, trunk + back)
    && Wanted(lib, trunk + back, trunk[j])
    && (deep != [] ==> forall n :: n in back ==> !Reaches(lib, trunk, deep[0], n))
  }

  ghost predicate NoFork(lib: Library) {
    forall trunk, deep, back, j: nat :: !Fork(lib, trunk, deep, back, j)
  }

  /** The stack is deep enough for every chain of distinct names. */
  ghost predicate Shallow(lib: Library) {
    forall path :: SimplePath(lib, path) ==> |path| <= MAX_DEPTH
  }

  /** No module requires one it is required by. */
  ghost predicate Acyclic(lib: Library) {
    forall path, i :: SimplePath(lib, path) && 0 <= i < |path| ==> path[i] !in lib[path[|path| - 1]].needs
  }

  lemma ShallowHasNoFork(lib: Library)
    requires Shallow(lib)
    ensures NoFork(lib)
  {}

  lemma AcyclicHasNoFork(lib: Library)
    requires Acyclic(lib)
    ensures NoFork(lib)
  {
    if !NoFork(lib) {
      var trunk, deep, back, j: nat :| Fork(lib, trunk, deep, back, j);
      ForkIsCycle(lib, trunk, deep, back, j);
    }
  }

  lemma ForkIsCycle(lib: Library, trunk: seq<Name>, deep: seq<Name>, back: seq<Name>, j: nat)
    requires Fork(lib, trunk, deep, back, j)
    ensures !Acyclic(lib)
  {
    hide SimplePath, Reaches;
    assert (trunk + back)[j] == trunk[j];
    assert SimplePath(lib, trunk + back);
  }

  // ----- the registry -----

  /** Every requirement of a registered module is registered, or still being loaded. */
  predicate ClosedUpTo(entries: seq<Handle>, pending: seq<Name>) {
    forall e, n :: e in entries && n in e.package.needs ==> n in NamesOf(entries) || n in pending
  }

  predicate NoneTwice(entries: seq<Handle>) {
    forall i, j :: 0 <= i < j < |entries| && entries[i].package.name.Some? ==>
      entries[i].package.name != entries[j].package.name
  }

  /** Registered modules came from the library, if it has their name. */
  predicate FromLibrary(lib: Library, entries: seq<Handle>) {
    forall e :: e in entries && e.package.name.Some? && e.package.name.value in lib ==> e.package == lib[e.package.name.value]
  }

  /** Names not being loaded: the termination measure. */
  function Waiting(lib: Library, chain: seq<Name>): set<Name> {
    set n | n in lib && n !in chain
  }

  function Unregistered(lib: Library, entries: seq<Handle>): set<Name> {
    set n | n in lib && n !in NamesOf(entries)
  }

  /** Entries there are, and entries there may still come to be. */
  function Budget(lib: Library, entries: seq<Handle>): nat {
    |entries| + |Unregistered(lib, entries)|
  }

  /** The registry only grew, in order, by no name that is still being loaded, and by none twice. */
  ghost predicate Grew(before: seq<Handle>, after: seq<Handle>, chain: seq<Name>) {
    && before <= after
    && (forall n :: n in chain && n in NamesOf(after) ==> n in NamesOf(before))
    && (NoneTwice(before) ==> NoneTwice(after))
  }

  lemma GrewTwice(a: seq<Handle>, b: seq<Handle>, c: seq<Handle>, chain: seq<Name>)
    requires Grew(a, b, chain) && Grew(b, c, chain)
    ensures Grew(a, c, chain)
  {
    hide NoneTwice, NamesOf;
  }

  lemma NamesKept(a: seq<Handle>, b: seq<Handle>)
    requires a <= b
    ensures NamesOf(a) <= NamesOf(b)
  {}

  lemma NameThere(entries: seq<Handle>, mod: Handle)
    requires mod in entries && mod.package.name.Some?
    ensures mod.package.name.value in NamesOf(entries)
  {}

  lemma NamesOfMore(entries: seq<Handle>, mod: Handle)
    ensures NamesOf(entries + [mod]) == NamesOf(entries) + (if mod.package.name.Some? then {mod.package.name.value} else {})
  {
    var all := entries + [mod];
    forall n | n in NamesOf(entries)
      ensures n in NamesOf(all)
    {
      var e :| e in entries && e.package.name == Some(n);
      assert e in all;
    }
    assert mod in all;
  }

  /** Registering a module whose requirements are met takes its own name off the pending ones. */
  lemma RegisterCloses(lib: Library, entries: seq<Handle>, mod: Handle, chain: seq<Name>)
    requires var pending := if mod.package.name.Some? then chain + [mod.package.name.value] else chain;
      && ClosedUpTo(entries, pending)
      && forall n :: n in mod.package.needs ==> n in NamesOf(entries) || n in pending
    requires FromLibrary(lib, entries)
    requires mod.package.name.Some? ==> mod.package.name.value in lib && lib[mod.package.name.value] == mod.package
    ensures ClosedUpTo(entries + [mod], chain) && FromLibrary(lib, entries + [mod])
  {
    NamesOfMore(entries, mod);
    hide NamesOf;
  }

  lemma RegisterGrows(before: seq<Handle>, loaded: seq<Handle>, mod: Handle, chain: seq<Name>)
    requires Grew(before, loaded, if mod.package.name.Some? then chain + [mod.package.name.value] else chain)
    requires mod.package.name.Some? ==> mod.package.name.value !in NamesOf(before) && mod.package.name.value !in chain
    ensures Grew(before, loaded + [mod], chain)
  {
    NamesOfMore(loaded, mod);
    if mod.package.name.Some? {
      assert mod.package.name.value in chain + [mod.package.name.value];
      forall i | 0 <= i < |loaded|
        ensures loaded[i].package.name != mod.package.name
      {
        if loaded[i].package.name == mod.package.name { NameThere(loaded, loaded[i]); }
      }
    }
    hide NamesOf;
  }

  /** A new name pays for its entry. */
  lemma RegisterPays(lib: Library, entries: seq<Handle>, mod: Handle)
    ensures mod.package.name.Some? && mod.package.name.value in lib && mod.package.name.value !in NamesOf(entries) ==>
      |Unregistered(lib, entries)| > 0 && Budget(lib, entries + [mod]) == Budget(lib, entries)
    ensures Budget(lib, entries + [mod]) <= Budget(lib, entries) + 1
  {
    NamesOfMore(entries, mod);
    hide NamesOf;
    var was, now := Unregistered(lib, entries), Unregistered(lib, entries + [mod]);
    if mod.package.name.Some? {
      assert mod.package.name.value in lib && mod.package.name.value !in NamesOf(entries) ==> mod.package.name.value in was;
      assert now == was - {mod.package.name.value};
    } else {
      assert now == was;
    }
  }

  /** What is registered and closed up to names to avoid covers everything reached without them. */
  ghost predicate Covered(lib: Library, entries: seq<Handle>, avoid: seq<Name>, from: Name) {
    forall n :: Reaches(lib, avoid, from, n) ==> n in NamesOf(entries)
  }

  lemma {:induction false} RouteCovered(lib: Library, entries: seq<Handle>, avoid: seq<Name>, path: seq<Name>)
    requires FromLibrary(lib, entries) && ClosedUpTo(entries, avoid) && Route(lib, avoid, path) && path[0] in NamesOf(entries)
    ensures path[|path| - 1] in NamesOf(entries)
    decreases |path|
  {
    if |path| == 1 {
    } else {
      var short := path[..|path| - 1];
      assert Route(lib, avoid, short);
      RouteCovered(lib, entries, avoid, short);
      var e :| e in entries && e.package.name == Some(path[|path| - 2]);
      assert path[|path| - 1] in e.package.needs;
    }
  }

  lemma ClosedCovers(lib: Library, entries: seq<Handle>, avoid: seq<Name>, from: Name)
    requires FromLibrary(lib, entries) && ClosedUpTo(entries, avoid) && from in NamesOf(entries)
    ensures Covered(lib, entries, avoid, from)
  {
    hide FromLibrary, ClosedUpTo, NamesOf;
    forall n | Reaches(lib, avoid, from, n)
      ensures n in NamesOf(entries)
    {
      var path :| Route(lib, avoid, path) && path[0] == from && path[|path| - 1] == n;
      RouteCovered(lib, entries, avoid, path);
    }
  }

  // ----- the stack and the true chain of loads -----

  /** On the stack, no higher than in the chain. */
  predicate Held(stack: seq<Name>, chain: seq<Name>, j: nat)
    requires j < |chain|
  {
    exists p: nat :: p <= j && p < |stack| && stack[p] == chain[j]
  }

  /** Popped too early, and why. */
  ghost predicate Lost(lib: Library, entries: seq<Handle>, chain: seq<Name>, j: nat) {
    exists i: nat, deep: seq<Name> :: LostTo(lib, entries, chain, j, i, deep)
  }

  ghost predicate LostTo(lib: Library, entries: seq<Handle>, chain: seq<Name>, j: nat, i: nat, deep: seq<Name>) {
    && j < i <= |chain| && |deep| + j >= MAX_DEPTH && SimplePath(lib, chain[..i] + deep)
    && (deep != [] ==> Covered(lib, entries, chain[..i], deep[0]))
  }

  ghost predicate Tracked(lib: Library, s: State, chain: seq<Name>) {
    && |s.loading| <= |chain| && |s.loading| <= MAX_DEPTH
    && (forall n :: n in s.loading ==> n in chain)
    && forall j: nat :: j < |chain| ==> Held(s.loading, chain, j) || Lost(lib, s.entries, chain, j)
  }

  /** Only the outermost load may be of a module that is already there. */
  predicate Fresh(entries: seq<Handle>, chain: seq<Name>) {
    forall k :: 1 <= k < |chain| ==> chain[k] !in NamesOf(entries)
  }

  /** What every step of the recursion keeps; `chain` are the names really being loaded. */
  ghost predicate Good(lib: Library, s: State, chain: seq<Name>) {
    && Named(lib) && SimplePath(lib, chain)
    && FromLibrary(lib, s.entries) && ClosedUpTo(s.entries, chain) && Fresh(s.entries, chain)
    && Tracked(lib, s, chain)
  }

  lemma LostBy(lib: Library, entries: seq<Handle>, chain: seq<Name>, j: nat, i: nat, deep: seq<Name>)
    requires LostTo(lib, entries, chain, j, i, deep)
    ensures Lost(lib, entries, chain, j)
  {}

  lemma LostLonger(lib: Library, entries: seq<Handle>, entries': seq<Handle>, chain: seq<Name>, more: seq<Name>, j: nat)
    requires Lost(lib, entries, chain, j) && entries <= entries'
    ensures Lost(lib, entries', chain + more, j)
  {
    hide SimplePath, Reaches;
    var i: nat, deep: seq<Name> :| LostTo(lib, entries, chain, j, i, deep);
    NamesKept(entries, entries');
    hide NamesOf;
    assert (chain + more)[..i] == chain[..i];
    assert LostTo(lib, entries', chain + more, j, i, deep);
  }

  /** A push keeps track: a dropped name was too deep. */
  lemma PushTracked(lib: Library, s: State, s': State, chain: seq<Name>, n: Name)
    requires Tracked(lib, s, chain) && SimplePath(lib, chain + [n])
    requires s'.entries == s.entries && s'.loading == Pushed(s.loading, n)
    ensures Tracked(lib, s', chain + [n])
  {
    var chain' := chain + [n];
    hide SimplePath, Covered, Lost;
    forall j: nat | j < |chain'|
      ensures Held(s'.loading, chain', j) || Lost(lib, s'.entries, chain', j)
    {
      if j < |chain| {
        if Held(s.loading, chain, j) {
          var p: nat :| p <= j && p < |s.loading| && s.loading[p] == chain[j];
          assert s'.loading[p] == chain'[j];
        } else {
          LostLonger(lib, s.entries, s.entries, chain, [n], j);
        }
      } else if |s.loading| < MAX_DEPTH {
        assert s'.loading[|s.loading|] == chain'[j];
      } else {
        assert chain'[..j + 1] + [] == chain';
        LostBy(lib, s'.entries, chain', j, j + 1, []);
      }
    }
  }

  function Least(a: int, b: int): int {
    if a < b then a else b
  }

  /** A load of the chain `deep` under this one took at most the pops of its own length off the stack. */
  predicate Popping(stack: seq<Name>, stack': seq<Name>, deep: seq<Name>) {
    stack' <= stack && |stack'| >= Least(|stack|, MAX_DEPTH - |deep|)
  }

  /** What a nested load popped is lost to its chain. */
  lemma PopTracked(lib: Library, s: State, s': State, chain: seq<Name>, deep: seq<Name>)
    requires Tracked(lib, s, chain) && s.entries <= s'.entries
    requires deep != [] && SimplePath(lib, chain + deep) && Covered(lib, s'.entries, chain, deep[0])
    requires Popping(s.loading, s'.loading, deep)
    ensures Tracked(lib, s', chain)
  {
    hide SimplePath, Covered, Lost;
    assert chain + [] == chain && chain[..|chain|] == chain;
    forall j: nat | j < |chain|
      ensures Held(s'.loading, chain, j) || Lost(lib, s'.entries, chain, j)
    {
      if Held(s.loading, chain, j) {
        var p: nat :| p <= j && p < |s.loading| && s.loading[p] == chain[j];
        if p < |s'.loading| {
          assert s'.loading[p] == chain[j];
        } else {
          LostBy(lib, s'.entries, chain, j, |chain|, deep);
        }
      } else {
        LostLonger(lib, s.entries, s'.entries, chain, [], j);
      }
    }
  }

  /** Without forks nothing that is really being loaded is taken for new. */
  lemma NotLooping(lib: Library, s: State, chain: seq<Name>, n: Name)
    requires Good(lib, s, chain) && NoFork(lib) && Wanted(lib, chain, n) && n !in s.loading
    ensures n !in chain
  {
    hide Named, SimplePath, FromLibrary, ClosedUpTo, Reaches, NoFork, Wanted;
    if n in chain {
      var j: nat :| j < |chain| && chain[j] == n;
      assert !Held(s.loading, chain, j);
      var i: nat, deep: seq<Name> :| LostTo(lib, s.entries, chain, j, i, deep);
      var trunk, back := chain[..i], chain[i..];
      assert trunk + back == chain;
      forall m | deep != [] && m in back
        ensures !Reaches(lib, trunk, deep[0], m)
      {
        var k :| i <= k < |chain| && chain[k] == m;
        assert m !in NamesOf(s.entries);
      }
      IsFork(lib, trunk, deep, back, j);
    }
  }

  lemma IsFork(lib: Library, trunk: seq<Name>, deep: seq<Name>, back: seq<Name>, j: nat)
    requires Fork(lib, trunk, deep, back, j)
    ensures !NoFork(lib)
  {
    hide Fork;
  }

  // ----- the induction -----

  /** The module may be loaded now: it comes from the library, is not being loaded, and, unless this is
      the outermost load, is required and not there yet. */
  predicate Askable(lib: Library, s: State, chain: seq<Name>, package: Package) {
    match package.name
    case None => chain == []
    case Some(n) =>
      && n in lib && lib[n] == package && n !in chain && Wanted(lib, chain, n)
      && (chain != [] ==> n !in NamesOf(s.entries))
  }

  predicate IsNew(entries: seq<Handle>, package: Package) {
    package.name.Some? && package.name.value !in NamesOf(entries)
  }

  /** Entries beyond the budget that the load needs for itself. */
  function Extra(entries: seq<Handle>, package: Package): nat {
    if IsNew(entries, package) then 0 else 1
  }

  function Inside(chain: seq<Name>, package: Package): seq<Name> {
    if package.name.Some? then chain + [package.name.value] else chain
  }

  lemma EnterGood(lib: Library, s: State, chain: seq<Name>, package: Package)
    requires Good(lib, s, chain) && Askable(lib, s, chain, package)
    ensures Good(lib, Entered(s, package), Inside(chain, package))
    ensures package.name.Some? ==> Waiting(lib, Inside(chain, package)) < Waiting(lib, chain)
  {
    hide Tracked, NamesOf, FromLibrary, Named;
    if package.name.Some? {
      var n := package.name.value;
      assert SimplePath(lib, chain + [n]);
      assert n in Waiting(lib, chain) && n !in Waiting(lib, chain + [n]);
      PushTracked(lib, s, Entered(s, package), chain, n);
    } else {
      assert Tracked(lib, Entered(s, package), chain) by { SameTracked(lib, s, Entered(s, package), chain); }
    }
  }

  lemma SameTracked(lib: Library, s: State, s': State, chain: seq<Name>)
    requires Tracked(lib, s, chain) && s'.entries == s.entries && s'.loading == s.loading
    ensures Tracked(lib, s', chain)
  {
    hide Lost, Held;
  }

  lemma SmallerSet(a: set<Name>, b: set<Name>)
    requires a < b
    ensures |a| < |b|
  {
    assert b == a + (b - a) && b - a != {};
  }

  /** What holds after all requirements of a module are met: `t` follows the state `s` it was entered in. */
  ghost predicate RequirementsMet(lib: Library, s: State, t: State, chain: seq<Name>, needs: seq<Name>, deep: seq<Name>) {
    && Good(lib, t, chain) && Grew(s.entries, t.entries, chain) && Budget(lib, t.entries) <= Budget(lib, s.entries)
    && (forall n :: n in needs ==> n in NamesOf(t.entries) || n in chain)
    && Popping(s.loading, t.loading, deep) && (deep != [] ==> SimplePath(lib, chain + deep))
  }

  /** What holds after a load that succeeded. */
  ghost predicate LoadMet(lib: Library, s: State, t: State, chain: seq<Name>, mod: Handle, deep: seq<Name>) {
    && Good(lib, t, chain) && Budget(lib, t.entries) <= Budget(lib, s.entries) + Extra(s.entries, mod.package)
    && mod in t.entries
    && (mod.package.name.Some? ==>
          deep != [] && deep[0] == mod.package.name.value && SimplePath(lib, chain + deep) && Popping(s.loading, t.loading, deep))
  }

  /** The name is registered, so what the load popped is accounted for. */
  lemma FinishTracked(lib: Library, s: State, t: State, t': State, chain: seq<Name>, n: Name, deep: seq<Name>)
    requires Tracked(lib, s, chain) && FromLibrary(lib, t'.entries) && ClosedUpTo(t'.entries, chain)
    requires s.entries <= t.entries <= t'.entries && n in NamesOf(t'.entries)
    requires t'.loading == Popped(t.loading) && Popping(Pushed(s.loading, n), t.loading, deep)
    requires SimplePath(lib, chain + [n] + deep)
    ensures Tracked(lib, t', chain) && SimplePath(lib, chain + ([n] + deep)) && Popping(s.loading, t'.loading, [n] + deep)
  {
    assert chain + [n] + deep == chain + ([n] + deep);
    assert |s.loading| <= MAX_DEPTH;
    hide SimplePath, FromLibrary, ClosedUpTo, NamesOf;
    ClosedCovers(lib, t'.entries, chain, n);
    hide Covered, Tracked;
    assert Popping(s.loading, t'.loading, [n] + deep);
    PopTracked(lib, s, t', chain, [n] + deep);
  }

  lemma TrackedShort(lib: Library, s: State, chain: seq<Name>)
    requires Tracked(lib, s, chain)
    ensures |s.loading| <= |chain|
  {}

  lemma NothingTracked(lib: Library, s: State, chain: seq<Name>)
    requires chain == [] && s.loading == []
    ensures Tracked(lib, s, chain)
  {}

  lemma HasRoom(w: World, s: State, t: State, mod: Handle, chain: seq<Name>)
    requires Askable(w.lib, s, chain, mod.package) && Grew(s.entries, t.entries, Inside(chain, mod.package))
    requires Budget(w.lib, t.entries) <= Budget(w.lib, s.entries)
    requires Budget(w.lib, s.entries) + Extra(s.entries, mod.package) <= w.capacity
    ensures |t.entries| < w.capacity
  {
    hide NamesOf, NoneTwice;
    if IsNew(s.entries, mod.package) {
      assert mod.package.name.value in Inside(chain, mod.package);
      assert mod.package.name.value in Unregistered(w.lib, t.entries);
    }
  }

  lemma FreshKept(s: State, t: State, mod: Handle, chain: seq<Name>)
    requires Fresh(s.entries, chain) && Grew(s.entries, t.entries, Inside(chain, mod.package))
    requires mod.package.name.Some? ==> mod.package.name.value !in chain
    ensures Fresh(t.entries + [mod], chain)
  {
    NamesOfMore(t.entries, mod);
    hide NamesOf, NoneTwice;
    forall k | 1 <= k < |chain|
      ensures chain[k] !in NamesOf(t.entries + [mod])
    {
      assert chain[k] in Inside(chain, mod.package);
    }
  }

  lemma FinishGood(w: World, s: State, t: State, chain: seq<Name>, mod: Handle, deep: seq<Name>)
    requires Good(w.lib, s, chain) && Askable(w.lib, s, chain, mod.package) && mod.id == s.nextId
    requires RequirementsMet(w.lib, Entered(s, mod.package), t, Inside(chain, mod.package), mod.package.needs, deep)
    requires Budget(w.lib, s.entries) + Extra(s.entries, mod.package) <= w.capacity
    ensures var t' := Finished(w, mod, true, t).state;
      && LoadMet(w.lib, s, t', chain, mod, if mod.package.name.Some? then [mod.package.name.value] + deep else [])
      && (IsNew(s.entries, mod.package) || mod.package.name.None? ==> Grew(s.entries, t'.entries, chain))
      && s.entries <= t'.entries && t'.loading <= s.loading
  {
    hide Named, SimplePath, Tracked, ClosedUpTo, FromLibrary, NamesOf, NoneTwice, Unregistered;
    var t' := Finished(w, mod, true, t).state;
    RegisterPays(w.lib, t.entries, mod);
    if IsNew(s.entries, mod.package) {
      assert mod.package.name.value in Inside(chain, mod.package);
    }
    hide Budget;
    HasRoom(w, s, t, mod, chain);
    assert t'.entries == t.entries + [mod];
    RegisterCloses(w.lib, t.entries, mod, chain);
    NamesKept(t.entries, t'.entries);
    NamesOfMore(t.entries, mod);
    if IsNew(s.entries, mod.package) || mod.package.name.None? {
      RegisterGrows(s.entries, t.entries, mod, chain);
    }
    FreshKept(s, t, mod, chain);
    if mod.package.name.Some? {
      assert deep == [] ==> Inside(chain, mod.package) + deep == Inside(chain, mod.package);
      FinishTracked(w.lib, s, t, t', chain, mod.package.name.value, deep);
    } else {
      TrackedShort(w.lib, s, chain);
      NothingTracked(w.lib, t', chain);
    }
  }

  /** On a library without forks a load ends, and one that succeeds keeps everything; `deep` is the longest
      chain of loads it made. */
  lemma {:induction false} LoadGood(w: World, depth: nat, s: State, package: Package, chain: seq<Name>) returns (deep: seq<Name>)
    requires Good(w.lib, s, chain) && NoFork(w.lib) && Askable(w.lib, s, chain, package)
    requires Budget(w.lib, s.entries) + Extra(s.entries, package) <= w.capacity
    requires depth > |Waiting(w.lib, chain)| + if package.name.Some? then 0 else 1
    ensures Load(w, depth, s, package).Ended?
    ensures var t := Load(w, depth, s, package).state;
      && s.entries <= t.entries && t.loading <= s.loading
      && (IsNew(s.entries, package) || package.name.None? ==> Grew(s.entries, t.entries, chain))
    ensures !Load(w, depth, s, package).ok && IsNew(s.entries, package) ==>
      package.name.value !in NamesOf(Load(w, depth, s, package).state.entries)
    ensures Load(w, depth, s, package).ok ==>
      LoadMet(w.lib, s, Load(w, depth, s, package).state, chain, Handle(s.nextId, package), deep)
    decreases depth, 0, 0
  {
    NotYetLoading(w.lib, s, chain, package);
    EnterGood(w.lib, s, chain, package);
    if package.name.Some? {
      SmallerSet(Waiting(w.lib, Inside(chain, package)), Waiting(w.lib, chain));
    }
    InsideWants(w.lib, chain, package);
    hide Good, NoFork, Askable, Waiting, Budget, Requirements, LoadMet, RequirementsMet, Wanted, Grew;
    deep := RequirementsGood(w, depth - 1, Entered(s, package), s.nextId, package.needs, Inside(chain, package));
    var out := Requirements(w, depth - 1, Entered(s, package), s.nextId, package.needs);
    if out.ok {
      FinishGood(w, s, out.state, chain, Handle(s.nextId, package), deep);
      deep := if package.name.Some? then [package.name.value] + deep else [];
    } else {
      FailedLoad(s, out.state, chain, package);
    }
  }

  lemma NotYetLoading(lib: Library, s: State, chain: seq<Name>, package: Package)
    requires Good(lib, s, chain) && Askable(lib, s, chain, package)
    ensures package.name.Some? ==> package.name.value !in s.loading
  {
    hide NamesOf, Lost, Held;
  }

  lemma InsideWants(lib: Library, chain: seq<Name>, package: Package)
    requires package.name.None? ==> chain == []
    requires package.name.Some? ==> package.name.value in lib && lib[package.name.value] == package
    ensures forall n :: n in package.needs ==> Wanted(lib, Inside(chain, package), n)
  {}

  lemma FailedLoad(s: State, t: State, chain: seq<Name>, package: Package)
    requires Grew(s.entries, t.entries, Inside(chain, package)) && t.loading <= Entered(s, package).loading
    ensures var t' := if package.name.Some? then Popped(t.loading) else t.loading;
      s.entries <= t.entries && t' <= s.loading && Grew(s.entries, t.entries, chain)
    ensures IsNew(s.entries, package) ==> package.name.value !in NamesOf(t.entries)
  {
    assert package.name.Some? ==> package.name.value in Inside(chain, package);
    hide NamesOf, NoneTwice;
  }

  lemma {:induction false} RequirementsGood(w: World, depth: nat, s: State, id: nat, needs: seq<Name>, chain: seq<Name>)
    returns (deep: seq<Name>)
    requires Good(w.lib, s, chain) && NoFork(w.lib) && forall n :: n in needs ==> Wanted(w.lib, chain, n)
    requires Budget(w.lib, s.entries) <= w.capacity && depth > |Waiting(w.lib, chain)|
    ensures Requirements(w, depth, s, id, needs).Ended?
    ensures var t := Requirements(w, depth, s, id, needs).state; Grew(s.entries, t.entries, chain) && t.loading <= s.loading
    ensures Requirements(w, depth, s, id, needs).ok ==>
      RequirementsMet(w.lib, s, Requirements(w, depth, s, id, needs).state, chain, needs, deep)
    decreases depth, 2, |needs|
  {
    deep := [];
    NothingGrew(s.entries, chain);
    if w.host.fails(id, |needs|) || needs == [] {
      hide Good, Grew;
    } else {
      var n := needs[0];
      assert Wanted(w.lib, chain, n);
      hide Good, NoFork, Waiting, Budget, Load, Wanted, Grew, RequirementsMet;
      var first := ResolveGood(w, depth, s, n, chain);
      var r := Resolve(w, depth, s, n);
      hide Resolve;
      if r.ok {
        var rest := RequirementsGood(w, depth, r.state, id, needs[1..], chain);
        var out := Requirements(w, depth, r.state, id, needs[1..]);
        deep := if |first| < |rest| then rest else first;
        GrewTwice(s.entries, r.state.entries, out.state.entries, chain);
        if out.ok {
          MetTogether(w.lib, s, r.state, out.state, chain, needs, first, rest);
        }
      }
    }
  }

  lemma NothingGrew(entries: seq<Handle>, chain: seq<Name>)
    ensures Grew(entries, entries, chain)
  {}

  lemma MetTogether(lib: Library, s: State, r: State, t: State, chain: seq<Name>, needs: seq<Name>, first: seq<Name>, rest: seq<Name>)
    requires needs != [] && RequirementsMet(lib, s, r, chain, [needs[0]], first)
    requires RequirementsMet(lib, r, t, chain, needs[1..], rest)
    ensures RequirementsMet(lib, s, t, chain, needs, if |first| < |rest| then rest else first)
  {
    hide Good, Budget, SimplePath;
    GrewTwice(s.entries, r.entries, t.entries, chain);
    NamesKept(r.entries, t.entries);
    hide NamesOf, NoneTwice;
    assert needs == [needs[0]] + needs[1..];
  }

  lemma {:induction false} ResolveGood(w: World, depth: nat, s: State, n: Name, chain: seq<Name>) returns (deep: seq<Name>)
    requires Good(w.lib, s, chain) && NoFork(w.lib) && Wanted(w.lib, chain, n)
    requires Budget(w.lib, s.entries) <= w.capacity && depth > |Waiting(w.lib, chain)|
    ensures Resolve(w, depth, s, n).Ended?
    ensures var t := Resolve(w, depth, s, n).state; Grew(s.entries, t.entries, chain) && t.loading <= s.loading
    ensures Resolve(w, depth, s, n).ok ==> RequirementsMet(w.lib, s, Resolve(w, depth, s, n).state, chain, [n], deep)
    decreases depth, 1, 0
  {
    deep := [];
    NothingGrew(s.entries, chain);
    if n in s.loading || n in NamesOf(s.entries) {
      LoadingInChain(w.lib, s, chain);
      hide Good, Grew, Budget;
    } else if !w.host.refuses(s.nextId) && n in w.lib {
      NotLooping(w.lib, s, chain, n);
      NameOfImage(w.lib, s, chain, n);
      hide Good, NoFork, Waiting, Budget, Load, Wanted, Grew;
      deep := LoadGood(w, depth, s, w.lib[n], chain);
      var out := Load(w, depth, s, w.lib[n]);
      if out.ok {
        NameThere(out.state.entries, Handle(s.nextId, w.lib[n]));
      }
    }
  }

  lemma LoadingInChain(lib: Library, s: State, chain: seq<Name>)
    requires Good(lib, s, chain)
    ensures forall n :: n in s.loading ==> n in chain
  {
    hide Lost, Held;
  }

  lemma NameOfImage(lib: Library, s: State, chain: seq<Name>, n: Name)
    requires Good(lib, s, chain) && n in lib
    ensures lib[n].name == Some(n)
  {}

  // ----- closure -----

  /** Each name is required by the one before it; the first by `package`. */
  predicate RequiredBy(lib: Library, package: Package, path: seq<Name>) {
    && path != [] && path[0] in package.needs
    && forall i :: 0 <= i < |path| - 1 ==> path[i] in lib && path[i + 1] in lib[path[i]].needs
  }

  /** A closed registry that holds a module holds its whole transitive requirement closure. */
  lemma {:induction false} ClosureIsTransitive(lib: Library, entries: seq<Handle>, root: Handle, path: seq<Name>)
    requires ClosedUpTo(entries, []) && FromLibrary(lib, entries) && root in entries
    requires RequiredBy(lib, root.package, path)
    ensures path[|path| - 1] in NamesOf(entries)
    decreases |path|
  {
    if |path| == 1 {
    } else {
      var n := path[|path| - 2];
      assert RequiredBy(lib, root.package, path[..|path| - 1]);
      assert n in lib && path[|path| - 1] in lib[n].needs;
      ClosureIsTransitive(lib, entries, root, path[..|path| - 1]);
      var e :| e in entries && e.package.name == Some(n);
      assert e.package == lib[n];
    }
  }

  /** What an outermost load starts from: nothing loading, a closed registry, and room. */
  predicate Ready(lib: Library, s: State, package: Package, capacity: nat) {
    && Named(lib) && s.loading == [] && FromLibrary(lib, s.entries) && ClosedUpTo(s.entries, [])
    && (package.name.Some? ==> package.name.value in lib && lib[package.name.value] == package)
    && Budget(lib, s.entries) + Extra(s.entries, package) <= capacity
  }

  /** An outermost load ends; it leaves the stack empty, and if it succeeds the registry closed and, unless
      the root was there before, no name in it twice. */
  lemma OutermostLoad(w: World, depth: nat, s: State, package: Package)
    requires Ready(w.lib, s, package, w.capacity) && NoFork(w.lib) && depth > |w.lib| + 1
    ensures var out := Load(w, depth, s, package);
      && out.Ended? && out.state.loading == [] && s.entries <= out.state.entries
      && (NoneTwice(s.entries) && (IsNew(s.entries, package) || package.name.None?) ==> NoneTwice(out.state.entries))
      && (!out.ok && IsNew(s.entries, package) ==> package.name.value !in NamesOf(out.state.entries))
      && (!out.ok && Handle(s.nextId, package) !in s.entries ==> Handle(s.nextId, package) !in out.state.entries)
      && (out.ok ==>
            && Handle(s.nextId, package) in out.state.entries && ClosedUpTo(out.state.entries, [])
            && FromLibrary(w.lib, out.state.entries)
            && Budget(w.lib, out.state.entries) <= Budget(w.lib, s.entries) + Extra(s.entries, package))
  {
    hide NoFork, NoneTwice, NamesOf, Load;
    assert Waiting(w.lib, []) == w.lib.Keys;
    assert Good(w.lib, s, []);
    hide Budget, Waiting;
    var deep := LoadGood(w, depth, s, package, []);
    hide Tracked;
    if !Load(w, depth, s, package).ok && Handle(s.nextId, package) !in s.entries {
      FailedNotRegistered(w, depth, s, package);
    }
  }

  method LoadRoot(mgr: DepMgr, package: Package, lib: Library, host: Host) returns (res: Error, mod: Handle)
    requires Ready(lib, mgr.Now(), package, mgr.capacity) && NoFork(lib)
    modifies mgr
    ensures mgr.loading == [] && old(mgr.entries) <= mgr.entries
    ensures NoneTwice(old(mgr.entries)) && (IsNew(old(mgr.entries), package) || package.name.None?) ==> NoneTwice(mgr.entries)
    ensures mod == Handle(old(mgr.nextId), package)
    ensures res != Ok ==>
      && (mod !in old(mgr.entries) ==> mod !in mgr.entries)
      && (IsNew(old(mgr.entries), package) ==> package.name.value !in NamesOf(mgr.entries))
    ensures res == Ok ==> mod in mgr.entries && mod.package == package && ClosedUpTo(mgr.entries, []) && FromLibrary(lib, mgr.entries)
  {
    ghost var depth := |lib| + 2;
    OutermostLoad(World(lib, host, mgr.capacity), depth, mgr.Now(), package);
    hide *;
    res, mod := mgr.DepLoad(package, lib, host, depth);
  }
}
