// The dependency manager: re-entrant loading of required modules, with a stack of the names being
// loaded to cut cycles. The host's part of the recursion, which finds an image by name and loads it,
// is modelled by a library of images and by what the host decides along the way.

module Deps {
  import opened Words
  import opened Relocation

  const MAX_DEPTH := 8

  /** ".udynlink.mod.requires." */
  const PREFIX: seq<Byte> :=
    [46, 117, 100, 121, 110, 108, 105, 110, 107, 46, 109, 111, 100, 46, 114, 101, 113, 117, 105, 114, 101, 115, 46]

  /** What the manager sees of an image: the name in its symbol table, if valid, and the modules it
      requires, in the order its load resolves them. */
  datatype Package = Package(name: Option<Name>, needs: seq<Name>)

  /** The images the host can find by name. */
  type Library = map<Name, Package>

  /** A loaded module. */
  datatype Handle = Handle(id: nat, package: Package)

  datatype Resolution = Unresolved | Deferred | Resolved(mod: Handle)

  /** What the host, and everything else that can go wrong in a load, decides: it may refuse to find an
      image when `id` is the next handle, and the load of handle `id` may fail with so many requirements
      still to come. */
  datatype Host = Host(refuses: nat -> bool, fails: (nat, nat) -> bool)

  datatype World = World(lib: Library, host: Host, capacity: nat)

  function NamesOf(entries: seq<Handle>): set<Name> {
    set e | e in entries && e.package.name.Some? :: e.package.name.value
  }

  /** udynlink_dep_get_name: the module name in a dependency symbol's name. */
  function DepName(symbol: Name): (r: Option<Name>)
    ensures forall n :: symbol == PREFIX + n ==> r == Some(n)
  {
    if |symbol| >= |PREFIX| && symbol[..|PREFIX|] == PREFIX then Some(symbol[|PREFIX|..]) else None
  }

  // ----- the recursion as a function -----

  datatype State = State(entries: seq<Handle>, loading: seq<Name>, nextId: nat)

  /** How a load ends, if it does within a given depth of nested loads. */
  datatype Outcome = TooDeep | Ended(ok: bool, state: State)

  /** A full stack drops the name, but not the pop that goes with it. */
  function Pushed(stack: seq<Name>, name: Name): seq<Name> {
    if |stack| < MAX_DEPTH then stack + [name] else stack
  }

  function Popped(stack: seq<Name>): seq<Name> {
    if stack == [] then [] else stack[..|stack| - 1]
  }

  /** A full registry drops the module without a word. */
  function Registered(entries: seq<Handle>, mod: Handle, capacity: nat): seq<Handle> {
    if |entries| < capacity then entries + [mod] else entries
  }

  function Entered(s: State, package: Package): State {
    State(s.entries, if package.name.Some? then Pushed(s.loading, package.name.value) else s.loading, s.nextId + 1)
  }

  function Finished(w: World, mod: Handle, ok: bool, s: State): Outcome {
    Ended(ok, State(if ok then Registered(s.entries, mod, w.capacity) else s.entries,
                    if mod.package.name.Some? then Popped(s.loading) else s.loading, s.nextId))
  }

  /** udynlink_dep_load, with at most `depth` loads inside one another. */
  function Load(w: World, depth: nat, s: State, package: Package): Outcome
    decreases depth, 0, 0
  {
    if package.name.Some? && package.name.value in s.loading then Ended(false, s.(nextId := s.nextId + 1))
    else if depth == 0 then TooDeep
    else
      match Requirements(w, depth - 1, Entered(s, package), s.nextId, package.needs)
      case TooDeep => TooDeep
      case Ended(ok, t) => Finished(w, Handle(s.nextId, package), ok, t)
  }

  /** udynlink_load_module as the manager sees it: one requirement after the other, up to the first that
      stays unresolved. */
  function Requirements(w: World, depth: nat, s: State, id: nat, needs: seq<Name>): Outcome
    decreases depth, 2, |needs|
  {
    if w.host.fails(id, |needs|) then Ended(false, s)
    else if needs == [] then Ended(true, s)
    else
      match Resolve(w, depth, s, needs[0])
      case TooDeep => TooDeep
      case Ended(ok, t) => if ok then Requirements(w, depth, t, id, needs[1..]) else Ended(false, t)
  }

  /** udynlink_dep_resolve_dependency and the host's udynlink_external_dep_load. */
  function Resolve(w: World, depth: nat, s: State, name: Name): Outcome
    decreases depth, 1, 0
  {
    if name in s.loading || name in NamesOf(s.entries) then Ended(true, s)
    else if w.host.refuses(s.nextId) || name !in w.lib then Ended(false, s)
    else Load(w, depth, s, w.lib[name])
  }

  /** A recursion that ends does so in the same way whatever depth is allowed beyond its own. */
  lemma {:induction false} DeeperIsSame(w: World, depth: nat, more: nat, s: State, package: Package)
    requires Load(w, depth, s, package).Ended? && depth <= more
    ensures Load(w, more, s, package) == Load(w, depth, s, package)
    decreases depth, 0, 0
  {
    if depth == 0 {
    } else {
      hide Resolve, Finished, Entered;
      if !(package.name.Some? && package.name.value in s.loading) {
        DeeperRequirements(w, depth - 1, more - 1, Entered(s, package), s.nextId, package.needs);
      }
    }
  }

  lemma {:induction false} DeeperRequirements(w: World, depth: nat, more: nat, s: State, id: nat, needs: seq<Name>)
    requires Requirements(w, depth, s, id, needs).Ended? && depth <= more
    ensures Requirements(w, more, s, id, needs) == Requirements(w, depth, s, id, needs)
    decreases depth, 2, |needs|
  {
    if needs == [] || w.host.fails(id, |needs|) {
    } else {
      var r := Resolve(w, depth, s, needs[0]);
      assert Resolve(w, more, s, needs[0]) == r by {
        hide Load, Requirements;
        if !(needs[0] in s.loading || needs[0] in NamesOf(s.entries)) && !w.host.refuses(s.nextId) && needs[0] in w.lib {
          DeeperIsSame(w, depth, more, s, w.lib[needs[0]]);
        }
      }
      hide Resolve, Load;
      if r.ok {
        DeeperRequirements(w, depth, more, r.state, id, needs[1..]);
      }
    }
  }

  // ----- the manager -----

  class DepMgr {
    var entries: seq<Handle>
    const capacity: nat
    var loading: seq<Name>
    var nextId: nat

    constructor (cap: nat)
      ensures entries == [] && loading == [] && capacity == cap
    {
      entries, capacity, loading, nextId := [], cap, [], 1;
    }

    function Now(): State
      reads this
    {
      State(entries, loading, nextId)
    }

    method IsLoading(name: Name) returns (r: bool)
      ensures r <==> name in loading
    {
      for i := 0 to |loading|
        invariant name !in loading[..i]
      {
        if loading[i] == name {
          return true;
        }
      }
      return false;
    }

    method PushLoading(name: Name)
      modifies this`loading
      ensures loading == Pushed(old(loading), name)
    {
      if |loading| < MAX_DEPTH {
        loading := loading + [name];
      }
    }

    method PopLoading()
      modifies this`loading
      ensures loading == Popped(old(loading))
    {
      if |loading| > 0 {
        loading := loading[..|loading| - 1];
      }
    }

    method Register(mod: Handle) returns (ok: bool)
      modifies this`entries
      ensures ok <==> |old(entries)| < capacity
      ensures entries == Registered(old(entries), mod, capacity)
    {
      if |entries| >= capacity {
        return false;
      }
      entries := entries + [mod];
      return true;
    }

    /** The last entry takes the place of the first one that matches. */
    method Unregister(mod: Handle)
      modifies this`entries
      ensures mod in old(entries) ==> multiset(entries) == multiset(old(entries)) - multiset{mod}
      ensures mod !in old(entries) ==> entries == old(entries)
    {
      hide SwapOut;
      for i := 0 to |entries|
        invariant entries == old(entries) && mod !in entries[..i]
      {
        if entries[i] == mod {
          SwapRemoves(entries, i);
          assert mod in entries;
          entries := SwapOut(entries, i);
          return;
        }
      }
    }

    /** udynlink_dep_find: the first registered module with the name. */
    method Find(name: Name) returns (r: Option<Handle>)
      ensures r.Some? <==> name in NamesOf(entries)
      ensures r.Some? ==> r.value in entries && r.value.package.name == Some(name)
    {
      for i := 0 to |entries|
        invariant name !in NamesOf(entries[..i])
      {
        if entries[i].package.name == Some(name) {
          assert entries[i] in entries;
          return Some(entries[i]);
        }
        assert entries[..i + 1] == entries[..i] + [entries[i]];
      }
      assert entries[..|entries|] == entries;
      return None;
    }

    // ----- the recursion as it runs -----

    /** udynlink_dep_load. Whenever the recursion ends at all, it does what `Load` says. */
    method DepLoad(package: Package, lib: Library, host: Host, ghost depth: nat) returns (res: Error, mod: Handle)
      requires Load(World(lib, host, capacity), depth, Now(), package).Ended?
      modifies this
      ensures Load(World(lib, host, capacity), depth, old(Now()), package) == Ended(res == Ok, Now())
      ensures mod == Handle(old(nextId), package)
      decreases depth, 0
    {
      hide Requirements, Resolve;
      mod := Handle(nextId, package);
      nextId := nextId + 1;
      if package.name.Some? {
        var looping := IsLoading(package.name.value);
        if looping {
          return UnknownSymbol, mod;
        }
        PushLoading(package.name.value);
      }
      res := LoadRequirements(mod.id, package, lib, host, depth - 1);
      if res != Ok {
        if package.name.Some? {
          PopLoading();
        }
        return;
      }
      var ok := Register(mod);
      if package.name.Some? {
        PopLoading();
      }
    }

    /** udynlink_load_module as the manager sees it. */
    method LoadRequirements(id: nat, package: Package, lib: Library, host: Host, ghost depth: nat) returns (res: Error)
      requires Requirements(World(lib, host, capacity), depth, Now(), id, package.needs).Ended?
      modifies this
      ensures Requirements(World(lib, host, capacity), depth, old(Now()), id, package.needs) == Ended(res == Ok, Now())
      decreases depth, 3
    {
      hide Load, Resolve, DepName;
      ghost var w, s := World(lib, host, capacity), Now();
      for i := 0 to |package.needs|
        invariant Requirements(w, depth, Now(), id, package.needs[i..]) == Requirements(w, depth, s, id, package.needs)
      {
        if host.fails(id, |package.needs| - i) {
          return OutOfMemory;
        }
        assert package.needs[i..][0] == package.needs[i] && package.needs[i..][1..] == package.needs[i + 1..];
        var r := ResolveDependency(PREFIX + package.needs[i], package.needs[i], lib, host, depth);
        if r.Unresolved? {
          return UnknownSymbol;
        }
      }
      res := if host.fails(id, 0) then OutOfMemory else Ok;
    }

    /** udynlink_dep_resolve_dependency: deferred while the module is being loaded, found if it is there,
        loaded by the host otherwise. `name` is the module name in the symbol's. */
    method ResolveDependency(symbol: Name, ghost name: Name, lib: Library, host: Host, ghost depth: nat) returns (r: Resolution)
      requires symbol == PREFIX + name && Resolve(World(lib, host, capacity), depth, Now(), name).Ended?
      modifies this
      ensures Resolve(World(lib, host, capacity), depth, old(Now()), name) == Ended(!r.Unresolved?, Now())
      ensures r.Deferred? <==> name in old(loading)
      ensures r.Resolved? && name in NamesOf(old(entries)) ==> r.mod in entries && r.mod.package.name == Some(name)
      decreases depth, 2
    {
      hide Load, Requirements;
      var dep := DepName(symbol);
      hide DepName;
      var looping := IsLoading(dep.value);
      if looping {
        return Deferred;
      }
      var found := Find(dep.value);
      if found.Some? {
        return Resolved(found.value);
      }
      var loaded := ExternalDepLoad(dep.value, lib, host, depth);
      r := if loaded.Some? then Resolved(loaded.value) else Unresolved;
    }

    /** The host's udynlink_external_dep_load: find the image by name, if the host wants to, and load it. */
    method ExternalDepLoad(name: Name, lib: Library, host: Host, ghost depth: nat) returns (r: Option<Handle>)
      requires name !in NamesOf(entries) && name !in loading
      requires Resolve(World(lib, host, capacity), depth, Now(), name).Ended?
      modifies this
      ensures Resolve(World(lib, host, capacity), depth, old(Now()), name) == Ended(r.Some?, Now())
      ensures r.Some? ==> name in lib && r.value == Handle(old(nextId), lib[name])
      decreases depth, 1
    {
      hide Load, Requirements;
      if host.refuses(nextId) || name !in lib {
        return None;
      }
      var res, mod := DepLoad(lib[name], lib, host, depth);
      if res != Ok {
        return None;
      }
      r := Some(mod);
    }
  }

  function SwapOut(s: seq<Handle>, i: nat): seq<Handle>
    requires i < |s|
  {
    s[i := s[|s| - 1]][..|s| - 1]
  }

  lemma SwapRemoves(s: seq<Handle>, i: nat)
    requires i < |s|
    ensures multiset(SwapOut(s, i)) == multiset(s) - multiset{s[i]}
  {
    var last := |s| - 1;
    var t := s[i := s[last]];
    assert s == s[..last] + [s[last]];
    if i < last {
      assert t[..last] == s[..last][i := s[last]];
      assert s[..last] == s[..i] + [s[i]] + s[i + 1..last];
      assert t[..last] == s[..i] + [s[last]] + s[i + 1..last];
    }
  }
}
