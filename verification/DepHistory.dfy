// What a load leaves registered, whatever the host does: the modules whose own load ended well, in the order
// in which their loads ended, as far as there is room. Nothing of a load that failed stays.

module DepHistory {
  import opened Relocation
  import opened Deps

  /** A load that ended, and how. */
  datatype Attempt = Attempt(mod: Handle, ok: bool)

  /** The loads inside a load, itself last, in the order they end. */
  function Attempts(w: World, depth: nat, s: State, package: Package): seq<Attempt>
    decreases depth, 0, 0
  {
    var mod := Handle(s.nextId, package);
    if package.name.Some? && package.name.value in s.loading then [Attempt(mod, false)]
    else if depth == 0 then []
    else
      var inside := Requirements(w, depth - 1, Entered(s, package), s.nextId, package.needs);
      AttemptsFor(w, depth - 1, Entered(s, package), s.nextId, package.needs) + [Attempt(mod, inside.Ended? && inside.ok)]
  }

  /** The loads that meeting the requirements takes, up to the first that stays unresolved. */
  function AttemptsFor(w: World, depth: nat, s: State, id: nat, needs: seq<Name>): seq<Attempt>
    decreases depth, 2, |needs|
  {
    if w.host.fails(id, |needs|) || needs == [] then []
    else
      AttemptsOn(w, depth, s, needs[0])
        + match Resolve(w, depth, s, needs[0])
          case TooDeep => []
          case Ended(ok, t) => if ok then AttemptsFor(w, depth, t, id, needs[1..]) else []
  }

  function AttemptsOn(w: World, depth: nat, s: State, name: Name): seq<Attempt>
    decreases depth, 1, 0
  {
    if name in s.loading || name in NamesOf(s.entries) || w.host.refuses(s.nextId) || name !in w.lib then []
    else Attempts(w, depth, s, w.lib[name])
  }

  /** The modules whose load ended well. */
  function Succeeded(tries: seq<Attempt>): seq<Handle> {
    if tries == [] then []
    else (if tries[0].ok then [tries[0].mod] else []) + Succeeded(tries[1..])
  }

  /** Added at the end, as far as there is room. */
  function Added(entries: seq<Handle>, mods: seq<Handle>, capacity: nat): seq<Handle> {
    if |entries| + |mods| <= capacity then entries + mods
    else if |entries| >= capacity then entries
    else entries + mods[..capacity - |entries|]
  }

  /** The handles numbered from lo on, up to hi, each once. */
  predicate Numbered(tries: seq<Attempt>, lo: nat, hi: nat) {
    && (forall i :: 0 <= i < |tries| ==> lo <= tries[i].mod.id < hi)
    && (forall i, j :: 0 <= i < j < |tries| ==> tries[i].mod.id != tries[j].mod.id)
  }

  // ----- the parts -----

  lemma {:induction false} SucceededJoin(a: seq<Attempt>, b: seq<Attempt>)
    ensures Succeeded(a + b) == Succeeded(a) + Succeeded(b)
    decreases |a|
  {
    if a == [] {
      assert a + b == b;
    } else {
      assert (a + b)[0] == a[0] && (a + b)[1..] == a[1..] + b;
      var first := if a[0].ok then [a[0].mod] else [];
      assert Succeeded(a + b) == first + Succeeded(a[1..] + b) && Succeeded(a) == first + Succeeded(a[1..]);
      SucceededJoin(a[1..], b);
      hide Succeeded;
      assert first + (Succeeded(a[1..]) + Succeeded(b)) == (first + Succeeded(a[1..])) + Succeeded(b);
    }
  }

  lemma AddedTwice(entries: seq<Handle>, a: seq<Handle>, b: seq<Handle>, capacity: nat)
    ensures Added(Added(entries, a, capacity), b, capacity) == Added(entries, a + b, capacity)
  {}

  lemma {:induction false} SucceededAre(tries: seq<Attempt>, mod: Handle)
    ensures mod in Succeeded(tries) <==> Attempt(mod, true) in tries
    decreases |tries|
  {
    if tries == [] {
    } else {
      SucceededAre(tries[1..], mod);
      assert tries == [tries[0]] + tries[1..];
    }
  }

  // ----- the recursion -----

  /** What a stretch of the recursion does to the registry. */
  ghost predicate Recorded(w: World, s: State, t: State, tries: seq<Attempt>) {
    && t.entries == Added(s.entries, Succeeded(tries), w.capacity)
    && s.nextId <= t.nextId && Numbered(tries, s.nextId, t.nextId)
  }

  lemma RecordedTogether(w: World, s: State, r: State, t: State, first: seq<Attempt>, rest: seq<Attempt>)
    requires Recorded(w, s, r, first) && Recorded(w, r, t, rest)
    ensures Recorded(w, s, t, first + rest)
  {
    hide Succeeded, Added;
    SucceededJoin(first, rest);
    AddedTwice(s.entries, Succeeded(first), Succeeded(rest), w.capacity);
  }

  /** For every world: the registry after a load is the one before and the modules whose own load ended well. */
  lemma {:induction false} LoadRecorded(w: World, depth: nat, s: State, package: Package)
    requires Load(w, depth, s, package).Ended?
    ensures var (out, tries) := (Load(w, depth, s, package), Attempts(w, depth, s, package));
      && Recorded(w, s, out.state, tries)
      && tries != [] && tries[|tries| - 1] == Attempt(Handle(s.nextId, package), out.ok)
    decreases depth, 0, 0
  {
    hide Requirements, Succeeded, Added;
    var mod := Handle(s.nextId, package);
    if package.name.Some? && package.name.value in s.loading {
      Lone(s.entries, mod, false, w.capacity);
    } else {
      NeedsRecorded(w, depth - 1, Entered(s, package), s.nextId, package.needs);
      var inside := Requirements(w, depth - 1, Entered(s, package), s.nextId, package.needs);
      var before := AttemptsFor(w, depth - 1, Entered(s, package), s.nextId, package.needs);
      SucceededJoin(before, [Attempt(mod, inside.ok)]);
      Lone(inside.state.entries, mod, inside.ok, w.capacity);
      AddedTwice(s.entries, Succeeded(before), Succeeded([Attempt(mod, inside.ok)]), w.capacity);
    }
  }

  lemma Lone(entries: seq<Handle>, mod: Handle, ok: bool, capacity: nat)
    ensures Added(entries, Succeeded([Attempt(mod, ok)]), capacity) == if ok then Registered(entries, mod, capacity) else entries
  {
    assert Succeeded([Attempt(mod, ok)]) == if ok then [mod] else [];
  }

  lemma {:induction false} NeedsRecorded(w: World, depth: nat, s: State, id: nat, needs: seq<Name>)
    requires Requirements(w, depth, s, id, needs).Ended?
    ensures Recorded(w, s, Requirements(w, depth, s, id, needs).state, AttemptsFor(w, depth, s, id, needs))
    decreases depth, 2, |needs|
  {
    if w.host.fails(id, |needs|) || needs == [] {
      hide Resolve, AttemptsOn, Succeeded, Added;
      AddedNothing(s.entries, w.capacity);
    } else {
      hide Resolve, AttemptsOn, Recorded;
      NameRecorded(w, depth, s, needs[0]);
      var r := Resolve(w, depth, s, needs[0]);
      var first := AttemptsOn(w, depth, s, needs[0]);
      if r.ok {
        NeedsRecorded(w, depth, r.state, id, needs[1..]);
        var rest := AttemptsFor(w, depth, r.state, id, needs[1..]);
        RecordedTogether(w, s, r.state, Requirements(w, depth, r.state, id, needs[1..]).state, first, rest);
      } else {
        assert first + [] == first;
      }
    }
  }

  lemma AddedNothing(entries: seq<Handle>, capacity: nat)
    ensures Added(entries, Succeeded([]), capacity) == entries
  {}

  lemma {:induction false} NameRecorded(w: World, depth: nat, s: State, name: Name)
    requires Resolve(w, depth, s, name).Ended?
    ensures Recorded(w, s, Resolve(w, depth, s, name).state, AttemptsOn(w, depth, s, name))
    decreases depth, 1, 0
  {
    hide Load, Attempts, Added;
    hide Succeeded;
    AddedNothing(s.entries, w.capacity);
    if !(name in s.loading || name in NamesOf(s.entries) || w.host.refuses(s.nextId) || name !in w.lib) {
      LoadRecorded(w, depth, s, w.lib[name]);
    }
  }

  // ----- nothing goes on after a failure -----

  /** Once a load has failed no other one succeeds; if all went well, all did. */
  predicate StopsAtFailure(tries: seq<Attempt>, ok: bool) {
    && (forall i, j :: 0 <= i < j < |tries| && !tries[i].ok ==> !tries[j].ok)
    && (ok ==> forall i :: 0 <= i < |tries| ==> tries[i].ok)
  }

  lemma StopsLater(first: seq<Attempt>, rest: seq<Attempt>, ok: bool)
    requires StopsAtFailure(first, true) && StopsAtFailure(rest, ok)
    ensures StopsAtFailure(first + rest, ok)
  {}

  lemma StopsInside(before: seq<Attempt>, mod: Handle, ok: bool)
    requires StopsAtFailure(before, ok)
    ensures StopsAtFailure(before + [Attempt(mod, ok)], ok)
  {}

  /** A failure ends everything: of the loads that end after one that failed none ends well - they are those of the
      modules that required it - and a load that ends well has had no failure inside. */
  lemma {:induction false} LoadStops(w: World, depth: nat, s: State, package: Package)
    requires Load(w, depth, s, package).Ended?
    ensures StopsAtFailure(Attempts(w, depth, s, package), Load(w, depth, s, package).ok)
    decreases depth, 0, 0
  {
    hide Requirements;
    if package.name.Some? && package.name.value in s.loading {
    } else {
      NeedsStop(w, depth - 1, Entered(s, package), s.nextId, package.needs);
      var inside := Requirements(w, depth - 1, Entered(s, package), s.nextId, package.needs);
      StopsInside(AttemptsFor(w, depth - 1, Entered(s, package), s.nextId, package.needs), Handle(s.nextId, package), inside.ok);
    }
  }

  lemma {:induction false} NeedsStop(w: World, depth: nat, s: State, id: nat, needs: seq<Name>)
    requires Requirements(w, depth, s, id, needs).Ended?
    ensures StopsAtFailure(AttemptsFor(w, depth, s, id, needs), Requirements(w, depth, s, id, needs).ok)
    decreases depth, 2, |needs|
  {
    if w.host.fails(id, |needs|) || needs == [] {
    } else {
      hide Resolve, AttemptsOn;
      NameStops(w, depth, s, needs[0]);
      var r := Resolve(w, depth, s, needs[0]);
      var first := AttemptsOn(w, depth, s, needs[0]);
      if r.ok {
        NeedsStop(w, depth, r.state, id, needs[1..]);
        StopsLater(first, AttemptsFor(w, depth, r.state, id, needs[1..]), Requirements(w, depth, r.state, id, needs[1..]).ok);
      } else {
        assert first + [] == first;
      }
    }
  }

  lemma {:induction false} NameStops(w: World, depth: nat, s: State, name: Name)
    requires Resolve(w, depth, s, name).Ended?
    ensures StopsAtFailure(AttemptsOn(w, depth, s, name), Resolve(w, depth, s, name).ok)
    decreases depth, 1, 0
  {
    hide Load, Attempts;
    if !(name in s.loading || name in NamesOf(s.entries) || w.host.refuses(s.nextId) || name !in w.lib) {
      LoadStops(w, depth, s, w.lib[name]);
    }
  }

  // ----- what follows for one load -----

  /** A load that failed leaves no entry for its module: the handle is not registered, unless it was before. */
  lemma FailedNotRegistered(w: World, depth: nat, s: State, package: Package)
    requires Load(w, depth, s, package).Ended? && !Load(w, depth, s, package).ok
    requires Handle(s.nextId, package) !in s.entries
    ensures Handle(s.nextId, package) !in Load(w, depth, s, package).state.entries
  {
    hide Load, Attempts, Succeeded;
    LoadRecorded(w, depth, s, package);
    var tries, mod := Attempts(w, depth, s, package), Handle(s.nextId, package);
    assert tries[|tries| - 1] == Attempt(mod, false);
    if mod in Load(w, depth, s, package).state.entries {
      assert mod in Succeeded(tries);
      SucceededAre(tries, mod);
    }
  }

  /** Every entry that a load adds is a module whose own load ended well. */
  lemma AddedEndedWell(w: World, depth: nat, s: State, package: Package, e: Handle)
    requires Load(w, depth, s, package).Ended?
    requires e in Load(w, depth, s, package).state.entries && e !in s.entries
    ensures Attempt(e, true) in Attempts(w, depth, s, package) && s.nextId <= e.id < Load(w, depth, s, package).state.nextId
  {
    hide Load, Attempts, Succeeded;
    LoadRecorded(w, depth, s, package);
    var tries := Attempts(w, depth, s, package);
    assert e in Succeeded(tries);
    SucceededAre(tries, e);
  }
}
