// Two libraries of nine images that the eight-entry loading stack cannot cope with: on one the recursion
// never returns, on the other a module is registered twice.

module Runaway {
  import opened Words
  import opened Relocation
  import opened Deps
  import opened DepChains
  import opened Forks

  /** Name i of a run that goes down `path` and then round `cycle`. */
  function Turn(path: seq<Name>, cycle: seq<Name>, i: nat): Name
    requires cycle != []
  {
    if i < |path| then path[i] else cycle[(i - |path|) % |cycle|]
  }

  /** Eight names that fill the stack in front of a cycle, every name requiring the next first. */
  predicate DeepCycle(lib: Library, registered: set<Name>, path: seq<Name>, cycle: seq<Name>) {
    && |path| == MAX_DEPTH && cycle != []
    && (forall i, j :: 0 <= i < j < |path| ==> path[i] != path[j])
    && (forall i, j :: 0 <= i < |path| && 0 <= j < |cycle| ==> path[i] != cycle[j])
    && (forall i :: 0 <= i < |path| ==> path[i] !in registered)
    && (forall j :: 0 <= j < |cycle| ==> cycle[j] !in registered)
    && (forall i :: 0 < i < |path| ==> NeedsFirst(lib, path[i - 1], path[i]))
    && NeedsFirst(lib, path[|path| - 1], cycle[0])
    && (forall j :: 0 < j < |cycle| ==> NeedsFirst(lib, cycle[j - 1], cycle[j]))
    && NeedsFirst(lib, cycle[|cycle| - 1], cycle[0])
  }

  lemma TurnFollows(lib: Library, registered: set<Name>, path: seq<Name>, cycle: seq<Name>, i: nat)
    requires DeepCycle(lib, registered, path, cycle) && i > 0
    ensures NeedsFirst(lib, Turn(path, cycle, i - 1), Turn(path, cycle, i))
  {
    if i > |path| {
      RoundStep(i - 1 - |path|, |cycle|);
    }
  }

  lemma RoundStep(k: nat, m: nat)
    requires m > 0
    ensures (k + 1) % m == if k % m == m - 1 then 0 else k % m + 1
  {
    var q, r := k / m, k % m;
    DivisionEquation(k, m);
    if r == m - 1 {
      assert (q + 1) * m == q * m + m;
      DivideUnique(k + 1, m, q + 1, 0);
    } else {
      DivideUnique(k + 1, m, q, r + 1);
    }
  }

  /** The stack of a run that has come to name i. */
  function TurnStack(path: seq<Name>, i: nat): seq<Name> {
    if i < |path| then path[..i] else path
  }

  /** On such a library the recursion never returns, whatever depth it is given: the names of the cycle are
      never on the full stack, so nothing is ever deferred. */
  lemma {:induction false} DeepCycleRunsAway(w: World, path: seq<Name>, cycle: seq<Name>, i: nat, depth: nat, s: State)
    requires DeepCycle(w.lib, NamesOf(s.entries), path, cycle) && Named(w.lib) && w.host == WILLING
    requires s.loading == TurnStack(path, i)
    ensures Turn(path, cycle, i) in w.lib && Load(w, depth, s, w.lib[Turn(path, cycle, i)]) == TooDeep
    decreases depth
  {
    var registered, n, next := NamesOf(s.entries), Turn(path, cycle, i), Turn(path, cycle, i + 1);
    TurnFollows(w.lib, registered, path, cycle, i + 1);
    TurnApart(w.lib, registered, path, cycle, i);
    TurnApart(w.lib, registered, path, cycle, i + 1);
    assert n in w.lib && w.lib[n].name == Some(n) && w.lib[n].needs != [] && w.lib[n].needs[0] == next;
    hide DeepCycle, NamesOf;
    if depth == 0 {
    } else {
      var at := Entered(s, w.lib[n]);
      assert at.loading == TurnStack(path, i + 1) by {
        assert i < |path| ==> path[..i + 1] == path[..i] + [path[i]] && n == path[i];
        assert path[..|path|] == path;
      }
      hide Turn, TurnStack;
      DeepCycleRunsAway(w, path, cycle, i + 1, depth - 1, at);
      FirstTooDeep(w, depth, s, n);
    }
  }

  lemma FirstTooDeep(w: World, depth: nat, s: State, n: Name)
    requires Named(w.lib) && w.host == WILLING && n in w.lib && n !in s.loading && depth > 0 && w.lib[n].needs != []
    requires var at := Entered(s, w.lib[n]); var next := w.lib[n].needs[0];
      && next !in at.loading && next !in NamesOf(at.entries) && next in w.lib
      && Load(w, depth - 1, at, w.lib[next]) == TooDeep
    ensures Load(w, depth, s, w.lib[n]) == TooDeep
  {
    var at, next := Entered(s, w.lib[n]), w.lib[n].needs[0];
    assert Resolve(w, depth - 1, at, next) == TooDeep by { hide Load; }
    hide Resolve;
    assert Requirements(w, depth - 1, at, s.nextId, w.lib[n].needs) == TooDeep by { hide Load; }
    hide Requirements;
  }

  lemma TurnApart(lib: Library, registered: set<Name>, path: seq<Name>, cycle: seq<Name>, i: nat)
    requires DeepCycle(lib, registered, path, cycle)
    ensures Turn(path, cycle, i) !in registered && Turn(path, cycle, i) !in TurnStack(path, i)
  {}

  // ----- nine images -----

  /** The name of image k: one byte. */
  function OneByte(k: int): Name
    requires 0 <= k < 256
  {
    [k]
  }

  /** The stack after a run through the first k images. */
  function StackOf(k: nat): seq<Name>
    requires k < 256
  {
    if k == 0 then [] else StackOf(k - 1) + [OneByte(k)]
  }

  lemma {:induction false} InStack(k: nat, n: int)
    requires k < 256 && 0 <= n < 256
    ensures |StackOf(k)| == k && (OneByte(n) in StackOf(k) <==> 1 <= n <= k)
    decreases k
  {
    if k == 0 {
    } else {
      InStack(k - 1, n);
      assert OneByte(n) == OneByte(k) <==> n == k;
    }
  }

  /** Images 1 to 9; each requires what `needs` says. */
  function Nine(needs: int -> seq<Name>): Library {
    map n: Name | n in NineNames() :: Package(Some(n), needs(NumberOf(n)))
  }

  function NineNames(): set<Name> {
    set k | 1 <= k <= 9 :: OneByte(k)
  }

  function NumberOf(n: Name): int {
    if |n| == 1 then n[0] else 0
  }

  lemma NineImage(needs: int -> seq<Name>, k: int)
    requires 1 <= k <= 9
    ensures OneByte(k) in Nine(needs) && Nine(needs)[OneByte(k)] == Package(Some(OneByte(k)), needs(k))
  {
    assert OneByte(k) in NineNames();
  }

  /** A chain of eight and a ninth that requires itself. */
  function Ring(k: int): seq<Name> {
    if 1 <= k <= 8 then [OneByte(k + 1)] else if k == 9 then [OneByte(9)] else []
  }

  /** A chain of nine whose eighth requires itself after the ninth. */
  function Echo(k: int): seq<Name> {
    if 1 <= k <= 7 then [OneByte(k + 1)] else if k == 8 then [OneByte(9), OneByte(8)] else []
  }

  lemma NineNamed(needs: int -> seq<Name>)
    ensures Named(Nine(needs))
  {}

  lemma {:induction false} StackAt(k: nat, i: int)
    requires k < 256 && 0 <= i < k
    ensures |StackOf(k)| == k && StackOf(k)[i] == OneByte(i + 1)
    decreases k
  {
    InStack(k - 1, 0);
    if i == k - 1 {
    } else {
      StackAt(k - 1, i);
    }
  }

  lemma RingNeeds(k: int)
    requires 1 <= k <= 9
    ensures NeedsFirst(Nine(Ring), OneByte(k), OneByte(if k == 9 then 9 else k + 1))
  {
    NineImage(Ring, k);
  }

  lemma RingIsDeepCycle()
    ensures DeepCycle(Nine(Ring), {}, StackOf(8), [OneByte(9)])
  {
    var path := StackOf(8);
    InStack(8, 0);
    hide StackOf, Nine, NeedsFirst;
    forall i | 0 <= i < 8
      ensures path[i] == OneByte(i + 1)
    {
      StackAt(8, i);
    }
    forall i | 0 < i < 8
      ensures NeedsFirst(Nine(Ring), path[i - 1], path[i])
    {
      RingNeeds(i);
    }
    RingNeeds(8);
    RingNeeds(9);
    assert forall i :: 0 <= i < 8 ==> path[i][0] == i + 1;
  }

  /** The first never returns. */
  lemma NineImagesRunAway(capacity: nat, depth: nat)
    ensures var w := World(Nine(Ring), WILLING, capacity);
      OneByte(1) in w.lib && Load(w, depth, EMPTY, w.lib[OneByte(1)]) == TooDeep
  {
    NineNamed(Ring);
    RingIsDeepCycle();
    StackAt(8, 0);
    hide DeepCycle, Nine, Named, NeedsFirst, StackOf, Load;
    DeepCycleRunsAway(World(Nine(Ring), WILLING, capacity), StackOf(8), [OneByte(9)], 0, depth, EMPTY);
  }

  // ----- the lost pop -----

  /** Requirements that are there or being loaded change nothing. */
  lemma {:induction false} AllThere(w: World, depth: nat, s: State, id: nat, needs: seq<Name>)
    requires w.host == WILLING && forall n :: n in needs ==> n in s.loading || n in NamesOf(s.entries)
    ensures Requirements(w, depth, s, id, needs) == Ended(true, s)
    decreases |needs|
  {
    if needs == [] {
    } else {
      hide Load;
      AllThere(w, depth, s, id, needs[1..]);
    }
  }

  /** A load that finds everything there only registers its module and goes through the stack. */
  lemma LoadsAlone(w: World, depth: nat, s: State, n: Name)
    requires w.host == WILLING && n in w.lib && w.lib[n].name == Some(n) && n !in s.loading && depth > 0 && |s.entries| < w.capacity
    requires forall m :: m in w.lib[n].needs ==> m in Pushed(s.loading, n) || m in NamesOf(s.entries)
    ensures Load(w, depth, s, w.lib[n])
      == Ended(true, State(s.entries + [Handle(s.nextId, w.lib[n])], Popped(Pushed(s.loading, n)), s.nextId + 1))
  {
    hide NamesOf, Requirements;
    AllThere(w, depth - 1, Entered(s, w.lib[n]), s.nextId, w.lib[n].needs);
  }

  /** Loading image 8 with the first seven on the stack: the ninth finds the stack full, its pop takes 8 off
      it, and 8 is loaded again inside its own load. */
  lemma EighthTwice(w: World, depth: nat, s: State)
    requires w.lib == Nine(Echo) && w.host == WILLING && w.capacity > 9 && depth >= 3
    requires s.entries == [] && s.loading == StackOf(7)
    ensures OneByte(8) in w.lib
    ensures var out := Load(w, depth, s, w.lib[OneByte(8)]);
      out.Ended? && out.ok && !NoneTwice(out.state.entries) && |out.state.entries| == 3
  {
    NineImage(Echo, 8);
    NineImage(Echo, 9);
    InStack(7, 8);
    InStack(7, 9);
    InStack(8, 8);
    InStack(8, 9);
    assert StackOf(8) == StackOf(7) + [OneByte(8)] && Popped(StackOf(8)) == StackOf(7);
    var eight, nine := w.lib[OneByte(8)], w.lib[OneByte(9)];
    assert eight.needs == [OneByte(9), OneByte(8)] && nine.needs == [];
    hide Nine, Echo, StackOf, OneByte, Load, Requirements, Resolve, NoneTwice;
    var s1 := Entered(s, eight);
    LoadsAlone(w, depth - 1, s1, OneByte(9));
    var s2 := Load(w, depth - 1, s1, nine).state;
    assert s2.loading == StackOf(7) && s2.entries == [Handle(s1.nextId, nine)];
    NameThere(s2.entries, Handle(s1.nextId, nine));
    NotNamed(s2.entries, OneByte(8));
    LoadsAlone(w, depth - 1, s2, OneByte(8));
    var s3 := Load(w, depth - 1, s2, eight).state;
    NineThenEight(w, depth - 1, s1, s2, s3, s.nextId);
    var all := s3.entries + [Handle(s.nextId, eight)];
    TwiceIs(all, 1, 2);
    EighthEnds(w, depth, s, s3);
  }

  lemma NotNamed(entries: seq<Handle>, n: Name)
    requires |entries| == 1 && entries[0].package.name.Some? && entries[0].package.name.value != n
    ensures n !in NamesOf(entries)
  {}

  lemma TwiceIs(entries: seq<Handle>, i: nat, j: nat)
    requires i < j < |entries| && entries[i].package.name.Some? && entries[i].package.name == entries[j].package.name
    ensures !NoneTwice(entries)
  {}

  lemma NineThenEight(w: World, depth: nat, s1: State, s2: State, s3: State, id: nat)
    requires w.host == WILLING && OneByte(8) in w.lib && OneByte(9) in w.lib
    requires OneByte(9) !in s1.loading && s1.entries == [] && Load(w, depth, s1, w.lib[OneByte(9)]) == Ended(true, s2)
    requires OneByte(8) !in s2.loading && OneByte(8) !in NamesOf(s2.entries)
    requires Load(w, depth, s2, w.lib[OneByte(8)]) == Ended(true, s3)
    ensures Requirements(w, depth, s1, id, [OneByte(9), OneByte(8)]) == Ended(true, s3)
  {
    hide Load;
    var rest := [OneByte(8)];
    assert [OneByte(9), OneByte(8)][1..] == rest && rest[1..] == [];
    assert Resolve(w, depth, s2, OneByte(8)) == Ended(true, s3);
    assert Requirements(w, depth, s3, id, []) == Ended(true, s3);
    assert Requirements(w, depth, s2, id, rest) == Ended(true, s3);
    assert Resolve(w, depth, s1, OneByte(9)) == Ended(true, s2);
  }

  lemma EighthEnds(w: World, depth: nat, s: State, s3: State)
    requires OneByte(8) in w.lib && w.lib[OneByte(8)].name == Some(OneByte(8)) && OneByte(8) !in s.loading && depth > 0
    requires Requirements(w, depth - 1, Entered(s, w.lib[OneByte(8)]), s.nextId, w.lib[OneByte(8)].needs) == Ended(true, s3)
    requires |s3.entries| < w.capacity
    ensures var out := Load(w, depth, s, w.lib[OneByte(8)]);
      out.Ended? && out.ok && out.state.entries == s3.entries + [Handle(s.nextId, w.lib[OneByte(8)])]
  {
    hide Requirements;
  }

  /** The same, from the first image on. */
  lemma {:induction false} EchoTwice(w: World, depth: nat, s: State, k: nat)
    requires w.lib == Nine(Echo) && w.host == WILLING && w.capacity > 10 && 1 <= k <= 8 && depth >= 11 - k
    requires s.entries == [] && s.loading == StackOf(k - 1)
    ensures OneByte(k) in w.lib
    ensures var out := Load(w, depth, s, w.lib[OneByte(k)]);
      out.Ended? && out.ok && !NoneTwice(out.state.entries) && |out.state.entries| == 11 - k
    decreases 8 - k
  {
    if k == 8 {
      EighthTwice(w, depth, s);
    } else {
      NineImage(Echo, k);
      NineImage(Echo, k + 1);
      InStack(k - 1, k);
      InStack(k, k + 1);
      var image := w.lib[OneByte(k)];
      assert image.needs == [OneByte(k + 1)] && StackOf(k) == StackOf(k - 1) + [OneByte(k)];
      hide Nine, Echo, StackOf, OneByte;
      var at := Entered(s, image);
      EchoTwice(w, depth - 1, at, k + 1);
      hide NoneTwice;
      OnlyNeed(w, depth, s, OneByte(k), OneByte(k + 1));
    }
  }

  lemma OnlyNeed(w: World, depth: nat, s: State, n: Name, next: Name)
    requires w.host == WILLING && n in w.lib && next in w.lib && w.lib[n] == Package(Some(n), [next]) && n !in s.loading && depth > 0
    requires s.entries == [] && next !in Pushed(s.loading, n)
    requires var out := Load(w, depth - 1, Entered(s, w.lib[n]), w.lib[next]);
      out.Ended? && out.ok && !NoneTwice(out.state.entries) && |out.state.entries| < w.capacity
    ensures var out := Load(w, depth, s, w.lib[n]); var inner := Load(w, depth - 1, Entered(s, w.lib[n]), w.lib[next]);
      out.Ended? && out.ok && !NoneTwice(out.state.entries) && |out.state.entries| == |inner.state.entries| + 1
  {
    var at := Entered(s, w.lib[n]);
    var inner := Load(w, depth - 1, at, w.lib[next]).state;
    assert Requirements(w, depth - 1, at, s.nextId, [next]) == Ended(true, inner) by {
      hide Load;
      assert [next][1..] == [];
      assert Resolve(w, depth - 1, at, next) == Ended(true, inner);
      assert Requirements(w, depth - 1, inner, s.nextId, []) == Ended(true, inner);
    }
    hide Requirements;
    var mod := Handle(s.nextId, w.lib[n]);
    assert Load(w, depth, s, w.lib[n]).state.entries == inner.entries + [mod];
    NoneTwiceBefore(inner.entries, inner.entries + [mod]);
  }

  /** The second library ends, with image 8 registered twice. */
  lemma LostPopRegistersTwice(capacity: nat, depth: nat)
    requires capacity > 10 && depth >= 10
    ensures var w := World(Nine(Echo), WILLING, capacity);
      && OneByte(1) in w.lib
      && var out := Load(w, depth, EMPTY, w.lib[OneByte(1)]);
         out.Ended? && out.ok && !NoneTwice(out.state.entries) && |out.state.entries| == 10
  {
    hide Load, NoneTwice, Nine;
    EchoTwice(World(Nine(Echo), WILLING, capacity), depth, EMPTY, 1);
  }
}
