// Deferred linking: link_incremental and relink_all against loading with the later resolver at once.

module Linking {
  import opened Words
  import opened Image
  import opened Placement
  import opened Relocation

  /** resolve' knows everything resolve knows. */
  ghost predicate Extends(resolve: Resolver, resolve': Resolver) {
    forall name :: resolve(name) > DEFERRED ==> resolve'(name) == resolve(name)
  }

  predicate IsKind(img: Image, i: nat, kind: int)
    requires i < |img.rels|
  {
    && !InPlace(img.rels[i])
    && ImageSym(img, img.rels[i].value).Some?
    && ImageSym(img, img.rels[i].value).value.kind == kind
  }

  function NameOf(img: Image, i: nat): Name
    requires i < |img.rels|
  {
    match ImageSym(img, img.rels[i].value)
    case None => []
    case Some(sym) => sym.name
  }

  lemma LinkWalkSucceeds(img: Image, p: Placement, resolve: Resolver, incremental: bool, m: seq<Word>)
    requires Separate(img, p, |m|)
    ensures Walk(img, Linking(p, resolve, incremental), m, 0).0 == Ok
  {
    hide Walk, LinkWord;
    WalkSucceeds(img, Linking(p, resolve, incremental), m, 0);
  }

  /** Two memories that agree on every target and everywhere else are the same memory. */
  lemma SameMemory(img: Image, p: Placement, m: seq<Word>, m': seq<Word>)
    requires |m| == |m'|
    requires forall j :: 0 <= j < |img.rels| && TargetAddr(img, p, j).Some? ==>
      Get(m, TargetAddr(img, p, j).value) == Get(m', TargetAddr(img, p, j).value)
    requires forall a :: 0 <= a < |m| && (forall j :: 0 <= j < |img.rels| ==> !Hits(img, p, j, 4 * a)) ==>
      Get(m, 4 * a) == Get(m', 4 * a)
    ensures m == m'
  {
    hide TargetAddr;
    forall a | 0 <= a < |m|
      ensures m[a] == m'[a]
    {
      assert m[a] == Get(m, 4 * a) && m'[a] == Get(m', 4 * a);
      if j :| 0 <= j < |img.rels| && Hits(img, p, j, 4 * a) {
        assert Get(m, TargetAddr(img, p, j).value) == Get(m', TargetAddr(img, p, j).value);
      }
    }
  }

  /** A weak symbol already has the word the later resolver would give it. */
  predicate WeakSettled(img: Image, p: Placement, resolve: Resolver, resolve': Resolver, i: nat)
    requires i < |img.rels|
  {
    IsKind(img, i, WEAK) ==>
      || resolve(NameOf(img, i)) > DEFERRED || resolve'(NameOf(img, i)) <= DEFERRED
      || Some(resolve'(NameOf(img, i))) == Default(img, p, ImageSym(img, img.rels[i].value).value)
  }

  /** One word: linking what a deferring load wrote gives what the extended load writes - for every
      entry but a weak one that the later resolver would override. */
  lemma LinkedWord(img: Image, p: Placement, resolve: Resolver, resolve': Resolver, i: nat, w: Word)
    requires Extends(resolve, resolve') && i < |img.rels|
    requires !LoadWord(img, p, resolve, img.rels[i], w).Fail? && !LoadWord(img, p, resolve', img.rels[i], w).Fail?
    ensures LinkWord(img, resolve', true, img.rels[i], Apply(LoadWord(img, p, resolve, img.rels[i], w), w))
         == Apply(LoadWord(img, p, resolve', img.rels[i], w), w)
      <==> WeakSettled(img, p, resolve, resolve', i)
  {
    hide Default, InPlaceWord, ImageSym;
  }

  lemma LinkedTarget(img: Image, p: Placement, resolve: Resolver, resolve': Resolver, m: seq<Word>, i: nat)
    requires Separate(img, p, |m|) && Extends(resolve, resolve') && i < |img.rels|
    requires Walk(img, Loading(p, resolve), m, 0).0 == Ok && Walk(img, Loading(p, resolve'), m, 0).0 == Ok
    ensures TargetAddr(img, p, i).Some?
    ensures var addr := TargetAddr(img, p, i).value;
      var deferred := Walk(img, Loading(p, resolve), m, 0).1;
      Get(Walk(img, Linking(p, resolve', true), deferred, 0).1, addr) == Get(Walk(img, Loading(p, resolve'), m, 0).1, addr)
      <==> WeakSettled(img, p, resolve, resolve', i)
  {
    var deferred := Walk(img, Loading(p, resolve), m, 0).1;
    hide Walk, Get, TargetAddr, LoadWord, LinkWord, WeakSettled, Separate, Extends;
    LinkWalkSucceeds(img, p, resolve', true, deferred);
    WalkAt(img, Loading(p, resolve), m, 0, i);
    WalkAt(img, Linking(p, resolve', true), deferred, 0, i);
    WalkAt(img, Loading(p, resolve'), m, 0, i);
    LinkedWord(img, p, resolve, resolve', i, Get(m, TargetAddr(img, p, i).value));
  }

  /** Deferred linking is confluent, exactly as far as weak symbols are settled: load with a resolver
      that defers, then link_incremental with one that extends it, leaves the same memory as loading
      with the extended resolver at once iff no weak symbol deferred at load would be overridden by it. */
  lemma DeferredLinkingConfluent(img: Image, p: Placement, resolve: Resolver, resolve': Resolver, m: seq<Word>)
    requires Separate(img, p, |m|) && Extends(resolve, resolve')
    requires Walk(img, Loading(p, resolve), m, 0).0 == Ok && Walk(img, Loading(p, resolve'), m, 0).0 == Ok
    ensures var deferred := Walk(img, Loading(p, resolve), m, 0).1;
      Walk(img, Linking(p, resolve', true), deferred, 0).1 == Walk(img, Loading(p, resolve'), m, 0).1
      <==> forall i :: 0 <= i < |img.rels| ==> WeakSettled(img, p, resolve, resolve', i)
  {
    hide Walk, Get, TargetAddr, LoadWord, LinkWord, WeakSettled, Separate, Extends, Hits;
    var deferred := Walk(img, Loading(p, resolve), m, 0).1;
    var linked := Walk(img, Linking(p, resolve', true), deferred, 0).1;
    var full := Walk(img, Loading(p, resolve'), m, 0).1;
    forall i | 0 <= i < |img.rels|
      ensures TargetAddr(img, p, i).Some?
      ensures Get(linked, TargetAddr(img, p, i).value) == Get(full, TargetAddr(img, p, i).value)
        <==> WeakSettled(img, p, resolve, resolve', i)
    {
      LinkedTarget(img, p, resolve, resolve', m, i);
    }
    if forall i :: 0 <= i < |img.rels| ==> WeakSettled(img, p, resolve, resolve', i) {
      forall a | 0 <= a < |m| && forall j :: 0 <= j < |img.rels| ==> !Hits(img, p, j, 4 * a)
        ensures Get(linked, 4 * a) == Get(full, 4 * a)
      {
        WalkFrame(img, Loading(p, resolve), m, 0, 4 * a);
        WalkFrame(img, Linking(p, resolve', true), deferred, 0, 4 * a);
        WalkFrame(img, Loading(p, resolve'), m, 0, 4 * a);
      }
      SameMemory(img, p, linked, full);
    }
  }

  /** link_incremental never changes a word that is not zero. */
  lemma {:induction false} IncrementalKeepsBound(img: Image, p: Placement, resolve: Resolver, m: seq<Word>, i: nat, addr: int)
    requires i <= |img.rels| && Get(m, addr) != 0
    ensures Get(Walk(img, Linking(p, resolve, true), m, i).1, addr) == Get(m, addr)
    decreases |img.rels| - i
  {
    hide TargetAddr, ImageSym;
    if i == |img.rels| || Stop(img, Linking(p, resolve, true), m, i) != Ok {
    } else {
      IncrementalKeepsBound(img, p, resolve, Patched(img, Linking(p, resolve, true), m, i), i + 1, addr);
    }
  }

  lemma LinkWordTwice(img: Image, resolve: Resolver, incremental: bool, rel: Rel, w: Word)
    ensures LinkWord(img, resolve, incremental, rel, LinkWord(img, resolve, incremental, rel, w))
         == LinkWord(img, resolve, incremental, rel, w)
  {
    hide ImageSym;
  }

  /** Linking twice with the same resolver is linking once. */
  lemma LinkIdempotent(img: Image, p: Placement, resolve: Resolver, incremental: bool, m: seq<Word>)
    requires Separate(img, p, |m|)
    ensures var once := Walk(img, Linking(p, resolve, incremental), m, 0).1;
      Walk(img, Linking(p, resolve, incremental), once, 0).1 == once
  {
    var pass := Linking(p, resolve, incremental);
    var once := Walk(img, pass, m, 0).1;
    var twice := Walk(img, pass, once, 0).1;
    LinkWalkSucceeds(img, p, resolve, incremental, m);
    LinkWalkSucceeds(img, p, resolve, incremental, once);
    hide Walk, Get, TargetAddr, LinkWord, Separate;
    forall i | 0 <= i < |img.rels| && TargetAddr(img, p, i).Some?
      ensures Get(once, TargetAddr(img, p, i).value) == Get(twice, TargetAddr(img, p, i).value)
    {
      WalkAt(img, pass, m, 0, i);
      WalkAt(img, pass, once, 0, i);
      LinkWordTwice(img, resolve, incremental, img.rels[i], Get(m, TargetAddr(img, p, i).value));
    }
    forall a | 0 <= a < |m| && forall j :: 0 <= j < |img.rels| ==> !Hits(img, p, j, 4 * a)
      ensures Get(once, 4 * a) == Get(twice, 4 * a)
    {
      hide Hits;
      WalkFrame(img, pass, once, 0, 4 * a);
    }
    SameMemory(img, p, once, twice);
  }

  /** After relink_all an extern slot holds what the last resolver says, whatever it held before;
      no other word changes. */
  lemma RelinkForgets(img: Image, p: Placement, resolve: Resolver, m: seq<Word>, i: nat)
    requires Separate(img, p, |m|) && i < |img.rels| && TargetAddr(img, p, i).Some?
    ensures var addr := TargetAddr(img, p, i).value;
      Get(Walk(img, Linking(p, resolve, false), m, 0).1, addr)
        == if !IsKind(img, i, EXTERN) then Get(m, addr)
           else if resolve(NameOf(img, i)) == DEFERRED then 0 else resolve(NameOf(img, i))
  {
    LinkWalkSucceeds(img, p, resolve, false, m);
    hide Walk, Get, TargetAddr, Separate, ImageSym;
    WalkAt(img, Linking(p, resolve, false), m, 0, i);
  }

  // ----- any run of links -----

  /** One call of link_incremental or relink_all. */
  datatype Link = Link(resolve: Resolver, incremental: bool)

  /** Memory after the calls, first to last. */
  function Linked(img: Image, p: Placement, m: seq<Word>, links: seq<Link>): seq<Word>
    decreases |links|
  {
    if links == [] then m
    else
      var last := links[|links| - 1];
      Walk(img, Linking(p, last.resolve, last.incremental), Linked(img, p, m, links[..|links| - 1]), 0).1
  }

  /** The calls, the load among them, that still count: from the last one that started from scratch. */
  function Restart(links: seq<Link>): (s: nat)
    ensures s <= |links| && (|links| > 0 ==> s < |links|)
    decreases |links|
  {
    if links == [] then 0
    else if links[|links| - 1].incremental then Restart(links[..|links| - 1])
    else |links| - 1
  }

  /** w is the address that the first resolver from call s on gave the name, if one gave it any. */
  predicate FirstGiven(links: seq<Link>, s: nat, name: Name, w: Word) {
    if w == 0 then forall j :: s <= j < |links| ==> links[j].resolve(name) <= DEFERRED
    else exists j :: s <= j < |links| && links[j].resolve(name) == w > DEFERRED
           && forall i :: s <= i < j ==> links[i].resolve(name) <= DEFERRED
  }

  /** One call more: a bound word stays if the call is incremental, anything else is asked for again. */
  lemma OneLinkMore(links: seq<Link>, link: Link, name: Name, w: Word, w': Word)
    requires links != [] && FirstGiven(links, Restart(links), name, w)
    requires w' == if link.incremental && w != 0 then w else if link.resolve(name) > DEFERRED then link.resolve(name) else 0
    ensures FirstGiven(links + [link], Restart(links + [link]), name, w')
  {
    var all := links + [link];
    assert all[..|all| - 1] == links && all[|links|] == link;
    assert forall j :: 0 <= j < |links| ==> all[j] == links[j];
    if link.incremental && w != 0 {
      var j :| Restart(links) <= j < |links| && links[j].resolve(name) == w > DEFERRED
        && forall i :: Restart(links) <= i < j ==> links[i].resolve(name) <= DEFERRED;
      assert all[j].resolve(name) == w;
    } else if w' != 0 {
      assert all[|links|].resolve(name) == w';
    }
  }

  /** After a load and any run of link_incremental and relink_all, an extern's word is the first address given
      for its name since the last call that started from scratch, or 0 if none was. It never is the marker for
      a deferred one. */
  lemma {:induction false} LinkHistory(img: Image, p: Placement, resolve: Resolver, m: seq<Word>, links: seq<Link>, i: nat)
    requires Separate(img, p, |m|) && Walk(img, Loading(p, resolve), m, 0).0 == Ok && i < |img.rels| && IsKind(img, i, EXTERN)
    ensures TargetAddr(img, p, i).Some?
    ensures var w := Get(Linked(img, p, Walk(img, Loading(p, resolve), m, 0).1, links), TargetAddr(img, p, i).value);
      var calls := [Link(resolve, false)] + links;
      FirstGiven(calls, Restart(calls), NameOf(img, i), w) && w != DEFERRED
    decreases |links|
  {
    hide Walk, Get, TargetAddr, Separate, ImageSym, FirstGiven, Default;
    var loaded := Walk(img, Loading(p, resolve), m, 0).1;
    var calls := [Link(resolve, false)] + links;
    var name := NameOf(img, i);
    WalkAt(img, Loading(p, resolve), m, 0, i);
    var addr := TargetAddr(img, p, i).value;
    if links == [] {
      assert calls == [Link(resolve, false)];
      LoadGives(resolve, name, Get(loaded, addr));
    } else {
      var last, before := links[|links| - 1], links[..|links| - 1];
      LinkHistory(img, p, resolve, m, before, i);
      var was := Linked(img, p, loaded, before);
      assert |was| == |m| by { LinkedLength(img, p, loaded, before); }
      LinkWalkSucceeds(img, p, last.resolve, last.incremental, was);
      WalkAt(img, Linking(p, last.resolve, last.incremental), was, 0, i);
      assert calls == [Link(resolve, false)] + before + [last];
      OneLinkMore([Link(resolve, false)] + before, last, name, Get(was, addr), Get(Linked(img, p, loaded, links), addr));
    }
  }

  lemma LoadGives(resolve: Resolver, name: Name, w: Word)
    requires w == if resolve(name) > DEFERRED then resolve(name) else 0
    ensures FirstGiven([Link(resolve, false)], Restart([Link(resolve, false)]), name, w)
  {
    var calls := [Link(resolve, false)];
    assert calls[0].resolve(name) == resolve(name);
  }

  lemma {:induction false} LinkedLength(img: Image, p: Placement, m: seq<Word>, links: seq<Link>)
    ensures |Linked(img, p, m, links)| == |m|
    decreases |links|
  {
    hide Walk;
    if links == [] {
    } else {
      LinkedLength(img, p, m, links[..|links| - 1]);
    }
  }
}
