/**
  `ArenaPool` and `ArenaLease` over the memory they share: what one lease does leaves every root of every other lease
  decodable, and what comes back to the pool is as good as new.
  */
module Leases {
  import opened Common
  import opened WafObjects
  import opened Records
  import opened Truncation
  import opened Bump
  import opened OffHeap
  import opened Arena
  import opened Layout
  import opened Serializer
  import opened Serialization

  /** A finished serialization: the address of its root, its tree and the addresses it lies in. */
  datatype Root = Root(addr: nat, tree: WafObject, area: iset<int>)

  /** The lists of an arena. */
  function ListsOf(a: Arena): set<object> {
    {a.recs, a.strs}
  }

  /** Two arenas share no segment list. */
  predicate Apart(a: Arena, b: Arena) {
    ListsOf(a) !! ListsOf(b)
  }

  /** The part of an arena's validity that is about addresses and not about bytes. */
  ghost predicate Listed(a: Arena, owner: seq<Tag>)
    reads a, a.recs, a.strs
  {
    && a.recs != a.strs
    && ListOk(a.recs, a.recs.areas, a.recs.cur, owner) && ListOk(a.strs, a.strs.areas, a.strs.cur, owner)
    && RangesOk(a.recs.ranges, a.recs.areas, a.recs.unit) && RangesOk(a.strs.ranges, a.strs.areas, a.strs.unit)
    && a.recs.minSize == RECS && a.strs.minSize == STRS && a.recs.unit == SIZEOF_PWARGS && a.strs.unit == 1
    && -1 <= a.firstUsed < |a.recs.areas|
    && CachesOk(a.caches, a.recs.areas)
  }

  ghost function WorldIn(a: Arena, mem: seq<byte>, owner: seq<Tag>): World
    reads a.recs, a.strs
  {
    World(mem, owner, ListsOf(a),
          OpenOf(a.recs, a.recs.areas, a.recs.cur, owner) + OpenOf(a.strs, a.strs.areas, a.strs.cur, owner))
  }

  lemma ListedIsValid(a: Arena, heap: Heap)
    requires heap.Valid()
    ensures a.Valid(heap) <==> Listed(a, heap.owner)
    ensures WorldIn(a, heap.mem, heap.owner) == a.Here(heap)
  {
  }

  /** Nothing of the arena is handed out. */
  ghost predicate Clear(a: Arena)
    reads a, a.recs, a.strs
  {
    && a.firstUsed == -1 && a.recs.cur == 0 && a.strs.cur == 0 && a.recs.ranges == [] && a.strs.ranges == []
    && (forall i :: 0 <= i < |a.recs.areas| ==> a.recs.areas[i].used == 0)
    && (forall i :: 0 <= i < |a.strs.areas| ==> a.strs.areas[i].used == 0)
    && (forall i :: 0 <= i < |a.caches| ==> a.caches[i].nextUnused == 0)
  }

  /** The root is still there, in addresses of these lists that are not open any more. */
  ghost predicate RootOk(r: Root, w: World) {
    && (|w.mem| <= 0x1_0000_0000_0000_0000 ==> ObjectAt(w.mem, r.area, r.addr, r.tree))
    && forall x :: x in r.area ==> 0 <= x < |w.mem| && |w.mem| == |w.owner| && x !in w.open && w.owner[x].list in w.lists
  }

  class ArenaLease {
    const arena: Arena
    var closeCalled: bool
    ghost var roots: seq<Root>

    /** The first root, if the first run on the lease made one. */
    ghost var first: Option<nat>

    constructor (arena: Arena)
      ensures this.arena == arena && !closeCalled && roots == [] && first == None
    {
      this.arena := arena;
      closeCalled := false;
      roots, first := [], None;
    }
  }

  /** The buffer first used is the one of the first root. */
  ghost predicate FirstOk(l: ArenaLease)
    reads l, l.arena, l.arena.recs
  {
    l.first.Some? ==>
      && 0 <= l.arena.firstUsed < |l.arena.recs.areas|
      && l.arena.recs.areas[l.arena.firstUsed].base == l.first.value
  }

  /** An open lease: every root serialized on it is intact. */
  ghost predicate LeaseOk(l: ArenaLease, mem: seq<byte>, owner: seq<Tag>)
    reads l, l.arena, l.arena.recs, l.arena.strs
  {
    && !l.closeCalled && Listed(l.arena, owner) && FirstOk(l)
    && forall i :: 0 <= i < |l.roots| ==> RootOk(l.roots[i], WorldIn(l.arena, mem, owner))
  }

  // ---------------------------------------------------------------- a step of one arena, seen from elsewhere

  lemma ListedStays(a: Arena, owner: seq<Tag>, owner': seq<Tag>)
    requires Listed(a, owner) && owner <= owner'
    ensures Listed(a, owner')
  {
    forall i | 0 <= i < |a.recs.areas| ensures AreaOk(a.recs, i, a.recs.areas[i], owner') {
      assert AreaOk(a.recs, i, a.recs.areas[i], owner);
    }
    forall i | 0 <= i < |a.strs.areas| ensures AreaOk(a.strs, i, a.strs.areas[i], owner') {
      assert AreaOk(a.strs, i, a.strs.areas[i], owner);
    }
  }

  lemma RootApart(r: Root, b: World, w: World)
    requires RootOk(r, b) && b.mem == w.mem && b.owner == w.owner && WorldOk(w) && (b.lists !! w.lists || b == w)
    ensures forall x :: x in r.area ==> 0 <= x < |w.mem| && x !in w.open
  {
    hide ObjectAt;
    forall x | x in r.area ensures 0 <= x < |w.mem| && x !in w.open {
      assert b.owner[x].list in b.lists;
    }
  }

  /** A root stays through any step that writes only open addresses of other lists, or of its own. */
  lemma RootStays(r: Root, b: World, b': World, w: World, w': World)
    requires RootOk(r, b) && b.mem == w.mem && b.owner == w.owner && b'.mem == w'.mem && b'.owner == w'.owner
    requires Grows(w, w', iset{}) && WorldOk(w) && b'.lists == b.lists
    requires b.lists !! w.lists || b == w
    requires forall x :: x in b'.open && x !in b.open ==> |b.mem| <= x
    ensures RootOk(r, b')
  {
    hide ObjectAt, Agree;
    RootApart(r, b, w);
    AgreeOutside(w, w', iset{}, r.area);
    if |w'.mem| <= 0x1_0000_0000_0000_0000 {
      ObjectKept(w.mem, w'.mem, r.area, r.area, r.addr, r.tree);
    }
  }

  lemma OpenStays(me: object, areas: seq<Area>, cur: nat, owner: seq<Tag>, owner': seq<Tag>)
    requires owner <= owner'
    ensures forall x :: x in OpenOf(me, areas, cur, owner') && x !in OpenOf(me, areas, cur, owner) ==> |owner| <= x
  {
  }

  /** What one arena does leaves the leases on other arenas as they are. */
  lemma LeaseStays(l: ArenaLease, w: World, w': World)
    requires LeaseOk(l, w.mem, w.owner) && Grows(w, w', iset{}) && WorldOk(w) && ListsOf(l.arena) !! w.lists
    ensures LeaseOk(l, w'.mem, w'.owner)
  {
    var a := l.arena;
    ListedStays(a, w.owner, w'.owner);
    OpenStays(a.recs, a.recs.areas, a.recs.cur, w.owner, w'.owner);
    OpenStays(a.strs, a.strs.areas, a.strs.cur, w.owner, w'.owner);
    var b, b' := WorldIn(a, w.mem, w.owner), WorldIn(a, w'.mem, w'.owner);
    hide RootOk, Grows, Listed, OpenOf;
    forall i | 0 <= i < |l.roots| ensures RootOk(l.roots[i], b') {
      RootStays(l.roots[i], b, b', w, w');
    }
  }

  /** The root of a run that has just ended. */
  lemma RootMade(w: World, w': World, a: nat, tree: WafObject)
    requires WorldOk(w) && WorldOk(w') && Grows(w, w', iset{})
    requires |w'.mem| <= 0x1_0000_0000_0000_0000 ==> ObjectAt(w'.mem, Taken(w, w'), a, tree)
    ensures RootOk(Root(a, tree, Taken(w, w')), w')
  {
  }

  // ---------------------------------------------------------------- the pool

  /** The arenas of the pool and of the open leases share no list. */
  ghost predicate AllApart(arenas: seq<Arena>, open: set<ArenaLease>) {
    && (forall i, j :: 0 <= i < j < |arenas| ==> Apart(arenas[i], arenas[j]))
    && (forall l, k :: l in open && k in open && l != k ==> Apart(l.arena, k.arena))
    && (forall l, i :: l in open && 0 <= i < |arenas| ==> Apart(l.arena, arenas[i]))
  }

  lemma OthersStay(others: set<ArenaLease>, w: World, w': World)
    requires Grows(w, w', iset{}) && WorldOk(w)
    requires forall k :: k in others ==> LeaseOk(k, w.mem, w.owner) && ListsOf(k.arena) !! w.lists
    ensures forall k :: k in others ==> LeaseOk(k, w'.mem, w'.owner)
  {
    hide *;
    forall k | k in others ensures LeaseOk(k, w'.mem, w'.owner) {
      LeaseStays(k, w, w');
    }
  }

  lemma PooledStay(arenas: seq<Arena>, owner: seq<Tag>, owner': seq<Tag>)
    requires owner <= owner' && forall i :: 0 <= i < |arenas| ==> Listed(arenas[i], owner)
    ensures forall i :: 0 <= i < |arenas| ==> Listed(arenas[i], owner')
  {
    hide *;
    forall i | 0 <= i < |arenas| ensures Listed(arenas[i], owner') {
      ListedStays(arenas[i], owner, owner');
    }
  }

  lemma LeaseArena(l: ArenaLease, heap: Heap)
    requires heap.Valid() && LeaseOk(l, heap.mem, heap.owner)
    ensures l.arena.Valid(heap)
    ensures WorldIn(l.arena, heap.mem, heap.owner) == MarkOf(l.arena, heap).world
    ensures WorldOk(WorldIn(l.arena, heap.mem, heap.owner))
  {
    ListedIsValid(l.arena, heap);
    MarkIs(l.arena, heap);
  }

  lemma WorldInIs(a: Arena, mem: seq<byte>, owner: seq<Tag>)
    ensures var w := WorldIn(a, mem, owner); w.mem == mem && w.owner == owner && w.lists == ListsOf(a)
  {
  }

  lemma LeaseAgain(l: ArenaLease, heap: Heap)
    requires heap.Valid() && l.arena.Valid(heap) && !l.closeCalled
    requires FirstOk(l) && forall i :: 0 <= i < |l.roots| ==> RootOk(l.roots[i], MarkOf(l.arena, heap).world)
    ensures LeaseOk(l, heap.mem, heap.owner) && WorldIn(l.arena, heap.mem, heap.owner) == MarkOf(l.arena, heap).world
  {
    ListedIsValid(l.arena, heap);
  }

  lemma LeaseRoots(l: ArenaLease, heap: Heap)
    requires heap.Valid() && LeaseOk(l, heap.mem, heap.owner)
    ensures !l.closeCalled && FirstOk(l)
    ensures forall i :: 0 <= i < |l.roots| ==> RootOk(l.roots[i], WorldIn(l.arena, heap.mem, heap.owner))
  {
  }

  lemma NewRoot(m: Mark, m': Mark, a: nat, r: Outcome)
    requires MarkOk(m) && MarkOk(m') && Kept(m, m', iset{}) && Rooted(m, m', a, r)
    ensures RootOk(Root(a, r.tree, Taken(m.world, m'.world)), m'.world)
  {
    RootMade(m.world, m'.world, a, r.tree);
  }

  lemma KeptGrows(m: Mark, m': Mark, e: iset<int>)
    requires Kept(m, m', e)
    ensures Grows(m.world, m'.world, e)
  {
  }

  /** What is known of the first root of a lease, as a statement about the state of its arena. */
  ghost predicate FirstAt(m: Mark, first: Option<nat>) {
    first.Some? ==> 0 <= m.first < |m.areas| && m.areas[m.first].base == first.value
  }

  lemma FirstIs(l: ArenaLease, heap: Heap)
    ensures FirstOk(l) <==> FirstAt(MarkOf(l.arena, heap), l.first)
  {
  }

  lemma FirstStays(m: Mark, m': Mark, first: Option<nat>)
    requires Kept(m, m', iset{}) && FirstAt(m, first)
    ensures FirstAt(m', first)
  {
    hide Keeps, Grows;
  }

  lemma FirstIsRoot(m: Mark, m': Mark, a: nat, r: Outcome)
    requires Rooted(m, m', a, r) && m.first == -1 && m.recs.used == 0
    ensures FirstAt(m', Some(a))
  {
    FirstRoot(m, m', a);
  }

  lemma ClearIs(a: Arena, heap: Heap)
    requires a.Valid(heap) && Clear(a)
    ensures MarkOf(a, heap).first == -1 && IsReset(MarkOf(a, heap))
  {
  }

  lemma ResetIs(m: Mark)
    requires IsReset(m)
    ensures m.recs.used == 0
  {
  }

  /** Both lists of the arena are as `reset` leaves them. */
  predicate IsReset(m: Mark) {
    m.recs.cur == 0 && m.recs.used == 0 && m.strs.cur == 0 && m.strs.used == 0
  }

  /** `serializeMore` on one lease alone. */
  method SerializeOn(heap: Heap, l: ArenaLease, lim: Limits, root: Ref, g: Graph, metrics: WafMetrics?)
    returns (r: Option<nat>)
    requires heap.Valid() && LeaseOk(l, heap.mem, heap.owner)
    modifies heap, l.arena, l.arena.recs, l.arena.strs, l`roots, l`first, if metrics == null then {} else {metrics}
    ensures heap.Valid() && LeaseOk(l, heap.mem, heap.owner)
    ensures Grows(old(WorldIn(l.arena, heap.mem, heap.owner)), WorldIn(l.arena, heap.mem, heap.owner), iset{})
    ensures Kept(old(MarkOf(l.arena, heap)), MarkOf(l.arena, heap), iset{})
    ensures r.Some? ==> Rooted(old(MarkOf(l.arena, heap)), MarkOf(l.arena, heap), r.value, Truncate(g, lim, root))
    ensures l.first == if r.Some? && old(Clear(l.arena)) then r else old(l.first)
    ensures var o := Truncate(g, lim, root);
      && (r.Some? <==> o.Done?)
      && (r.Some? ==>
            && |l.roots| == |old(l.roots)| + 1 && l.roots[..|old(l.roots)|] == old(l.roots)
            && l.roots[|old(l.roots)|].addr == r.value && l.roots[|old(l.roots)|].tree == o.tree
            && (metrics != null ==> metrics.Counted() == old(metrics.Counted()).Plus(o.counts)))
      && (r.None? ==> l.roots == old(l.roots))
  {
    hide *;
    LeaseArena(l, heap);
    LeaseRoots(l, heap);
    ghost var m, clear, first := MarkOf(l.arena, heap), Clear(l.arena), l.first;
    MarkIs(l.arena, heap);
    FirstIs(l, heap);
    if clear {
      ClearIs(l.arena, heap);
      ResetIs(m);
    }
    r := Serialization.SerializeMore(heap, l.arena, lim, root, g, metrics);
    ghost var m' := MarkOf(l.arena, heap);
    MarkIs(l.arena, heap);
    KeptGrows(m, m', iset{});
    OwnRootsStay(l.roots, m.world, m'.world);
    FirstStays(m, m', first);
    ghost var o := Truncate(g, lim, root);
    if r.Some? {
      NewRoot(m, m', r.value, o);
      l.roots := l.roots + [Root(r.value, o.tree, Taken(m.world, m'.world))];
      if clear {
        FirstIsRoot(m, m', r.value, o);
        l.first := r;
      }
    }
    FirstIs(l, heap);
    ArenaHeap(l.arena, heap);
    LeaseAgain(l, heap);
  }

  lemma ArenaHeap(a: Arena, heap: Heap)
    requires a.Valid(heap)
    ensures heap.Valid()
  {
  }

  /** A run on a lease: its earlier roots stay. */
  lemma OwnRootsStay(roots: seq<Root>, w: World, w': World)
    requires Grows(w, w', iset{}) && WorldOk(w) && forall i :: 0 <= i < |roots| ==> RootOk(roots[i], w)
    ensures forall i :: 0 <= i < |roots| ==> RootOk(roots[i], w')
  {
    assert forall x :: x in w'.open && x !in w.open ==> |w.mem| <= x;
    assert w'.lists == w.lists;
    hide RootOk, Grows;
    forall i | 0 <= i < |roots| ensures RootOk(roots[i], w') {
      RootStays(roots[i], w, w', w, w');
    }
  }

  /** What a step of one arena leaves as it is. */
  lemma Elsewhere(arenas: seq<Arena>, others: set<ArenaLease>, w: World, w': World)
    requires Grows(w, w', iset{}) && WorldOk(w)
    requires forall k :: k in others ==> LeaseOk(k, w.mem, w.owner) && ListsOf(k.arena) !! w.lists
    requires forall i :: 0 <= i < |arenas| ==> Listed(arenas[i], w.owner)
    ensures forall k :: k in others ==> LeaseOk(k, w'.mem, w'.owner)
    ensures forall i :: 0 <= i < |arenas| ==> Listed(arenas[i], w'.owner)
  {
    assert w.owner <= w'.owner;
    hide *;
    OthersStay(others, w, w');
    PooledStay(arenas, w.owner, w'.owner);
  }

  /** What a new lease would use: the arena it would take from the pool. */
  ghost function FirstOf(arenas: seq<Arena>): set<object> {
    if arenas == [] then {} else {arenas[0], arenas[0].recs, arenas[0].strs}
  }

  lemma ListsAre(a: Arena)
    ensures ListsOf(a) == {a.recs, a.strs}
  {
  }

  lemma FirstWas(arenas: seq<Arena>)
    ensures arenas == [] ==> FirstOf(arenas) == {}
    ensures arenas != [] ==> FirstOf(arenas) == {arenas[0], arenas[0].recs, arenas[0].strs} && [arenas[0]] + arenas[1..] == arenas
  {
  }

  /**
    All record arrays and strings handed out on a lease lie inside their segments and are pairwise disjoint, and the
    record arrays start a whole number of records into theirs.
    */
  lemma RangesOfLease(l: ArenaLease, mem: seq<byte>, owner: seq<Tag>, i: nat, j: nat)
    requires LeaseOk(l, mem, owner)
    ensures var rs := l.arena.recs.ranges; i < |rs| ==> RangeOk(rs[i], l.arena.recs.areas, SIZEOF_PWARGS)
    ensures var ts := l.arena.strs.ranges; i < |ts| ==> RangeOk(ts[i], l.arena.strs.areas, 1)
    ensures var rs := l.arena.recs.ranges; i < j < |rs| ==> NoOverlap(rs[i], rs[j])
    ensures var ts := l.arena.strs.ranges; i < j < |ts| ==> NoOverlap(ts[i], ts[j])
    ensures var rs, ts := l.arena.recs.ranges, l.arena.strs.ranges; i < |rs| && j < |ts| ==> NoOverlap(rs[i], ts[j])
  {
    hide NoOverlap, Multiple, RootOk, CachesOk;
    if i < |l.arena.recs.ranges| && j < |l.arena.strs.ranges| {
      ListsApart(l.arena, owner, l.arena.recs.ranges[i], l.arena.strs.ranges[j]);
    }
  }

  /** A range of records and one of strings lie in segments of different lists. */
  lemma ListsApart(a: Arena, owner: seq<Tag>, r: Range, s: Range)
    requires Listed(a, owner) && RangeOk(r, a.recs.areas, SIZEOF_PWARGS) && RangeOk(s, a.strs.areas, 1)
    ensures NoOverlap(r, s)
  {
    assert AreaOk(a.recs, r.segment, a.recs.areas[r.segment], owner);
    assert AreaOk(a.strs, s.segment, a.strs.areas[s.segment], owner);
    hide Multiple, RangesOk, CachesOk;
    forall x: int | r.Has(x) ensures !s.Has(x) {
      assert owner[x].list == a.recs;
    }
  }

  class ArenaPool {
    var arenas: seq<Arena>
    ghost var open: set<ArenaLease>

    /** Every arena of the pool is clear, and every open lease has its roots. */
    ghost predicate Valid(heap: Heap)
      reads *
    {
      && heap.Valid() && AllApart(arenas, open)
      && (forall i :: 0 <= i < |arenas| ==> Listed(arenas[i], heap.owner) && Clear(arenas[i]))
      && (forall l :: l in open ==> LeaseOk(l, heap.mem, heap.owner))
    }

    constructor (heap: Heap)
      requires heap.Valid()
      ensures Valid(heap) && arenas == [] && open == {}
    {
      arenas, open := [], {};
    }

    /** `serializeMore` on an open lease. */
    method SerializeMore(heap: Heap, l: ArenaLease, lim: Limits, root: Ref, g: Graph, metrics: WafMetrics?)
      returns (r: Option<nat>)
      requires Valid(heap) && l in open
      modifies heap, l.arena, l.arena.recs, l.arena.strs, l`roots, l`first, if metrics == null then {} else {metrics}
      ensures Valid(heap)
      ensures Kept(old(MarkOf(l.arena, heap)), MarkOf(l.arena, heap), iset{})
      ensures r.Some? ==> Rooted(old(MarkOf(l.arena, heap)), MarkOf(l.arena, heap), r.value, Truncate(g, lim, root))
      ensures l.first == if r.Some? && old(Clear(l.arena)) then r else old(l.first)
      ensures var o := Truncate(g, lim, root);
        && (r.Some? <==> o.Done?)
        && (r.Some? ==>
              && |l.roots| == |old(l.roots)| + 1 && l.roots[..|old(l.roots)|] == old(l.roots)
              && l.roots[|old(l.roots)|].addr == r.value && l.roots[|old(l.roots)|].tree == o.tree
              && (metrics != null ==> metrics.Counted() == old(metrics.Counted()).Plus(o.counts)))
        && (r.None? ==> l.roots == old(l.roots))
    {
      hide LeaseOk, Listed, Clear, WorldIn, Truncate, Arena.Valid, Grows, RootOk, Kept, Rooted, MarkOf, WorldOk, Heap.Valid, FirstOk;
      ghost var w, others := WorldIn(l.arena, heap.mem, heap.owner), open - {l};
      LeaseArena(l, heap);
      WorldInIs(l.arena, heap.mem, heap.owner);
      r := SerializeOn(heap, l, lim, root, g, metrics);
      WorldInIs(l.arena, heap.mem, heap.owner);
      Elsewhere(arenas, others, w, WorldIn(l.arena, heap.mem, heap.owner));
    }

    /**
      `getFirstPWArgsByteBuffer` of a lease: the first root, when the first run on the lease made one; an exception when
      nothing has been written.
      */
    method GetFirstPWArgsByteBuffer(ghost heap: Heap, l: ArenaLease) returns (r: Option<nat>)
      requires Valid(heap) && l in open
      ensures r.None? <==> l.arena.firstUsed == -1
      ensures l.first.Some? ==> r == l.first
      ensures r.Some? ==> 0 <= l.arena.firstUsed < |l.arena.recs.areas| && r.value == l.arena.recs.areas[l.arena.firstUsed].base
    {
      hide Listed, RootOk, Clear;
      assert LeaseOk(l, heap.mem, heap.owner);
      ListedIsValid(l.arena, heap);
      r := l.arena.GetFirstUsedPWArgsBuffer(heap);
    }

    /** `getLease`: the first arena of the pool, or a new one. */
    method GetLease(heap: Heap) returns (l: ArenaLease)
      requires Valid(heap)
      modifies heap, this
      ensures Valid(heap) && fresh(l) && l.roots == [] && l.first == None && open == old(open) + {l} && Clear(l.arena)
      ensures if old(arenas) == [] then arenas == [] && fresh(l.arena) && fresh(ListsOf(l.arena))
              else l.arena == old(arenas)[0] && arenas == old(arenas)[1..] && heap.mem == old(heap.mem)
    {
      hide LeaseOk, Listed, Clear, WorldIn, Arena.Valid, Grows, RootOk, ListOk;
      var arena;
      if |arenas| == 0 {
        arena := NewArena(heap);
      } else {
        arena := arenas[0];
        arenas := arenas[1..];
      }
      l := Lend(heap, arena);
    }

    /** `new ArenaLease(arena)`, for an arena that is in no other lease and not in the pool. */
    method Lend(heap: Heap, arena: Arena) returns (l: ArenaLease)
      requires Valid(heap) && Listed(arena, heap.owner) && Clear(arena)
      requires (forall i :: 0 <= i < |arenas| ==> Apart(arena, arenas[i])) && forall k :: k in open ==> Apart(k.arena, arena)
      modifies this`open
      ensures Valid(heap) && fresh(l) && l.arena == arena && l.roots == [] && l.first == None && open == old(open) + {l}
    {
      hide LeaseOk, Listed, Clear, WorldIn, Arena.Valid, Grows, RootOk, ListOk, Heap.Valid;
      l := new ArenaLease(arena);
      FreshLease(l, heap);
      open := open + {l};
    }

    method NewArena(heap: Heap) returns (arena: Arena)
      requires Valid(heap)
      modifies heap
      ensures Valid(heap) && fresh(arena) && fresh(ListsOf(arena)) && Listed(arena, heap.owner) && Clear(arena)
    {
      hide LeaseOk, Listed, Clear, WorldIn, Grows, RootOk, ListOk, OpenOf, CachesOk;
      ghost var mem, owner := heap.mem, heap.owner;
      arena := new Arena(heap);
      NewIsClear(arena, heap);
      GrowsFor(ListsOf(arena), mem, owner, heap.mem, heap.owner);
      Elsewhere(arenas, open, World(mem, owner, ListsOf(arena), iset{}), World(heap.mem, heap.owner, ListsOf(arena), iset{}));
    }

    /** `ArenaLease.close`, which may be called again. */
    method Close(heap: Heap, l: ArenaLease)
      requires Valid(heap) && (l.closeCalled || l in open)
      modifies this, l`closeCalled, l.arena, l.arena.recs, l.arena.strs
      ensures Valid(heap) && l.closeCalled && l !in open
      ensures SameSegments(old(l.arena.recs.areas), l.arena.recs.areas)
      ensures SameSegments(old(l.arena.strs.areas), l.arena.strs.areas)
      ensures if old(l.closeCalled) then arenas == old(arenas) && open == old(open)
              else arenas == [l.arena] + old(arenas) && open == old(open) - {l}
    {
      hide LeaseOk, Listed, Clear, WorldIn, RootOk, ListOk;
      if l.closeCalled {
        assert l in open ==> LeaseOk(l, heap.mem, heap.owner);
        ClosedIsNotOk(l, heap.mem, heap.owner);
        return;
      }
      CloseOn(heap, l);
      arenas := [l.arena] + arenas;
      open := open - {l};
    }
  }

  lemma ClosedIsNotOk(l: ArenaLease, mem: seq<byte>, owner: seq<Tag>)
    requires l.closeCalled
    ensures !LeaseOk(l, mem, owner)
  {
  }

  /** The same segments, however much of them is used. */
  ghost predicate SameSegments(a: seq<Area>, b: seq<Area>) {
    AreasKept(a, b) && |a| == |b|
  }

  method CloseOn(ghost heap: Heap, l: ArenaLease)
    requires heap.Valid() && LeaseOk(l, heap.mem, heap.owner)
    modifies l`closeCalled, l.arena, l.arena.recs, l.arena.strs
    ensures l.closeCalled && Listed(l.arena, heap.owner) && Clear(l.arena)
    ensures SameSegments(old(l.arena.recs.areas), l.arena.recs.areas)
    ensures SameSegments(old(l.arena.strs.areas), l.arena.strs.areas)
  {
    hide ObjectAt, OpenOf, CachesOk, RootOk, AreaOk, WorldIn, Caps, RangesOk, AreasKept;
    ListedIsValid(l.arena, heap);
    l.closeCalled := true;
    l.arena.Reset(heap);
    ListedIsValid(l.arena, heap);
  }

  lemma FreshLease(l: ArenaLease, heap: Heap)
    requires heap.Valid() && Listed(l.arena, heap.owner) && !l.closeCalled && l.roots == [] && l.first == None
    ensures LeaseOk(l, heap.mem, heap.owner)
  {
  }

  lemma NewIsClear(a: Arena, heap: Heap)
    requires a.Valid(heap) && a.caches == [Cache([], 0)] && a.firstUsed == -1
    requires a.recs.ranges == [] && a.strs.ranges == []
    requires a.recs.State() == Bump([RECS], 0, 0) && a.strs.State() == Bump([STRS], 0, 0)
    ensures Listed(a, heap.owner) && Clear(a)
  {
    ListedIsValid(a, heap);
  }

  lemma GrowsFor(lists: set<object>, mem: seq<byte>, owner: seq<Tag>, mem': seq<byte>, owner': seq<Tag>)
    requires |mem| == |owner| && |mem'| == |owner'| && mem <= mem' && owner <= owner'
    requires forall x :: |mem| <= x < |mem'| ==> owner'[x].list in lists
    ensures Grows(World(mem, owner, lists, iset{}), World(mem', owner', lists, iset{}), iset{})
    ensures WorldOk(World(mem, owner, lists, iset{}))
  {
  }
}
