/** Runs on one lease after another: what a reset arena serves again, it serves from the same places. */
module Recycling {
  import opened Truncation
  import opened Bump
  import opened OffHeap
  import opened Arena
  import opened Serialization
  import opened Leases

  /** One `serializeMore`: an object graph, its root and the limits. */
  datatype Input = Input(graph: Graph, limits: Limits, root: Ref)

  function Result(i: Input): Outcome {
    Truncate(i.graph, i.limits, i.root)
  }

  /** No run throws. */
  predicate AllDone(ins: seq<Input>) {
    forall i :: 0 <= i < |ins| ==> Result(ins[i]).Done?
  }

  /** The sizes of the record arrays that a sequence of runs asks for. */
  function RecordsAsked(ins: seq<Input>): seq<nat>
    requires AllDone(ins)
  {
    if ins == [] then [] else [1] + Result(ins[0]).records + RecordsAsked(ins[1..])
  }

  function StringsAsked(ins: seq<Input>): seq<Request>
    requires AllDone(ins)
  {
    if ins == [] then [] else Result(ins[0]).strings + StringsAsked(ins[1..])
  }

  /** Where the roots of the runs go. */
  function RootPlaces(b: Bump, ins: seq<Input>): (ps: seq<Place>)
    requires b.Ok() && AllDone(ins)
    ensures |ps| == |ins|
    decreases |ins|
  {
    if ins == [] then []
    else [RootPlace(b)]
         + RootPlaces(Run(b, RecordsOf([1] + Result(ins[0]).records), RECS), ins[1..])
  }

  /** Each place is in a segment that is there, and at the address given for it. */
  ghost predicate PlacedAt(areas: seq<Area>, ps: seq<Place>, at: seq<nat>) {
    && |ps| == |at|
    && forall i :: 0 <= i < |ps| ==> ps[i].segment < |areas| && at[i] == AddressOf(areas, ps[i])
  }

  lemma PlacedKept(areas: seq<Area>, later: seq<Area>, ps: seq<Place>, at: seq<nat>)
    requires PlacedAt(areas, ps, at) && AreasKept(areas, later)
    ensures PlacedAt(later, ps, at)
  {
  }

  /** The runs have served all they ask for, in order, with their roots at these addresses. */
  ghost predicate RanAll(m: Mark, m': Mark, ins: seq<Input>, at: seq<nat>) {
    && AllDone(ins) && Served(m, m', RecordsAsked(ins), StringsAsked(ins))
    && PlacedAt(m'.areas, RootPlaces(m.recs, ins), at)
  }

  lemma RanNone(m: Mark)
    requires MarkOk(m)
    ensures RanAll(m, m, [], [])
  {
    ServedStrings(m, m, []);
  }

  lemma RanOneMore(m0: Mark, m1: Mark, m2: Mark, ins: seq<Input>, a: nat, at: seq<nat>)
    requires ins != [] && Rooted(m0, m1, a, Result(ins[0])) && RanAll(m1, m2, ins[1..], at) && Kept(m1, m2, iset{})
    ensures RanAll(m0, m2, ins, [a] + at)
  {
    hide *;
    RootedIs(m0, m1, a, Result(ins[0]));
    RanAllIs(m1, m2, ins[1..], at);
    AllDoneStep(ins);
    AskedStep(ins);
    ServedThen(m0, m1, m2, [1] + Result(ins[0]).records, Result(ins[0]).strings, RecordsAsked(ins[1..]), StringsAsked(ins[1..]));
    KeptAreas(m1, m2);
    AddressKept(m1.areas, m2.areas, RootPlace(m0.recs));
    RootPlacesStep(m0.recs, ins);
    PlacedStep(m2.areas, RootPlace(m0.recs), RootPlaces(m1.recs, ins[1..]), a, at);
    RanAllAre(m0, m2, ins, [a] + at);
  }

  lemma RootedIs(m: Mark, m': Mark, a: nat, r: Outcome)
    requires Rooted(m, m', a, r)
    ensures r.Done? && Served(m, m', [1] + r.records, r.strings) && m.recs.Ok()
    ensures m'.recs == Run(m.recs, RecordsOf([1] + r.records), RECS)
    ensures RootPlace(m.recs).segment < |m'.areas| && a == AddressOf(m'.areas, RootPlace(m.recs))
  {
    hide RootPlace, AddressOf, Run;
  }

  lemma RanAllIs(m: Mark, m': Mark, ins: seq<Input>, at: seq<nat>)
    requires RanAll(m, m', ins, at)
    ensures AllDone(ins) && Served(m, m', RecordsAsked(ins), StringsAsked(ins)) && m.recs.Ok()
    ensures m'.recs == Run(m.recs, RecordsOf(RecordsAsked(ins)), RECS)
    ensures PlacedAt(m'.areas, RootPlaces(m.recs, ins), at)
  {
    hide Run, RootPlaces, AllDone, PlacedAt, RecordsAsked, StringsAsked;
  }

  lemma RanAllAre(m: Mark, m': Mark, ins: seq<Input>, at: seq<nat>)
    requires AllDone(ins) && m.recs.Ok() && Served(m, m', RecordsAsked(ins), StringsAsked(ins))
    requires PlacedAt(m'.areas, RootPlaces(m.recs, ins), at)
    ensures RanAll(m, m', ins, at)
  {
    hide RootPlaces, AllDone, PlacedAt, RecordsAsked, StringsAsked, Served;
  }

  lemma KeptAreas(m: Mark, m': Mark)
    requires Kept(m, m', iset{})
    ensures AreasKept(m.areas, m'.areas) && AreasKept(m.texts, m'.texts)
  {
    hide AreasKept, Grows, Keeps;
  }

  lemma RootPlacesStep(b: Bump, ins: seq<Input>)
    requires b.Ok() && ins != [] && AllDone(ins) && AllDone(ins[1..])
    ensures Result(ins[0]).Done?
    ensures RootPlaces(b, ins) == [RootPlace(b)] + RootPlaces(Run(b, RecordsOf([1] + Result(ins[0]).records), RECS), ins[1..])
  {
    hide Run, RootPlace, Result;
  }

  lemma PlacedStep(areas: seq<Area>, p: Place, ps: seq<Place>, a: nat, at: seq<nat>)
    requires PlacedAt(areas, ps, at) && p.segment < |areas| && a == AddressOf(areas, p)
    ensures PlacedAt(areas, [p] + ps, [a] + at)
  {
    hide AddressOf;
  }

  lemma AskedStep(ins: seq<Input>)
    requires ins != [] && AllDone(ins)
    ensures AllDone(ins[1..])
    ensures RecordsAsked(ins) == [1] + Result(ins[0]).records + RecordsAsked(ins[1..])
    ensures StringsAsked(ins) == Result(ins[0]).strings + StringsAsked(ins[1..])
  {
    hide Result;
  }

  lemma AddressKept(areas: seq<Area>, later: seq<Area>, p: Place)
    requires AreasKept(areas, later) && p.segment < |areas|
    ensures p.segment < |later| && AddressOf(later, p) == AddressOf(areas, p)
  {
  }

  lemma AllDoneStep(ins: seq<Input>)
    requires ins != [] && Result(ins[0]).Done? && AllDone(ins[1..])
    ensures AllDone(ins)
  {
    hide Result;
    assert forall i :: 0 < i < |ins| ==> ins[i] == ins[1..][i - 1];
  }

  /** Inputs serialized one after another on a lease, until one throws. */
  method RunInputs(heap: Heap, pool: ArenaPool, l: ArenaLease, ins: seq<Input>) returns (ok: bool, at: seq<nat>)
    requires pool.Valid(heap) && l in pool.open
    modifies heap, l.arena, l.arena.recs, l.arena.strs, l`roots, l`first
    ensures pool.Valid(heap) && Kept(old(MarkOf(l.arena, heap)), MarkOf(l.arena, heap), iset{})
    ensures ok <==> AllDone(ins)
    ensures ok ==> RanAll(old(MarkOf(l.arena, heap)), MarkOf(l.arena, heap), ins, at)
    decreases |ins|
  {
    hide *;
    ghost var m0 := MarkOf(l.arena, heap);
    OpenMark(pool, heap, l);
    if ins == [] {
      KeptRefl(m0, iset{});
      RanNone(m0);
      AllDoneNone(ins);
      return true, [];
    }
    AllDoneIff(ins);
    var r := pool.SerializeMore(heap, l, ins[0].limits, ins[0].root, ins[0].graph, null);
    if r.None? {
      return false, [];
    }
    ghost var m1 := MarkOf(l.arena, heap);
    ok, at := RunInputs(heap, pool, l, ins[1..]);
    NothingMore(m0, m1, MarkOf(l.arena, heap));
    if ok {
      RanOneMore(m0, m1, MarkOf(l.arena, heap), ins, r.value, at);
      at := [r.value] + at;
    }
  }

  lemma OpenMark(pool: ArenaPool, heap: Heap, l: ArenaLease)
    requires pool.Valid(heap) && l in pool.open
    ensures l.arena.Valid(heap) && MarkOk(MarkOf(l.arena, heap))
  {
    assert LeaseOk(l, heap.mem, heap.owner);
    LeaseArena(l, heap);
    MarkIs(l.arena, heap);
  }

  lemma AllDoneNone(ins: seq<Input>)
    requires ins == []
    ensures AllDone(ins)
  {
  }

  lemma AllDoneIff(ins: seq<Input>)
    requires ins != []
    ensures AllDone(ins) <==> Truncate(ins[0].graph, ins[0].limits, ins[0].root).Done? && AllDone(ins[1..])
    ensures Result(ins[0]) == Truncate(ins[0].graph, ins[0].limits, ins[0].root)
  {
    hide Truncate;
    if Result(ins[0]).Done? && AllDone(ins[1..]) {
      AllDoneStep(ins);
    }
  }

  lemma NothingMore(m0: Mark, m1: Mark, m2: Mark)
    requires Kept(m0, m1, iset{}) && Kept(m1, m2, iset{})
    ensures Kept(m0, m2, iset{})
  {
    KeptThen(m0, m1, m2, iset{}, iset{});
  }

  // ---------------------------------------------------------------- a second lease

  lemma CapsKept(areas: seq<Area>, later: seq<Area>)
    requires AreasKept(areas, later)
    ensures Caps(areas) <= Caps(later)
  {
  }

  /** On a list that has all the segments already, the roots go to the same places. */
  lemma {:induction false} RootPlacesReplay(b: Bump, caps: seq<nat>, ins: seq<Input>)
    requires b.Ok() && AllDone(ins) && Run(b, RecordsOf(RecordsAsked(ins)), RECS).caps <= caps
    ensures Bump(caps, b.cur, b.used).Ok()
    ensures RootPlaces(Bump(caps, b.cur, b.used), ins) == RootPlaces(b, ins)
    decreases |ins|
  {
    var again := Bump(caps, b.cur, b.used);
    if ins == [] {
      NothingReplays(b, caps);
    } else {
      hide Result, Run, RecordsOf, RootPlace, RecordsAsked;
      AskedStep(ins);
      var now, later := [1] + Result(ins[0]).records, RecordsAsked(ins[1..]);
      var b' := Run(b, RecordsOf(now), RECS);
      RecordsOfConcat(b, now, later, RECS);
      FirstPlaceReplays(b, caps, Result(ins[0]).records, later);
      RootPlacesReplay(b', caps, ins[1..]);
    }
  }

  lemma NothingReplays(b: Bump, caps: seq<nat>)
    requires b.Ok() && Run(b, RecordsOf([]), RECS).caps <= caps
    ensures Bump(caps, b.cur, b.used).Ok()
  {
    RunReplays(b, caps, RecordsOf([]), RECS);
  }

  lemma FirstPlaceReplays(b: Bump, caps: seq<nat>, records: seq<nat>, later: seq<nat>)
    requires b.Ok() && Run(Run(b, RecordsOf([1] + records), RECS), RecordsOf(later), RECS).caps <= caps
    ensures var again, b' := Bump(caps, b.cur, b.used), Run(b, RecordsOf([1] + records), RECS);
      && again.Ok() && RootPlace(again) == RootPlace(b)
      && Run(again, RecordsOf([1] + records), RECS) == Bump(caps, b'.cur, b'.used)
      && Run(b', RecordsOf(later), RECS).caps <= caps
  {
    hide *;
    var b' := Run(b, RecordsOf([1] + records), RECS);
    var one := Arena.RecordRequest(1);
    RootPlaceIs(b);
    RootPlaceIs(Bump(caps, b.cur, b.used));
    PrefixTrans(b'.caps, Run(b', RecordsOf(later), RECS).caps, caps);
    RunReplays(b, caps, RecordsOf([1] + records), RECS);
    FirstRequest(b, records);
    ServeReplays(b, caps, one, RECS);
  }

  lemma RootPlaceIs(b: Bump)
    ensures Proper(Arena.RecordRequest(1)) && (b.Ok() ==> RootPlace(b) == PlaceOf(b, Arena.RecordRequest(1), RECS))
  {
  }

  lemma FirstRequest(b: Bump, records: seq<nat>)
    requires b.Ok()
    ensures Serve(b, Arena.RecordRequest(1), RECS).caps <= Run(b, RecordsOf([1] + records), RECS).caps
  {
    hide Serve;
    RecordsOfConcat(b, [1], records, RECS);
    assert RecordsOf([1]) == [Arena.RecordRequest(1)];
    RunOne(b, Arena.RecordRequest(1), RECS);
  }

  /**
    The same inputs on a first lease, from ms[0] to m1, and on a second one, from n0 to n1, where the second has the
    segments of the first: the roots are at the same addresses, and no segment is added.
    */
  lemma SecondLeaseReplays(m0: Mark, m1: Mark, n0: Mark, n1: Mark, ins: seq<Input>, at: seq<nat>, bt: seq<nat>)
    requires RanAll(m0, m1, ins, at) && RanAll(n0, n1, ins, bt) && IsReset(m0) && IsReset(n0)
    requires AreasKept(m1.areas, n0.areas) && AreasKept(m1.texts, n0.texts) && Kept(n0, n1, iset{})
    requires CapsAre(m1) && CapsAre(n0) && CapsAre(n1)
    ensures at == bt && |n1.areas| == |n0.areas| && |n1.texts| == |n0.texts|
  {
    hide *;
    RanAllIs(m0, m1, ins, at);
    RanAllIs(n0, n1, ins, bt);
    KeptAreas(n0, n1);
    CapsPrefix(m1, n0);
    Replayed(m0, m1, n0, n1, ins);
    AreasKeptTrans(m1.areas, n0.areas, n1.areas);
    PlacedKept(m1.areas, n1.areas, RootPlaces(m0.recs, ins), at);
    SameAddresses(n1.areas, RootPlaces(m0.recs, ins), at, bt);
    SameCaps(n0, n1);
  }

  /** The segments of a mark are those of its allocation states. */
  ghost predicate CapsAre(m: Mark) {
    m.recs.caps == Caps(m.areas) && m.strs.caps == Caps(m.texts)
  }

  lemma CapsPrefix(m: Mark, n: Mark)
    requires CapsAre(m) && CapsAre(n) && AreasKept(m.areas, n.areas) && AreasKept(m.texts, n.texts)
    ensures m.recs.caps <= n.recs.caps && m.strs.caps <= n.strs.caps
  {
    CapsKept(m.areas, n.areas);
    CapsKept(m.texts, n.texts);
  }

  lemma SameCaps(n0: Mark, n1: Mark)
    requires CapsAre(n0) && CapsAre(n1) && n1.recs.caps == n0.recs.caps && n1.strs.caps == n0.strs.caps
    ensures |n1.areas| == |n0.areas| && |n1.texts| == |n0.texts|
  {
  }

  lemma SameAddresses(areas: seq<Area>, ps: seq<Place>, at: seq<nat>, bt: seq<nat>)
    requires PlacedAt(areas, ps, at) && PlacedAt(areas, ps, bt)
    ensures at == bt
  {
  }

  lemma Replayed(m0: Mark, m1: Mark, n0: Mark, n1: Mark, ins: seq<Input>)
    requires AllDone(ins) && IsReset(m0) && IsReset(n0)
    requires Served(m0, m1, RecordsAsked(ins), StringsAsked(ins)) && Served(n0, n1, RecordsAsked(ins), StringsAsked(ins))
    requires m1.recs.caps <= n0.recs.caps && m1.strs.caps <= n0.strs.caps
    ensures RootPlaces(n0.recs, ins) == RootPlaces(m0.recs, ins)
    ensures n1.recs.caps == n0.recs.caps && n1.strs.caps == n0.strs.caps
  {
    hide Run, Places, RootPlaces, RecordsOf, RecordsAsked, StringsAsked;
    ReplayAfterReset(m0.recs, n0.recs, RecordsOf(RecordsAsked(ins)), RECS);
    ReplayAfterReset(m0.strs, n0.strs, StringsAsked(ins), STRS);
    RootPlacesReplay(m0.recs, n0.recs.caps, ins);
  }

  lemma MarkCaps(arena: Arena, heap: Heap)
    ensures var m := MarkOf(arena, heap); CapsAre(m) && m.areas == arena.recs.areas && m.texts == arena.strs.areas
  {
  }

  /** A lease is taken, used for the inputs and then for others, any of which may throw, and closed. */
  method Once(heap: Heap, pool: ArenaPool, ins: seq<Input>, others: seq<Input>)
    returns (ok: bool, at: seq<nat>, ghost arena: Arena, ghost m0: Mark, ghost m1: Mark)
    requires pool.Valid(heap)
    modifies heap, pool, FirstOf(pool.arenas)
    ensures pool.Valid(heap) && pool.arenas != [] && pool.arenas[0] == arena
    ensures if old(pool.arenas) == [] then fresh(arena) && fresh(ListsOf(arena)) else arena == old(pool.arenas)[0]
    ensures IsReset(m0) && CapsAre(m1) && (ok <==> AllDone(ins)) && (ok ==> RanAll(m0, m1, ins, at))
    ensures AreasKept(m1.areas, arena.recs.areas) && AreasKept(m1.texts, arena.strs.areas)
  {
    hide *;
    FirstWas(pool.arenas);
    var l := pool.GetLease(heap);
    arena, m0 := l.arena, MarkOf(l.arena, heap);
    ListsAre(arena);
    OpenMark(pool, heap, l);
    ClearIs(arena, heap);
    ok, at := RunInputs(heap, pool, l, ins);
    m1 := MarkOf(arena, heap);
    MarkCaps(arena, heap);
    var _, _ := RunInputs(heap, pool, l, others);
    KeptAreas(m1, MarkOf(arena, heap));
    MarkCaps(arena, heap);
    ghost var areas, texts := arena.recs.areas, arena.strs.areas;
    pool.Close(heap, l);
    SegmentsStay(m1.areas, areas, arena.recs.areas);
    SegmentsStay(m1.texts, texts, arena.strs.areas);
  }

  lemma SegmentsStay(a: seq<Area>, b: seq<Area>, c: seq<Area>)
    requires AreasKept(a, b) && SameSegments(b, c)
    ensures AreasKept(a, c)
  {
    AreasKeptTrans(a, b, c);
  }

  /**
    Recycling is invisible: inputs serialized on a lease, then anything else on it, which may throw, then the lease
    closed and its arena leased again; the same inputs put their roots at the same addresses and make no segment.
    */
  method Replay(heap: Heap, pool: ArenaPool, ins: seq<Input>, others: seq<Input>)
    returns (ok: bool, first: seq<nat>, second: seq<nat>, again: ArenaLease, ghost before: Mark)
    requires pool.Valid(heap)
    modifies heap, pool, FirstOf(pool.arenas)
    ensures pool.Valid(heap) && again in pool.open && IsReset(before)
    ensures ok <==> AllDone(ins)
    ensures var after := MarkOf(again.arena, heap);
      ok ==>
        && first == second && RanAll(before, after, ins, second)
        && |after.areas| == |before.areas| && |after.texts| == |before.texts|
  {
    hide *;
    FirstWas(pool.arenas);
    ghost var arena, m0, m1;
    ok, first, arena, m0, m1 := Once(heap, pool, ins, others);
    again := pool.GetLease(heap);
    ListsAre(arena);
    before := MarkOf(arena, heap);
    OpenMark(pool, heap, again);
    ClearIs(arena, heap);
    MarkCaps(arena, heap);
    var ok', bt := RunInputs(heap, pool, again, ins);
    second := bt;
    MarkCaps(arena, heap);
    if ok {
      SecondLeaseReplays(m0, m1, before, MarkOf(arena, heap), ins, first, second);
    }
  }
}
