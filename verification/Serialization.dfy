/** `doSerialize`, `serializeIterable` and `serializeMore` over an arena, against the specification in Truncation. */
module Serialization {
  import opened Common
  import opened Unicode
  import opened WafObjects
  import opened Records
  import opened Truncation
  import opened Budget
  import opened Bump
  import opened OffHeap
  import opened Arena
  import opened Layout
  import opened Serializer

  // ---------------------------------------------------------------- the specification, one call after another

  /** The requests for arrays of the given numbers of records. */
  function RecordsOf(ns: seq<nat>): (rs: seq<Request>)
    ensures AllProper(rs) && |rs| == |ns|
  {
    seq(|ns|, i requires 0 <= i < |ns| => Arena.RecordRequest(ns[i]))
  }

  lemma RecordsOfConcat(b: Bump, ms: seq<nat>, ns: seq<nat>, min: nat)
    requires b.Ok()
    ensures Run(b, RecordsOf(ms + ns), min) == Run(Run(b, RecordsOf(ms), min), RecordsOf(ns), min)
    ensures RecordsOf([]) == [] && Run(b, [], min) == b
  {
    assert RecordsOf(ms + ns) == RecordsOf(ms) + RecordsOf(ns);
    RunConcat(b, RecordsOf(ms), RecordsOf(ns), min);
  }

  /** What the calls so far and the calls still to come make together. */
  ghost predicate Continues(g: Graph, lim: Limits, cs: seq<Child>, rem: int, depth: int,
                            i: nat, left: int, sofar: OutcomeAll)
    requires i <= |cs| && sofar.DoneAll?
  {
    var all, rest := SerAll(g, lim, cs, rem, depth), SerAll(g, lim, cs[i..], left, depth);
    && |sofar.trees| == i && sofar.left == left
    && (all.ThrewAll? <==> rest.ThrewAll?)
    && (rest.DoneAll? ==> all == Joined(sofar, rest))
  }

  function Joined(a: OutcomeAll, b: OutcomeAll): OutcomeAll
    requires a.DoneAll? && b.DoneAll?
  {
    DoneAll(a.trees + b.trees, b.left, a.counts.Plus(b.counts), a.records + b.records, a.strings + b.strings)
  }

  /** One more call. */
  function Extended(a: OutcomeAll, r: Outcome): OutcomeAll
    requires a.DoneAll? && r.Done?
  {
    DoneAll(a.trees + [r.tree], r.left, a.counts.Plus(r.counts), a.records + r.records, a.strings + r.strings)
  }

  lemma ContinueStart(g: Graph, lim: Limits, cs: seq<Child>, rem: int, depth: int)
    ensures Continues(g, lim, cs, rem, depth, 0, rem, DoneAll([], rem, ZERO, [], []))
  {
    hide SerAll;
    assert cs[0..] == cs;
  }

  lemma ContinueStep(g: Graph, lim: Limits, cs: seq<Child>, rem: int, depth: int, i: nat, left: int, sofar: OutcomeAll)
    requires i < |cs| && sofar.DoneAll? && Continues(g, lim, cs, rem, depth, i, left, sofar)
    ensures var r := Ser(g, lim, cs[i], left, depth);
      && (r.Threw? ==> SerAll(g, lim, cs, rem, depth).ThrewAll?)
      && (r.Done? ==> Continues(g, lim, cs, rem, depth, i + 1, r.left, Extended(sofar, r)))
  {
    hide Ser, SerAll;
    AllStep(g, lim, cs[i..], left, depth);
    assert cs[i..][1..] == cs[i + 1..];
  }

  lemma ContinueEnd(g: Graph, lim: Limits, cs: seq<Child>, rem: int, depth: int, left: int, sofar: OutcomeAll)
    requires sofar.DoneAll? && Continues(g, lim, cs, rem, depth, |cs|, left, sofar)
    ensures SerAll(g, lim, cs, rem, depth) == sofar
  {
    assert cs[|cs|..] == [];
    assert SerAll(g, lim, [], left, depth) == DoneAll([], left, ZERO, [], []);
    hide SerAll;
    assert sofar.trees + [] == sofar.trees && sofar.records + [] == sofar.records && sofar.strings + [] == sofar.strings;
  }

  // ---------------------------------------------------------------- one step of the arena

  /** The state of an arena and of the memory it lies in, as a value. */
  datatype Mark = Mark(world: World, caches: seq<Cache>, strs: Bump, recs: Bump, texts: seq<Area>, areas: seq<Area>,
                       ranges: seq<Range>, first: int)

  ghost predicate MarkOk(m: Mark) {
    WorldOk(m.world) && m.strs.Ok() && m.recs.Ok()
  }

  ghost function MarkOf(arena: Arena, heap: Heap): Mark
    reads arena, arena.recs, arena.strs, heap
  {
    Mark(arena.Here(heap), arena.caches, arena.strs.State(), arena.recs.State(), arena.strs.areas, arena.recs.areas,
         arena.recs.ranges, arena.firstUsed)
  }

  lemma MarkIs(arena: Arena, heap: Heap)
    requires arena.Valid(heap)
    ensures MarkOk(MarkOf(arena, heap)) && MarkOf(arena, heap).world.mem == heap.mem
    ensures MarkOf(arena, heap).world == arena.Here(heap) && MarkOf(arena, heap).caches == arena.caches
    ensures arena.recs != arena.strs && arena.recs.minSize == RECS && arena.strs.minSize == STRS
  {
    WorldOf(arena, heap);
  }

  const STRS: nat := STRINGS_MIN_SEGMENTS_SIZE
  const RECS: nat := SIZEOF_PWARGS * PWARGS_MIN_SEGMENTS_SIZE

  /**
    Only the addresses in e were written besides those that were open, and no array in use, no segment, no range handed
    out and no first use was given up.
    */
  ghost predicate Kept(m: Mark, m': Mark, e: iset<int>) {
    Keeps(m.caches, m'.caches) && Grows(m.world, m'.world, e) && SegmentsKept(m, m')
  }

  ghost predicate SegmentsKept(m: Mark, m': Mark) {
    && AreasKept(m.texts, m'.texts) && AreasKept(m.areas, m'.areas) && m.ranges <= m'.ranges
    && (m.first != -1 ==> m'.first == m.first)
  }

  lemma SegmentsKeptThen(m0: Mark, m1: Mark, m2: Mark)
    requires SegmentsKept(m0, m1) && SegmentsKept(m1, m2)
    ensures SegmentsKept(m0, m2)
  {
    AreasKeptTrans(m0.texts, m1.texts, m2.texts);
    AreasKeptTrans(m0.areas, m1.areas, m2.areas);
    hide AreasKept;
  }

  lemma SegmentsKeptRefl(m: Mark)
    ensures SegmentsKept(m, m)
  {
    AreasKeptRefl(m.texts);
    AreasKeptRefl(m.areas);
    hide AreasKept;
  }

  /** The segments have served the given requests. */
  ghost predicate Served(m: Mark, m': Mark, records: seq<nat>, strings: seq<Request>) {
    && m.strs.Ok() && m.recs.Ok() && AllProper(strings)
    && m'.strs == Run(m.strs, strings, STRS)
    && m'.recs == Run(m.recs, RecordsOf(records), RECS)
  }

  ghost predicate Addressed(m: Mark) { |m.world.mem| <= 0x1_0000_0000_0000_0000 }

  /** The record at a, and all it refers to, is now the tree of the outcome r. */
  ghost predicate Wrote(m: Mark, m': Mark, a: nat, r: Outcome) {
    && r.Done? && Served(m, m', r.records, r.strings)
    && (Addressed(m') ==> ObjectAt(m'.world.mem, Footprint(a, m.world, m'.world), a, r.tree))
  }

  /** The first records of the array at addr are now the trees of the outcome r. */
  ghost predicate WroteAll(m: Mark, m': Mark, addr: nat, r: OutcomeAll) {
    && r.DoneAll? && Served(m, m', r.records, r.strings)
    && (Addressed(m') ==>
          ObjectsAt(m'.world.mem, Span(addr, 40 * |r.trees|) + Taken(m.world, m'.world), addr, r.trees))
  }

  lemma KeptRefl(m: Mark, e: iset<int>)
    requires MarkOk(m)
    ensures Kept(m, m, e)
  {
    KeepsRefl(m.caches);
    GrowsRefl(m.world, e);
    SegmentsKeptRefl(m);
  }

  lemma KeptThen(m0: Mark, m1: Mark, m2: Mark, e: iset<int>, f: iset<int>)
    requires Kept(m0, m1, e) && Kept(m1, m2, f)
    requires forall x :: x in f ==> x in e || x in Taken(m0.world, m1.world)
    ensures Kept(m0, m2, e)
  {
    KeepsTrans(m0.caches, m1.caches, m2.caches);
    SegmentsKeptThen(m0, m1, m2);
    Then(m0.world, m1.world, m2.world, e, f);
  }

  lemma ServedThen(m0: Mark, m1: Mark, m2: Mark, rs: seq<nat>, ss: seq<Request>, rs': seq<nat>, ss': seq<Request>)
    requires Served(m0, m1, rs, ss) && Served(m1, m2, rs', ss')
    ensures Served(m0, m2, rs + rs', ss + ss')
  {
    hide Run;
    RecordsOfConcat(m0.recs, rs, rs', RECS);
    RunConcat(m0.strs, ss, ss', STRS);
  }

  lemma AddressedBefore(m: Mark, m': Mark, e: iset<int>)
    requires Kept(m, m', e)
    ensures Addressed(m') ==> Addressed(m)
  {
  }

  /** One more record of an array is written. */
  lemma OneMore(m0: Mark, m: Mark, m': Mark, addr: nat, n: nat, sofar: OutcomeAll, r: Outcome)
    requires MarkOk(m0) && MarkOk(m) && sofar.DoneAll? && r.Done? && |sofar.trees| < n && Owned(m0.world, addr, 40 * n)
    requires Kept(m0, m, Span(addr, 40 * n)) && WroteAll(m0, m, addr, sofar)
    requires Kept(m, m', Span(addr + 40 * |sofar.trees|, 40)) && Wrote(m, m', addr + 40 * |sofar.trees|, r)
    ensures WroteAll(m0, m', addr, Extended(sofar, r))
  {
    hide ObjectsAt, ObjectAt, Taken, Grows, Keeps, Served;
    AddressedBefore(m, m', Span(addr + 40 * |sofar.trees|, 40));
    ServedThen(m0, m, m', sofar.records, sofar.strings, r.records, r.strings);
    if Addressed(m') {
      Proceed(m0.world, m.world, m'.world, addr, n, sofar.trees, r.tree);
    }
  }

  lemma OneMoreKept(m0: Mark, m: Mark, m': Mark, addr: nat, n: nat, i: nat)
    requires Kept(m0, m, Span(addr, 40 * n)) && Kept(m, m', Span(addr + 40 * i, 40)) && i < n
    ensures Kept(m0, m', Span(addr, 40 * n))
  {
    KeptThen(m0, m, m', Span(addr, 40 * n), Span(addr + 40 * i, 40));
  }

  /** A container record with its entries written. */
  lemma ContainerWrote(m0: Mark, m1: Mark, m2: Mark, a: nat, name: Option<JavaString>, k: Kind, addr: nat, n: nat,
                       all: OutcomeAll, counts: Counts)
    requires MarkOk(m0) && MarkOk(m1) && Owned(m0.world, a, 40) && IsContainer(k) && 0 < n <= INT_MAX
    requires all.DoneAll? && |all.trees| == n
    requires Kept(m0, m1, Span(a, 40)) && Kept(m1, m2, Span(addr, 40 * n))
    requires HeaderAt(m0, m1, a, name, k, addr, n) && WroteAll(m1, m2, addr, all)
    ensures Wrote(m0, m2, a, Container(name, k, n, counts, all))
  {
    hide ObjectsAt, ObjectAt, Taken, Grows, Keeps, Served, HeadAt, TailAt, Owned, Covers, NameBytesOf;
    AddressedBefore(m1, m2, Span(addr, 40 * n));
    ServedThen(m0, m1, m2, [n], NameRequests(name), all.records, all.strings);
    if Addressed(m2) {
      ContainerRecord(m0.world, m1.world, m2.world, a, NameBytesOf(name), k, addr, all.trees);
    }
  }

  /** The outcome of a container with n elements. */
  function Container(name: Option<JavaString>, k: Kind, n: nat, counts: Counts, all: OutcomeAll): Outcome
    requires all.DoneAll?
  {
    Done(WafObject(NameBytesOf(name), k, all.trees), all.left, counts.Plus(all.counts),
         RecordRequests(n) + all.records, NameRequests(name) + all.strings)
  }

  /** The request of one array of n records. */
  lemma ServedHeader(m: Mark, m': Mark, n: nat, strings: seq<Request>)
    requires m.recs.Ok() && m.strs.Ok() && AllProper(strings)
    requires m'.recs == Serve(m.recs, Arena.RecordRequest(n), RECS) && m'.strs == Run(m.strs, strings, STRS)
    ensures Served(m, m', [n], strings)
  {
    assert RecordsOf([n]) == [Arena.RecordRequest(n)];
    hide Run, Serve;
    RunOne(m.recs, Arena.RecordRequest(n), RECS);
  }

  /** Requests for strings alone. */
  lemma ServedStrings(m: Mark, m': Mark, strings: seq<Request>)
    requires m.recs.Ok() && m.strs.Ok() && AllProper(strings)
    requires m'.recs == m.recs && m'.strs == Run(m.strs, strings, STRS)
    ensures Served(m, m', [], strings)
  {
    assert RecordsOf([]) == [];
  }

  lemma WroteNothing(m: Mark, addr: nat, left: int)
    requires MarkOk(m)
    ensures WroteAll(m, m, addr, DoneAll([], left, ZERO, [], []))
  {
    ServedStrings(m, m, []);
  }

  // ---------------------------------------------------------------- doSerialize

  lemma CountsPlus(a: Counts, b: Counts, c: Counts)
    ensures a.Plus(b).Plus(c) == a.Plus(b.Plus(c))
  {
  }

  /** A record without entries. */
  method WriteLeaf(heap: Heap, arena: Arena, slot: View, name: Option<JavaString>, kind: Kind, ghost a: nat,
                   ghost left: int, ghost counts: Counts)
    returns (ok: bool)
    requires arena.Valid(heap) && slot.IsSlot(a) && Owned(arena.Here(heap), a, 40) && !kind.Str?
    modifies heap, arena.strs`areas, arena.strs`cur, arena.strs`ranges
    ensures arena.Valid(heap) && Kept(old(MarkOf(arena, heap)), MarkOf(arena, heap), Span(a, 40))
    ensures ok <==> NameStorable(name)
    ensures ok ==> Wrote(old(MarkOf(arena, heap)), MarkOf(arena, heap), a, Leaf(name, kind, left, counts, []))
  {
    ghost var m := MarkOf(arena, heap);
    hide ObjectAt, Grows, Keeps, Run, Owned, Arena.Valid, Footprint, NameBytesOf;
    MarkIs(arena, heap);
    ok := WriteScalar(heap, arena, slot, name, kind, a);
    KeepsRefl(m.caches);
    AreasKeptRefl(m.areas);
    if ok {
      ServedStrings(m, MarkOf(arena, heap), NameRequests(name));
      assert NameRequests(name) + [] == NameRequests(name);
    }
  }

  /** A string record. */
  method WriteText(heap: Heap, arena: Arena, slot: View, name: Option<JavaString>, s: JavaString, ghost a: nat,
                   ghost left: int, ghost counts: Counts)
    returns (ok: bool)
    requires arena.Valid(heap) && slot.IsSlot(a) && Owned(arena.Here(heap), a, 40)
    modifies heap, arena.strs`areas, arena.strs`cur, arena.strs`ranges
    ensures arena.Valid(heap) && Kept(old(MarkOf(arena, heap)), MarkOf(arena, heap), Span(a, 40))
    ensures ok <==> NameStorable(name) && Storable(s)
    ensures ok ==> Wrote(old(MarkOf(arena, heap)), MarkOf(arena, heap), a,
                         Leaf(name, Str(Utf16ToUtf8(s)), left, counts, [StringRequest(s)]))
  {
    ghost var m := MarkOf(arena, heap);
    hide ObjectAt, Grows, Keeps, Run, Owned, Arena.Valid, Footprint, NameBytesOf, Utf16ToUtf8;
    MarkIs(arena, heap);
    ok := WriteString(heap, arena, slot, name, s, a);
    KeepsRefl(m.caches);
    AreasKeptRefl(m.areas);
    if ok {
      ServedStrings(m, MarkOf(arena, heap), NameRequests(name) + [StringRequest(s)]);
    }
  }

  /** The cut of a string that is too long, and its count; None when `substring` throws. */
  method CutString(s: JavaString, lim: Limits, metrics: WafMetrics?) returns (r: Option<JavaString>)
    modifies if metrics == null then {} else {metrics}
    ensures r == Cut(s, lim.maxStringSize)
    ensures r.Some? ==> r.value <= s && |r.value| == Min(|s|, lim.maxStringSize)
    ensures r.Some? && metrics != null ==>
      metrics.Counted() == old(metrics.Counted()).Plus(CutCounts(s, lim.maxStringSize))
  {
    if |s| <= lim.maxStringSize {
      return Some(s);
    }
    if lim.maxStringSize < 0 {
      return None;
    }
    if metrics != null {
      metrics.tooLong := metrics.tooLong + 1;
    }
    return Some(s[..lim.maxStringSize]);
  }

  method CutParameterName(name: Option<JavaString>, lim: Limits, metrics: WafMetrics?) returns (r: Option<Option<JavaString>>)
    modifies if metrics == null then {} else {metrics}
    ensures r == CutName(name, lim.maxStringSize)
    ensures name.None? ==> r == Some(None)
    ensures name.Some? && r.Some? ==>
      r.value.Some? && r.value.value <= name.value && |r.value.value| == Min(|name.value|, lim.maxStringSize)
    ensures r.Some? && metrics != null ==>
      metrics.Counted() == old(metrics.Counted()).Plus(NameCounts(name, lim.maxStringSize))
  {
    if name.None? {
      return Some(None);
    }
    var s := CutString(name.value, lim, metrics);
    return if s.None? then None else Some(s);
  }

  /** A container record, and an array for its elements that is not yet written. */
  method WriteHeader(heap: Heap, arena: Arena, slot: View, name: Option<JavaString>, n: nat, kind: Kind, ghost a: nat)
    returns (ok: bool, ref: ArrayRef, addr: nat)
    requires arena.Valid(heap) && slot.IsSlot(a) && Owned(arena.Here(heap), a, 40)
    requires 0 < n <= INT_MAX && IsContainer(kind)
    modifies heap, arena.recs`areas, arena.recs`cur, arena.recs`ranges, arena.strs`areas, arena.strs`cur, arena.strs`ranges
    modifies arena`caches, arena`firstUsed
    ensures arena.Valid(heap) && Kept(old(MarkOf(arena, heap)), MarkOf(arena, heap), Span(a, 40))
    ensures ok <==> NameStorable(name)
    ensures ok ==>
      && RefAt(arena.caches, ref, addr, n) && Owned(arena.Here(heap), addr, 40 * n)
      && HeaderAt(old(MarkOf(arena, heap)), MarkOf(arena, heap), a, name, kind, addr, n)
  {
    ghost var m := MarkOf(arena, heap);
    hide HeadAt, TailAt, Grows, Keeps, Run, Serve, Owned, Arena.Valid, Beside, NameBytesOf, Covers, RefAt, Taken, OpenOf;
    MarkIs(arena, heap);
    ok, ref, addr := WriteArrayOrMap(heap, arena, slot, name, n, kind, a);
    if ok {
      ServedHeader(m, MarkOf(arena, heap), n, NameRequests(name));
    }
  }

  /** The record at a is that of a container with n elements, whose array at addr has just been handed out. */
  ghost predicate HeaderAt(m: Mark, m': Mark, a: nat, name: Option<JavaString>, kind: Kind, addr: nat, n: nat) {
    && Covers(Taken(m.world, m'.world), addr, 40 * n) && addr < |m'.world.mem|
    && Served(m, m', [n], NameRequests(name))
    && (Addressed(m') && n <= INT_MAX ==>
      && HeadAt(m'.world.mem, Beside(m.world, m'.world, addr, 40 * n), a, NameBytesOf(name))
      && TailAt(m'.world.mem, a, AsLong(addr), n, TypeCode(kind)))
  }

  lemma ElementsInside(m: Mark, m': Mark, a: nat, name: Option<JavaString>, kind: Kind, addr: nat, n: nat)
    requires HeaderAt(m, m', a, name, kind, addr, n)
    ensures forall x :: x in Span(addr, 40 * n) ==> x in Taken(m.world, m'.world)
  {
  }

  /** A container and its elements: `serializeIterable`, and the same for the entries of a map. */
  method SerializeIterable(heap: Heap, arena: Arena, lim: Limits, slot: View, name: Option<JavaString>, kind: Kind,
                           kids: seq<Child>, g: Graph, remaining: array<int>, depth: int, metrics: WafMetrics?,
                           ghost a: nat, ghost counts: Counts)
    returns (ok: bool)
    requires arena.Valid(heap) && slot.IsSlot(a) && Owned(arena.Here(heap), a, 40) && IsContainer(kind)
    requires remaining.Length == 1 && |kids| <= remaining[0] <= INT_MAX
    modifies heap, arena, arena.recs, arena.strs, remaining, if metrics == null then {} else {metrics}
    ensures arena.Valid(heap) && Kept(old(MarkOf(arena, heap)), MarkOf(arena, heap), Span(a, 40))
    ensures var all := SerAll(g, lim, kids, old(remaining[0]), depth);
      && (ok <==> NameStorable(name) && all.DoneAll?)
      && (ok ==>
            && remaining[0] == all.left
            && Wrote(old(MarkOf(arena, heap)), MarkOf(arena, heap), a, Container(name, kind, |kids|, counts, all))
            && (metrics != null ==> metrics.Counted() == old(metrics.Counted()).Plus(all.counts)))
    decreases Levels(depth), 3, 1
  {
    hide *;
    NoString(kind);
    if |kids| == 0 {
      EmptyContainer(g, lim, name, kind, kids, remaining[0], depth, counts);
      ok := WriteLeaf(heap, arena, slot, name, kind, a, remaining[0], counts);
    } else {
      ok := SerializeContents(heap, arena, lim, slot, name, kind, kids, g, remaining, depth, metrics, a, counts);
    }
  }

  /** A container that has elements. */
  method SerializeContents(heap: Heap, arena: Arena, lim: Limits, slot: View, name: Option<JavaString>, kind: Kind,
                           kids: seq<Child>, g: Graph, remaining: array<int>, depth: int, metrics: WafMetrics?,
                           ghost a: nat, ghost counts: Counts)
    returns (ok: bool)
    requires arena.Valid(heap) && slot.IsSlot(a) && Owned(arena.Here(heap), a, 40) && IsContainer(kind)
    requires remaining.Length == 1 && 0 < |kids| <= remaining[0] <= INT_MAX
    modifies heap, arena, arena.recs, arena.strs, remaining, if metrics == null then {} else {metrics}
    ensures arena.Valid(heap) && Kept(old(MarkOf(arena, heap)), MarkOf(arena, heap), Span(a, 40))
    ensures var all := SerAll(g, lim, kids, old(remaining[0]), depth);
      && (ok <==> NameStorable(name) && all.DoneAll?)
      && (ok ==>
            && remaining[0] == all.left
            && Wrote(old(MarkOf(arena, heap)), MarkOf(arena, heap), a, Container(name, kind, |kids|, counts, all))
            && (metrics != null ==> metrics.Counted() == old(metrics.Counted()).Plus(all.counts)))
    decreases Levels(depth), 3, 0
  {
    hide *;
    ghost var m0, n, rem := MarkOf(arena, heap), |kids|, remaining[0];
    MarkIs(arena, heap);
    var ref, addr;
    ok, ref, addr := WriteHeader(heap, arena, slot, name, |kids|, kind, a);
    if !ok {
      return;
    }
    ghost var m1 := MarkOf(arena, heap);
    MarkIs(arena, heap);
    ok := SerializeElements(heap, arena, lim, ref, addr, kids, g, remaining, depth, metrics);
    ghost var m2 := MarkOf(arena, heap);
    ElementsInside(m0, m1, a, name, kind, addr, n);
    KeptThen(m0, m1, m2, Span(a, 40), Span(addr, 40 * n));
    if ok {
      ContainerWrote(m0, m1, m2, a, name, kind, addr, n, SerAll(g, lim, kids, rem, depth), counts);
    }
  }

  lemma NoString(kind: Kind)
    ensures IsContainer(kind) ==> !kind.Str?
  {
  }

  lemma EmptyContainer(g: Graph, lim: Limits, name: Option<JavaString>, kind: Kind, kids: seq<Child>, rem: int, depth: int,
                       counts: Counts)
    requires kids == []
    ensures SerAll(g, lim, kids, rem, depth) == DoneAll([], rem, ZERO, [], [])
    ensures Container(name, kind, 0, counts, DoneAll([], rem, ZERO, [], [])) == Leaf(name, kind, rem, counts, [])
    ensures forall c: Counts :: c.Plus(ZERO) == c
  {
  }

  /** The loop of `serializeIterable` and the one over the entries of a map. */
  method SerializeElements(heap: Heap, arena: Arena, lim: Limits, ref: ArrayRef, addr: nat, cs: seq<Child>, g: Graph,
                           remaining: array<int>, depth: int, metrics: WafMetrics?)
    returns (ok: bool)
    requires arena.Valid(heap) && RefAt(arena.caches, ref, addr, |cs|) && Owned(arena.Here(heap), addr, 40 * |cs|)
    requires remaining.Length == 1 && remaining[0] <= INT_MAX
    modifies heap, arena, arena.recs, arena.strs, remaining, if metrics == null then {} else {metrics}
    ensures arena.Valid(heap) && Kept(old(MarkOf(arena, heap)), MarkOf(arena, heap), Span(addr, 40 * |cs|))
    ensures var all := SerAll(g, lim, cs, old(remaining[0]), depth);
      && (ok <==> all.DoneAll?)
      && (ok ==>
            && remaining[0] == all.left
            && WroteAll(old(MarkOf(arena, heap)), MarkOf(arena, heap), addr, all)
            && (metrics != null ==> metrics.Counted() == old(metrics.Counted()).Plus(all.counts)))
    decreases Levels(depth), 2, 0
  {
    hide *;
    ghost var m0, rem := MarkOf(arena, heap), remaining[0];
    ghost var base, sofar := if metrics == null then ZERO else metrics.Counted(), Nothing(rem);
    MarkIs(arena, heap);
    ProgressStart(g, lim, cs, rem, depth, addr, m0, base);
    var i := 0;
    while i < |cs|
      invariant 0 <= i <= |cs| && arena.Valid(heap) && RefAt(arena.caches, ref, addr, |cs|) && remaining[0] <= INT_MAX
      invariant Progress(g, lim, cs, rem, depth, addr, m0, MarkOf(arena, heap), i, remaining[0], sofar)
      invariant metrics != null ==> metrics.Counted() == CountsSoFar(base, sofar)
    {
      ghost var m, left := MarkOf(arena, heap), remaining[0];
      MarkIs(arena, heap);
      ProgressOwned(g, lim, cs, rem, depth, addr, m0, m, i, left, sofar);
      ok := SerializeElement(heap, arena, lim, ref, addr, |cs|, i, cs[i], g, remaining, depth, metrics);
      sofar := ProgressStep(g, lim, cs, rem, depth, addr, m0, m, MarkOf(arena, heap), i, left, sofar, base);
      if !ok {
        return;
      }
      i := i + 1;
    }
    ProgressEnd(g, lim, cs, rem, depth, addr, m0, MarkOf(arena, heap), remaining[0], sofar, base);
    ok := true;
  }

  function Nothing(rem: int): OutcomeAll {
    DoneAll([], rem, ZERO, [], [])
  }

  /** The first i elements are written. */
  ghost predicate Progress(g: Graph, lim: Limits, cs: seq<Child>, rem: int, depth: int, addr: nat, m0: Mark, m: Mark,
                           i: nat, left: int, sofar: OutcomeAll)
  {
    && i <= |cs| && sofar.DoneAll? && |sofar.trees| == i && left == sofar.left
    && Continues(g, lim, cs, rem, depth, i, left, sofar)
    && MarkOk(m0) && Owned(m0.world, addr, 40 * |cs|)
    && Kept(m0, m, Span(addr, 40 * |cs|)) && WroteAll(m0, m, addr, sofar)
  }

  function CountsSoFar(base: Counts, sofar: OutcomeAll): Counts {
    if sofar.DoneAll? then base.Plus(sofar.counts) else base
  }

  lemma ProgressStart(g: Graph, lim: Limits, cs: seq<Child>, rem: int, depth: int, addr: nat, m: Mark, base: Counts)
    requires MarkOk(m) && Owned(m.world, addr, 40 * |cs|)
    ensures Progress(g, lim, cs, rem, depth, addr, m, m, 0, rem, Nothing(rem)) && CountsSoFar(base, Nothing(rem)) == base
  {
    hide Continues, Kept, WroteAll, Owned;
    ContinueStart(g, lim, cs, rem, depth);
    WroteNothing(m, addr, rem);
    KeptRefl(m, Span(addr, 40 * |cs|));
  }

  lemma ProgressOwned(g: Graph, lim: Limits, cs: seq<Child>, rem: int, depth: int, addr: nat, m0: Mark, m: Mark,
                      i: nat, left: int, sofar: OutcomeAll)
    requires Progress(g, lim, cs, rem, depth, addr, m0, m, i, left, sofar)
    ensures Owned(m.world, addr, 40 * |cs|)
  {
    hide Continues, Kept, WroteAll, Owned;
    KeptOwned(m0, m, Span(addr, 40 * |cs|), addr, 40 * |cs|);
  }

  /** One more element, which may throw. */
  lemma ProgressStep(g: Graph, lim: Limits, cs: seq<Child>, rem: int, depth: int, addr: nat, m0: Mark, m: Mark, m': Mark,
                     i: nat, left: int, sofar: OutcomeAll, base: Counts) returns (next: OutcomeAll)
    requires i < |cs| && Progress(g, lim, cs, rem, depth, addr, m0, m, i, left, sofar) && MarkOk(m)
    requires Kept(m, m', Span(addr + 40 * i, 40))
    requires var r := Ser(g, lim, cs[i], left, depth); r.Done? ==> Wrote(m, m', addr + 40 * i, r)
    ensures Kept(m0, m', Span(addr, 40 * |cs|))
    ensures var r := Ser(g, lim, cs[i], left, depth);
      && (r.Threw? ==> SerAll(g, lim, cs, rem, depth).ThrewAll?)
      && (r.Done? ==> Progress(g, lim, cs, rem, depth, addr, m0, m', i + 1, r.left, next)
                      && CountsSoFar(base, next) == CountsSoFar(base, sofar).Plus(r.counts))
  {
    hide Continues, Kept, WroteAll, Owned, Ser, SerAll, Wrote;
    ContinueStep(g, lim, cs, rem, depth, i, left, sofar);
    OneMoreKept(m0, m, m', addr, |cs|, i);
    var r := Ser(g, lim, cs[i], left, depth);
    next := sofar;
    if r.Done? {
      OneMore(m0, m, m', addr, |cs|, sofar, r);
      next := Extended(sofar, r);
    }
  }

  lemma ProgressEnd(g: Graph, lim: Limits, cs: seq<Child>, rem: int, depth: int, addr: nat, m0: Mark, m: Mark,
                    left: int, sofar: OutcomeAll, base: Counts)
    requires Progress(g, lim, cs, rem, depth, addr, m0, m, |cs|, left, sofar)
    ensures SerAll(g, lim, cs, rem, depth) == sofar && sofar.DoneAll? && sofar.left == left
    ensures Kept(m0, m, Span(addr, 40 * |cs|)) && WroteAll(m0, m, addr, sofar)
    ensures CountsSoFar(base, sofar) == base.Plus(sofar.counts)
  {
    hide Continues, Kept, WroteAll, Owned, SerAll;
    ContinueEnd(g, lim, cs, rem, depth, left, sofar);
  }

  lemma KeptOwned(m: Mark, m': Mark, e: iset<int>, p: nat, n: nat)
    requires Kept(m, m', e) && Owned(m.world, p, n)
    ensures Owned(m'.world, p, n)
  {
    OwnedLater(m.world, m'.world, e, p, n);
  }

  /** Element number i into its record. */
  method SerializeElement(heap: Heap, arena: Arena, lim: Limits, ref: ArrayRef, ghost addr: nat, ghost n: nat, i: nat,
                          c: Child, g: Graph, remaining: array<int>, depth: int, metrics: WafMetrics?)
    returns (ok: bool)
    requires arena.Valid(heap) && RefAt(arena.caches, ref, addr, n) && i < n && Owned(arena.Here(heap), addr, 40 * n)
    requires remaining.Length == 1 && remaining[0] <= INT_MAX
    modifies heap, arena, arena.recs, arena.strs, remaining, if metrics == null then {} else {metrics}
    ensures arena.Valid(heap) && Kept(old(MarkOf(arena, heap)), MarkOf(arena, heap), Span(addr + 40 * i, 40))
    ensures RefAt(arena.caches, ref, addr, n)
    ensures var r := Ser(g, lim, c, old(remaining[0]), depth);
      && (ok <==> r.Done?)
      && (ok ==>
            && remaining[0] == r.left <= old(remaining[0])
            && Wrote(old(MarkOf(arena, heap)), MarkOf(arena, heap), addr + 40 * i, r)
            && (metrics != null ==> metrics.Counted() == old(metrics.Counted()).Plus(r.counts)))
    decreases Levels(depth), 1, 0
  {
    hide *;
    ghost var m := MarkOf(arena, heap);
    var slot := GetSlotOf(heap, arena, ref, i, addr, n);
    ghost var m1 := MarkOf(arena, heap);
    SlotOwned(heap, arena, addr, n, i);
    LeftIsLess(g, lim, c, remaining[0], depth);
    ok := DoSerialize(heap, arena, lim, slot, c, g, remaining, depth, metrics, addr + 40 * i);
    ghost var m2 := MarkOf(arena, heap);
    ViewTaken(m, m1, m2, addr + 40 * i, Ser(g, lim, c, old(remaining[0]), depth));
    MarkIs(arena, heap);
    StillReferred(m, m2, arena, heap, ref, addr, n, addr + 40 * i);
  }

  /** `get`, as a step of the arena: only recycled views change. */
  method GetSlotOf(heap: Heap, arena: Arena, ref: ArrayRef, i: nat, ghost addr: nat, ghost n: nat) returns (slot: View)
    requires arena.Valid(heap) && RefAt(arena.caches, ref, addr, n) && i < n
    modifies arena`caches
    ensures arena.Valid(heap) && slot.IsSlot(addr + 40 * i) && slot.base == BaseOf(arena.recs.areas, ref)
    ensures MarkOf(arena, heap) == old(MarkOf(arena, heap)).(caches := arena.caches) && Keeps(old(arena.caches), arena.caches)
    ensures old(MarkOf(arena, heap)).caches == old(arena.caches)
  {
    hide CachesOk, RefAt, Keeps, OpenOf, ListOk;
    slot := arena.Get(ref, i, addr, n);
  }

  lemma SlotOwned(heap: Heap, arena: Arena, addr: nat, n: nat, i: nat)
    requires Owned(arena.Here(heap), addr, 40 * n) && i < n
    ensures Owned(arena.Here(heap), addr + 40 * i, 40)
  {
  }

  lemma LeftIsLess(g: Graph, lim: Limits, c: Child, rem: int, depth: int)
    ensures var r := Ser(g, lim, c, rem, depth); r.Done? ==> r.left <= rem
  {
    hide Ser;
    SerConserves(g, lim, c, rem, depth);
  }

  lemma ViewTaken(m: Mark, m1: Mark, m2: Mark, a: nat, r: Outcome)
    requires Keeps(m.caches, m1.caches) && m1 == m.(caches := m1.caches) && Kept(m1, m2, Span(a, 40))
    ensures Kept(m, m2, Span(a, 40)) && (Wrote(m1, m2, a, r) ==> Wrote(m, m2, a, r))
  {
    hide Grows, Keeps, Run, ObjectAt;
    KeepsTrans(m.caches, m1.caches, m2.caches);
  }

  lemma StillReferred(m: Mark, m': Mark, arena: Arena, heap: Heap, ref: ArrayRef, addr: nat, n: nat, a: nat)
    requires Kept(m, m', Span(a, 40)) && arena.Valid(heap) && m'.caches == arena.caches && RefAt(m.caches, ref, addr, n)
    ensures RefAt(arena.caches, ref, addr, n)
  {
    RefKept(m.caches, m'.caches, arena.recs.areas, ref, addr, n);
  }

  lemma IgnoredIs(g: Graph, lim: Limits, name: Option<JavaString>, counts: Counts, v: Ref, left: int, depth: int)
    requires left < 0 || depth < 0
    ensures SerNamed(g, lim, name, counts, v, left, depth) == Leaf(name, Map, left, counts.Plus(IgnoredCounts(left)), [])
  {
  }

  function IgnoredCounts(left: int): Counts {
    if left < 0 then Counts(0, 1, 0) else Counts(0, 0, 1)
  }

  /** The counter of an element that is ignored for the budget or else for the depth. */
  method CountIgnored(left: int, metrics: WafMetrics?)
    modifies if metrics == null then {} else {metrics}
    ensures metrics != null ==> metrics.Counted() == old(metrics.Counted()).Plus(IgnoredCounts(left))
  {
    if metrics != null {
      if left < 0 {
        metrics.tooLarge := metrics.tooLarge + 1;
      } else {
        metrics.tooDeep := metrics.tooDeep + 1;
      }
    }
  }

  lemma SerIs(g: Graph, lim: Limits, c: Child, rem: int, depth: int)
    ensures var name := CutName(c.name, lim.maxStringSize); var r := Ser(g, lim, c, rem, depth);
      var counts := NameCounts(c.name, lim.maxStringSize);
      && (name.None? || !NameStorable(name.value) ==> r.Threw?)
      && (name.Some? && NameStorable(name.value) ==>
            r == SerNamed(g, lim, name.value, counts, c.value, rem - 1, depth))
  {
    hide SerAll;
  }

  /** `doSerialize`: the record at a; ok is false where an exception is thrown. */
  method DoSerialize(heap: Heap, arena: Arena, lim: Limits, slot: View, c: Child, g: Graph, remaining: array<int>,
                     depth: int, metrics: WafMetrics?, ghost a: nat)
    returns (ok: bool)
    requires arena.Valid(heap) && slot.IsSlot(a) && Owned(arena.Here(heap), a, 40)
    requires remaining.Length == 1 && remaining[0] <= INT_MAX
    modifies heap, arena, arena.recs, arena.strs, remaining, if metrics == null then {} else {metrics}
    ensures arena.Valid(heap) && Kept(old(MarkOf(arena, heap)), MarkOf(arena, heap), Span(a, 40))
    ensures var r := Ser(g, lim, c, old(remaining[0]), depth);
      && (ok <==> r.Done?)
      && (ok ==>
            && remaining[0] == r.left
            && Wrote(old(MarkOf(arena, heap)), MarkOf(arena, heap), a, r)
            && (metrics != null ==> metrics.Counted() == old(metrics.Counted()).Plus(r.counts)))
    decreases Levels(depth), 0, 2
  {
    hide *;
    ghost var m, rem, counts := MarkOf(arena, heap), remaining[0], NameCounts(c.name, lim.maxStringSize);
    ghost var base := if metrics == null then ZERO else metrics.Counted();
    MarkIs(arena, heap);
    KeptRefl(m, Span(a, 40));
    SerIs(g, lim, c, rem, depth);
    var name := CutParameterName(c.name, lim, metrics);
    remaining[0] := remaining[0] - 1;
    if name.None? {
      return false;
    }
    ok := SerializeNamed(heap, arena, lim, slot, name.value, c.value, g, remaining, depth, metrics, a, base, counts);
  }

  /** A record whose name is cut: an empty map when the budget or the depth is exceeded. */
  method SerializeNamed(heap: Heap, arena: Arena, lim: Limits, slot: View, name: Option<JavaString>, v: Ref, g: Graph,
                        remaining: array<int>, depth: int, metrics: WafMetrics?, ghost a: nat, ghost base: Counts,
                        ghost counts: Counts)
    returns (ok: bool)
    requires arena.Valid(heap) && slot.IsSlot(a) && Owned(arena.Here(heap), a, 40)
    requires remaining.Length == 1 && remaining[0] <= INT_MAX
    requires metrics != null ==> metrics.Counted() == base.Plus(counts)
    modifies heap, arena, arena.recs, arena.strs, remaining, if metrics == null then {} else {metrics}
    ensures arena.Valid(heap) && Kept(old(MarkOf(arena, heap)), MarkOf(arena, heap), Span(a, 40))
    ensures var r := SerNamed(g, lim, name, counts, v, old(remaining[0]), depth);
      && (ok <==> NameStorable(name) && r.Done?)
      && (ok ==>
            && remaining[0] == r.left
            && Wrote(old(MarkOf(arena, heap)), MarkOf(arena, heap), a, r)
            && (metrics != null ==> metrics.Counted() == base.Plus(r.counts)))
    decreases Levels(depth), 0, 1
  {
    hide *;
    if 0 <= remaining[0] && 0 <= depth {
      ok := SerializeValue(heap, arena, lim, slot, name, v, g, remaining, depth, metrics, a, base, counts);
    } else {
      ok := IgnoreElement(heap, arena, lim, slot, name, v, g, remaining[0], depth, metrics, a, base, counts);
    }
  }

  /** The empty map written for an element beyond the budget or the depth. */
  method IgnoreElement(heap: Heap, arena: Arena, lim: Limits, slot: View, name: Option<JavaString>, v: Ref, g: Graph,
                       left: int, depth: int, metrics: WafMetrics?, ghost a: nat, ghost base: Counts, ghost counts: Counts)
    returns (ok: bool)
    requires arena.Valid(heap) && slot.IsSlot(a) && Owned(arena.Here(heap), a, 40) && (left < 0 || depth < 0)
    requires metrics != null ==> metrics.Counted() == base.Plus(counts)
    modifies heap, arena.strs, if metrics == null then {} else {metrics}
    ensures arena.Valid(heap) && Kept(old(MarkOf(arena, heap)), MarkOf(arena, heap), Span(a, 40))
    ensures var r := SerNamed(g, lim, name, counts, v, left, depth);
      && (ok <==> NameStorable(name)) && r.Done? && r.left == left
      && (ok ==>
            && Wrote(old(MarkOf(arena, heap)), MarkOf(arena, heap), a, r)
            && (metrics != null ==> metrics.Counted() == base.Plus(r.counts)))
  {
    hide *;
    CountsPlus(base, counts, IgnoredCounts(left));
    LeafIs();
    IgnoredIs(g, lim, name, counts, v, left, depth);
    CountIgnored(left, metrics);
    ok := WriteLeaf(heap, arena, slot, name, Map, a, left, counts.Plus(IgnoredCounts(left)));
  }

  /** The value of a record whose name is cut, within the budget and the depth. */
  method SerializeValue(heap: Heap, arena: Arena, lim: Limits, slot: View, name: Option<JavaString>, v: Ref, g: Graph,
                        remaining: array<int>, depth: int, metrics: WafMetrics?, ghost a: nat, ghost base: Counts,
                        ghost counts: Counts)
    returns (ok: bool)
    requires arena.Valid(heap) && slot.IsSlot(a) && Owned(arena.Here(heap), a, 40)
    requires remaining.Length == 1 && 0 <= remaining[0] <= INT_MAX && depth >= 0
    requires metrics != null ==> metrics.Counted() == base.Plus(counts)
    modifies heap, arena, arena.recs, arena.strs, remaining, if metrics == null then {} else {metrics}
    ensures arena.Valid(heap) && Kept(old(MarkOf(arena, heap)), MarkOf(arena, heap), Span(a, 40))
    ensures var r := SerNamed(g, lim, name, counts, v, old(remaining[0]), depth);
      && (ok <==> NameStorable(name) && r.Done?)
      && (ok ==>
            && remaining[0] == r.left
            && Wrote(old(MarkOf(arena, heap)), MarkOf(arena, heap), a, r)
            && (metrics != null ==> metrics.Counted() == base.Plus(r.counts)))
    decreases Levels(depth), 0, 0
  {
    hide *;
    OneLevelLess(depth);
    ghost var m, left := MarkOf(arena, heap), remaining[0];
    MarkIs(arena, heap);
    KeptRefl(m, Span(a, 40));
    if v in g && HasChildren(g[v]) {
      NamedIs(base, g, lim, name, counts, v, left, depth);
      var n := SizeWithin(g[v], remaining[0]);
      ok := SerializeIterable(heap, arena, lim, slot, name, ContainerKind(g[v]), Children(g[v])[..n], g, remaining,
                              depth - 1, metrics, a, counts);
    } else {
      ok := SerializeLeaf(heap, arena, lim, slot, name, v, g, metrics, depth, left, a, base, counts);
    }
  }

  /** The branches of the values without elements. */
  method SerializeLeaf(heap: Heap, arena: Arena, lim: Limits, slot: View, name: Option<JavaString>, v: Ref, g: Graph,
                       metrics: WafMetrics?, ghost depth: nat, ghost left: nat, ghost a: nat, ghost base: Counts,
                       ghost counts: Counts)
    returns (ok: bool)
    requires arena.Valid(heap) && slot.IsSlot(a) && Owned(arena.Here(heap), a, 40)
    requires v in g ==> !HasChildren(g[v])
    requires metrics != null ==> metrics.Counted() == base.Plus(counts)
    modifies heap, arena.strs`areas, arena.strs`cur, arena.strs`ranges, if metrics == null then {} else {metrics}
    ensures arena.Valid(heap) && Kept(old(MarkOf(arena, heap)), MarkOf(arena, heap), Span(a, 40))
    ensures var r := SerNamed(g, lim, name, counts, v, left, depth);
      && (ok <==> NameStorable(name) && r.Done?)
      && (ok ==>
            && left == r.left
            && Wrote(old(MarkOf(arena, heap)), MarkOf(arena, heap), a, r)
            && (metrics != null ==> metrics.Counted() == base.Plus(r.counts)))
  {
    hide *;
    MarkIs(arena, heap);
    KeptRefl(MarkOf(arena, heap), Span(a, 40));
    LeafIs();
    LeafNamedIs(g, lim, name, counts, v, left, depth);
    var kind := Null;
    if v in g {
      match g[v] {
        case JString(text) =>
          CountsPlus(base, counts, CutCounts(text, lim.maxStringSize));
          var s := CutString(text, lim, metrics);
          if s.None? {
            return false;
          }
          ok := WriteText(heap, arena, slot, name, s.value, a, left, counts.Plus(CutCounts(text, lim.maxStringSize)));
          return;
        case JDouble(bits) => kind := Float(bits);
        case JLong(long) => kind := Signed(long);
        case JBoolean(truth) => kind := Bool(truth);
        case _ => kind := Null;
      }
    }
    ok := WriteLeaf(heap, arena, slot, name, kind, a, left, counts);
  }

  lemma OneLevelLess(depth: nat)
    ensures Levels(depth - 1) < Levels(depth)
  {
  }

  /** How many elements of a container are serialized: an iterable that is no collection is iterated to count them. */
  method SizeWithin(o: JavaObject, max: nat) returns (size: nat)
    requires HasChildren(o)
    ensures size == Min(|Children(o)|, max)
  {
    var count := |Children(o)|;
    if !o.JIterable? {
      return Min(count, max);
    }
    size := 0;
    while size < count && size < max
      invariant size <= Min(count, max)
    {
      size := size + 1;
    }
  }

  lemma LeafNamedIs(g: Graph, lim: Limits, name: Option<JavaString>, counts: Counts, v: Ref, left: nat, depth: nat)
    requires v in g ==> !HasChildren(g[v])
    ensures var r := SerNamed(g, lim, name, counts, v, left, depth);
      && (v !in g ==> r == Leaf(name, Null, left, counts, []))
      && (v in g ==>
            match g[v]
            case JString(text) =>
              var s := Cut(text, lim.maxStringSize);
              && (r.Done? <==> s.Some? && Storable(s.value))
              && (r.Done? ==> r == Leaf(name, Str(Utf16ToUtf8(s.value)), left,
                                        counts.Plus(CutCounts(text, lim.maxStringSize)), [StringRequest(s.value)]))
            case JDouble(bits) => r == Leaf(name, Float(bits), left, counts, [])
            case JLong(long) => r == Leaf(name, Signed(long), left, counts, [])
            case JBoolean(truth) => r == Leaf(name, Bool(truth), left, counts, [])
            case _ => r == Leaf(name, Null, left, counts, []))
  {
    hide SerAll, Utf16ToUtf8;
  }

  lemma NamedIs(base: Counts, g: Graph, lim: Limits, name: Option<JavaString>, counts: Counts, v: Ref, left: nat, depth: nat)
    requires v in g && HasChildren(g[v])
    ensures var r := SerNamed(g, lim, name, counts, v, left, depth);
      && IsContainer(ContainerKind(g[v]))
      && var n := Min(|Children(g[v])|, left);
      var all := SerAll(g, lim, Children(g[v])[..n], left, depth - 1);
      && |Children(g[v])[..n]| == n <= left
      && (r.Done? <==> all.DoneAll?)
      && (r.Done? ==> r == Container(name, ContainerKind(g[v]), n, counts, all) && r.left == all.left
                      && base.Plus(r.counts) == base.Plus(counts).Plus(all.counts))
  {
    hide SerAll, Utf16ToUtf8;
  }

  lemma LeafIs()
    ensures forall name: Option<JavaString>, kind: Kind, left: int, counts: Counts, strings: seq<Request> ::
      var r := Leaf(name, kind, left, counts, strings); r.Done? && r.left == left && r.counts == counts
  {
  }

  // ---------------------------------------------------------------- serializeMore

  /** Where the record of a root is handed out. */
  function RootPlace(b: Bump): Place
    requires b.Ok()
  {
    PlaceOf(b, Arena.RecordRequest(1), RECS)
  }

  /** The record at a is the one handed out for a root, and its segment the first one used if none was before. */
  ghost predicate RootPlaced(m: Mark, m': Mark, a: nat) {
    && m.recs.Ok()
    && var p := RootPlace(m.recs);
    && p.segment < |m'.areas| && a == AddressOf(m'.areas, p) && Range(p.segment, a, 40) in m'.ranges
    && m'.first == if m.first == -1 then p.segment else m.first
  }

  lemma RootPlacedKept(m: Mark, m1: Mark, m2: Mark, a: nat)
    requires RootPlaced(m, m1, a) && SegmentsKept(m1, m2)
    requires -1 <= m.first
    ensures RootPlaced(m, m2, a)
  {
    hide PlaceOf;
  }

  lemma {:induction false} FitFresh(b: Bump, reserve: nat, min: nat)
    requires b.Ok() && b.used == 0
    ensures Fit(b, reserve, min).used == 0
    decreases |b.caps| - b.cur
  {
    if reserve > b.caps[b.cur] && b.cur < |b.caps| - 1 {
      FitFresh(Bump(b.caps, b.cur + 1, 0), reserve, min);
    }
  }

  /** The first root on an arena that has nothing handed out lies at the start of the first segment used. */
  lemma FirstRoot(m: Mark, m': Mark, a: nat)
    requires RootPlaced(m, m', a) && m.first == -1 && m.recs.used == 0
    ensures 0 <= m'.first < |m'.areas| && a == m'.areas[m'.first].base
  {
    FitFresh(m.recs, Arena.RecordRequest(1).reserve, RECS);
  }

  /** The tree of the outcome r lies at a, in addresses handed out between m and m'. */
  ghost predicate Rooted(m: Mark, m': Mark, a: nat, r: Outcome) {
    && r.Done? && NULLPTR < a && Served(m, m', [1] + r.records, r.strings) && RootPlaced(m, m', a)
    && (Addressed(m') ==> ObjectAt(m'.world.mem, Taken(m.world, m'.world), a, r.tree))
  }

  /**
    `serializeMore`: what `GetDirectBufferAddress` gives for the buffer returned, which is the address of the root of the
    truncated input; None when an exception is thrown. The limits apply to each run anew.
    */
  method SerializeMore(heap: Heap, arena: Arena, lim: Limits, root: Ref, g: Graph, metrics: WafMetrics?)
    returns (r: Option<nat>)
    requires arena.Valid(heap)
    modifies heap, arena, arena.recs, arena.strs, if metrics == null then {} else {metrics}
    ensures arena.Valid(heap) && Kept(old(MarkOf(arena, heap)), MarkOf(arena, heap), iset{})
    ensures var o := Truncate(g, lim, root);
      && (r.Some? <==> o.Done?)
      && (r.Some? ==>
            && Rooted(old(MarkOf(arena, heap)), MarkOf(arena, heap), r.value, o)
            && (metrics != null ==> metrics.Counted() == old(metrics.Counted()).Plus(o.counts)))
  {
    hide *;
    TruncateIs(g, lim, root);
    ghost var m0 := MarkOf(arena, heap);
    MarkIs(arena, heap);
    ghost var a;
    var slot;
    slot, a := RootSlot(heap, arena);
    ghost var m1 := MarkOf(arena, heap);
    MarkIs(arena, heap);
    var ok := SerializeRoot(heap, arena, lim, slot, root, g, metrics, a);
    ghost var m2 := MarkOf(arena, heap);
    MarkIs(arena, heap);
    RootInside(m0, m1, a);
    KeptThen(m0, m1, m2, iset{}, Span(a, 40));
    if !ok {
      return None;
    }
    RootPlacedThrough(m0, m1, m2, Span(a, 40), a);
    RootWrote(m0, m1, m2, a, Truncate(g, lim, root));
    r := Some(slot.base);
  }

  lemma LimitIsInt(lim: Limits)
    ensures lim.maxElements <= INT_MAX
  {
  }

  /** A run with a budget of its own. */
  method SerializeRoot(heap: Heap, arena: Arena, lim: Limits, slot: View, root: Ref, g: Graph, metrics: WafMetrics?, ghost a: nat)
    returns (ok: bool)
    requires arena.Valid(heap) && slot.IsSlot(a) && Owned(arena.Here(heap), a, 40)
    modifies heap, arena, arena.recs, arena.strs, if metrics == null then {} else {metrics}
    ensures arena.Valid(heap) && Kept(old(MarkOf(arena, heap)), MarkOf(arena, heap), Span(a, 40))
    ensures var r := Ser(g, lim, Child(None, root), lim.maxElements, lim.maxDepth);
      && (ok <==> r.Done?)
      && (ok ==>
            && Wrote(old(MarkOf(arena, heap)), MarkOf(arena, heap), a, r)
            && (metrics != null ==> metrics.Counted() == old(metrics.Counted()).Plus(r.counts)))
  {
    hide *;
    LimitIsInt(lim);
    var remaining := new int[1];
    remaining[0] := lim.maxElements;
    ok := DoSerialize(heap, arena, lim, slot, Child(None, root), g, remaining, lim.maxDepth, metrics, a);
  }

  /** The record of a root, on its own in an array that native code can take the address of. */
  method RootSlot(heap: Heap, arena: Arena) returns (slot: View, ghost a: nat)
    requires arena.Valid(heap)
    modifies heap, arena.recs`areas, arena.recs`cur, arena.recs`ranges, arena`caches, arena`firstUsed
    ensures arena.Valid(heap) && slot.IsSlot(a) && Owned(arena.Here(heap), a, 40) && NULLPTR < a && slot.base == a
    ensures var m, m' := old(MarkOf(arena, heap)), MarkOf(arena, heap);
      && Kept(m, m', iset{}) && Covers(Taken(m.world, m'.world), a, 40) && Served(m, m', [1], []) && RootPlaced(m, m', a)
      && -1 <= m.first
  {
    hide *;
    ghost var m := MarkOf(arena, heap);
    MarkIs(arena, heap);
    var ref, start := RootArray(heap, arena);
    a := start;
    ghost var m1 := MarkOf(arena, heap);
    MarkIs(arena, heap);
    KeptTaken(m, m1, iset{}, a, 40);
    slot := GetSlotOf(heap, arena, ref, 0, a, 1);
    ViewOfRoot(m, m1, MarkOf(arena, heap), a);
    MarkIs(arena, heap);
  }

  method RootArray(heap: Heap, arena: Arena) returns (ref: ArrayRef, a: nat)
    requires arena.Valid(heap)
    modifies heap, arena.recs`areas, arena.recs`cur, arena.recs`ranges, arena`caches, arena`firstUsed
    ensures arena.Valid(heap) && RefAt(arena.caches, ref, a, 1) && NULLPTR < a && a + 40 <= |heap.mem|
    ensures BaseOf(arena.recs.areas, ref) == a
    ensures var m, m' := old(MarkOf(arena, heap)), MarkOf(arena, heap);
      && Kept(m, m', iset{}) && Covers(Taken(m.world, m'.world), a, 40) && Served(m, m', [1], []) && RootPlaced(m, m', a)
      && -1 <= m.first
  {
    ghost var m := MarkOf(arena, heap);
    hide CachesOk, RefAt, Keeps, Grows, OpenOf, ListOk, Covers, Taken, Served, Serve, PlaceOf, AddressOf;
    MarkIs(arena, heap);
    ServePlace(m.recs, Arena.RecordRequest(1), RECS);
    AreasKeptRefl(m.texts);
    ref, a := arena.AllocatePWArgsBuffer(heap, 1, true);
    RunNone(m.strs, STRS);
    ServedHeader(m, MarkOf(arena, heap), 1, []);
  }

  lemma ServePlace(b: Bump, r: Request, min: nat)
    requires b.Ok() && Proper(r)
    ensures PlaceOf(b, r, min).segment == Serve(b, r, min).cur
  {
  }

  lemma RunNone(b: Bump, min: nat)
    requires b.Ok()
    ensures Run(b, [], min) == b
  {
  }

  lemma KeptTaken(m: Mark, m': Mark, e: iset<int>, a: nat, n: nat)
    requires MarkOk(m) && Kept(m, m', e) && Covers(Taken(m.world, m'.world), a, n) && a + n <= |m'.world.mem|
    ensures Owned(m'.world, a, n)
  {
    TakenOwned(m.world, m'.world, a, n);
  }

  lemma ViewOfRoot(m: Mark, m1: Mark, m2: Mark, a: nat)
    requires Kept(m, m1, iset{}) && Keeps(m1.caches, m2.caches) && m2 == m1.(caches := m2.caches)
    requires Served(m, m1, [1], [])
    ensures Kept(m, m2, iset{}) && Served(m, m2, [1], []) && m2.world == m1.world
    ensures RootPlaced(m, m1, a) ==> RootPlaced(m, m2, a)
  {
    hide Grows, Keeps, Run;
    KeepsTrans(m.caches, m1.caches, m2.caches);
  }

  lemma RootInside(m: Mark, m': Mark, a: nat)
    requires Covers(Taken(m.world, m'.world), a, 40)
    ensures forall x :: x in Span(a, 40) ==> x in Taken(m.world, m'.world)
  {
  }

  lemma RootPlacedThrough(m: Mark, m1: Mark, m2: Mark, e: iset<int>, a: nat)
    requires RootPlaced(m, m1, a) && Kept(m1, m2, e) && -1 <= m.first
    ensures RootPlaced(m, m2, a)
  {
    RootPlacedKept(m, m1, m2, a);
  }

  lemma RootWrote(m0: Mark, m1: Mark, m2: Mark, a: nat, r: Outcome)
    requires MarkOk(m0) && MarkOk(m1) && NULLPTR < a && r.Done?
    requires Kept(m0, m1, iset{}) && Kept(m1, m2, Span(a, 40))
    requires Covers(Taken(m0.world, m1.world), a, 40) && Served(m0, m1, [1], []) && Wrote(m1, m2, a, r)
    requires RootPlaced(m0, m2, a)
    ensures Rooted(m0, m2, a, r)
  {
    RootInside(m0, m1, a);
    hide Grows, Keeps, Served, ObjectAt, Taken, Covers;
    ServedThen(m0, m1, m2, [1], [], r.records, r.strings);
    assert [] + r.strings == r.strings;
    if Addressed(m2) {
      RootSets(m0.world, m1.world, m2.world, a);
      AgreeSelf(m2.world.mem, Footprint(a, m1.world, m2.world));
      ObjectKept(m2.world.mem, m2.world.mem, Footprint(a, m1.world, m2.world), Taken(m0.world, m2.world), a, r.tree);
    }
  }

  lemma RootSets(w0: World, w1: World, w2: World, a: nat)
    requires WorldOk(w0) && WorldOk(w1) && Grows(w0, w1, iset{}) && Grows(w1, w2, Span(a, 40))
    requires forall x :: x in Span(a, 40) ==> x in Taken(w0, w1)
    ensures Footprint(a, w1, w2) <= Taken(w0, w2)
  {
    TakenMore(w0, w1, w2, iset{}, Span(a, 40));
  }
}
