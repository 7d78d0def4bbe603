/** Off-heap memory and the lists of segments cut from it. */
module OffHeap {
  import opened Common
  import opened Records
  import opened Truncation
  import opened Bump

  /** Which segment of which list an address was allocated to. */
  datatype Tag = Tag(list: object, index: nat)

  /**
    The memory direct buffers lie in: one byte sequence indexed by address. It only grows; allocateDirect hands out
    ranges that were in no earlier buffer.
    */
  class Heap {
    var mem: seq<byte>
    ghost var owner: seq<Tag>

    ghost predicate Valid()
      reads this
    {
      |owner| == |mem|
    }

    /** Every address is a 64-bit number. */
    ghost predicate Addressable()
      reads this
    {
      |mem| <= 0x1_0000_0000_0000_0000
    }

    constructor ()
      ensures Valid()
    {
      mem, owner := [], [];
    }

    /** A new direct buffer. Nothing is promised about its contents but that they are there. */
    method AllocateDirect(capacity: nat, ghost tag: Tag) returns (base: nat)
      requires Valid()
      modifies this
      ensures Valid() && base > NULLPTR && |old(mem)| <= base && base + capacity == |mem|
      ensures old(mem) <= mem && old(owner) <= owner
      ensures forall x :: base <= x < |mem| ==> owner[x] == tag
      ensures forall x :: |old(mem)| <= x < |mem| ==> owner[x] == tag
    {
      var gap := 8;
      base := |mem| + gap;
      mem := mem + seq(gap + capacity, i => 0);
      owner := owner + seq(gap + capacity, i => tag);
    }

    /** A store of bytes at an address. */
    method Put(a: nat, bytes: seq<byte>)
      requires Valid() && a + |bytes| <= |mem|
      modifies this`mem
      ensures Valid() && Stored(old(mem), mem, a, bytes)
    {
      mem := mem[..a] + bytes + mem[a + |bytes|..];
    }
  }

  /** m' is m with bytes at address a. */
  ghost predicate Stored(m: seq<byte>, m': seq<byte>, a: nat, bytes: seq<byte>) {
    && |m'| == |m| && a + |bytes| <= |m|
    && m'[a..a + |bytes|] == bytes
    && forall x :: 0 <= x < |m| && !(a <= x < a + |bytes|) ==> m'[x] == m[x]
  }

  // ---------------------------------------------------------------- what a method may have changed

  /**
    Memory and the owners of its addresses, as a list or an arena sees them: the lists it consists of, and their
    addresses still open to be handed out.
    */
  datatype World = World(mem: seq<byte>, owner: seq<Tag>, lists: set<object>, open: iset<int>)

  /**
    From w to w', only open and newly allocated addresses, and those in extra, were written or handed out, and what was
    newly allocated belongs to the lists of w.
    */
  ghost predicate Grows(w: World, w': World, extra: iset<int>) {
    && |w.mem| <= |w'.mem| == |w'.owner| && w.owner <= w'.owner && w'.lists == w.lists
    && (forall x :: 0 <= x < |w.mem| && x !in w.open && x !in extra ==> w'.mem[x] == w.mem[x])
    && (forall x :: x in w'.open && x !in w.open ==> |w.mem| <= x)
    && (forall x :: |w.mem| <= x < |w'.mem| ==> w'.owner[x].list in w.lists)
  }

  lemma GrowsRefl(w: World, e: iset<int>)
    requires |w.mem| == |w.owner|
    ensures Grows(w, w, e)
  {
  }

  /** What is open afterwards was open before or is new. */
  lemma OpenBefore(w: World, w': World)
    requires Grows(w, w', iset{})
    ensures forall x :: x in w'.open ==> x in w.open || |w.mem| <= x
  {
  }

  lemma GrowsTrans(a: World, b: World, c: World, e: iset<int>, f: iset<int>)
    requires Grows(a, b, e) && Grows(b, c, f)
    requires forall x :: x in f && x !in e ==> x in a.open || |a.mem| <= x
    ensures Grows(a, c, e)
  {
  }

  /** The addresses handed out between w and w'. */
  ghost function Taken(w: World, w': World): iset<int> {
    iset x: int | (x in w.open || |w.mem| <= x < |w'.mem|) && x !in w'.open
  }

  /** What is represented outside the open addresses stays, whatever is written to the open ones. */
  lemma AgreeOutside(w: World, w': World, extra: iset<int>, f: iset<int>)
    requires Grows(w, w', extra)
    requires forall x :: x in f ==> 0 <= x < |w.mem| && x !in w.open && x !in extra
    ensures Agree(w.mem, w'.mem, f)
    ensures forall x :: x in f ==> 0 <= x < |w'.mem| && x !in w'.open
  {
  }

  // ---------------------------------------------------------------- segments

  /** A direct buffer: its address, its capacity in bytes and its position. */
  datatype Area = Area(base: nat, capacity: nat, used: nat)

  /** The address of a place. */
  function AddressOf(areas: seq<Area>, p: Place): nat {
    if p.segment < |areas| then areas[p.segment].base + p.offset else NULLPTR
  }

  function Caps(areas: seq<Area>): (r: seq<nat>)
    ensures |r| == |areas| && forall i :: 0 <= i < |areas| ==> r[i] == areas[i].capacity
  {
    seq(|areas|, i requires 0 <= i < |areas| => areas[i].capacity)
  }

  ghost predicate AreaOk(me: object, i: nat, a: Area, owner: seq<Tag>) {
    && NULLPTR < a.base && a.used <= a.capacity && a.base + a.capacity <= |owner|
    && forall x :: a.base <= x < a.base + a.capacity ==> owner[x] == Tag(me, i)
  }

  ghost predicate ListOk(me: object, areas: seq<Area>, cur: nat, owner: seq<Tag>) {
    && cur < |areas|
    && (forall i :: 0 <= i < |areas| ==> AreaOk(me, i, areas[i], owner))
    && (forall i :: cur < i < |areas| ==> areas[i].used == 0)
  }

  /** The addresses of the list that are still to be handed out. */
  ghost function OpenOf(me: object, areas: seq<Area>, cur: nat, owner: seq<Tag>): iset<int> {
    iset x: int | 0 <= x < |owner| && owner[x].list == me && cur <= owner[x].index < |areas|
      && areas[owner[x].index].base + areas[owner[x].index].used <= x
  }

  /** A range that was handed out: the segment it lies in, its address and its length. */
  datatype Range = Range(segment: nat, start: nat, length: nat) {
    predicate Has(x: int) { start <= x < start + length }
  }

  function Times(k: nat, unit: nat): nat { k * unit }

  ghost predicate Multiple(n: nat, unit: nat) {
    exists k: nat :: n == Times(k, unit)
  }

  lemma MultipleSum(m: nat, n: nat, unit: nat)
    requires Multiple(m, unit) && Multiple(n, unit)
    ensures Multiple(m + n, unit)
  {
    var j: nat :| m == Times(j, unit);
    var k: nat :| n == Times(k, unit);
    assert m + n == Times(j + k, unit);
  }

  lemma MultipleOf(n: nat, unit: nat)
    ensures Multiple(unit * n, unit)
  {
    assert unit * n == Times(n, unit);
  }

  /** The range lies in the used part of its segment, a whole number of units from its start. */
  ghost predicate RangeOk(r: Range, areas: seq<Area>, unit: nat) {
    && r.segment < |areas|
    && areas[r.segment].base <= r.start && r.start + r.length <= areas[r.segment].base + areas[r.segment].used
    && Multiple(r.start - areas[r.segment].base, unit)
  }

  ghost predicate NoOverlap(r: Range, s: Range) {
    forall x: int :: !(r.Has(x) && s.Has(x))
  }

  /** The ranges handed out since the last reset are inside their segments, aligned and pairwise disjoint. */
  ghost predicate RangesOk(rs: seq<Range>, areas: seq<Area>, unit: nat) {
    && (forall i :: 0 <= i < |areas| ==> Multiple(areas[i].used, unit))
    && (forall i :: 0 <= i < |rs| ==> RangeOk(rs[i], areas, unit))
    && (forall i, j :: 0 <= i < j < |rs| ==> NoOverlap(rs[i], rs[j]))
  }

  /** One more range, at the end of what the current segment has used. */
  lemma OneMoreRange(me: object, areas: seq<Area>, cur: nat, owner: seq<Tag>, rs: seq<Range>, unit: nat, n: nat)
    requires ListOk(me, areas, cur, owner) && RangesOk(rs, areas, unit) && Multiple(n, unit)
    requires areas[cur].used + n <= areas[cur].capacity
    ensures RangesOk(rs + [Range(cur, areas[cur].base + areas[cur].used, n)],
                     areas[cur := areas[cur].(used := areas[cur].used + n)], unit)
  {
    var r := Range(cur, areas[cur].base + areas[cur].used, n);
    var areas' := areas[cur := areas[cur].(used := areas[cur].used + n)];
    hide ListOk, Multiple;
    forall i | 0 <= i < |rs| ensures RangeOk(rs[i], areas', unit) && NoOverlap(rs[i], r) {
      assert RangeOk(rs[i], areas, unit);
      NewIsApart(me, areas, cur, owner, rs[i], unit, n);
    }
    MultipleSum(areas[cur].used, n, unit);
  }

  /** A new segment changes nothing about the ranges in the others. */
  lemma RangesMore(rs: seq<Range>, areas: seq<Area>, a: Area, unit: nat)
    requires RangesOk(rs, areas, unit) && a.used == 0
    ensures RangesOk(rs, areas + [a], unit)
  {
    MultipleOf(0, unit);
    hide Multiple;
    forall i | 0 <= i < |rs| ensures RangeOk(rs[i], areas + [a], unit) {
      assert RangeOk(rs[i], areas, unit);
    }
  }

  lemma NewIsApart(me: object, areas: seq<Area>, cur: nat, owner: seq<Tag>, r: Range, unit: nat, n: nat)
    requires ListOk(me, areas, cur, owner) && RangeOk(r, areas, unit) && areas[cur].used + n <= areas[cur].capacity
    ensures NoOverlap(r, Range(cur, areas[cur].base + areas[cur].used, n))
  {
    var here, there := areas[cur], areas[r.segment];
    assert AreaOk(me, cur, here, owner) && AreaOk(me, r.segment, there, owner);
    hide Multiple;
    forall x: int | r.Has(x) ensures !Range(cur, here.base + here.used, n).Has(x) {
      if here.base <= x < here.base + here.capacity {
        assert owner[x] == Tag(me, r.segment) && owner[x] == Tag(me, cur);
      }
    }
  }

  /** The segments of a list are all still there in a later one. */
  ghost predicate AreasKept(areas: seq<Area>, later: seq<Area>) {
    && |areas| <= |later|
    && forall i :: 0 <= i < |areas| ==> later[i].base == areas[i].base && later[i].capacity == areas[i].capacity
  }

  lemma AreasKeptRefl(a: seq<Area>)
    ensures AreasKept(a, a)
  {
  }

  lemma AreasKeptTrans(a: seq<Area>, b: seq<Area>, c: seq<Area>)
    requires AreasKept(a, b) && AreasKept(b, c)
    ensures AreasKept(a, c)
  {
  }

  /** `pwargsSegments` with `curPWArgsSegment`, or `stringsSegments` with `curStringsSegment`. */
  class SegmentList {
    var areas: seq<Area>
    var cur: nat
    ghost var ranges: seq<Range>
    const minSize: nat
    const unit: nat

    ghost predicate Valid(heap: Heap)
      reads this, heap
    {
      heap.Valid() && ListOk(this, areas, cur, heap.owner) && RangesOk(ranges, areas, unit)
    }

    ghost function Open(heap: Heap): iset<int>
      reads this, heap`owner
    {
      OpenOf(this, areas, cur, heap.owner)
    }

    ghost function Here(heap: Heap): World
      reads this, heap
    {
      World(heap.mem, heap.owner, {this}, Open(heap))
    }

    /** The state of the allocation rule. */
    ghost function State(): Bump
      reads this
    {
      Bump(Caps(areas), cur, if cur < |areas| then areas[cur].used else 0)
    }

    constructor (heap: Heap, minSize: nat, unit: nat)
      requires heap.Valid()
      modifies heap
      ensures Valid(heap) && this.minSize == minSize && this.unit == unit && State() == Bump([minSize], 0, 0) && ranges == []
      ensures old(heap.mem) <= heap.mem && old(heap.owner) <= heap.owner
      ensures forall x :: |old(heap.mem)| <= x < |heap.mem| ==> heap.owner[x].list == this
    {
      this.minSize, this.unit := minSize, unit;
      cur, areas, ranges := 0, [], [];
      new;
      MultipleOf(0, unit);
      var base := heap.AllocateDirect(minSize, Tag(this, 0));
      areas := [Area(base, minSize, 0)];
    }

    /** `reset` for this list: every segment is empty and the first is current. */
    method Reset(ghost heap: Heap)
      requires Valid(heap)
      modifies this`areas, this`cur, this`ranges
      ensures Valid(heap) && State() == Bump(Caps(old(areas)), 0, 0) && AreasKept(old(areas), areas)
      ensures |areas| == |old(areas)| && ranges == []
    {
      MultipleOf(0, unit);
      for pos := 0 to |areas|
        invariant |areas| == |old(areas)|
        invariant forall i :: 0 <= i < |areas| ==> areas[i] == if i < pos then old(areas)[i].(used := 0) else old(areas)[i]
      {
        areas := areas[pos := areas[pos].(used := 0)];
      }
      cur, ranges := 0, [];
      assert Caps(areas) == Caps(old(areas));
    }

    /** `changePWArgsSegment` and `changeStringsSegment`: the next segment, made anew at the end of the list. */
    method ChangeSegment(heap: Heap, capacity: nat)
      requires Valid(heap)
      modifies heap, this`areas, this`cur
      ensures Valid(heap) && Grows(old(Here(heap)), Here(heap), iset{}) && old(heap.mem) <= heap.mem
      ensures cur == old(cur) + 1 && AreasKept(old(areas), areas)
      ensures State() == if old(cur) == |old(areas)| - 1 then Bump(Caps(old(areas)) + [capacity], cur, 0)
                         else Bump(Caps(old(areas)), cur, 0)
      ensures forall x :: |old(heap.mem)| <= x < |heap.mem| ==> heap.owner[x].list == this
    {
      hide Multiple, RangeOk;
      if cur == |areas| - 1 {
        var base := heap.AllocateDirect(capacity, Tag(this, |areas|));
        RangesMore(ranges, areas, Area(base, capacity, 0), unit);
        areas := areas + [Area(base, capacity, 0)];
        assert Caps(areas) == Caps(old(areas)) + [capacity];
      }
      cur := cur + 1;
    }

    /** The loops of `allocatePWArgsBuffer` and `writeStringUnlimited`: on to the first segment with enough left. */
    method MakeRoom(heap: Heap, reserve: nat)
      requires Valid(heap)
      modifies heap, this`areas, this`cur
      ensures Valid(heap) && Grows(old(Here(heap)), Here(heap), iset{}) && old(heap.mem) <= heap.mem
      ensures State() == Fit(old(State()), reserve, minSize) && AreasKept(old(areas), areas)
      ensures reserve <= areas[cur].capacity - areas[cur].used
      ensures forall x :: |old(heap.mem)| <= x < |heap.mem| ==> heap.owner[x].list == this
    {
      hide RangesOk, Multiple, Grows;
      ghost var goal := Fit(State(), reserve, minSize);
      ghost var start := Here(heap);
      GrowsRefl(start, iset{});
      while areas[cur].capacity - areas[cur].used < reserve
        invariant Valid(heap) && Grows(start, Here(heap), iset{}) && start.mem <= heap.mem
        invariant AreasKept(old(areas), areas) && State().Ok() && Fit(State(), reserve, minSize) == goal
        invariant forall x :: |start.mem| <= x < |heap.mem| ==> heap.owner[x].list == this
        decreases |areas| - cur + if areas[cur].capacity - areas[cur].used < reserve then 1 else 0
      {
        ghost var before := Here(heap);
        ChangeSegment(heap, Max(minSize, reserve));
        GrowsTrans(start, before, Here(heap), iset{}, iset{});
      }
    }

    /** The advance of the buffer's position over n bytes: they are no longer open. */
    method Advance(n: nat, ghost heap: Heap) returns (a: nat)
      requires Valid(heap) && n <= areas[cur].capacity - areas[cur].used && Multiple(n, unit)
      modifies this`areas, this`ranges
      ensures ranges == old(ranges) + [Range(cur, a, n)]
      ensures Valid(heap) && Grows(old(Here(heap)), Here(heap), iset{})
      ensures State() == old(State()).(used := old(State()).used + n) && AreasKept(old(areas), areas)
      ensures NULLPTR < a && a + n <= |heap.mem| && cur == old(cur) && a == areas[cur].base + old(areas)[cur].used
      ensures forall x :: a <= x < a + n ==>
        x in old(Open(heap)) && x !in Open(heap) && heap.owner[x].list == this
    {
      hide RangesOk, Multiple;
      OneMoreRange(this, areas, cur, heap.owner, ranges, unit, n);
      a := areas[cur].base + areas[cur].used;
      ranges := ranges + [Range(cur, a, n)];
      areas := areas[cur := areas[cur].(used := areas[cur].used + n)];
      assert Caps(areas) == Caps(old(areas));
      assert AreaOk(this, cur, old(areas)[cur], heap.owner);
    }

    /** One served request: the address of use bytes, in a segment that had reserve bytes left. */
    method Allocate(heap: Heap, request: Request) returns (a: nat)
      requires Valid(heap) && Proper(request) && Multiple(request.use, unit)
      modifies heap, this`areas, this`cur, this`ranges
      ensures ranges == old(ranges) + [Range(cur, a, request.use)]
      ensures Valid(heap) && Grows(old(Here(heap)), Here(heap), iset{}) && old(heap.mem) <= heap.mem
      ensures State() == Serve(old(State()), request, minSize) && AreasKept(old(areas), areas)
      ensures NULLPTR < a && a + request.use <= |heap.mem|
      ensures forall x :: a <= x < a + request.use ==>
        (x in old(Open(heap)) || |old(heap.mem)| <= x) && x !in Open(heap) && heap.owner[x].list == this
      ensures forall x :: |old(heap.mem)| <= x < |heap.mem| ==> heap.owner[x].list == this
      ensures a == AddressOf(areas, PlaceOf(old(State()), request, minSize))
    {
      hide RangesOk, Multiple, Grows;
      MakeRoom(heap, request.reserve);
      ghost var mid := Here(heap);
      OpenBefore(old(Here(heap)), mid);
      a := Advance(request.use, heap);
      GrowsTrans(old(Here(heap)), mid, Here(heap), iset{}, iset{});
    }

    /** A served request with the bytes stored in it. */
    method Store(heap: Heap, reserve: nat, bytes: seq<byte>) returns (a: nat)
      requires Valid(heap) && |bytes| <= reserve && Multiple(|bytes|, unit)
      modifies heap, this`areas, this`cur, this`ranges
      ensures old(ranges) <= ranges && AreasKept(old(areas), areas)
      ensures Valid(heap) && Grows(old(Here(heap)), Here(heap), iset{})
      ensures State() == Serve(old(State()), Request(reserve, |bytes|), minSize)
      ensures NULLPTR < a && a + |bytes| <= |heap.mem| && heap.mem[a..a + |bytes|] == bytes
      ensures forall x :: a <= x < a + |bytes| ==>
        (x in old(Open(heap)) || |old(heap.mem)| <= x) && x !in Open(heap) && heap.owner[x].list == this
      ensures forall x :: |old(heap.mem)| <= x < |heap.mem| ==> heap.owner[x].list == this
    {
      hide RangesOk, Multiple;
      a := Allocate(heap, Request(reserve, |bytes|));
      heap.Put(a, bytes);
    }
  }
}
