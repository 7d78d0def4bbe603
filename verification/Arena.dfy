/** `Arena` of ByteBufferSerializer.java: record memory, string memory, and the recycled views of the record memory. */
module Arena {
  import opened Common
  import opened Unicode
  import opened Records
  import opened Truncation
  import opened Bump
  import opened OffHeap

  const PWARGS_MIN_SEGMENTS_SIZE: nat := 512
  const STRINGS_MIN_SEGMENTS_SIZE: nat := 81920

  // ---------------------------------------------------------------- recycled buffer objects

  /** A duplicate or a slice of a segment's buffer: where it starts, how long it is, its limit and its position. */
  datatype View = View(base: nat, capacity: nat, limit: nat, position: nat) {
    /** `limit(start + len)` then `position(start)`. */
    function Reset(start: nat, len: nat): (v: View)
      requires start + len <= capacity
      ensures v.base == base && v.capacity == capacity && v.position == start && v.limit == start + len <= v.capacity
    {
      this.(limit := start + len, position := start)
    }

    /** Record number i of an array that starts at start, as a view of its own. */
    predicate IsSlot(a: nat) {
      base + position == a && limit == position + SIZEOF_PWARGS && limit <= capacity
    }
  }

  /** `PWArgsArrayBuffer`, with the `PWArgsBuffer`s it keeps for its records. */
  datatype ArrayBuffer = ArrayBuffer(buffer: View, start: nat, num: nat, slots: seq<View>)

  /** The `pwargsArrays` of a segment; those before nextUnused are in use since the last reset. */
  datatype Cache = Cache(arrays: seq<ArrayBuffer>, nextUnused: nat)

  /** A reference to a `PWArgsArrayBuffer`: one made for this call alone, one of a segment's, or the empty one. */
  datatype ArrayRef = Own(array: ArrayBuffer) | Cached(segment: nat, index: nat) | EmptyBuffer

  /** Stale limits and positions apart, the views of a cache are duplicates of its segment's buffer. */
  ghost predicate ArrayOk(b: ArrayBuffer, base: nat, capacity: nat) {
    && b.buffer.base == base && b.buffer.capacity == capacity
    && forall i :: 0 <= i < |b.slots| ==> b.slots[i].base == base && b.slots[i].capacity == capacity
  }

  ghost predicate CacheOk(c: Cache, area: Area) {
    && c.nextUnused <= |c.arrays|
    && forall k :: 0 <= k < |c.arrays| ==> ArrayOk(c.arrays[k], area.base, area.capacity)
  }

  ghost predicate CachesOk(cs: seq<Cache>, areas: seq<Area>) {
    && |cs| == |areas|
    && forall s :: 0 <= s < |cs| ==> CacheOk(cs[s], areas[s])
  }

  /** b is an array of num records at address a. */
  ghost predicate ArrayAt(b: ArrayBuffer, a: nat, num: nat) {
    b.buffer.base + b.start == a && b.num == num && b.start + SIZEOF_PWARGS * num <= b.buffer.capacity
  }

  ghost predicate RefAt(cs: seq<Cache>, ref: ArrayRef, a: nat, num: nat) {
    match ref
    case Own(b) => ArrayAt(b, a, num) && ArrayOk(b, b.buffer.base, b.buffer.capacity)
    case Cached(s, k) => s < |cs| && k < cs[s].nextUnused <= |cs[s].arrays| && ArrayAt(cs[s].arrays[k], a, num)
    case EmptyBuffer => num == 0
  }

  /** What `GetDirectBufferAddress` gives for the views of a reference: where their buffer starts, whatever its position. */
  ghost function BaseOf(areas: seq<Area>, ref: ArrayRef): nat {
    match ref
    case Own(b) => b.buffer.base
    case Cached(s, _) => if s < |areas| then areas[s].base else NULLPTR
    case EmptyBuffer => NULLPTR
  }

  /** The arrays in use in cs are in use in ds, for the same records. */
  ghost predicate Keeps(cs: seq<Cache>, ds: seq<Cache>) {
    && |cs| <= |ds|
    && forall s :: 0 <= s < |cs| ==> CacheKeeps(cs[s], ds[s])
  }

  ghost predicate CacheKeeps(c: Cache, d: Cache) {
    && c.nextUnused <= d.nextUnused
    && forall k :: 0 <= k < c.nextUnused && k < |c.arrays| ==>
         k < |d.arrays| && d.arrays[k].buffer.base == c.arrays[k].buffer.base
         && d.arrays[k].buffer.capacity == c.arrays[k].buffer.capacity
         && d.arrays[k].start == c.arrays[k].start && d.arrays[k].num == c.arrays[k].num
  }

  lemma KeepsTrans(a: seq<Cache>, b: seq<Cache>, c: seq<Cache>)
    requires Keeps(a, b) && Keeps(b, c)
    ensures Keeps(a, c)
  {
    hide CacheKeeps;
    forall s | 0 <= s < |a| ensures CacheKeeps(a[s], c[s]) {
      CacheKeepsTrans(a[s], b[s], c[s]);
    }
  }

  lemma CacheKeepsTrans(a: Cache, b: Cache, c: Cache)
    requires CacheKeeps(a, b) && CacheKeeps(b, c)
    ensures CacheKeeps(a, c)
  {
  }

  /** A reference goes on denoting its array while others are handed out. */
  lemma RefKept(cs: seq<Cache>, ds: seq<Cache>, areas: seq<Area>, ref: ArrayRef, a: nat, num: nat)
    requires Keeps(cs, ds) && CachesOk(ds, areas) && RefAt(cs, ref, a, num)
    ensures RefAt(ds, ref, a, num)
  {
    if ref.Cached? {
      assert CacheKeeps(cs[ref.segment], ds[ref.segment]);
      assert CacheOk(ds[ref.segment], areas[ref.segment]);
    }
  }

  /** `PWArgsArrayBuffer.get(i)`: its own view for record i, made if need be, and reset. */
  method GetSlot(from: ArrayBuffer, i: nat) returns (b: ArrayBuffer, slot: View)
    requires i < from.num && from.start + SIZEOF_PWARGS * from.num <= from.buffer.capacity
    requires ArrayOk(from, from.buffer.base, from.buffer.capacity)
    ensures ArrayOk(b, from.buffer.base, from.buffer.capacity)
    ensures b.buffer == from.buffer && b.start == from.start && b.num == from.num
    ensures slot.IsSlot(from.buffer.base + from.start + SIZEOF_PWARGS * i)
    ensures slot.base == from.buffer.base && slot.capacity == from.buffer.capacity
  {
    b := from;
    while i >= |b.slots|
      invariant b.buffer == from.buffer && b.start == from.start && b.num == from.num
      invariant ArrayOk(b, from.buffer.base, from.buffer.capacity)
    {
      var fresh' := from.buffer.Reset(from.start + SIZEOF_PWARGS * i, SIZEOF_PWARGS);
      b := b.(slots := b.slots + [fresh']);
    }
    slot := b.slots[i].Reset(b.start + SIZEOF_PWARGS * i, SIZEOF_PWARGS);
    b := b.(slots := b.slots[i := slot]);
  }

  // ---------------------------------------------------------------- two lists side by side

  /** What one list of an arena is given leaves the other as it is. */
  lemma OtherList(me: object, other: object, areas: seq<Area>, cur: nat, owner: seq<Tag>, owner': seq<Tag>)
    requires me != other && owner <= owner' && ListOk(me, areas, cur, owner)
    requires forall x :: |owner| <= x < |owner'| ==> owner'[x].list == other
    ensures ListOk(me, areas, cur, owner') && OpenOf(me, areas, cur, owner') == OpenOf(me, areas, cur, owner)
  {
    forall i | 0 <= i < |areas| ensures AreaOk(me, i, areas[i], owner') {
      assert AreaOk(me, i, areas[i], owner);
    }
  }

  /** A step of one list is a step of the arena. */
  lemma WiderStep(w: World, w': World, lists: set<object>, other: iset<int>, extra: iset<int>)
    requires Grows(w, w', extra) && w.lists <= lists
    ensures Grows(w.(lists := lists, open := w.open + other), w'.(lists := lists, open := w'.open + other), extra)
  {
  }

  // ---------------------------------------------------------------- the arena

  class Arena {
    const recs: SegmentList
    const strs: SegmentList
    var caches: seq<Cache>
    var firstUsed: int

    ghost predicate Valid(heap: Heap)
      reads this, recs, strs, heap
    {
      && recs != strs && recs.Valid(heap) && strs.Valid(heap)
      && recs.minSize == SIZEOF_PWARGS * PWARGS_MIN_SEGMENTS_SIZE && strs.minSize == STRINGS_MIN_SEGMENTS_SIZE
      && recs.unit == SIZEOF_PWARGS && strs.unit == 1 && -1 <= firstUsed < |recs.areas|
      && CachesOk(caches, recs.areas)
    }

    /** The addresses the arena can still hand out. */
    ghost function Open(heap: Heap): iset<int>
      reads recs, strs, heap`owner
    {
      recs.Open(heap) + strs.Open(heap)
    }

    ghost function Here(heap: Heap): World
      reads recs, strs, heap
    {
      World(heap.mem, heap.owner, {recs, strs}, Open(heap))
    }

    constructor (heap: Heap)
      requires heap.Valid()
      modifies heap
      ensures Valid(heap) && fresh(recs) && fresh(strs)
      ensures old(heap.mem) <= heap.mem && old(heap.owner) <= heap.owner
      ensures forall x :: |old(heap.mem)| <= x < |heap.mem| ==> heap.owner[x].list == recs || heap.owner[x].list == strs
      ensures caches == [Cache([], 0)] && firstUsed == -1 && recs.ranges == [] && strs.ranges == []
      ensures recs.State() == Bump([40 * 512], 0, 0)
      ensures strs.State() == Bump([81920], 0, 0)
    {
      var r := new SegmentList(heap, SIZEOF_PWARGS * PWARGS_MIN_SEGMENTS_SIZE, SIZEOF_PWARGS);
      var s := new SegmentList(heap, STRINGS_MIN_SEGMENTS_SIZE, 1);
      recs, strs := r, s;
      caches, firstUsed := [Cache([], 0)], -1;
    }

    /**
      `writeStringUnlimited`: the UTF-8 form of s with a NUL after it, in memory handed out for it; nothing, and no
      change, when the reservation would not be an int.
      */
    method WriteStringUnlimited(heap: Heap, s: JavaString) returns (r: Option<(nat, nat)>)
      requires Valid(heap)
      modifies heap, strs`areas, strs`cur, strs`ranges
      ensures Valid(heap) && Grows(old(Here(heap)), Here(heap), iset{})
      ensures r.Some? <==> Storable(s)
      ensures r.Some? ==>
        && 0 < r.value.0 < |heap.mem| && r.value.1 == |Utf16ToUtf8(s)| < 0x1_0000_0000
        && StringAt(heap.mem, Taken(old(Here(heap)), Here(heap)), r.value.0, Utf16ToUtf8(s))
      ensures strs.State() == if r.Some? then Serve(old(strs.State()), StringRequest(s), strs.minSize)
                              else old(strs.State())
      ensures AreasKept(old(strs.areas), strs.areas)
      ensures r.None? ==> heap.mem == old(heap.mem) && heap.owner == old(heap.owner) && strs.areas == old(strs.areas)
                          && strs.cur == old(strs.cur) && strs.ranges == old(strs.ranges)
    {
      Utf16ToUtf8Length(s);
      if MaxBytes(s) > INT_MAX {
        return None;
      }
      hide Utf16ToUtf8, Covers, Taken, Serve;
      var utf8 := Utf16ToUtf8(s);
      var ptr := StoreBytes(heap, MaxBytes(s), utf8 + [0]);
      TextStored(heap.mem, Taken(old(Here(heap)), Here(heap)), ptr, utf8);
      return Some((ptr, |utf8|));
    }

    /** A range of string memory, with the bytes stored in it. */
    method StoreBytes(heap: Heap, reserve: nat, bytes: seq<byte>) returns (ptr: nat)
      requires Valid(heap) && |bytes| <= reserve
      modifies heap, strs`areas, strs`cur, strs`ranges
      ensures Valid(heap) && Grows(old(Here(heap)), Here(heap), iset{})
      ensures NULLPTR < ptr && ptr + |bytes| <= |heap.mem| && heap.mem[ptr..ptr + |bytes|] == bytes
      ensures Covers(Taken(old(Here(heap)), Here(heap)), ptr, |bytes|)
      ensures strs.State() == Serve(old(strs.State()), Request(reserve, |bytes|), strs.minSize)
      ensures AreasKept(old(strs.areas), strs.areas)
    {
      hide CachesOk, Serve, RangesOk, Multiple;
      MultipleOfOne(|bytes|);
      ghost var w, owner := strs.Here(heap), heap.owner;
      ptr := strs.Store(heap, reserve, bytes);
      OtherList(recs, strs, recs.areas, recs.cur, owner, heap.owner);
      WiderStep(w, strs.Here(heap), {recs, strs}, recs.Open(heap), iset{});
    }

    /** The request n records make. */
    static function RecordRequest(n: nat): Request {
      Request(SIZEOF_PWARGS * n, SIZEOF_PWARGS * n)
    }

    /** The range of `allocate`: num records that were open, or are new, and are not open any more. */
    method AllocateRange(heap: Heap, num: nat) returns (a: nat, position: nat)
      requires Valid(heap)
      modifies heap, recs`areas, recs`cur, recs`ranges
      ensures recs.Valid(heap) && strs.Valid(heap) && AreasKept(old(recs.areas), recs.areas)
      ensures Grows(old(Here(heap)), Here(heap), iset{})
      ensures NULLPTR < a && a + SIZEOF_PWARGS * num <= |heap.mem|
      ensures Covers(Taken(old(Here(heap)), Here(heap)), a, SIZEOF_PWARGS * num)
      ensures recs.State() == Serve(old(recs.State()), RecordRequest(num), recs.minSize)
      ensures a == recs.areas[recs.cur].base + position
      ensures recs.ranges == old(recs.ranges) + [Range(recs.cur, a, SIZEOF_PWARGS * num)]
      ensures a == AddressOf(recs.areas, PlaceOf(old(recs.State()), RecordRequest(num), recs.minSize))
      ensures position + SIZEOF_PWARGS * num == recs.areas[recs.cur].used
    {
      hide RangesOk, Multiple;
      MultipleOf(num, SIZEOF_PWARGS);
      ghost var w, owner := recs.Here(heap), heap.owner;
      a := recs.Allocate(heap, RecordRequest(num));
      position := recs.areas[recs.cur].used - SIZEOF_PWARGS * num;
      OtherList(strs, recs, strs.areas, strs.cur, owner, heap.owner);
      WiderStep(w, recs.Here(heap), {recs, strs}, strs.Open(heap), iset{});
    }

    /** A new segment starts with no recycled views. */
    method ExtendCaches()
      requires |caches| <= |recs.areas| && forall s :: 0 <= s < |caches| ==> CacheOk(caches[s], recs.areas[s])
      modifies this`caches
      ensures CachesOk(caches, recs.areas) && Keeps(old(caches), caches)
      ensures |old(caches)| == |recs.areas| ==> caches == old(caches)
    {
      while |caches| < |recs.areas|
        invariant |old(caches)| <= |caches| <= |recs.areas| && caches[..|old(caches)|] == old(caches)
        invariant forall s :: 0 <= s < |caches| ==> CacheOk(caches[s], recs.areas[s])
      {
        caches := caches + [Cache([], 0)];
      }
    }

    /** The views of `allocate`: the segment's next unused array buffer, reset, or a new one at the end of its cache. */
    method TakeView(segment: nat, position: nat, num: nat) returns (ref: ArrayRef)
      requires CachesOk(caches, recs.areas) && segment < |recs.areas|
      requires position + SIZEOF_PWARGS * num <= recs.areas[segment].capacity
      modifies this`caches
      ensures CachesOk(caches, recs.areas) && Keeps(old(caches), caches)
      ensures RefAt(caches, ref, recs.areas[segment].base + position, num) && ref.Cached? && ref.segment == segment
    {
      var c, area := caches[segment], recs.areas[segment];
      assert CacheOk(c, area);
      var fresh' := View(area.base, area.capacity, area.capacity, 0);
      if c.nextUnused >= |c.arrays| {
        c := Cache(c.arrays + [ArrayBuffer(fresh'.Reset(position, SIZEOF_PWARGS * num), position, num, [])], c.nextUnused + 1);
      } else {
        var b := c.arrays[c.nextUnused];
        b := b.(start := position, num := num, buffer := b.buffer.Reset(position, SIZEOF_PWARGS * num));
        c := Cache(c.arrays[c.nextUnused := b], c.nextUnused + 1);
      }
      ref := Cached(segment, c.nextUnused - 1);
      caches := caches[segment := c];
    }

    /**
      `allocatePWArgsBuffer`: an array of num records at address a. Only the views are recycled; a view meant for
      `GetDirectBufferAddress` is a slice of its own.
      */
    method AllocatePWArgsBuffer(heap: Heap, num: nat, getAddressCompatible: bool) returns (ref: ArrayRef, a: nat)
      requires Valid(heap) && num > 0
      modifies heap, recs`areas, recs`cur, recs`ranges, this`caches, this`firstUsed
      ensures Valid(heap) && Grows(old(Here(heap)), Here(heap), iset{}) && Keeps(old(caches), caches)
      ensures NULLPTR < a && a + SIZEOF_PWARGS * num <= |heap.mem|
      ensures Covers(Taken(old(Here(heap)), Here(heap)), a, SIZEOF_PWARGS * num)
      ensures RefAt(caches, ref, a, num) && ref != EmptyBuffer
      ensures BaseOf(recs.areas, ref) == if getAddressCompatible then a else recs.areas[recs.cur].base
      ensures recs.State() == Serve(old(recs.State()), Request(40 * num, 40 * num), recs.minSize)
      ensures firstUsed == if old(firstUsed) == -1 then recs.cur else old(firstUsed)
      ensures AreasKept(old(recs.areas), recs.areas)
      ensures recs.ranges == old(recs.ranges) + [Range(recs.cur, a, SIZEOF_PWARGS * num)]
      ensures a == AddressOf(recs.areas, PlaceOf(old(recs.State()), Request(40 * num, 40 * num), recs.minSize))
    {
      var position;
      ghost var areas := recs.areas;
      a, position := AllocateRange(heap, num);
      CachesKept(caches, areas, recs.areas);
      ExtendCaches();
      ghost var mid := caches;
      var area := recs.areas[recs.cur];
      assert AreaOk(recs, recs.cur, area, heap.owner);
      if getAddressCompatible {
        var slice := View(a, area.capacity - position, area.capacity - position, 0);
        ref := Own(ArrayBuffer(slice.Reset(0, SIZEOF_PWARGS * num), 0, num, []));
      } else {
        ref := TakeView(recs.cur, position, num);
        KeepsTrans(old(caches), mid, caches);
      }
      if firstUsed == -1 {
        firstUsed := recs.cur;
      }
    }

    /** `get(i)` on a reference. */
    method Get(ref: ArrayRef, i: nat, ghost a: nat, ghost num: nat) returns (slot: View)
      requires CachesOk(caches, recs.areas) && RefAt(caches, ref, a, num) && i < num
      modifies this`caches
      ensures CachesOk(caches, recs.areas) && Keeps(old(caches), caches)
      ensures slot.IsSlot(a + SIZEOF_PWARGS * i) && slot.base == BaseOf(recs.areas, ref)
    {
      match ref
      case Own(b) =>
        var b';
        b', slot := GetSlot(b, i);
      case Cached(s, k) =>
        assert CacheOk(caches[s], recs.areas[s]);
        var b;
        b, slot := GetSlot(caches[s].arrays[k], i);
        caches := caches[s := caches[s].(arrays := caches[s].arrays[k := b])];
    }

    /** `reset`: everything is open again and nothing of it is cleared; the recycled views keep their stale state. */
    method Reset(ghost heap: Heap)
      requires Valid(heap)
      modifies recs`areas, recs`cur, recs`ranges, strs`areas, strs`cur, strs`ranges, this`caches, this`firstUsed
      ensures Valid(heap) && firstUsed == -1 && recs.ranges == [] && strs.ranges == []
      ensures AreasKept(old(recs.areas), recs.areas) && AreasKept(old(strs.areas), strs.areas)
      ensures |recs.areas| == |old(recs.areas)| && |strs.areas| == |old(strs.areas)|
      ensures recs.State() == Bump(Caps(old(recs.areas)), 0, 0)
      ensures strs.State() == Bump(Caps(old(strs.areas)), 0, 0)
      ensures |caches| == |old(caches)| && forall s :: 0 <= s < |caches| ==> caches[s] == old(caches)[s].(nextUnused := 0)
    {
      ghost var areas := recs.areas;
      recs.Reset(heap);
      strs.Reset(heap);
      CachesKept(caches, areas, recs.areas);
      ResetCaches();
      firstUsed := -1;
    }

    /** The second half of `clear` for every record segment. */
    method ResetCaches()
      requires CachesOk(caches, recs.areas)
      modifies this`caches
      ensures CachesOk(caches, recs.areas)
      ensures |caches| == |old(caches)| && forall s :: 0 <= s < |caches| ==> caches[s] == old(caches)[s].(nextUnused := 0)
    {
      for s := 0 to |caches|
        invariant |caches| == |old(caches)| && CachesOk(caches, recs.areas)
        invariant forall i :: 0 <= i < |caches| ==>
          caches[i] == if i < s then old(caches)[i].(nextUnused := 0) else old(caches)[i]
      {
        assert CacheOk(caches[s], recs.areas[s]);
        caches := caches[s := caches[s].(nextUnused := 0)];
      }
    }

    /** `getFirstUsedPWArgsBuffer`: the address of the first segment used, or an exception. */
    method GetFirstUsedPWArgsBuffer(ghost heap: Heap) returns (r: Option<nat>)
      requires Valid(heap)
      ensures r.None? <==> firstUsed < 0
      ensures r.Some? ==> r.value == recs.areas[firstUsed].base
    {
      if firstUsed < 0 {
        return None;
      }
      return Some(recs.areas[firstUsed].base);
    }
  }

  lemma MultipleOfOne(n: nat)
    ensures Multiple(n, 1)
  {
    MultipleOf(n, 1);
  }

  lemma TextStored(m: seq<byte>, f: iset<int>, p: nat, s: seq<byte>)
    requires p + |s| + 1 <= |m| && m[p..p + |s| + 1] == s + [0] && Covers(f, p, |s| + 1)
    ensures StringAt(m, f, p, s)
  {
    assert m[p..p + |s| + 1][..|s|] == s && m[p..p + |s| + 1][|s|] == 0;
  }

  lemma CachesKept(cs: seq<Cache>, areas: seq<Area>, later: seq<Area>)
    requires CachesOk(cs, areas) && AreasKept(areas, later)
    ensures |cs| <= |later| && forall s :: 0 <= s < |cs| ==> CacheOk(cs[s], later[s])
  {
    forall s | 0 <= s < |cs| ensures CacheOk(cs[s], later[s]) {
      assert CacheOk(cs[s], areas[s]);
    }
  }
}
