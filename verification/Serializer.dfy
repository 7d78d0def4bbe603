/** `PWArgsBuffer` over an arena: names, scalars, strings and container records, as bytes in memory. */
module Serializer {
  import opened Common
  import opened Unicode
  import opened WafObjects
  import opened Records
  import opened Truncation
  import opened Bump
  import opened OffHeap
  import opened Arena
  import opened Layout

  /** `WafMetrics`, as far as serialization raises it. */
  class WafMetrics {
    var tooLong: nat
    var tooLarge: nat
    var tooDeep: nat

    ghost function Counted(): Counts
      reads this
    {
      Counts(tooLong, tooLarge, tooDeep)
    }

    constructor ()
      ensures Counted() == ZERO
    {
      tooLong, tooLarge, tooDeep := 0, 0, 0;
    }
  }

  // ---------------------------------------------------------------- stores through a view

  /** `putLong` and `putInt`: n bytes at the view's position, which the limit must leave room for. */
  method PutNumber(heap: Heap, slot: View, v: nat, n: nat) returns (next: View)
    requires heap.Valid() && slot.position + n <= slot.limit && slot.base + slot.position + n <= |heap.mem|
    requires v < Pow(256, n)
    modifies heap`mem
    ensures heap.Valid() && next == slot.(position := slot.position + n)
    ensures Stored(old(heap.mem), heap.mem, slot.base + slot.position, ToBytes(v, n))
    ensures Read(heap.mem, slot.base + slot.position, n) == v
  {
    var a := slot.base + slot.position;
    heap.Put(a, ToBytes(v, n));
    ReadWritten(heap.mem, a, n, v);
    next := slot.(position := slot.position + n);
  }

  lemma ReadElsewhere(m: seq<byte>, m': seq<byte>, a: nat, bytes: seq<byte>, p: nat, n: nat)
    requires Stored(m, m', a, bytes) && p + n <= |m| && (p + n <= a || a + |bytes| <= p)
    ensures Read(m', p, n) == Read(m, p, n)
  {
    ReadSame(m, m', p, n);
  }

  /** m' differs from m at most in n bytes at a. */
  ghost predicate OnlyAt(m: seq<byte>, m': seq<byte>, a: nat, n: nat) {
    |m'| == |m| && forall x :: 0 <= x < |m| && !(a <= x < a + n) ==> m'[x] == m[x]
  }

  lemma StoredTwice(m0: seq<byte>, m1: seq<byte>, m2: seq<byte>, a: nat, u: seq<byte>, v: seq<byte>)
    requires Stored(m0, m1, a, u) && Stored(m1, m2, a + |u|, v)
    ensures OnlyAt(m0, m2, a, |u| + |v|)
  {
  }

  /** The two `putLong`s of a parameter name. */
  method PutTwoLongs(heap: Heap, slot: View, v: uint64, w: uint64) returns (next: View)
    requires heap.Valid() && slot.position + 16 <= slot.limit && slot.base + slot.position + 16 <= |heap.mem|
    modifies heap`mem
    ensures heap.Valid() && next == slot.(position := slot.position + 16)
    ensures OnlyAt(old(heap.mem), heap.mem, slot.base + slot.position, 16)
    ensures Read(heap.mem, slot.base + slot.position, 8) == v
    ensures Read(heap.mem, slot.base + slot.position + 8, 8) == w
  {
    BytePowers();
    hide Read, Pow, ToBytes;
    var a := slot.base + slot.position;
    ghost var m0 := heap.mem;
    next := PutNumber(heap, slot, v, 8);
    ghost var m1 := heap.mem;
    next := PutNumber(heap, next, w, 8);
    ReadElsewhere(m1, heap.mem, a + 8, ToBytes(w, 8), a, 8);
    StoredTwice(m0, m1, heap.mem, a, ToBytes(v, 8), ToBytes(w, 8));
  }

  /** The value, the number of entries and the type of a record, after its name. */
  method PutTail(heap: Heap, slot: View, value: uint64, entries: uint64, typ: nat, ghost a: nat)
    requires heap.Valid() && slot.base + slot.position == a + 16 && slot.position + 24 == slot.limit
    requires a + 40 <= |heap.mem| && typ < 0x100
    modifies heap`mem
    ensures heap.Valid() && OnlyAt(old(heap.mem), heap.mem, a + 16, 20)
    ensures TailAt(heap.mem, a, value, entries, typ)
  {
    BytePowers();
    hide Read, Pow, ToBytes;
    ghost var m0 := heap.mem;
    var next := PutTwoLongs(heap, slot, value, entries);
    ghost var m1 := heap.mem;
    next := PutNumber(heap, next, typ, 4);
    ReadElsewhere(m1, heap.mem, a + 32, ToBytes(typ, 4), a + 16, 8);
    ReadElsewhere(m1, heap.mem, a + 32, ToBytes(typ, 4), a + 24, 8);
  }

  /** An address as the long it is stored as. */
  function AsLong(p: nat): (v: uint64)
    ensures p < 0x1_0000_0000_0000_0000 ==> v == p
  {
    p % 0x1_0000_0000_0000_0000
  }

  // ---------------------------------------------------------------- records

  /** A store into the record at a is a step that writes only that record. */
  lemma StoreStep(w: World, m': seq<byte>, a: nat, lo: nat, n: nat)
    requires OnlyAt(w.mem, m', a + lo, n) && lo + n <= 40 && WorldOk(w)
    ensures Grows(w, w.(mem := m'), Span(a, 40))
  {
  }

  /** The bytes handed out since w0 are not those of a record handed out before. */
  lemma StoreKeeps(w0: World, w1: World, m': seq<byte>, a: nat, lo: nat, n: nat)
    requires OnlyAt(w1.mem, m', a + lo, n) && lo + n <= 40 && |w0.mem| <= |w1.mem|
    requires Owned(w0, a, 40) && WorldOk(w0)
    ensures Agree(w1.mem, m', Taken(w0, w1))
    ensures Agree(w1.mem, m', Taken(w0, w1) + Span(a, lo))
    ensures Taken(w0, w1.(mem := m')) == Taken(w0, w1)
  {
  }

  /** The two longs of a name, as a step of the arena. */
  method StoreName(heap: Heap, arena: Arena, slot: View, p: uint64, n: uint64, ghost a: nat) returns (next: View)
    requires arena.Valid(heap) && slot.IsSlot(a) && a + 40 <= |heap.mem|
    modifies heap`mem
    ensures arena.Valid(heap) && arena.Here(heap) == old(arena.Here(heap)).(mem := heap.mem)
    ensures next == slot.(position := slot.position + 16)
    ensures OnlyAt(old(heap.mem), heap.mem, a + 0, 16)
    ensures Read(heap.mem, a, 8) == p && Read(heap.mem, a + 8, 8) == n
  {
    hide Read, Pow, OpenOf, ListOk, CachesOk;
    next := PutTwoLongs(heap, slot, p, n);
  }

  /** The tail of a record, as a step of the arena. */
  method StoreTail(heap: Heap, arena: Arena, slot: View, value: uint64, entries: uint64, typ: nat, ghost a: nat)
    requires arena.Valid(heap) && slot.IsSlot(a) && a + 40 <= |heap.mem| && typ < 0x100
    modifies heap`mem
    ensures arena.Valid(heap) && arena.Here(heap) == old(arena.Here(heap)).(mem := heap.mem)
    ensures OnlyAt(old(heap.mem), heap.mem, a + 16, 20) && TailAt(heap.mem, a, value, entries, typ)
  {
    hide TailAt, OpenOf, ListOk, CachesOk;
    PutTail(heap, slot.(position := slot.position + 16), value, entries, typ, a);
  }

  /** What the world of an arena is made of. */
  lemma WorldOf(arena: Arena, heap: Heap)
    requires arena.Valid(heap)
    ensures arena.Here(heap).mem == heap.mem && WorldOk(arena.Here(heap)) && arena.recs != arena.strs
    ensures arena.strs.cur < |arena.strs.areas| && arena.strs.State().Ok()
    ensures arena.recs.cur < |arena.recs.areas| && arena.recs.State().Ok()
  {
    assert AreaOk(arena.strs, arena.strs.cur, arena.strs.areas[arena.strs.cur], heap.owner);
    assert AreaOk(arena.recs, arena.recs.cur, arena.recs.areas[arena.recs.cur], heap.owner);
  }

  /** The string segments have served the requests, in order. */
  ghost predicate StringsServed(b: Bump, b': Bump, rs: seq<Request>, min: nat) {
    b.Ok() && AllProper(rs) && b' == Run(b, rs, min)
  }

  /** The record segments have served one array of n records. */
  ghost predicate RecordsServed(b: Bump, b': Bump, n: nat, min: nat) {
    b.Ok() && b' == Serve(b, Arena.RecordRequest(n), min)
  }

  lemma OneArray(b: Bump, n: nat, min: nat)
    requires b.Ok()
    ensures RecordsServed(b, Serve(b, Arena.RecordRequest(n), min), n, min)
    ensures Arena.RecordRequest(n) == Request(40 * n, 40 * n)
  {
  }

  lemma NoStrings(b: Bump, min: nat)
    requires b.Ok()
    ensures StringsServed(b, b, [], min)
  {
  }

  lemma OneString(b: Bump, s: JavaString, min: nat)
    requires b.Ok()
    ensures StringsServed(b, Serve(b, StringRequest(s), min), [StringRequest(s)], min)
  {
    hide Serve;
    RunOne(b, StringRequest(s), min);
  }

  lemma OneStringMore(b: Bump, b': Bump, rs: seq<Request>, s: JavaString, min: nat)
    requires StringsServed(b, b', rs, min) && b'.Ok()
    ensures StringsServed(b, Serve(b', StringRequest(s), min), rs + [StringRequest(s)], min)
  {
    hide Serve, Run;
    RunThenServe(b, rs, StringRequest(s), min);
  }

  lemma OwnedBound(w: World, a: nat, n: nat)
    requires Owned(w, a, n)
    ensures a + n <= |w.mem|
  {
  }

  /** `putParameterName`: two zeros for null, otherwise the address and the length of the encoded name. */
  method PutParameterName(heap: Heap, arena: Arena, slot: View, name: Option<JavaString>, ghost a: nat)
    returns (ok: bool)
    requires arena.Valid(heap) && slot.IsSlot(a) && Owned(arena.Here(heap), a, 40)
    modifies heap, arena.strs`areas, arena.strs`cur, arena.strs`ranges
    ensures AreasKept(old(arena.strs.areas), arena.strs.areas)
    ensures arena.Valid(heap) && Grows(old(arena.Here(heap)), arena.Here(heap), Span(a, 40))
    ensures ok <==> NameStorable(name)
    ensures ok && heap.Addressable() ==>
      HeadAt(heap.mem, Taken(old(arena.Here(heap)), arena.Here(heap)), a, NameBytesOf(name))
    ensures ok ==> StringsServed(old(arena.strs.State()), arena.strs.State(), NameRequests(name), arena.strs.minSize)
  {
    hide Arena.Valid, Arena.Here, Serve, Utf16ToUtf8, Owned, Grows, Taken;
    WorldOf(arena, heap);
    if name.None? {
      ghost var w0 := arena.Here(heap);
      OwnedBound(w0, a, 40);
      NoStrings(arena.strs.State(), arena.strs.minSize);
      var _ := StoreName(heap, arena, slot, 0, 0, a);
      StoreStep(w0, heap.mem, a, 0, 16);
      return true;
    }
    ok := PutName(heap, arena, slot, name.value, a);
  }

  lemma AddressableIs(heap: Heap)
    ensures heap.Addressable() <==> |heap.mem| <= 0x1_0000_0000_0000_0000
  {
  }

  lemma AddressFits(heap: Heap, p: nat)
    requires heap.Addressable() && p < |heap.mem|
    ensures AsLong(p) == p
  {
  }

  lemma GrowsWider(w: World, w': World, e: iset<int>, f: iset<int>)
    requires Grows(w, w', e) && e <= f
    ensures Grows(w, w', f)
  {
  }

  /** The name of a record: the text, then the two longs. */
  lemma NameRecord(w0: World, w1: World, m': seq<byte>, a: nat, p: uint64, s: seq<byte>)
    requires WorldOk(w0) && Owned(w0, a, 40) && Grows(w0, w1, iset{})
    requires OnlyAt(w1.mem, m', a + 0, 16) && StringAt(w1.mem, Taken(w0, w1), p, s)
    requires Read(m', a, 8) == p && Read(m', a + 8, 8) == |s| && 0 < p && a + 40 <= |m'|
    ensures HeadAt(m', Taken(w0, w1.(mem := m')), a, Some(s))
  {
    hide StringAt, Read;
    StoreKeeps(w0, w1, m', a, 0, 16);
    StringKept(w1.mem, m', Taken(w0, w1), Taken(w0, w1), p, s);
  }

  method PutName(heap: Heap, arena: Arena, slot: View, name: JavaString, ghost a: nat) returns (ok: bool)
    requires arena.Valid(heap) && slot.IsSlot(a) && Owned(arena.Here(heap), a, 40)
    modifies heap, arena.strs`areas, arena.strs`cur, arena.strs`ranges
    ensures AreasKept(old(arena.strs.areas), arena.strs.areas)
    ensures arena.Valid(heap) && Grows(old(arena.Here(heap)), arena.Here(heap), Span(a, 40))
    ensures ok <==> Storable(name)
    ensures ok && heap.Addressable() ==>
      HeadAt(heap.mem, Taken(old(arena.Here(heap)), arena.Here(heap)), a, Some(Utf16ToUtf8(name)))
    ensures ok ==> StringsServed(old(arena.strs.State()), arena.strs.State(), [StringRequest(name)], arena.strs.minSize)
  {
    hide *;
    ghost var w0 := arena.Here(heap);
    WorldOf(arena, heap);
    OneString(arena.strs.State(), name, arena.strs.minSize);
    var written := arena.WriteStringUnlimited(heap, name);
    ghost var w1 := arena.Here(heap);
    WorldOf(arena, heap);
    GrowsWider(w0, w1, iset{}, Span(a, 40));
    if written.None? {
      return false;
    }
    OwnedLater(w0, w1, iset{}, a, 40);
    OwnedBound(w1, a, 40);
    var next := StoreName(heap, arena, slot, AsLong(written.value.0), written.value.1, a);
    StoreStep(w1, heap.mem, a, 0, 16);
    GrowsTrans(w0, w1, arena.Here(heap), Span(a, 40), Span(a, 40));
    if heap.Addressable() {
      AddressFits(heap, written.value.0);
      SameSize(w1.mem, heap.mem, a + 0, 16);
      NameRecord(w0, w1, heap.mem, a, AsLong(written.value.0), Utf16ToUtf8(name));
    }
    ok := true;
  }

  /** The addresses one record and what it refers to have taken between two moments. */
  ghost function Footprint(a: nat, w: World, w': World): iset<int> {
    Span(a, 40) + Taken(w, w')
  }

  /** The record is finished by its tail: the name it already has stays. */
  lemma TailAfterName(w0: World, w1: World, m': seq<byte>, a: nat, name: Option<seq<byte>>)
    requires OnlyAt(w1.mem, m', a + 16, 20) && |w0.mem| <= |w1.mem| && Owned(w0, a, 40) && WorldOk(w0)
    requires HeadAt(w1.mem, Taken(w0, w1), a, name)
    ensures HeadAt(m', Footprint(a, w0, w1.(mem := m')), a, name)
    ensures Covers(Footprint(a, w0, w1.(mem := m')), a, 40)
  {
    hide HeadAt;
    StoreKeeps(w0, w1, m', a, 16, 20);
    HeadKept(w1.mem, m', Taken(w0, w1), Footprint(a, w0, w1.(mem := m')), a, name);
  }

  lemma GrowsSize(w: World, w': World, e: iset<int>)
    requires Grows(w, w', e)
    ensures |w.mem| <= |w'.mem|
  {
  }

  lemma ScalarRecord(w0: World, w1: World, m': seq<byte>, a: nat, name: Option<seq<byte>>, k: Kind)
    requires OnlyAt(w1.mem, m', a + 16, 20) && |w0.mem| <= |w1.mem| && Owned(w0, a, 40) && WorldOk(w0)
    requires HeadAt(w1.mem, Taken(w0, w1), a, name) && TailAt(m', a, FieldOf(k), 0, TypeCode(k)) && !k.Str?
    ensures ObjectAt(m', Footprint(a, w0, w1.(mem := m')), a, WafObject(name, k, []))
  {
    hide *;
    TailAfterName(w0, w1, m', a, name);
    ScalarObject(m', Footprint(a, w0, w1.(mem := m')), a, name, k);
  }

  /**
    `writeNull`, `writeBool`, `writeLong`, `writeDouble`, and `writeArray` and `writeMap` of no elements: the name,
    then the value, no entries and the type.
    */
  method WriteScalar(heap: Heap, arena: Arena, slot: View, name: Option<JavaString>, kind: Kind, ghost a: nat)
    returns (ok: bool)
    requires arena.Valid(heap) && slot.IsSlot(a) && Owned(arena.Here(heap), a, 40) && !kind.Str?
    modifies heap, arena.strs`areas, arena.strs`cur, arena.strs`ranges
    ensures AreasKept(old(arena.strs.areas), arena.strs.areas)
    ensures arena.Valid(heap) && Grows(old(arena.Here(heap)), arena.Here(heap), Span(a, 40))
    ensures ok <==> NameStorable(name)
    ensures ok && heap.Addressable() ==>
      ObjectAt(heap.mem, Footprint(a, old(arena.Here(heap)), arena.Here(heap)), a,
               WafObject(NameBytesOf(name), kind, []))
    ensures ok ==> StringsServed(old(arena.strs.State()), arena.strs.State(), NameRequests(name), arena.strs.minSize)
  {
    hide *;
    ghost var w0 := arena.Here(heap);
    WorldOf(arena, heap);
    ok := PutParameterName(heap, arena, slot, name, a);
    ghost var w1 := arena.Here(heap);
    WorldOf(arena, heap);
    if !ok {
      return;
    }
    GrowsSize(w0, w1, Span(a, 40));
    OwnedBound(w0, a, 40);
    CodeIsSmall(kind);
    AddressableIs(heap);
    StoreTail(heap, arena, slot, FieldOf(kind), 0, TypeCode(kind), a);
    StoreStep(w1, heap.mem, a, 16, 20);
    GrowsTrans(w0, w1, arena.Here(heap), Span(a, 40), Span(a, 40));
    SameSize(w1.mem, heap.mem, a + 16, 20);
    AddressableIs(heap);
    if heap.Addressable() {
      ScalarRecord(w0, w1, heap.mem, a, NameBytesOf(name), kind);
    }
  }

  lemma SameSize(m: seq<byte>, m': seq<byte>, a: nat, n: nat)
    requires OnlyAt(m, m', a, n)
    ensures |m'| == |m|
  {
  }

  lemma CodeIsSmall(kind: Kind)
    ensures TypeCode(kind) < 0x100
  {
  }

  /** A step that writes only open addresses leaves the name of a record alone. */
  lemma NameKeptOver(w0: World, w1: World, w2: World, a: nat, name: Option<seq<byte>>)
    requires WorldOk(w0) && WorldOk(w1) && Owned(w0, a, 40)
    requires Grows(w0, w1, Span(a, 40)) && Grows(w1, w2, iset{})
    requires HeadAt(w1.mem, Taken(w0, w1), a, name)
    ensures HeadAt(w2.mem, Taken(w0, w2), a, name)
  {
    hide HeadAt;
    OwnedLater(w0, w1, Span(a, 40), a, 40);
    TakenMore(w0, w1, w2, Span(a, 40), iset{});
    AgreeOutside(w1, w2, iset{}, Taken(w0, w1) + Span(a, 16));
    HeadKept(w1.mem, w2.mem, Taken(w0, w1), Taken(w0, w2), a, name);
  }

  /** A string record: the name, then the text, then the tail. */
  lemma StringRecord(w0: World, w1: World, w2: World, m': seq<byte>, a: nat, name: Option<seq<byte>>, p: uint64, s: seq<byte>)
    requires WorldOk(w0) && WorldOk(w1) && Owned(w0, a, 40)
    requires Grows(w0, w1, Span(a, 40)) && Grows(w1, w2, iset{}) && OnlyAt(w2.mem, m', a + 16, 20)
    requires HeadAt(w1.mem, Taken(w0, w1), a, name) && StringAt(w2.mem, Taken(w1, w2), p, s)
    requires |s| < 0x1_0000_0000_0000_0000 && TailAt(m', a, p, |s|, 4)
    ensures ObjectAt(m', Footprint(a, w0, w2.(mem := m')), a, WafObject(name, Str(s), []))
  {
    hide HeadAt, TailAt, StringAt, ObjectAt;
    NameKeptOver(w0, w1, w2, a, name);
    TakenMore(w0, w1, w2, Span(a, 40), iset{});
    TailAfterName(w0, w2, m', a, name);
    StoreKeeps(w0, w2, m', a, 16, 20);
    AgreeLess(w2.mem, m', Taken(w0, w2), Taken(w1, w2));
    StringKept(w2.mem, m', Taken(w1, w2), Footprint(a, w0, w2.(mem := m')), p, s);
    StringObject(m', Footprint(a, w0, w2.(mem := m')), a, name, p, s);
  }

  lemma AgreeLess(m: seq<byte>, m': seq<byte>, f: iset<int>, g: iset<int>)
    requires Agree(m, m', f) && g <= f
    ensures Agree(m, m', g)
  {
  }

  /** `writeString`. */
  method WriteString(heap: Heap, arena: Arena, slot: View, name: Option<JavaString>, value: JavaString, ghost a: nat)
    returns (ok: bool)
    requires arena.Valid(heap) && slot.IsSlot(a) && Owned(arena.Here(heap), a, 40)
    modifies heap, arena.strs`areas, arena.strs`cur, arena.strs`ranges
    ensures AreasKept(old(arena.strs.areas), arena.strs.areas)
    ensures arena.Valid(heap) && Grows(old(arena.Here(heap)), arena.Here(heap), Span(a, 40))
    ensures ok <==> NameStorable(name) && Storable(value)
    ensures ok && heap.Addressable() ==>
      ObjectAt(heap.mem, Footprint(a, old(arena.Here(heap)), arena.Here(heap)), a,
               WafObject(NameBytesOf(name), Str(Utf16ToUtf8(value)), []))
    ensures ok ==> StringsServed(old(arena.strs.State()), arena.strs.State(),
                                 NameRequests(name) + [StringRequest(value)], arena.strs.minSize)
  {
    hide *;
    WorldOf(arena, heap);
    ghost var w0, s0, areas := arena.Here(heap), arena.strs.State(), arena.strs.areas;
    ok := PutParameterName(heap, arena, slot, name, a);
    WorldOf(arena, heap);
    ghost var w1, s1 := arena.Here(heap), arena.strs.State();
    AddressableIs(heap);
    if !ok {
      return;
    }
    ghost var mid := arena.strs.areas;
    var written := arena.WriteStringUnlimited(heap, value);
    AreasKeptTrans(areas, mid, arena.strs.areas);
    ghost var w2 := arena.Here(heap);
    WorldOf(arena, heap);
    AddressableIs(heap);
    GrowsTrans(w0, w1, w2, Span(a, 40), iset{});
    GrowsSize(w1, w2, iset{});
    if written.None? {
      return false;
    }
    OneStringMore(s0, s1, NameRequests(name), value, arena.strs.minSize);
    OwnedLater(w0, w2, Span(a, 40), a, 40);
    OwnedBound(w2, a, 40);
    StoreTail(heap, arena, slot, AsLong(written.value.0), written.value.1, 4, a);
    StoreStep(w2, heap.mem, a, 16, 20);
    GrowsTrans(w0, w2, arena.Here(heap), Span(a, 40), Span(a, 40));
    SameSize(w2.mem, heap.mem, a + 16, 20);
    AddressableIs(heap);
    if heap.Addressable() {
      AddressFits(heap, written.value.0);
      StringRecord(w0, w1, w2, heap.mem, a, NameBytesOf(name), AsLong(written.value.0), Utf16ToUtf8(value));
    }
  }

  // ---------------------------------------------------------------- containers

  /** What is taken between two moments, an array of records apart. */
  ghost function Beside(w: World, w': World, addr: nat, n: nat): iset<int> {
    Taken(w, w') - Span(addr, n)
  }

  /** The name of a container record, once the array of its entries is handed out and its tail is written. */
  lemma HeaderRecord(w0: World, w1: World, w2: World, m': seq<byte>, a: nat, name: Option<seq<byte>>, addr: nat, n: nat)
    requires WorldOk(w0) && WorldOk(w1) && Owned(w0, a, 40)
    requires Grows(w0, w1, Span(a, 40)) && Grows(w1, w2, iset{}) && OnlyAt(w2.mem, m', a + 16, 20)
    requires HeadAt(w1.mem, Taken(w0, w1), a, name) && Covers(Taken(w1, w2), addr, n)
    ensures HeadAt(m', Beside(w0, w2.(mem := m'), addr, n), a, name)
  {
    hide HeadAt;
    OwnedLater(w0, w1, Span(a, 40), a, 40);
    TakenMore(w0, w1, w2, Span(a, 40), iset{});
    var f := Taken(w0, w1);
    AgreeOutside(w1, w2, iset{}, f + Span(a, 16));
    StoreKeeps(w0, w2, m', a, 16, 20);
    NameBesideArray(w0, w1, w2, addr, n);
    assert Agree(w1.mem, m', f + Span(a, 16));
    HeadKept(w1.mem, m', f, Beside(w0, w2.(mem := m'), addr, n), a, name);
  }

  lemma NameBesideArray(w0: World, w1: World, w2: World, addr: nat, n: nat)
    requires WorldOk(w0) && WorldOk(w1) && |w0.mem| <= |w1.mem|
    requires Taken(w0, w1) <= Taken(w0, w2) && Covers(Taken(w1, w2), addr, n)
    ensures Taken(w0, w1) <= Beside(w0, w2, addr, n)
  {
    SpanTaken(w1, w2, addr, n);
  }

  /** `writeArray` and `writeMap` of n elements: the record, and an array for the elements that is not yet written. */
  method WriteArrayOrMap(heap: Heap, arena: Arena, slot: View, name: Option<JavaString>, n: nat, kind: Kind, ghost a: nat)
    returns (ok: bool, ref: ArrayRef, addr: nat)
    requires arena.Valid(heap) && slot.IsSlot(a) && Owned(arena.Here(heap), a, 40)
    requires 0 < n <= INT_MAX && IsContainer(kind)
    modifies heap, arena.recs`areas, arena.recs`cur, arena.recs`ranges, arena.strs`areas, arena.strs`cur, arena.strs`ranges
    modifies arena`caches, arena`firstUsed
    ensures AreasKept(old(arena.strs.areas), arena.strs.areas)
    ensures arena.Valid(heap) && Keeps(old(arena.caches), arena.caches)
    ensures Grows(old(arena.Here(heap)), arena.Here(heap), Span(a, 40))
    ensures ok <==> NameStorable(name)
    ensures ok ==>
      && RefAt(arena.caches, ref, addr, n) && Owned(arena.Here(heap), addr, 40 * n) && addr < |heap.mem|
      && Covers(Taken(old(arena.Here(heap)), arena.Here(heap)), addr, 40 * n)
    ensures ok && heap.Addressable() ==>
      && HeadAt(heap.mem, Beside(old(arena.Here(heap)), arena.Here(heap), addr, 40 * n), a, NameBytesOf(name))
      && TailAt(heap.mem, a, AsLong(addr), n, TypeCode(kind))
    ensures ok ==> StringsServed(old(arena.strs.State()), arena.strs.State(), NameRequests(name), arena.strs.minSize)
    ensures ok ==> RecordsServed(old(arena.recs.State()), arena.recs.State(), n, arena.recs.minSize)
    ensures AreasKept(old(arena.recs.areas), arena.recs.areas) && old(arena.recs.ranges) <= arena.recs.ranges
    ensures ok ==> Range(arena.recs.cur, addr, 40 * n) in arena.recs.ranges
    ensures old(arena.firstUsed) != -1 ==> arena.firstUsed == old(arena.firstUsed)
  {
    hide *;
    RecordSize();
    ref, addr := EmptyBuffer, 0;
    ghost var w0, c0 := arena.Here(heap), arena.caches;
    WorldOf(arena, heap);
    KeepsRefl(c0);
    AreasKeptRefl(arena.recs.areas);
    ok := PutParameterName(heap, arena, slot, name, a);
    ghost var w1 := arena.Here(heap);
    WorldOf(arena, heap);
    AddressableIs(heap);
    if !ok {
      return;
    }
    OwnedLater(w0, w1, Span(a, 40), a, 40);
    ghost var w2;
    ref, addr, w2 := WriteEntries(heap, arena, slot, n, kind, a);
    WorldOf(arena, heap);
    AddressableIs(heap);
    GrowsSize(w1, w2, iset{});
    GrowsTrans(w0, w1, arena.Here(heap), Span(a, 40), Span(a, 40));
    ArrayTaken(w0, w1, w2, heap.mem, Span(a, 40), addr, 40 * n);
    if heap.Addressable() {
      HeaderRecord(w0, w1, w2, heap.mem, a, NameBytesOf(name), addr, 40 * n);
    }
  }

  /** An array of n records, and the tail of the container record that refers to it. */
  method WriteEntries(heap: Heap, arena: Arena, slot: View, n: nat, kind: Kind, ghost a: nat)
    returns (ref: ArrayRef, addr: nat, ghost mid: World)
    requires arena.Valid(heap) && slot.IsSlot(a) && Owned(arena.Here(heap), a, 40) && 0 < n <= INT_MAX
    modifies heap, arena.recs`areas, arena.recs`cur, arena.recs`ranges, arena`caches, arena`firstUsed
    ensures arena.Valid(heap) && Keeps(old(arena.caches), arena.caches) && arena.Here(heap) == mid.(mem := heap.mem)
    ensures Grows(old(arena.Here(heap)), mid, iset{}) && Grows(old(arena.Here(heap)), arena.Here(heap), Span(a, 40))
    ensures Covers(Taken(old(arena.Here(heap)), mid), addr, 40 * n) && addr + 40 * n <= |heap.mem|
    ensures |mid.mem| == |heap.mem| && OnlyAt(mid.mem, heap.mem, a + 16, 20)
    ensures TailAt(heap.mem, a, AsLong(addr), n, TypeCode(kind))
    ensures RefAt(arena.caches, ref, addr, n)
    ensures RecordsServed(old(arena.recs.State()), arena.recs.State(), n, arena.recs.minSize)
    ensures AreasKept(old(arena.recs.areas), arena.recs.areas)
    ensures arena.recs.ranges == old(arena.recs.ranges) + [Range(arena.recs.cur, addr, 40 * n)]
    ensures old(arena.firstUsed) != -1 ==> arena.firstUsed == old(arena.firstUsed)
  {
    hide *;
    RecordSize();
    ghost var w1, b := arena.Here(heap), arena.recs.State();
    WorldOf(arena, heap);
    ref, addr := arena.AllocatePWArgsBuffer(heap, n, false);
    OneArray(b, n, arena.recs.minSize);
    mid := arena.Here(heap);
    WorldOf(arena, heap);
    OwnedLater(w1, mid, iset{}, a, 40);
    OwnedBound(mid, a, 40);
    CodeIsSmall(kind);
    StoreTail(heap, arena, slot, AsLong(addr), n, TypeCode(kind), a);
    StoreStep(mid, heap.mem, a, 16, 20);
    GrowsWider(w1, mid, iset{}, Span(a, 40));
    GrowsTrans(w1, mid, arena.Here(heap), Span(a, 40), Span(a, 40));
    SameSize(mid.mem, heap.mem, a + 16, 20);
  }

  lemma RecordSize()
    ensures SIZEOF_PWARGS == 40 && INT_MAX < 0x1_0000_0000_0000_0000
  {
  }

  lemma KeepsRefl(cs: seq<Cache>)
    ensures Keeps(cs, cs)
  {
  }

  lemma ArrayTaken(w0: World, w1: World, w2: World, m': seq<byte>, e: iset<int>, addr: nat, n: nat)
    requires WorldOk(w0) && WorldOk(w1) && Grows(w0, w1, e) && Grows(w1, w2, iset{})
    requires |m'| == |w2.mem| && addr + n <= |m'| && Covers(Taken(w1, w2), addr, n)
    ensures Owned(w2.(mem := m'), addr, n) && Covers(Taken(w0, w2.(mem := m')), addr, n)
  {
    TakenMore(w0, w1, w2, e, iset{});
    forall x | addr <= x < addr + n ensures x in Taken(w0, w2.(mem := m')) && x !in w2.open {
      assert x in Taken(w1, w2);
    }
  }

  /** A container record is an object once all its entries are. */
  lemma ContainerRecord(w0: World, w1: World, w2: World, a: nat, name: Option<seq<byte>>, k: Kind, addr: nat, os: seq<WafObject>)
    requires WorldOk(w0) && WorldOk(w1) && Owned(w0, a, 40) && IsContainer(k) && |os| <= INT_MAX
    requires Grows(w0, w1, Span(a, 40)) && Grows(w1, w2, Span(addr, 40 * |os|))
    requires Covers(Taken(w0, w1), addr, 40 * |os|)
    requires HeadAt(w1.mem, Beside(w0, w1, addr, 40 * |os|), a, name) && AsLong(addr) == addr
    requires TailAt(w1.mem, a, addr, |os|, TypeCode(k))
    requires ObjectsAt(w2.mem, Span(addr, 40 * |os|) + Taken(w1, w2), addr, os) && (os == [] ==> addr == 0)
    ensures ObjectAt(w2.mem, Footprint(a, w0, w2), a, WafObject(name, k, os))
  {
    hide *;
    RecordSize();
    var n := 40 * |os|;
    var b, f, inside := Beside(w0, w1, addr, n), Footprint(a, w0, w2), Span(addr, n) + Taken(w1, w2);
    ContainerSets(w0, w1, w2, a, addr, n);
    FieldsKept(w1.mem, w2.mem, b, f, a, name, addr, |os|, TypeCode(k));
    AgreeSelf(w2.mem, inside);
    ObjectsKept(w2.mem, w2.mem, inside, f, addr, os);
    ContainerObject(w2.mem, f, a, name, k, addr, os);
  }

  lemma FieldsKept(m: seq<byte>, m': seq<byte>, b: iset<int>, f: iset<int>, a: nat, name: Option<seq<byte>>,
                   value: uint64, entries: uint64, typ: nat)
    requires Agree(m, m', b + Span(a, 40)) && b <= f && HeadAt(m, b, a, name) && TailAt(m, a, value, entries, typ)
    ensures HeadAt(m', f, a, name) && TailAt(m', a, value, entries, typ)
  {
    assert Span(a, 16) <= Span(a, 40) && Span(a + 16, 20) <= Span(a, 40);
    hide *;
    AgreeLess(m, m', b + Span(a, 40), b + Span(a, 16));
    AgreeLess(m, m', b + Span(a, 40), Span(a + 16, 20));
    HeadKept(m, m', b, f, a, name);
    TailKept(m, m', a, value, entries, typ);
  }

  /** Where the parts of a container lie. */
  lemma ContainerSets(w0: World, w1: World, w2: World, a: nat, addr: nat, n: nat)
    requires WorldOk(w0) && WorldOk(w1) && Owned(w0, a, 40)
    requires Grows(w0, w1, Span(a, 40)) && Grows(w1, w2, Span(addr, n))
    requires Covers(Taken(w0, w1), addr, n)
    ensures Agree(w1.mem, w2.mem, Beside(w0, w1, addr, n) + Span(a, 40))
    ensures Beside(w0, w1, addr, n) <= Footprint(a, w0, w2) && Covers(Footprint(a, w0, w2), a, 40)
    ensures Span(addr, n) + Taken(w1, w2) <= Footprint(a, w0, w2)
    ensures Span(a, 16) <= Span(a, 40) && Span(a + 16, 20) <= Span(a, 40)
  {
    OwnedLater(w0, w1, Span(a, 40), a, 40);
    TakenMore(w0, w1, w2, Span(a, 40), Span(addr, n));
    HeadSafe(w0, w1, a, addr, n);
    AgreeOutside(w1, w2, Span(addr, n), Beside(w0, w1, addr, n) + Span(a, 40));
    SpanTaken(w0, w1, addr, n);
  }

  lemma SpanTaken(w0: World, w1: World, addr: nat, n: nat)
    requires Covers(Taken(w0, w1), addr, n)
    ensures Span(addr, n) <= Taken(w0, w1)
  {
  }

  /** The container's own record and its name are out of the way of the entries. */
  lemma HeadSafe(w0: World, w1: World, a: nat, addr: nat, n: nat)
    requires WorldOk(w0) && Owned(w0, a, 40) && Owned(w1, a, 40) && |w0.mem| <= |w1.mem|
    requires Covers(Taken(w0, w1), addr, n)
    ensures forall x :: x in Beside(w0, w1, addr, n) + Span(a, 40) ==>
              0 <= x < |w1.mem| && x !in w1.open && x !in Span(addr, n)
  {
    SpanTaken(w0, w1, addr, n);
  }
}
