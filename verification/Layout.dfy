/** How records, strings and arrays of records written one after another add up to objects in memory. */
module Layout {
  import opened Common
  import opened WafObjects
  import opened Records
  import opened OffHeap

  predicate InSpan(x: int, a: int, n: int) { a <= x < a + n }

  ghost function Span(a: int, n: int): iset<int> {
    iset x: int | InSpan(x, a, n)
  }

  ghost predicate WorldOk(w: World) {
    && |w.owner| == |w.mem|
    && forall x :: x in w.open ==> 0 <= x < |w.mem| && w.owner[x].list in w.lists
  }

  /** A range that has been handed out before w. */
  ghost predicate Owned(w: World, a: nat, n: nat) {
    a + n <= |w.mem| && forall x :: a <= x < a + n ==> x !in w.open
  }

  /** The objects of an array of records at addr. */
  ghost predicate ObjectsAt(m: seq<byte>, f: iset<int>, addr: nat, os: seq<WafObject>) {
    forall j :: 0 <= j < |os| ==> ObjectAt(m, f, addr + 40 * j, os[j])
  }

  /** Two steps, where the second writes what the first handed out or what extra allows. */
  lemma Then(a: World, b: World, c: World, e: iset<int>, f: iset<int>)
    requires Grows(a, b, e) && Grows(b, c, f)
    requires forall x :: x in f ==> x in e || x in Taken(a, b)
    ensures Grows(a, c, e)
  {
    GrowsTrans(a, b, c, e, f);
  }

  lemma TakenMore(a: World, b: World, c: World, e: iset<int>, f: iset<int>)
    requires Grows(a, b, e) && Grows(b, c, f) && WorldOk(a) && WorldOk(b)
    ensures Taken(a, b) <= Taken(a, c) && Taken(b, c) <= Taken(a, c)
  {
    forall x | x in Taken(a, b) ensures x in Taken(a, c) {
    }
    forall x | x in Taken(b, c) ensures x in Taken(a, c) {
      assert x in b.open || |b.mem| <= x;
    }
  }

  lemma OwnedLater(a: World, b: World, e: iset<int>, p: nat, n: nat)
    requires Grows(a, b, e) && Owned(a, p, n)
    ensures Owned(b, p, n)
  {
  }

  lemma TakenOwned(a: World, b: World, p: nat, n: nat)
    requires WorldOk(a) && |a.mem| <= |b.mem| && p + n <= |b.mem| && Covers(Taken(a, b), p, n)
    ensures Owned(b, p, n)
  {
    forall x | p <= x < p + n ensures x !in b.open {
      assert x in Taken(a, b);
    }
  }

  /** The first i records of an array, and all that was handed out since, are out of the way of record i. */
  lemma DoneIsSafe(w0: World, w: World, addr: nat, n: nat, i: nat)
    requires WorldOk(w0) && Grows(w0, w, Span(addr, 40 * n)) && i < n && Owned(w0, addr, 40 * n)
    ensures forall x :: x in Span(addr, 40 * i) + Taken(w0, w) ==>
              0 <= x < |w.mem| && x !in w.open && x !in Span(addr + 40 * i, 40)
  {
  }

  /**
    Record number i of an array is written after the first i. They stay, because the step writes only its own record
    and addresses that were still open.
    */
  lemma Proceed(w0: World, w: World, w': World, addr: nat, n: nat, os: seq<WafObject>, o: WafObject)
    requires WorldOk(w0) && WorldOk(w) && |os| < n && Owned(w0, addr, 40 * n)
    requires Grows(w0, w, Span(addr, 40 * n)) && Grows(w, w', Span(addr + 40 * |os|, 40))
    requires ObjectsAt(w.mem, Span(addr, 40 * |os|) + Taken(w0, w), addr, os)
    requires ObjectAt(w'.mem, Span(addr + 40 * |os|, 40) + Taken(w, w'), addr + 40 * |os|, o)
    ensures Grows(w0, w', Span(addr, 40 * n))
    ensures ObjectsAt(w'.mem, Span(addr, 40 * (|os| + 1)) + Taken(w0, w'), addr, os + [o])
  {
    hide *;
    var i := |os|;
    var slot := Span(addr + 40 * i, 40);
    var f, f' := Span(addr, 40 * i) + Taken(w0, w), Span(addr, 40 * (i + 1)) + Taken(w0, w');
    SlotInside(addr, n, i);
    Then(w0, w, w', Span(addr, 40 * n), slot);
    TakenMore(w0, w, w', Span(addr, 40 * n), slot);
    DoneIsSafe(w0, w, addr, n, i);
    AgreeOutside(w, w', slot, f);
    ObjectsKept(w.mem, w'.mem, f, f', addr, os);
    AgreeSelf(w'.mem, slot + Taken(w, w'));
    ObjectKept(w'.mem, w'.mem, slot + Taken(w, w'), f', addr + 40 * i, o);
    ObjectsSnoc(w'.mem, f', addr, os, o);
  }

  lemma SlotInside(addr: nat, n: nat, i: nat)
    requires i < n
    ensures Span(addr + 40 * i, 40) <= Span(addr, 40 * n)
    ensures Span(addr, 40 * i) <= Span(addr, 40 * (i + 1)) && Span(addr + 40 * i, 40) <= Span(addr, 40 * (i + 1))
  {
  }

  lemma ObjectsSnoc(m: seq<byte>, f: iset<int>, addr: nat, os: seq<WafObject>, o: WafObject)
    requires ObjectsAt(m, f, addr, os) && ObjectAt(m, f, addr + 40 * |os|, o)
    ensures ObjectsAt(m, f, addr, os + [o])
  {
    hide ObjectAt;
  }

  lemma AgreeSelf(m: seq<byte>, f: iset<int>)
    ensures Agree(m, m, f)
  {
  }

  lemma ObjectsKept(m: seq<byte>, m': seq<byte>, f: iset<int>, f': iset<int>, addr: nat, os: seq<WafObject>)
    requires Agree(m, m', f) && f <= f' && ObjectsAt(m, f, addr, os)
    ensures ObjectsAt(m', f', addr, os)
  {
    hide ObjectAt, Agree;
    forall j | 0 <= j < |os| ensures ObjectAt(m', f', addr + 40 * j, os[j]) {
      ObjectKept(m, m', f, f', addr + 40 * j, os[j]);
    }
  }

  // ---------------------------------------------------------------- one record

  /** The fields of the record at a but for the name. */
  ghost predicate TailAt(m: seq<byte>, a: nat, value: uint64, entries: uint64, typ: nat) {
    a + 40 <= |m| && Read(m, a + 16, 8) == value && Read(m, a + 24, 8) == entries && Read(m, a + 32, 4) == typ
  }

  ghost predicate HeadAt(m: seq<byte>, f: iset<int>, a: nat, name: Option<seq<byte>>) {
    a + 40 <= |m| && NameAt(m, f, Read(m, a, 8), Read(m, a + 8, 8), name)
  }

  lemma HeadKept(m: seq<byte>, m': seq<byte>, f: iset<int>, f': iset<int>, a: nat, name: Option<seq<byte>>)
    requires HeadAt(m, f, a, name) && Agree(m, m', f + Span(a, 16)) && f <= f'
    ensures HeadAt(m', f', a, name)
  {
    hide Read, Pow, NameAt;
    assert forall x :: a <= x < a + 16 ==> x in f + Span(a, 16) && m'[x] == m[x];
    ReadSame(m, m', a, 8);
    ReadSame(m, m', a + 8, 8);
    NameKept(m, m', f, f', Read(m, a, 8), Read(m, a + 8, 8), name);
  }

  lemma TailKept(m: seq<byte>, m': seq<byte>, a: nat, value: uint64, entries: uint64, typ: nat)
    requires TailAt(m, a, value, entries, typ) && Agree(m, m', Span(a + 16, 20))
    ensures TailAt(m', a, value, entries, typ)
  {
    hide Read, Pow;
    assert forall x :: a + 16 <= x < a + 36 ==> x in Span(a + 16, 20) && m'[x] == m[x];
    ReadSame(m, m', a + 16, 8);
    ReadSame(m, m', a + 24, 8);
    ReadSame(m, m', a + 32, 4);
  }

  /** The value field of a record without entries, other than a string's. */
  function FieldOf(k: Kind): uint64 {
    match k
    case Signed(v) => Twos(v)
    case Unsigned(v) => v
    case Float(bits) => bits
    case Bool(b) => if b then 1 else 0
    case _ => 0
  }

  lemma ScalarObject(m: seq<byte>, f: iset<int>, a: nat, name: Option<seq<byte>>, k: Kind)
    requires !k.Str? && HeadAt(m, f, a, name) && TailAt(m, a, FieldOf(k), 0, TypeCode(k)) && Covers(f, a, 40)
    ensures ObjectAt(m, f, a, WafObject(name, k, []))
  {
    hide Read, Pow, NameAt, TypeCode;
  }

  lemma StringObject(m: seq<byte>, f: iset<int>, a: nat, name: Option<seq<byte>>, p: uint64, s: seq<byte>)
    requires HeadAt(m, f, a, name) && |s| < 0x1_0000_0000_0000_0000 && TailAt(m, a, p, |s|, 4) && Covers(f, a, 40)
    requires StringAt(m, f, p, s)
    ensures ObjectAt(m, f, a, WafObject(name, Str(s), []))
  {
    hide Read, Pow, NameAt, StringAt;
  }

  lemma ContainerObject(m: seq<byte>, f: iset<int>, a: nat, name: Option<seq<byte>>, k: Kind, addr: uint64, os: seq<WafObject>)
    requires IsContainer(k) && |os| < 0x1_0000_0000_0000_0000
    requires HeadAt(m, f, a, name) && TailAt(m, a, addr, |os|, TypeCode(k)) && Covers(f, a, 40)
    requires ObjectsAt(m, f, addr, os) && (os == [] ==> addr == 0)
    ensures ObjectAt(m, f, a, WafObject(name, k, os))
  {
    var o := WafObject(name, k, os);
    hide Read, Pow, NameAt, TypeCode;
    assert forall i :: 0 <= i < |os| ==> ObjectAt(m, f, addr + 40 * i, o.entries[i]);
  }
}
