/**
  The 40-byte records of ByteBufferSerializer.java read back from memory by following addresses and lengths. Memory
  is a sequence of bytes indexed by address; numbers are stored little-endian.
  */
module Records {
  import opened Common
  import opened WafObjects

  const SIZEOF_PWARGS: nat := 40
  const NULLPTR: nat := 0

  // ---------------------------------------------------------------- numbers

  lemma BytePowers()
    ensures Pow(256, 4) == 0x1_0000_0000 && Pow(256, 8) == 0x1_0000_0000_0000_0000
  {
    assert Pow(256, 1) == 256 * Pow(256, 0);
    Doubling(256, 1, 256);
    Doubling(256, 2, 0x1_0000);
    Doubling(256, 4, 0x1_0000_0000);
  }

  /** The n bytes of v, least significant first. */
  function ToBytes(v: nat, n: nat): (r: seq<byte>)
    ensures |r| == n
  {
    if n == 0 then [] else [v % 256] + ToBytes(v / 256, n - 1)
  }

  /** The n-byte number at address a. */
  function Read(m: seq<byte>, a: nat, n: nat): (v: nat)
    requires a + n <= |m|
    ensures v < Pow(256, n)
    decreases n
  {
    if n == 0 then 0 else m[a] + 256 * Read(m, a + 1, n - 1)
  }

  lemma {:induction false} ReadWritten(m: seq<byte>, a: nat, n: nat, v: nat)
    requires a + n <= |m| && v < Pow(256, n) && m[a..a + n] == ToBytes(v, n)
    ensures Read(m, a, n) == v
    decreases n
  {
    if n > 0 {
      var bytes := ToBytes(v, n);
      assert m[a] == m[a..a + n][0] == bytes[0];
      assert m[a + 1..a + 1 + (n - 1)] == m[a..a + n][1..] == bytes[1..];
      assert v / 256 < Pow(256, n - 1);
      ReadWritten(m, a + 1, n - 1, v / 256);
    }
  }

  lemma {:induction false} ReadSame(m: seq<byte>, m': seq<byte>, a: nat, n: nat)
    requires a + n <= |m| && a + n <= |m'|
    requires forall x :: a <= x < a + n ==> m[x] == m'[x]
    ensures Read(m, a, n) == Read(m', a, n)
    decreases n
  {
    if n > 0 {
      ReadSame(m, m', a + 1, n - 1);
    }
  }

  /** Two's complement in 64 bits. */
  function Twos(v: int64): uint64 {
    if v < 0 then v as int + 0x1_0000_0000_0000_0000 else v
  }

  function FromTwos(u: uint64): int64 {
    if u < 0x8000_0000_0000_0000 then u else u as int - 0x1_0000_0000_0000_0000
  }

  lemma TwosInverse(v: int64)
    ensures FromTwos(Twos(v)) == v
  {
  }

  // ---------------------------------------------------------------- records

  /** `PWInputType`. */
  function TypeCode(k: Kind): nat {
    match k
    case Invalid => 0
    case Signed(_) => 1
    case Unsigned(_) => 2
    case Str(_) => 4
    case Array => 8
    case Map => 16
    case Bool(_) => 32
    case Float(_) => 64
    case Null => 128
  }

  /** The fields of a record; the last four of its 40 bytes are padding. */
  datatype Record = Record(name: uint64, nameLen: uint64, value: uint64, entries: uint64, typ: nat)

  function ReadRecord(m: seq<byte>, a: nat): Record
    requires a + SIZEOF_PWARGS <= |m|
  {
    BytePowers();
    Record(Read(m, a, 8), Read(m, a + 8, 8), Read(m, a + 16, 8), Read(m, a + 24, 8), Read(m, a + 32, 4))
  }

  // ---------------------------------------------------------------- decoding

  /** The object whose record is at address a, down to the given number of levels of entries. */
  function Decode(m: seq<byte>, a: nat, levels: nat): Option<WafObject>
    decreases levels, 0, 1
  {
    if a + SIZEOF_PWARGS > |m| then None
    else
      var r := ReadRecord(m, a);
      match DecodeName(m, r)
      case None => None
      case Some(name) =>
        if r.typ == 8 || r.typ == 16 then
          var kind := if r.typ == 8 then Array else Map;
          if r.entries == 0 then Some(WafObject(name, kind, []))
          else if levels == 0 then None
          else
            match DecodeAll(m, r.value, r.entries, levels - 1)
            case None => None
            case Some(es) => Some(WafObject(name, kind, es))
        else
          match DecodeScalar(m, r)
          case None => None
          case Some(kind) => Some(WafObject(name, kind, []))
  }

  function DecodeAll(m: seq<byte>, a: nat, n: nat, levels: nat): Option<seq<WafObject>>
    decreases levels, n + 1, 0
  {
    if n == 0 then Some([])
    else
      match Decode(m, a, levels)
      case None => None
      case Some(o) =>
        match DecodeAll(m, a + SIZEOF_PWARGS, n - 1, levels)
        case None => None
        case Some(os) => Some([o] + os)
  }

  function DecodeBytes(m: seq<byte>, p: nat, n: nat): Option<seq<byte>> {
    if p + n > |m| then None else Some(m[p..p + n])
  }

  function DecodeName(m: seq<byte>, r: Record): Option<Option<seq<byte>>> {
    if r.name == NULLPTR then Some(None)
    else match DecodeBytes(m, r.name, r.nameLen) case None => None case Some(s) => Some(Some(s))
  }

  function DecodeScalar(m: seq<byte>, r: Record): Option<Kind> {
    if r.typ == 0 then Some(Invalid)
    else if r.typ == 1 then Some(Signed(FromTwos(r.value)))
    else if r.typ == 2 then Some(Unsigned(r.value))
    else if r.typ == 4 then match DecodeBytes(m, r.value, r.entries) case None => None case Some(s) => Some(Str(s))
    else if r.typ == 32 then Some(Bool(r.value % 256 != 0))
    else if r.typ == 64 then Some(Float(r.value))
    else if r.typ == 128 then Some(Null)
    else None
  }

  // ---------------------------------------------------------------- representation

  /** Every address of the n bytes at a is in f. */
  ghost predicate Covers(f: iset<int>, a: int, n: int) {
    forall x :: a <= x < a + n ==> x in f
  }

  /** A NUL-terminated string. */
  ghost predicate StringAt(m: seq<byte>, f: iset<int>, p: nat, s: seq<byte>) {
    p + |s| < |m| && Covers(f, p, |s| + 1) && m[p..p + |s|] == s && m[p + |s|] == 0
  }

  ghost predicate NameAt(m: seq<byte>, f: iset<int>, p: nat, n: nat, name: Option<seq<byte>>) {
    match name
    case None => p == NULLPTR && n == 0
    case Some(s) => p != NULLPTR && n == |s| && StringAt(m, f, p, s)
  }

  ghost predicate ScalarAt(m: seq<byte>, f: iset<int>, r: Record, k: Kind) {
    match k
    case Signed(v) => r.value == Twos(v)
    case Unsigned(v) => r.value == v
    case Float(bits) => r.value == bits
    case Bool(b) => r.value == if b then 1 else 0
    case Str(s) => r.entries == |s| && StringAt(m, f, r.value, s)
    case _ => r.value == 0
  }

  /** The record at a, and everything reachable from it, is the object o and lies within the addresses f. */
  ghost predicate ObjectAt(m: seq<byte>, f: iset<int>, a: nat, o: WafObject)
    decreases o
  {
    && a + SIZEOF_PWARGS <= |m| && Covers(f, a, SIZEOF_PWARGS)
    && var r := ReadRecord(m, a);
    && r.typ == TypeCode(o.kind)
    && NameAt(m, f, r.name, r.nameLen, o.name)
    && (if IsContainer(o.kind)
        then
          && r.entries == |o.entries| && (o.entries == [] ==> r.value == 0)
          && forall i :: 0 <= i < |o.entries| ==> ObjectAt(m, f, r.value + 40 * i, o.entries[i])
        else o.entries == [] && (o.kind.Str? || r.entries == 0) && ScalarAt(m, f, r, o.kind))
  }

  // ---------------------------------------------------------------- byte by byte

  /** The eight bytes at a as a number, the first the least significant. */
  function Long(m: seq<byte>, a: nat): nat
    requires a + 8 <= |m|
  {
    m[a] as int + 0x100 * m[a + 1] as int + 0x1_0000 * m[a + 2] as int + 0x100_0000 * m[a + 3] as int
    + 0x1_0000_0000 * m[a + 4] as int + 0x100_0000_0000 * m[a + 5] as int + 0x1_0000_0000_0000 * m[a + 6] as int
    + 0x100_0000_0000_0000 * m[a + 7] as int
  }

  lemma LongIs(m: seq<byte>, a: nat)
    requires a + 8 <= |m|
    ensures Read(m, a, 8) == Long(m, a)
  {
    assert Read(m, a + 7, 1) == m[a + 7];
    assert Read(m, a + 6, 2) == m[a + 6] as int + 256 * Read(m, a + 7, 1);
    assert Read(m, a + 5, 3) == m[a + 5] as int + 256 * Read(m, a + 6, 2);
    assert Read(m, a + 4, 4) == m[a + 4] as int + 256 * Read(m, a + 5, 3);
    assert Read(m, a + 3, 5) == m[a + 3] as int + 256 * Read(m, a + 4, 4);
    assert Read(m, a + 2, 6) == m[a + 2] as int + 256 * Read(m, a + 3, 5);
    assert Read(m, a + 1, 7) == m[a + 1] as int + 256 * Read(m, a + 2, 6);
  }

  /** A number below 256 in four bytes. */
  lemma SmallNumber(m: seq<byte>, a: nat)
    requires a + 4 <= |m| && Read(m, a, 4) < 0x100
    ensures m[a] == Read(m, a, 4) && m[a + 1] == 0 && m[a + 2] == 0 && m[a + 3] == 0
  {
    assert Read(m, a + 3, 1) == m[a + 3];
    assert Read(m, a + 2, 2) == m[a + 2] as int + 256 * Read(m, a + 3, 1);
    assert Read(m, a + 1, 3) == m[a + 1] as int + 256 * Read(m, a + 2, 2);
  }

  lemma FieldsAre(m: seq<byte>, a: nat)
    requires a + 40 <= |m|
    ensures ReadRecord(m, a) == Record(Long(m, a), Long(m, a + 8), Long(m, a + 16), Long(m, a + 24), Read(m, a + 32, 4))
  {
    hide Read, Long;
    BytePowers();
    LongIs(m, a);
    LongIs(m, a + 8);
    LongIs(m, a + 16);
    LongIs(m, a + 24);
  }

  /** Where the parts of an object are: the layout of `ddwaf_object`, and the codes of its types. */
  lemma RecordLayout(m: seq<byte>, f: iset<int>, a: nat, o: WafObject)
    requires ObjectAt(m, f, a, o)
    ensures a + 40 <= |m|
    ensures m[a + 32] == (match o.kind
                          case Invalid => 0
                          case Signed(_) => 1
                          case Unsigned(_) => 2
                          case Str(_) => 4
                          case Array => 8
                          case Map => 16
                          case Bool(_) => 32
                          case Float(_) => 64
                          case Null => 128)
    ensures m[a + 33] == 0 && m[a + 34] == 0 && m[a + 35] == 0
    ensures o.name == None ==> Long(m, a) == 0 && Long(m, a + 8) == 0
    ensures o.name.Some? ==> Long(m, a) != 0 && Long(m, a + 8) == |o.name.value| && TextAt(m, Long(m, a), o.name.value)
    ensures o.kind.Signed? ==> Long(m, a + 16) == o.kind.signed as int + if o.kind.signed < 0 then 0x1_0000_0000_0000_0000 else 0
    ensures o.kind.Unsigned? ==> Long(m, a + 16) == o.kind.unsigned
    ensures o.kind.Float? ==> Long(m, a + 16) == o.kind.bits
    ensures o.kind.Bool? ==> Long(m, a + 16) == if o.kind.truth then 1 else 0
    ensures o.kind.Str? ==> Long(m, a + 24) == |o.kind.text| && TextAt(m, Long(m, a + 16), o.kind.text)
    ensures o.kind.Invalid? || o.kind.Null? || (IsContainer(o.kind) && o.entries == []) ==> Long(m, a + 16) == 0
    ensures !o.kind.Str? ==> Long(m, a + 24) == |o.entries|
    ensures o.kind.Array? || o.kind.Map? ==>
      && forall i :: 0 <= i < |o.entries| ==> ObjectAt(m, f, Long(m, a + 16) + 40 * i, o.entries[i])
  {
    hide Read, Long, Covers;
    FieldsAre(m, a);
    SmallNumber(m, a + 32);
  }

  /** A text and its NUL. */
  predicate TextAt(m: seq<byte>, p: nat, s: seq<byte>) {
    p + |s| < |m| && m[p..p + |s|] == s && m[p + |s|] == 0
  }

  /** m' has the bytes of m on the addresses f. */
  ghost predicate Agree(m: seq<byte>, m': seq<byte>, f: iset<int>) {
    |m| <= |m'| && forall x :: 0 <= x < |m| && x in f ==> m'[x] == m[x]
  }

  lemma StringKept(m: seq<byte>, m': seq<byte>, f: iset<int>, f': iset<int>, p: nat, s: seq<byte>)
    requires Agree(m, m', f) && f <= f' && StringAt(m, f, p, s)
    ensures StringAt(m', f', p, s)
  {
    assert forall x :: p <= x < p + |s| + 1 ==> x in f && m'[x] == m[x];
    assert m'[p..p + |s|] == m[p..p + |s|];
  }

  lemma RecordKept(m: seq<byte>, m': seq<byte>, f: iset<int>, a: nat)
    requires Agree(m, m', f) && a + SIZEOF_PWARGS <= |m| && Covers(f, a, SIZEOF_PWARGS)
    ensures ReadRecord(m', a) == ReadRecord(m, a)
  {
    hide Read, Pow;
    assert forall x :: a <= x < a + 40 ==> x in f && m'[x] == m[x];
    ReadSame(m, m', a, 8);
    ReadSame(m, m', a + 8, 8);
    ReadSame(m, m', a + 16, 8);
    ReadSame(m, m', a + 24, 8);
    ReadSame(m, m', a + 32, 4);
  }

  lemma NameKept(m: seq<byte>, m': seq<byte>, f: iset<int>, f': iset<int>, p: nat, n: nat, name: Option<seq<byte>>)
    requires Agree(m, m', f) && f <= f' && NameAt(m, f, p, n, name)
    ensures NameAt(m', f', p, n, name)
  {
    hide StringAt, Agree;
    if name.Some? {
      StringKept(m, m', f, f', p, name.value);
    }
  }

  lemma ScalarKept(m: seq<byte>, m': seq<byte>, f: iset<int>, f': iset<int>, r: Record, k: Kind)
    requires Agree(m, m', f) && f <= f' && ScalarAt(m, f, r, k)
    ensures ScalarAt(m', f', r, k)
  {
    hide StringAt, Agree;
    if k.Str? {
      StringKept(m, m', f, f', r.value, k.text);
    }
  }

  lemma CoversMore(f: iset<int>, f': iset<int>, a: int, n: int)
    requires f <= f' && Covers(f, a, n)
    ensures Covers(f', a, n)
  {
  }

  lemma NoLonger(m: seq<byte>, m': seq<byte>, f: iset<int>)
    requires Agree(m, m', f)
    ensures |m| <= |m'|
  {
  }

  /** An object stays where it is as long as the bytes it lies in do. */
  lemma {:induction false} ObjectKept(m: seq<byte>, m': seq<byte>, f: iset<int>, f': iset<int>, a: nat, o: WafObject)
    requires Agree(m, m', f) && f <= f' && ObjectAt(m, f, a, o)
    ensures ObjectAt(m', f', a, o)
    decreases o
  {
    hide Agree, Covers, Read, Pow, ReadRecord, NameAt, ScalarAt, TypeCode;
    NoLonger(m, m', f);
    RecordKept(m, m', f, a);
    CoversMore(f, f', a, SIZEOF_PWARGS);
    var r := ReadRecord(m, a);
    NameKept(m, m', f, f', r.name, r.nameLen, o.name);
    if IsContainer(o.kind) {
      forall i | 0 <= i < |o.entries| ensures ObjectAt(m', f', r.value + 40 * i, o.entries[i]) {
        ObjectKept(m, m', f, f', r.value + 40 * i, o.entries[i]);
      }
    } else {
      ScalarKept(m, m', f, f', r, o.kind);
    }
  }

  lemma DecodeNameAt(m: seq<byte>, f: iset<int>, r: Record, name: Option<seq<byte>>)
    requires NameAt(m, f, r.name, r.nameLen, name)
    ensures DecodeName(m, r) == Some(name)
  {
  }

  lemma DecodeScalarAt(m: seq<byte>, f: iset<int>, r: Record, k: Kind)
    requires !IsContainer(k) && r.typ == TypeCode(k) && ScalarAt(m, f, r, k)
    ensures DecodeScalar(m, r) == Some(k)
  {
    if k.Signed? {
      TwosInverse(k.signed);
    }
  }

  /** Following addresses and lengths from a gives exactly the object that is there. */
  lemma {:induction false} DecodeObject(m: seq<byte>, f: iset<int>, a: nat, o: WafObject, levels: nat)
    requires ObjectAt(m, f, a, o) && Height(o) <= levels
    ensures Decode(m, a, levels) == Some(o)
    decreases o, 1
  {
    hide Covers, Read, ReadRecord, NameAt, ScalarAt, DecodeName, DecodeScalar, HeightAll;
    var r := ReadRecord(m, a);
    DecodeNameAt(m, f, r, o.name);
    if IsContainer(o.kind) {
      if o.entries != [] {
        DecodeEntries(m, f, r.value, o.entries, levels - 1);
      }
    } else {
      DecodeScalarAt(m, f, r, o.kind);
    }
  }

  lemma {:induction false} DecodeEntries(m: seq<byte>, f: iset<int>, a: nat, es: seq<WafObject>, levels: nat)
    requires forall i :: 0 <= i < |es| ==> ObjectAt(m, f, a + 40 * i, es[i])
    requires HeightAll(es) <= levels
    ensures DecodeAll(m, a, |es|, levels) == Some(es)
    decreases es, 0
  {
    hide ObjectAt, Decode;
    if es != [] {
      assert ObjectAt(m, f, a + 40 * 0, es[0]);
      DecodeObject(m, f, a, es[0], levels);
      forall i | 0 <= i < |es[1..]| ensures ObjectAt(m, f, a + 40 + 40 * i, es[1..][i]) {
        assert ObjectAt(m, f, a + 40 * (i + 1), es[i + 1]);
      }
      DecodeEntries(m, f, a + 40, es[1..], levels);
      assert es == [es[0]] + es[1..];
    }
  }
}
