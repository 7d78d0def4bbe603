/** What debug_helpers.c prints for a tree, and what it prints for the records in memory. */
module Rendering {
  import opened Common
  import opened WafObjects
  import opened Records

  const MAX_PRINTED_DEPTH: nat := 25

  function Ascii(s: string): (r: seq<byte>)
    ensures |r| == |s|
  {
    seq(|s|, i requires 0 <= i < |s| => s[i] as int % 256)
  }

  // ---------------------------------------------------------------- doubles

  /**
    A double rounded to 19 significant decimal digits, the rounding being a parameter of the model: the digits before
    and after the point, and the decimal exponent; or the text of an infinity or a NaN.
    */
  datatype Decimal19 =
    | NotFinite(text: seq<byte>)
    | Finite(negative: bool, lead: byte, rest: seq<byte>, exponent: int)
  {
    predicate Ok() {
      match this
      case NotFinite(text) => |text| <= 4
      case Finite(_, _, rest, exponent) => |rest| == 18 && -1000 < exponent < 1000
    }
  }

  type Rounding = f: uint64 -> Decimal19 | forall bits :: f(bits).Ok() witness (bits: uint64) => NotFinite([])

  /** At least two digits. */
  function TwoDigits(n: nat): seq<byte> {
    if n < 10 then [DIGIT0] + Digits(n) else Digits(n)
  }

  /** `%.18e`. */
  function Scientific(x: Decimal19): seq<byte> {
    match x
    case NotFinite(text) => text
    case Finite(negative, lead, rest, exponent) =>
      (if negative then Ascii("-") else []) + [lead] + Ascii(".") + rest + Ascii("e")
      + Ascii(if exponent < 0 then "-" else "+") + TwoDigits(if exponent < 0 then -exponent else exponent)
  }

  /** The size of the buffer a double is formatted in, that of the longest positive number and its NUL. */
  const DOUBLE_SCRATCH: nat := 26

  /** What is appended of a formatted number: nothing when the scratch buffer is too small for it. */
  function Shown(text: seq<byte>, scratch: nat): seq<byte> {
    if |text| < scratch then text else []
  }

  lemma TwoDigitsLength(n: nat)
    requires n < 1000
    ensures |TwoDigits(n)| == if n < 100 then 2 else 3
  {
    assert n >= 10 ==> |Digits(n / 10)| == if n < 100 then 1 else 2;
  }

  /**
    The branch "should never happen" does happen: a double is dropped if and only if it is finite, negative and has a
    decimal exponent of three digits.
    */
  lemma DoubleDroppedIff(x: Decimal19)
    requires x.Ok()
    ensures Shown(Scientific(x), DOUBLE_SCRATCH) == [] && Scientific(x) != [] <==>
            x.Finite? && x.negative && (x.exponent <= -100 || x.exponent >= 100)
  {
    if x.Finite? {
      TwoDigitsLength(if x.exponent < 0 then -x.exponent else x.exponent);
    }
  }

  /** The scratch buffers of integers, in contrast, are large enough for every value. */
  lemma IntegersShown(v: int)
    requires -0x8000_0000_0000_0000 <= v < 0x1_0000_0000_0000_0000
    ensures Shown(Decimal(v), 21) == Decimal(v) != []
  {
    DecimalFits(v);
  }

  // ---------------------------------------------------------------- a tree

  function Repeated(c: byte, n: nat): (r: seq<byte>)
    ensures |r| == n
  {
    seq(n, i => c)
  }

  function NameShown(name: Option<seq<byte>>): seq<byte> {
    match name case None => [] case Some(s) => s + Ascii(": ")
  }

  /** The text of a value without entries. */
  function LeafText(k: Kind, rounding: Rounding): seq<byte>
    requires !IsContainer(k)
  {
    match k
    case Invalid => Ascii("<INVALID>\n")
    case Null => Ascii("<NULL>\n")
    case Signed(v) => Ascii("<SIGNED> ") + Decimal(v) + Ascii("\n")
    case Unsigned(v) => Ascii("<UNSIGNED> ") + Decimal(v) + Ascii("\n")
    case Float(bits) => Ascii("<FLOAT> ") + Shown(Scientific(rounding(bits)), DOUBLE_SCRATCH) + Ascii("\n")
    case Bool(b) => Ascii("<BOOL> ") + (if b then Ascii("true\n") else Ascii("false\n"))
    case Str(s) => Ascii("<STRING> ") + s + Ascii("\n")
  }

  function Heading(k: Kind): seq<byte> {
    if k.Array? then Ascii("<ARRAY>\n") else Ascii("<MAP>\n")
  }

  /** The text of a tree met at the given depth: nothing below level 25. */
  function Render(o: WafObject, depth: nat, rounding: Rounding): seq<byte>
    decreases o, 1
  {
    if depth > MAX_PRINTED_DEPTH then []
    else
      Repeated(0x20, depth * 2) + NameShown(o.name)
      + if IsContainer(o.kind) then Heading(o.kind) + RenderAll(o.entries, depth + 1, rounding)
        else LeafText(o.kind, rounding)
  }

  function RenderAll(es: seq<WafObject>, depth: nat, rounding: Rounding): seq<byte>
    decreases es, 0
  {
    if es == [] then [] else Render(es[0], depth, rounding) + RenderAll(es[1..], depth, rounding)
  }

  // ---------------------------------------------------------------- records in memory

  /** The text printed for the record at a; None when the printer would read outside of memory. */
  function RenderAt(m: seq<byte>, a: nat, depth: nat, rounding: Rounding): Option<seq<byte>>
    decreases MAX_PRINTED_DEPTH + 1 - depth, 0, 1
  {
    if depth > MAX_PRINTED_DEPTH then Some([])
    else if a + SIZEOF_PWARGS > |m| then None
    else
      var r := ReadRecord(m, a);
      match DecodeName(m, r)
      case None => None
      case Some(name) =>
        match BodyAt(m, r, depth, rounding)
        case None => None
        case Some(body) => Some(Repeated(0x20, depth * 2) + NameShown(name) + body)
  }

  function BodyAt(m: seq<byte>, r: Record, depth: nat, rounding: Rounding): Option<seq<byte>>
    requires depth <= MAX_PRINTED_DEPTH
    decreases MAX_PRINTED_DEPTH + 1 - depth, 0, 0
  {
    if r.typ == 8 || r.typ == 16 then
      match RenderEntries(m, r.value, r.entries, depth + 1, rounding)
      case None => None
      case Some(text) => Some(Heading(if r.typ == 8 then Array else Map) + text)
    else if IsKnown(r.typ) then
      match DecodeScalar(m, r)
      case None => None
      case Some(k) => if IsContainer(k) then None else Some(LeafText(k, rounding))
    else Some(Ascii("<UNKNOWN>\n"))
  }

  predicate IsKnown(typ: nat) {
    typ == 0 || typ == 1 || typ == 2 || typ == 4 || typ == 32 || typ == 64 || typ == 128
  }

  function RenderEntries(m: seq<byte>, a: nat, n: nat, depth: nat, rounding: Rounding): Option<seq<byte>>
    decreases MAX_PRINTED_DEPTH + 1 - depth, n + 1, 0
  {
    if n == 0 then Some([])
    else
      match RenderAt(m, a, depth, rounding)
      case None => None
      case Some(text) =>
        match RenderEntries(m, a + SIZEOF_PWARGS, n - 1, depth, rounding)
        case None => None
        case Some(more) => Some(text + more)
  }

  lemma RenderRecord(m: seq<byte>, a: nat, depth: nat, rounding: Rounding, name: Option<seq<byte>>)
    requires depth <= MAX_PRINTED_DEPTH && a + SIZEOF_PWARGS <= |m| && DecodeName(m, ReadRecord(m, a)) == Some(name)
    ensures var body := BodyAt(m, ReadRecord(m, a), depth, rounding);
      RenderAt(m, a, depth, rounding) ==
      if body.Some? then Some(Repeated(0x20, depth * 2) + NameShown(name) + body.value) else None
  {
    hide ReadRecord, DecodeName, BodyAt, Repeated, NameShown;
  }

  /** What is printed after the name. */
  function Body(o: WafObject, depth: nat, rounding: Rounding): seq<byte> {
    if IsContainer(o.kind) then Heading(o.kind) + RenderAll(o.entries, depth + 1, rounding) else LeafText(o.kind, rounding)
  }

  lemma RenderIs(o: WafObject, depth: nat, rounding: Rounding)
    ensures Render(o, depth, rounding) ==
      if depth > MAX_PRINTED_DEPTH then [] else Repeated(0x20, depth * 2) + NameShown(o.name) + Body(o, depth, rounding)
  {
    hide RenderAll, Heading, LeafText, Repeated, NameShown;
  }

  lemma {:induction false} RenderBody(m: seq<byte>, f: iset<int>, a: nat, o: WafObject, depth: nat, rounding: Rounding)
    requires ObjectAt(m, f, a, o) && depth <= MAX_PRINTED_DEPTH
    ensures a + SIZEOF_PWARGS <= |m| && BodyAt(m, ReadRecord(m, a), depth, rounding) == Some(Body(o, depth, rounding))
    decreases o, 1
  {
    hide Covers, Read, ReadRecord, NameAt, ScalarAt, DecodeScalar, LeafText, Heading, RenderEntries, RenderAll;
    var r := ReadRecord(m, a);
    if IsContainer(o.kind) {
      RenderEntriesOf(m, f, r.value, o.entries, depth + 1, rounding);
    } else {
      DecodeScalarAt(m, f, r, o.kind);
    }
  }

  lemma NameOfObject(m: seq<byte>, f: iset<int>, a: nat, o: WafObject)
    requires ObjectAt(m, f, a, o)
    ensures a + SIZEOF_PWARGS <= |m| && DecodeName(m, ReadRecord(m, a)) == Some(o.name)
  {
    hide Covers, ReadRecord, NameAt, ScalarAt, DecodeName;
    DecodeNameAt(m, f, ReadRecord(m, a), o.name);
  }

  /** Printing the records of a tree gives the text of the tree. */
  lemma {:induction false} RenderObject(m: seq<byte>, f: iset<int>, a: nat, o: WafObject, depth: nat, rounding: Rounding)
    requires ObjectAt(m, f, a, o)
    ensures RenderAt(m, a, depth, rounding) == Some(Render(o, depth, rounding))
    decreases o, 2
  {
    hide ObjectAt, ReadRecord, DecodeName, BodyAt, Body, Render, Repeated, NameShown;
    RenderIs(o, depth, rounding);
    if depth <= MAX_PRINTED_DEPTH {
      NameOfObject(m, f, a, o);
      RenderRecord(m, a, depth, rounding, o.name);
      RenderBody(m, f, a, o, depth, rounding);
    }
  }

  lemma {:induction false} RenderEntriesOf(m: seq<byte>, f: iset<int>, a: nat, es: seq<WafObject>, depth: nat, rounding: Rounding)
    requires forall i :: 0 <= i < |es| ==> ObjectAt(m, f, a + 40 * i, es[i])
    ensures RenderEntries(m, a, |es|, depth, rounding) == Some(RenderAll(es, depth, rounding))
    decreases es, 0
  {
    hide ObjectAt, RenderAt, Render;
    if es != [] {
      assert ObjectAt(m, f, a + 40 * 0, es[0]);
      RenderObject(m, f, a, es[0], depth, rounding);
      forall i | 0 <= i < |es[1..]| ensures ObjectAt(m, f, a + 40 + 40 * i, es[1..][i]) {
        assert ObjectAt(m, f, a + 40 * (i + 1), es[i + 1]);
      }
      RenderEntriesOf(m, f, a + 40, es[1..], depth, rounding);
    }
  }
}
