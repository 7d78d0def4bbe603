/** `ddwaf_object` trees as values, and the decimal text the printers give a number. */
module WafObjects {
  import opened Common

  type int64 = v: int | -0x8000_0000_0000_0000 <= v < 0x8000_0000_0000_0000

  type uint64 = v: int | 0 <= v < 0x1_0000_0000_0000_0000

  datatype Kind =
    | Invalid
    | Signed(signed: int64)
    | Unsigned(unsigned: uint64)
    | Str(text: seq<byte>)
    | Array
    | Map
    | Bool(truth: bool)
    | Float(bits: uint64)
    | Null

  /** A node: the parameter name (none for a NULL pointer), the kind with its scalar, the entries. */
  datatype WafObject = WafObject(name: Option<seq<byte>>, kind: Kind, entries: seq<WafObject>)

  predicate IsContainer(k: Kind) { k.Array? || k.Map? }

  /** The bytes of the name; a NULL name has length 0. */
  function NameBytes(o: WafObject): seq<byte> {
    match o.name case None => [] case Some(n) => n
  }

  // ---------------------------------------------------------------- decimal numbers

  const DIGIT0: byte := 48
  const MINUS: byte := 45

  function Digits(n: nat): (r: seq<byte>)
    ensures r != [] && forall i :: 0 <= i < |r| ==> DIGIT0 <= r[i] <= DIGIT0 + 9
    ensures r[0] == DIGIT0 <==> n == 0
  {
    if n < 10 then [DIGIT0 + n] else Digits(n / 10) + [DIGIT0 + n % 10]
  }

  /** `%PRId64` and `%PRIu64`. */
  function Decimal(v: int): seq<byte> {
    if v < 0 then [MINUS] + Digits(-v) else Digits(v)
  }

  /** A number below 10^k has at most k digits, and exactly k if it is not below 10^(k - 1). */
  lemma {:induction false} DigitsLength(n: nat, k: nat)
    requires k > 0 && n < Pow(10, k)
    ensures |Digits(n)| <= k && (k == 1 || Pow(10, k - 1) <= n ==> |Digits(n)| == k)
  {
    if k > 1 && n >= 10 {
      assert Pow(10, k) == 10 * Pow(10, k - 1) && Pow(10, k - 1) == 10 * Pow(10, k - 2);
      DigitsLength(n / 10, k - 1);
    } else {
      SmallPowers();
      assert k > 1 ==> Pow(10, k - 1) == 10 * Pow(10, k - 2) >= 10;
    }
  }

  lemma SmallPowers()
    ensures Pow(10, 0) == 1 && Pow(10, 1) == 10
  {
    assert Pow(10, 1) == 10 * Pow(10, 0);
  }

  /** The `char str[21]` of the printers holds every 64-bit number and its NUL. */
  lemma DecimalFits(v: int)
    requires -0x8000_0000_0000_0000 <= v < 0x1_0000_0000_0000_0000
    ensures 1 <= |Decimal(v)| <= 20
  {
    TenPowers();
    hide Pow, Digits;
    if v < 0 {
      DigitsLength(-v, 19);
    } else {
      DigitsLength(v, 20);
    }
  }

  lemma TenPowers()
    ensures Pow(10, 17) == 1_00000_00000_00000_00 && Pow(10, 18) == 10 * Pow(10, 17)
    ensures Pow(10, 19) == 100 * Pow(10, 17) && Pow(10, 20) == 1000 * Pow(10, 17)
  {
    SmallPowers();
    Doubling(10, 1, 10);
    Doubling(10, 2, 100);
    Doubling(10, 4, 10000);
    Doubling(10, 8, 100000000);
    assert Pow(10, 20) == 10 * Pow(10, 19) && Pow(10, 19) == 10 * Pow(10, 18) && Pow(10, 18) == 10 * Pow(10, 17);
  }

  // ---------------------------------------------------------------- shape

  /** The number of levels of entries below o. */
  function Height(o: WafObject): nat
    decreases o, 1
  {
    if IsContainer(o.kind) && o.entries != [] then 1 + HeightAll(o.entries) else 0
  }

  function HeightAll(es: seq<WafObject>): nat
    decreases es, 0
  {
    if es == [] then 0 else Max(Height(es[0]), HeightAll(es[1..]))
  }

  /** The number of nodes of o. */
  function Size(o: WafObject): (n: nat)
    ensures n >= 1
    decreases o, 1
  {
    if IsContainer(o.kind) then 1 + SizeAll(o.entries) else 1
  }

  function SizeAll(es: seq<WafObject>): (n: nat)
    ensures n >= |es|
    decreases es, 0
  {
    if es == [] then 0 else Size(es[0]) + SizeAll(es[1..])
  }
}
