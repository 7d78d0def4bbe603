/** Doubles by their bits, and what it means that a decimal number is the nearest to one. */
module Doubles {
  import opened Common
  import opened WafObjects
  import opened Rendering

  /** A finite double: mantissa * 2^exponent. */
  datatype Binary = Binary(negative: bool, mantissa: nat, exponent: int)

  /** The value of 64 bits; none for infinities and NaNs. */
  function BinaryOf(bits: uint64): Option<Binary> {
    var magnitude := bits % 0x8000_0000_0000_0000;
    var e, fraction := magnitude / 0x10_0000_0000_0000, magnitude % 0x10_0000_0000_0000;
    if e == 0x7FF then None
    else if e == 0 then Some(Binary(bits >= 0x8000_0000_0000_0000, fraction, -1074))
    else Some(Binary(bits >= 0x8000_0000_0000_0000, fraction + 0x10_0000_0000_0000, e - 1075))
  }

  // ---------------------------------------------------------------- powers, also of negative exponents

  function Scale(b: nat, n: int): (r: real)
    requires b > 0
    ensures r > 0.0
    decreases if n < 0 then -n else n
  {
    if n == 0 then 1.0
    else if n > 0 then b as real * Scale(b, n - 1)
    else Scale(b, n + 1) / b as real
  }

  lemma ScaleNext(b: nat, n: int)
    requires b > 0
    ensures Scale(b, n + 1) == b as real * Scale(b, n)
  {
  }

  lemma {:induction false} ScaleSum(b: nat, m: int, n: nat)
    requires b > 0
    ensures Scale(b, m + n) == Scale(b, m) * Scale(b, n)
    decreases n
  {
    hide Scale;
    if n > 0 {
      ScaleSum(b, m, n - 1);
      ScaleNext(b, m + n - 1);
      ScaleNext(b, n - 1);
      SwapFactors(b as real, Scale(b, m), Scale(b, n - 1));
    } else {
      ScaleNone(b);
    }
  }

  lemma SwapFactors(a: real, x: real, y: real)
    ensures a * (x * y) == x * (a * y)
  {
  }

  lemma ScaleNone(b: nat)
    requires b > 0
    ensures Scale(b, 0) == 1.0
  {
  }

  lemma {:induction false} ScaleIsPow(b: nat, n: nat)
    requires b > 0
    ensures Scale(b, n) == Pow(b, n) as real
  {
    if n > 0 {
      ScaleIsPow(b, n - 1);
    }
  }

  lemma ScaleInverse(b: nat, n: nat)
    requires b > 0
    ensures Scale(b, -(n as int)) * Pow(b, n) as real == 1.0
  {
    hide Scale, Pow;
    ScaleSum(b, -(n as int), n);
    ScaleIsPow(b, n);
    ScaleNone(b);
  }

  lemma ScaleGrows(b: nat, n: int)
    requires b >= 1
    ensures Scale(b, n) <= Scale(b, n + 1)
  {
    hide Scale;
    ScaleNext(b, n);
    Enlarged(b as real, Scale(b, n), Scale(b, n + 1));
  }

  lemma Enlarged(c: real, u: real, v: real)
    requires c >= 1.0 && u > 0.0 && v == c * u
    ensures u <= v
  {
    Times(1.0, c, u);
  }

  lemma {:induction false} ScaleMonotone(b: nat, m: int, n: int)
    requires b >= 1 && m <= n
    ensures Scale(b, m) <= Scale(b, n)
    decreases n - m
  {
    hide Scale;
    if m < n {
      ScaleMonotone(b, m, n - 1);
      ScaleGrows(b, n - 1);
    }
  }

  lemma Times(x: real, y: real, u: real)
    requires x <= y && u >= 0.0
    ensures x * u <= y * u
  {
    assert (y - x) * u >= 0.0;
  }

  // ---------------------------------------------------------------- nearest decimals

  function Magnitude(b: Binary): real {
    b.mantissa as real * Scale(2, b.exponent)
  }

  /** The 19 digits as a whole number. */
  function DigitsOf(x: Decimal19): int
    requires x.Finite?
  {
    NumberOf([x.lead] + x.rest)
  }

  function NumberOf(ds: seq<byte>): int {
    if ds == [] then 0 else NumberOf(ds[..|ds| - 1]) * 10 + (ds[|ds| - 1] as int - DIGIT0)
  }

  predicate AreDigits(ds: seq<byte>) {
    forall i :: 0 <= i < |ds| ==> DIGIT0 <= ds[i] <= DIGIT0 + 9
  }

  /** The unit of the last of the 19 digits. */
  function Unit(x: Decimal19): real
    requires x.Finite?
  {
    Scale(10, x.exponent - 18)
  }

  predicate WithinHalf(difference: real, unit: real) {
    2.0 * difference <= unit && -2.0 * difference <= unit
  }

  /** What `%.18e` may print: for 0 zeros, else a first digit that is not 0, off by at most half a unit of the last one. */
  predicate IsNearest(x: Decimal19, b: Binary)
    requires x.Finite?
  {
    && x.negative == b.negative
    && |x.rest| == 18 && AreDigits([x.lead] + x.rest)
    && (if b.mantissa == 0 then DigitsOf(x) == 0 && x.exponent == 0 else x.lead != DIGIT0)
    && WithinHalf(DigitsOf(x) as real * Unit(x) - Magnitude(b), Unit(x))
  }

  lemma {:induction false} PowProduct(a: nat, b: nat, n: nat)
    ensures Pow(a * b, n) == Pow(a, n) * Pow(b, n)
  {
    if n > 0 {
      PowProduct(a, b, n - 1);
      Interchange(a, b, Pow(a, n - 1), Pow(b, n - 1));
    }
  }

  lemma Interchange(a: nat, b: nat, x: nat, y: nat)
    ensures (a * b) * (x * y) == (a * x) * (b * y)
  {
    assert (a * b) * (x * y) == a * (b * (x * y));
    assert b * (x * y) == x * (b * y);
    assert a * (x * (b * y)) == (a * x) * (b * y);
  }

  lemma FivePower()
    ensures Pow(5, 342) == 111619862429909666232010112139193453071475585431913931759289633127698499600267401921430470884782424770428032651696682444552787242410538940539652567715824340035694728259383326270357015595991408805237078694094776665224344469606876373291015625
  {
    assert Pow(5, 1) == 5 * Pow(5, 0);
    Doubling(5, 1, 5);
    Doubling(5, 2, 25);
    Doubling(5, 5, 3125);
    Doubling(5, 10, 9765625);
    Doubling(5, 21, 476837158203125);
    Doubling(5, 42, 227373675443232059478759765625);
    Doubling(5, 85, 258493941422821148397315216271863391739316284656524658203125);
    Doubling(5, 171, 334095588761524455767567058393935234851899610013131087245242186520049830123391294833812281694918056018650531768798828125);
  }

  lemma TwoPower()
    ensures Pow(2, 732) == 22592111669665739975592870737637022906810831294812620197467215446901550642889587999246991367961839975767182923986271972624986374927027127581012424707895568851446368731861728964581056579941628221790058875830676242925879296
  {
    assert Pow(2, 1) == 2 * Pow(2, 0);
    Doubling(2, 1, 2);
    Doubling(2, 2, 4);
    Doubling(2, 5, 32);
    Doubling(2, 11, 2048);
    Doubling(2, 22, 4194304);
    Doubling(2, 45, 35184372088832);
    Doubling(2, 91, 2475880078570760549798248448);
    Doubling(2, 183, 12259964326927110866866776217202473468949912977468817408);
    Doubling(2, 366, 150306725297525326584926758194517569752043683130132471725266622178061377607334940381676735896625196994043838464);
  }

  /** 19 digits, of which the last 18 are those of n. */
  function Smallest(negative: bool): Decimal19 {
    Finite(negative, 0x34, Digits(940656458412465442), -324)
  }

  lemma {:induction false} NumberOfDigits(n: nat)
    ensures NumberOf(Digits(n)) == n
  {
    if n >= 10 {
      NumberOfDigits(n / 10);
      assert Digits(n)[..|Digits(n)| - 1] == Digits(n / 10);
    } else {
      assert Digits(n)[..0] == [];
    }
  }

  lemma {:induction false} NumberOfLead(d: byte, s: seq<byte>)
    ensures NumberOf([d] + s) == (d as int - DIGIT0) * Pow(10, |s|) + NumberOf(s)
    decreases |s|
  {
    hide NumberOf, Pow;
    var n := |s| - 1;
    NumberOfLast([d] + s);
    NumberOfLast(s);
    PowNext(10, |s|);
    if s == [] {
      assert ([d] + s)[..0] == s;
    } else {
      assert ([d] + s)[..|s|] == [d] + s[..n] && ([d] + s)[|s|] == s[n];
      NumberOfLead(d, s[..n]);
      Tenfold(d as int - DIGIT0, Pow(10, n));
    }
  }

  lemma NumberOfLast(s: seq<byte>)
    ensures NumberOf(s) == if s == [] then 0 else NumberOf(s[..|s| - 1]) * 10 + (s[|s| - 1] as int - DIGIT0)
  {
  }

  lemma PowNext(b: nat, n: nat)
    ensures Pow(b, n) == if n == 0 then 1 else b * Pow(b, n - 1)
  {
  }

  lemma Tenfold(x: int, p: nat)
    ensures x * p * 10 == x * (10 * p)
  {
  }

  lemma SmallestDigits(negative: bool)
    ensures |Smallest(negative).rest| == 18 && DigitsOf(Smallest(negative)) == 4940656458412465442
    ensures AreDigits([Smallest(negative).lead] + Smallest(negative).rest)
  {
    TenPowers();
    hide Digits, Pow, NumberOf;
    DigitsLength(940656458412465442, 18);
    NumberOfDigits(940656458412465442);
    NumberOfLead(0x34, Digits(940656458412465442));
  }

  predicate WithinHalfOf(difference: int, unit: nat) {
    2 * difference <= unit && -2 * difference <= unit
  }

  /** The comparison that matters, and the same with a common factor. */
  lemma HalfUnit(n: int, p: nat, q: nat, t: nat)
    requires WithinHalfOf(n * p - q, p)
    ensures WithinHalfOf(n * (p * t) - q * t, p * t)
  {
    var d := n * p - q;
    assert n * (p * t) - q * t == d * t;
    assert 2 * d * t <= p * t && -2 * d * t <= p * t;
  }

  lemma PowersCompared()
    ensures var unit, exact := Pow(2, 1074), Pow(10, 342); WithinHalfOf(4940656458412465442 * unit - exact, unit)
  {
    FivePower();
    TwoPower();
    hide Pow;
    PowSum(2, 732, 342);
    PowProduct(5, 2, 342);
    HalfUnit(4940656458412465442, Pow(2, 732), Pow(5, 342), Pow(2, 342));
  }

  /** Two inverses compared by what they are the inverses of. */
  lemma Inverses(n: int, p: nat, q: nat, u: real, v: real)
    requires u > 0.0 && v > 0.0 && u * p as real == 1.0 && v * q as real == 1.0
    requires WithinHalfOf(n * q - p, q)
    ensures WithinHalf(n as real * u - v, u)
  {
    var P, Q, N := p as real, q as real, n as real;
    var d, uv := N * Q - P, u * v;
    assert (n * q - p) as real == d;
    Cancelled(u, Q, v);
    Cancelled(v, P, u);
    Distributed(N, Q, P, uv);
    assert d * uv == N * u - v;
    Positive(u, v);
    Times(2.0 * d, Q, uv);
    Times(-2.0 * d, Q, uv);
    Doubled(d, uv);
  }

  lemma Cancelled(x: real, y: real, z: real)
    requires z * y == 1.0
    ensures y * (x * z) == x && y * (z * x) == x
  {
    assert y * (x * z) == x * (z * y);
  }

  lemma Distributed(n: real, q: real, p: real, x: real)
    ensures (n * q - p) * x == n * (q * x) - p * x
  {
    assert (n * q) * x == n * (q * x);
  }

  lemma Positive(u: real, v: real)
    requires u > 0.0 && v > 0.0
    ensures u * v > 0.0
  {
  }

  lemma Doubled(d: real, x: real)
    ensures (2.0 * d) * x == 2.0 * (d * x) && (-2.0 * d) * x == -2.0 * (d * x)
  {
  }

  lemma SmallestIsNearest(negative: bool)
    ensures IsNearest(Smallest(negative), Binary(negative, 1, -1074))
  {
    hide Pow, Digits, DigitsOf, Scale;
    SmallestDigits(negative);
    PowersCompared();
    ScaleInverse(10, 342);
    ScaleInverse(2, 1074);
    Inverses(4940656458412465442, Pow(10, 342), Pow(2, 1074), Scale(10, -342), Scale(2, -1074));
  }

  lemma SmallestBits()
    ensures BinaryOf(0x8000_0000_0000_0001) == Some(Binary(true, 1, -1074)) && BinaryOf(1) == Some(Binary(false, 1, -1074))
  {
  }

  /**
    The double with the bits 0x8000000000000001 is -2^-1074. Its nearest number of 19 digits leaves no text, while that
    of 2^-1074, the smallest positive double, does.
    */
  lemma SmallestNegativeIsDropped()
    ensures BinaryOf(0x8000_0000_0000_0001).Some? && BinaryOf(1).Some?
    ensures IsNearest(Smallest(true), BinaryOf(0x8000_0000_0000_0001).value) && IsNearest(Smallest(false), BinaryOf(1).value)
    ensures Smallest(true).Ok() && Shown(Scientific(Smallest(true)), DOUBLE_SCRATCH) == []
    ensures Smallest(false).Ok() && Shown(Scientific(Smallest(false)), DOUBLE_SCRATCH) == Scientific(Smallest(false)) != []
  {
    SmallestBits();
    SmallestIsNearest(true);
    SmallestIsNearest(false);
    SmallestDigits(true);
    SmallestDigits(false);
    hide IsNearest, Digits, Ascii;
    DoubleDroppedIff(Smallest(true));
    DoubleDroppedIff(Smallest(false));
    LeavesText(Smallest(true));
    LeavesText(Smallest(false));
  }

  lemma LeavesText(x: Decimal19)
    requires x.NotFinite? ==> x.text != []
    ensures Scientific(x) != []
  {
  }

  // ---------------------------------------------------------------- which doubles are dropped

  lemma {:induction false} NumberBelow(ds: seq<byte>)
    requires AreDigits(ds)
    ensures 0 <= NumberOf(ds) < Pow(10, |ds|)
  {
    if ds != [] {
      NumberBelow(ds[..|ds| - 1]);
    }
  }

  /** Nineteen digits, the first of which is not 0. */
  lemma Normalised(x: Decimal19)
    requires x.Finite? && |x.rest| == 18 && AreDigits([x.lead] + x.rest) && x.lead != DIGIT0
    ensures Pow(10, 18) <= DigitsOf(x) < Pow(10, 19)
  {
    assert AreDigits(x.rest) by { assert forall i :: 0 <= i < |x.rest| ==> x.rest[i] == ([x.lead] + x.rest)[i + 1]; }
    assert x.lead == ([x.lead] + x.rest)[0];
    NumberBelow(x.rest);
    NumberOfLead(x.lead, x.rest);
    TenPowers();
    hide Pow, NumberOf;
  }

  /** What the nearest decimal of a double that is not 0 says about it. */
  lemma NearestBounds(x: Decimal19, b: Binary)
    requires x.Finite? && IsNearest(x, b) && b.mantissa != 0
    ensures (Pow(10, 18) as real - 0.5) * Unit(x) <= Magnitude(b) <= (Pow(10, 19) as real - 0.5) * Unit(x)
  {
    hide Pow, DigitsOf, Magnitude, Unit;
    Normalised(x);
    UnitPositive(x);
    Bounded(Pow(10, 18), DigitsOf(x), Pow(10, 19), Unit(x), Magnitude(b));
  }

  lemma UnitPositive(x: Decimal19)
    requires x.Finite?
    ensures Unit(x) > 0.0
  {
  }

  lemma Bounded(low: int, d: int, high: int, u: real, v: real)
    requires u > 0.0 && low <= d < high && WithinHalf(d as real * u - v, u)
    ensures (low as real - 0.5) * u <= v <= (high as real - 0.5) * u
  {
    var n := d as real;
    Times(low as real - 0.5, n - 0.5, u);
    Times(n + 0.5, high as real - 0.5, u);
    assert (n - 0.5) * u == n * u - 0.5 * u && (n + 0.5) * u == n * u + 0.5 * u;
  }

  /**
    No double lies just below a power of ten if one double, m * 2^e with a full mantissa, is below the gap and the next
    one is not below the power.
    */
  lemma Gap(b: Binary, m: nat, e: int, low: real, high: real)
    requires b.mantissa <= 0x20_0000_0000_0000 && 0x10_0000_0000_0000 <= m
    requires m as real * Scale(2, e) < low && high <= (m + 1) as real * Scale(2, e)
    requires Magnitude(b) < high
    ensures Magnitude(b) < low
  {
    hide Scale, Pow, Magnitude;
    if b.exponent >= e {
      MagnitudeFrom(b, e);
      NearBelow(b.mantissa * Pow(2, b.exponent - e), m, Scale(2, e), Magnitude(b), low, high);
    } else {
      MagnitudeIs(b);
      ScaleMonotone(2, b.exponent, e - 1);
      ScaleNext(2, e - 1);
      FarBelow(b.mantissa, Scale(2, b.exponent), m, Scale(2, e - 1), Scale(2, e), Magnitude(b), low);
    }
  }

  /** A multiple of the unit that is below the bound is at most the last multiple before the gap. */
  lemma NearBelow(k: nat, m: nat, u: real, v: real, low: real, high: real)
    requires u > 0.0 && v == k as real * u && v < high <= (m + 1) as real * u && m as real * u < low
    ensures v < low
  {
    Ordered(k, m, u);
  }

  lemma FarBelow(k: nat, u: real, m: nat, w: real, t: real, v: real, low: real)
    requires 0.0 < u <= w && t == 2 as real * w && v == k as real * u && m as real * t < low
    requires k <= 0x20_0000_0000_0000 && 0x10_0000_0000_0000 <= m
    ensures v < low
  {
    Halved(k, u, m, w);
  }

  lemma MagnitudeIs(b: Binary)
    ensures Magnitude(b) == b.mantissa as real * Scale(2, b.exponent)
  {
  }

  lemma MagnitudeFrom(b: Binary, e: int)
    requires b.exponent >= e
    ensures Magnitude(b) == (b.mantissa * Pow(2, b.exponent - e)) as real * Scale(2, e)
  {
    hide Scale, Pow;
    var k := b.exponent - e;
    ScaleSum(2, e, k);
    ScaleIsPow(2, k);
    assert b.exponent == e + k;
    Regrouped(b.mantissa, Pow(2, k), Scale(2, e));
  }

  lemma Regrouped(m: nat, p: nat, u: real)
    ensures m as real * (u * p as real) == (m * p) as real * u
  {
    var x, y := m as real, p as real;
    assert (m * p) as real == x * y;
    assert x * (u * y) == (x * y) * u;
  }

  lemma Ordered(k: nat, m: nat, u: real)
    requires u > 0.0 && k as real * u < (m + 1) as real * u
    ensures k as real * u <= m as real * u
  {
    if k > m {
      Times((m + 1) as real, k as real, u);
    } else {
      Times(k as real, m as real, u);
    }
  }

  lemma Halved(k: nat, u: real, m: nat, w: real)
    requires 0.0 < u <= w && k <= 0x20_0000_0000_0000 && 0x10_0000_0000_0000 <= m
    ensures k as real * u <= m as real * (2.0 * w)
  {
    Times(k as real, 9007199254740992.0, u);
    Times(4503599627370496.0, m as real, 2.0 * w);
    assert 9007199254740992.0 * u <= 9007199254740992.0 * w == 4503599627370496.0 * (2.0 * w);
  }

  lemma PowersOfTwo()
    ensures Pow(2, 280) == 1942668892225729070919461906823518906642406839052139521251812409738904285205208498176
    ensures Pow(2, 381) == 4925250774549309901534880012517951725634967408808180833493536675530715221437151326426783281860614455100828498788352
  {
    assert Pow(2, 1) == 2 * Pow(2, 0);
    Doubling(2, 1, 2);
    Doubling(2, 2, 4);
    Doubling(2, 4, 16);
    Doubling(2, 8, 256);
    Doubling(2, 17, 131072);
    Doubling(2, 35, 34359738368);
    Doubling(2, 70, 1180591620717411303424);
    Doubling(2, 140, 1393796574908163946345982392040522594123776);
    Doubling(2, 2, 4);
    Doubling(2, 5, 32);
    Doubling(2, 11, 2048);
    Doubling(2, 23, 8388608);
    Doubling(2, 47, 140737488355328);
    Doubling(2, 95, 39614081257132168796771975168);
    Doubling(2, 190, 1569275433846670190958947355801916604025588861116008628224);
  }

  lemma PowersOfTen()
    ensures Pow(10, 82) == 10000000000000000000000000000000000000000000000000000000000000000000000000000000000
    ensures Pow(10, 99) == 1000000000000000000000000000000000000000000000000000000000000000000000000000000000000000000000000000
    ensures Pow(10, 100) == 10 * Pow(10, 99)
    ensures Pow(10, 117) == 1000000000000000000000000000000000000000000000000000000000000000000000000000000000000000000000000000000000000000000000
  {
    assert Pow(10, 1) == 10 * Pow(10, 0);
    Doubling(10, 1, 10);
    Doubling(10, 2, 100);
    Doubling(10, 5, 100000);
    Doubling(10, 10, 10000000000);
    Doubling(10, 20, 100000000000000000000);
    Doubling(10, 41, 100000000000000000000000000000000000000000);
    Doubling(10, 3, 1000);
    Doubling(10, 6, 1000000);
    Doubling(10, 12, 1000000000000);
    Doubling(10, 24, 1000000000000000000000000);
    Doubling(10, 49, 10000000000000000000000000000000000000000000000000);
    Doubling(10, 7, 10000000);
    Doubling(10, 14, 100000000000000);
    Doubling(10, 29, 100000000000000000000000000000);
    Doubling(10, 58, 10000000000000000000000000000000000000000000000000000000000);
  }

  /** The largest double below 10^100 is more than half a unit of the 19 digits away from it. */
  lemma BelowHuge()
    ensures 5147557589468028 as real * Scale(2, 280) < (Pow(10, 18) as real - 0.5) * Scale(10, 82)
    ensures Scale(10, 100) <= 5147557589468029 as real * Scale(2, 280)
  {
    hide Scale, Pow;
    PowersOfTwo();
    PowersOfTen();
    TenPowers();
    ScaleIsPow(2, 280);
    ScaleIsPow(10, 82);
    ScaleIsPow(10, 100);
  }

  /** The largest double below 10^-99 is as far away from that. */
  lemma BelowTiny()
    ensures 4925250774549309 as real * Scale(2, -381) < (Pow(10, 18) as real - 0.5) * Scale(10, -117)
    ensures Scale(10, -99) <= 4925250774549310 as real * Scale(2, -381)
  {
    hide Scale, Pow;
    PowersOfTwo();
    PowersOfTen();
    TenPowers();
    ScaleInverse(2, 381);
    ScaleInverse(10, 117);
    ScaleInverse(10, 99);
  }

  /** The magnitudes whose decimal exponent has three digits. */
  predicate LongExponent(v: real) {
    v >= Scale(10, 100) || 0.0 < v < Scale(10, -99)
  }

  lemma HugeIff(x: Decimal19, b: Binary)
    requires x.Finite? && IsNearest(x, b) && b.mantissa != 0 && b.mantissa <= 0x20_0000_0000_0000
    ensures x.exponent >= 100 <==> Magnitude(b) >= Scale(10, 100)
  {
    hide *;
    NearestUnits(x, b);
    BelowHuge();
    if x.exponent >= 100 {
      Raised(x, 82);
      if Magnitude(b) < Scale(10, 100) {
        Gap(b, 5147557589468028, 280, (Pow(10, 18) as real - 0.5) * Scale(10, 82), Scale(10, 100));
      }
    } else {
      ScaleMonotone(10, x.exponent + 1, 100);
    }
  }

  lemma TinyIff(x: Decimal19, b: Binary)
    requires x.Finite? && IsNearest(x, b) && b.mantissa != 0 && b.mantissa <= 0x20_0000_0000_0000
    ensures x.exponent <= -100 <==> Magnitude(b) < Scale(10, -99)
  {
    hide *;
    NearestUnits(x, b);
    BelowTiny();
    if x.exponent >= -99 {
      Raised(x, -117);
      if Magnitude(b) < Scale(10, -99) {
        Gap(b, 4925250774549309, -381, (Pow(10, 18) as real - 0.5) * Scale(10, -117), Scale(10, -99));
      }
    } else {
      ScaleMonotone(10, x.exponent + 1, -99);
    }
  }

  /** The value is at least 10^exponent, less half a unit, and below 10^(exponent + 1). */
  lemma NearestUnits(x: Decimal19, b: Binary)
    requires x.Finite? && IsNearest(x, b) && b.mantissa != 0
    ensures (Pow(10, 18) as real - 0.5) * Scale(10, x.exponent - 18) <= Magnitude(b) < Scale(10, x.exponent + 1)
  {
    hide Scale, Pow, Magnitude, IsNearest;
    NearestBounds(x, b);
    UnitPositive(x);
    ScaleSum(10, x.exponent - 18, 19);
    ScaleIsPow(10, 19);
    Less(Pow(10, 19) as real, Scale(10, x.exponent - 18));
  }

  lemma Less(p: real, u: real)
    requires u > 0.0
    ensures (p - 0.5) * u < u * p
  {
    assert (p - 0.5) * u == u * p - 0.5 * u;
  }

  lemma Raised(x: Decimal19, e: int)
    requires x.Finite? && e <= x.exponent - 18
    ensures (Pow(10, 18) as real - 0.5) * Scale(10, e) <= (Pow(10, 18) as real - 0.5) * Scale(10, x.exponent - 18)
  {
    hide Scale, Pow;
    ScaleMonotone(10, e, x.exponent - 18);
    TenPowers();
    var c, u, v := Pow(10, 18) as real - 0.5, Scale(10, e), Scale(10, x.exponent - 18);
    Times(u, v, c);
    assert u * c == c * u && v * c == c * v;
  }

  lemma BitsInRange(bits: uint64)
    ensures BinaryOf(bits).Some? ==> BinaryOf(bits).value.mantissa < 0x20_0000_0000_0000
    ensures BinaryOf(bits).Some? ==> (BinaryOf(bits).value.negative <==> bits >= 0x8000_0000_0000_0000)
  {
  }

  /** The decimal exponent that is printed has three digits exactly if the number is that large or that small. */
  lemma ExponentIff(x: Decimal19, b: Binary)
    requires x.Finite? && IsNearest(x, b) && b.mantissa <= 0x20_0000_0000_0000
    ensures x.exponent >= 100 || x.exponent <= -100 <==> LongExponent(Magnitude(b))
  {
    hide Scale, DigitsOf;
    if b.mantissa != 0 {
      HugeIff(x, b);
      TinyIff(x, b);
    }
  }

  /** The rounding gives a nearest decimal for the finite double with these bits, and a name for any other. */
  predicate RoundsToNearest(rounding: Rounding, bits: uint64) {
    match BinaryOf(bits)
    case None => rounding(bits).NotFinite? && rounding(bits).text != []
    case Some(b) => rounding(bits).Finite? && IsNearest(rounding(bits), b)
  }

  /**
    For the bits of any double: nothing is printed between the type and the end of the line if and only if the double
    is finite, negative, and at least 10^100 or else nonzero and below 10^-99 in magnitude.
    */
  lemma FloatDroppedIff(bits: uint64, rounding: Rounding)
    requires RoundsToNearest(rounding, bits)
    ensures var b := BinaryOf(bits);
      LeafText(Float(bits), rounding) == Ascii("<FLOAT> ") + Ascii("\n") <==>
      b.Some? && b.value.negative && LongExponent(Magnitude(b.value))
  {
    hide IsNearest, LongExponent, Magnitude, Scientific, Ascii;
    var x := rounding(bits);
    BitsInRange(bits);
    LeavesText(x);
    DoubleDroppedIff(x);
    NothingBetween(Ascii("<FLOAT> "), Shown(Scientific(x), DOUBLE_SCRATCH), Ascii("\n"));
    if x.Finite? {
      NearestSign(x, BinaryOf(bits).value);
      ExponentIff(x, BinaryOf(bits).value);
    }
  }

  lemma NearestSign(x: Decimal19, b: Binary)
    requires x.Finite? && IsNearest(x, b)
    ensures x.negative == b.negative
  {
  }

  lemma NothingBetween(a: seq<byte>, s: seq<byte>, c: seq<byte>)
    ensures a + s + c == a + c <==> s == []
  {
    assert |a + s + c| == |a + c| + |s|;
    assert s == [] ==> a + s == a;
  }

  // ---------------------------------------------------------------- the values of bits and the texts of decimals

  /** Zero, one, and which bits are no finite number. */
  lemma BitsOfZeroAndOne(bits: uint64)
    ensures BinaryOf(0).Some? && Magnitude(BinaryOf(0).value) == 0.0
    ensures BinaryOf(0x3FF0_0000_0000_0000).Some? && Magnitude(BinaryOf(0x3FF0_0000_0000_0000).value) == 1.0
    ensures BinaryOf(bits).None? <==> bits % 0x8000_0000_0000_0000 >= 0x7FF0_0000_0000_0000
  {
    hide Scale, Pow;
    ScaleInverse(2, 52);
    FiftyTwo();
  }

  lemma FiftyTwo()
    ensures Pow(2, 52) == 0x10_0000_0000_0000
  {
    assert Pow(2, 1) == 2 * Pow(2, 0);
    Doubling(2, 1, 2);
    Doubling(2, 3, 8);
    Doubling(2, 6, 0x40);
    Doubling(2, 13, 0x2000);
    Doubling(2, 26, 0x400_0000);
  }

  /** The next bits are the next number: the magnitude grows by a power of two that the exponent field gives. */
  lemma NextDouble(bits: uint64, next: uint64)
    requires next == bits as int + 1 && BinaryOf(bits).Some? && BinaryOf(next).Some? && next != 0x8000_0000_0000_0000
    ensures var a, b := BinaryOf(bits).value, BinaryOf(next).value;
      && (a.negative <==> b.negative)
      && Magnitude(b) == Magnitude(a) + Scale(2, Max(bits % 0x8000_0000_0000_0000 / 0x10_0000_0000_0000, 1) - 1075)
  {
    hide Scale, Magnitude;
    var a, b := BinaryOf(bits).value, BinaryOf(next).value;
    MagnitudeIs(a);
    MagnitudeIs(b);
    NextBits(bits, next);
    if b.exponent == a.exponent {
      OneMore(a.mantissa, Scale(2, a.exponent));
    } else {
      ScaleNext(2, a.exponent);
      NextBinade(Scale(2, a.exponent));
    }
  }

  /** The fields of the next bits: the fraction carries into the exponent. */
  lemma NextFields(bits: uint64, next: uint64)
    requires next == bits as int + 1 && next != 0x8000_0000_0000_0000
    ensures var m, n := bits % 0x8000_0000_0000_0000, next % 0x8000_0000_0000_0000;
      && (bits >= 0x8000_0000_0000_0000 <==> next >= 0x8000_0000_0000_0000)
      && (if m % 0x10_0000_0000_0000 == 0xF_FFFF_FFFF_FFFF
          then n / 0x10_0000_0000_0000 == m / 0x10_0000_0000_0000 + 1 && n % 0x10_0000_0000_0000 == 0
          else n / 0x10_0000_0000_0000 == m / 0x10_0000_0000_0000
               && n % 0x10_0000_0000_0000 == m % 0x10_0000_0000_0000 + 1)
  {
    var m := bits % 0x8000_0000_0000_0000;
    assert bits == m || bits == m + 0x8000_0000_0000_0000;
    assert next % 0x8000_0000_0000_0000 == m + 1;
    Carried(m, m / 0x10_0000_0000_0000, m % 0x10_0000_0000_0000);
  }

  lemma Carried(m: nat, e: nat, f: nat)
    requires m == e * 0x10_0000_0000_0000 + f && f < 0x10_0000_0000_0000
    ensures if f == 0xF_FFFF_FFFF_FFFF then (m + 1) / 0x10_0000_0000_0000 == e + 1 && (m + 1) % 0x10_0000_0000_0000 == 0
            else (m + 1) / 0x10_0000_0000_0000 == e && (m + 1) % 0x10_0000_0000_0000 == f + 1
  {
  }

  lemma BinaryIs(bits: uint64, e: nat, f: nat)
    requires e == bits % 0x8000_0000_0000_0000 / 0x10_0000_0000_0000 && f == bits % 0x8000_0000_0000_0000 % 0x10_0000_0000_0000
    ensures BinaryOf(bits) ==
      if e == 0x7FF then None
      else Some(Binary(bits >= 0x8000_0000_0000_0000, if e == 0 then f else f + 0x10_0000_0000_0000, Max(e, 1) - 1075))
  {
  }

  lemma NextBits(bits: uint64, next: uint64)
    requires next == bits as int + 1 && BinaryOf(bits).Some? && BinaryOf(next).Some? && next != 0x8000_0000_0000_0000
    ensures var a, b := BinaryOf(bits).value, BinaryOf(next).value;
      && (a.negative <==> b.negative) && a.exponent == Max(bits % 0x8000_0000_0000_0000 / 0x10_0000_0000_0000, 1) - 1075
      && (if b.exponent == a.exponent then b.mantissa == a.mantissa + 1
          else b.exponent == a.exponent + 1 && a.mantissa == 0x1F_FFFF_FFFF_FFFF && b.mantissa == 0x10_0000_0000_0000)
  {
    hide BinaryOf;
    var m, n := bits % 0x8000_0000_0000_0000, next % 0x8000_0000_0000_0000;
    NextFields(bits, next);
    BinaryIs(bits, m / 0x10_0000_0000_0000, m % 0x10_0000_0000_0000);
    BinaryIs(next, n / 0x10_0000_0000_0000, n % 0x10_0000_0000_0000);
  }

  lemma OneMore(m: nat, u: real)
    ensures (m + 1) as real * u == m as real * u + u
  {
  }

  lemma NextBinade(u: real)
    ensures 0x10_0000_0000_0000 as real * (2 as real * u) == 0x1F_FFFF_FFFF_FFFF as real * u + u
  {
  }

  /** The text of a decimal, byte by byte: sign, digit, point, 18 digits, "e", sign, at least two digits. */
  lemma ScientificText(x: Decimal19)
    requires x.Finite? && |x.rest| == 18
    ensures var t := Scientific(x); var n := if x.negative then 1 else 0;
      && |t| >= n + 24
      && (x.negative ==> t[0] == 0x2D)
      && t[n] == x.lead && t[n + 1] == 0x2E && t[n + 2..n + 20] == x.rest
      && t[n + 20] == 0x65 && t[n + 21] == (if x.exponent < 0 then 0x2D else 0x2B)
      && AreDigits(t[n + 22..]) && NumberOf(t[n + 22..]) == (if x.exponent < 0 then -x.exponent else x.exponent)
      && (|t| == n + 24 || t[n + 22] != 0x30)
  {
    hide TwoDigits, NumberOf, Ascii;
    var e := if x.exponent < 0 then -x.exponent else x.exponent;
    TwoDigitsAre(e);
    MarksAre();
    var sign, t := if x.negative then [0x2D] else [], Scientific(x);
    var n := |sign|;
    assert t == sign + [x.lead] + [0x2E] + x.rest + [0x65] + [if x.exponent < 0 then 0x2D else 0x2B] + TwoDigits(e);
    assert t[n + 22..] == TwoDigits(e);
  }

  lemma MarksAre()
    ensures Ascii("-") == [0x2D] && Ascii("+") == [0x2B] && Ascii(".") == [0x2E] && Ascii("e") == [0x65]
  {
  }

  lemma TwoDigitsAre(e: nat)
    ensures |TwoDigits(e)| >= 2 && AreDigits(TwoDigits(e)) && NumberOf(TwoDigits(e)) == e
    ensures |TwoDigits(e)| == 2 || TwoDigits(e)[0] != 0x30
  {
    hide NumberOf;
    NumberOfDigits(e);
    if e < 10 {
      NumberOfLead(DIGIT0, Digits(e));
    } else {
      assert |Digits(e)| == |Digits(e / 10)| + 1;
    }
  }
}
