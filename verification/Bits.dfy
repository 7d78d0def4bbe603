/**
  The shifts and masks of C on unsigned words, as functions on natural numbers defined bit by bit, and what the
  expressions of utf16_utf8.c and base64.c compute with them.
  */
module Bits {
  import opened Common
  import opened Unicode

  function And(x: nat, y: nat): nat {
    if x == 0 || y == 0 then 0 else (if x % 2 == 1 && y % 2 == 1 then 1 else 0) + 2 * And(x / 2, y / 2)
  }

  function Or(x: nat, y: nat): nat
    decreases x + y
  {
    if x == 0 && y == 0 then 0 else (if x % 2 == 1 || y % 2 == 1 then 1 else 0) + 2 * Or(x / 2, y / 2)
  }

  function Shl(x: nat, n: nat): nat { x * Pow(2, n) }

  function Shr(x: nat, n: nat): nat { x / Pow(2, n) }

  // ---------------------------------------------------------------- the laws

  lemma Halves(x: nat)
    ensures x == 2 * (x / 2) + x % 2
  {
  }

  lemma HalfModulo(x: nat, p: nat)
    requires p > 0
    ensures x % (2 * p) == x % 2 + 2 * (x / 2 % p)
  {
    var q, r := x / 2 / p, x / 2 % p;
    assert x / 2 == q * p + r;
    assert x == q * (2 * p) + (x % 2 + 2 * r) by {
      Halves(x);
      assert 2 * (q * p) == q * (2 * p);
    }
    Remainder(x, q, x % 2 + 2 * r, 2 * p);
  }

  lemma Remainder(x: nat, q: nat, r: nat, d: nat)
    requires x == q * d + r && r < d
    ensures x % d == r && x / d == q
  {
    var k := x / d - q;
    assert x == x / d * d + x % d;
    assert k * d == r - x % d;
    NoMultiple(k, d);
  }

  /** Only 0 is a multiple of d that is smaller than d. */
  lemma NoMultiple(k: int, d: nat)
    ensures k == 0 || k * d >= d || k * d <= 0 - d
  {
  }

  /** A mask of k ones takes the remainder. */
  lemma {:induction false} MaskIsModulo(x: nat, k: nat)
    ensures And(x, Pow(2, k) - 1) == x % Pow(2, k)
  {
    hide And, Pow;
    if k > 0 {
      var p := Pow(2, k - 1);
      MaskIsModulo(x / 2, k - 1);
      Twice(1, k);
      MaskStep(x, p, Pow(2, k));
    } else {
      NoMask(x);
    }
  }

  lemma MaskStep(x: nat, p: nat, q: nat)
    requires p > 0 && q == 2 * p && And(x / 2, p - 1) == x / 2 % p
    ensures And(x, q - 1) == x % q
  {
    hide And;
    HalfModulo(x, p);
    OddMask(x, p - 1);
    assert q - 1 == 2 * (p - 1) + 1;
  }

  lemma NoMask(x: nat)
    ensures And(x, Pow(2, 0) - 1) == x % Pow(2, 0)
  {
  }

  lemma OddMask(x: nat, m: nat)
    ensures And(x, 2 * m + 1) == x % 2 + 2 * And(x / 2, m)
  {
    assert (2 * m + 1) / 2 == m && (2 * m + 1) % 2 == 1;
  }

  lemma {:induction false} OrZero(x: nat)
    ensures Or(x, 0) == x
    decreases x
  {
    if x > 0 {
      OrZero(x / 2);
      Halves(x);
    }
  }

  /** Where the bits of one operand end before those of the other begin, `|` adds. */
  lemma {:induction false} OrIsSum(a: nat, b: nat, k: nat)
    requires b < Pow(2, k)
    ensures Or(a * Pow(2, k), b) == a * Pow(2, k) + b
  {
    hide Or;
    if k == 0 {
      OrZero(a);
    } else {
      var p := Pow(2, k - 1);
      Twice(a, k);
      OrIsSum(a, b / 2, k - 1);
      EvenOr(a * p, b);
      Halves(b);
    }
  }

  lemma Twice(x: nat, k: nat)
    requires k > 0
    ensures x * Pow(2, k) == 2 * (x * Pow(2, k - 1))
  {
  }

  lemma EvenOr(y: nat, b: nat)
    ensures Or(2 * y, b) == b % 2 + 2 * Or(y, b / 2)
  {
    assert 2 * y / 2 == y && 2 * y % 2 == 0;
  }

  /** `&` commutes with a common shift. */
  lemma {:induction false} AndShifted(x: nat, y: nat, k: nat)
    ensures And(x * Pow(2, k), y * Pow(2, k)) == And(x, y) * Pow(2, k)
  {
    hide And, Pow;
    if k == 0 {
      Unshifted();
    } else {
      AndShifted(x, y, k - 1);
      Twice(x, k);
      Twice(y, k);
      Twice(And(x, y), k);
      EvenAnd(x * Pow(2, k - 1), y * Pow(2, k - 1));
    }
  }

  lemma Unshifted()
    ensures Pow(2, 0) == 1
  {
  }

  lemma EvenAnd(x: nat, y: nat)
    ensures And(2 * x, 2 * y) == 2 * And(x, y)
  {
    assert 2 * x / 2 == x && 2 * y / 2 == y && 2 * x % 2 == 0;
  }

  lemma Powers()
    ensures Pow(2, 2) == 0x4 && Pow(2, 3) == 0x8 && Pow(2, 4) == 0x10 && Pow(2, 5) == 0x20 && Pow(2, 6) == 0x40
    ensures Pow(2, 10) == 0x400 && Pow(2, 12) == 0x1000 && Pow(2, 16) == 0x1_0000 && Pow(2, 18) == 0x4_0000
    ensures Pow(2, 28) == 0x1000_0000 && Pow(2, 40) == 0x100_0000_0000 && Pow(2, 52) == 0x10_0000_0000_0000
  {
    assert Pow(2, 1) == 2 * Pow(2, 0);
    Doubling(2, 1, 2);
    Doubling(2, 2, 4);
    Doubling(2, 3, 8);
    Doubling(2, 5, 0x20);
    Doubling(2, 6, 0x40);
    Doubling(2, 8, 0x100);
    Doubling(2, 9, 0x200);
    Doubling(2, 10, 0x400);
    Doubling(2, 13, 0x2000);
    Doubling(2, 14, 0x4000);
    Doubling(2, 20, 0x10_0000);
    Doubling(2, 26, 0x400_0000);
    assert Pow(2, 4) == 2 * Pow(2, 3) && Pow(2, 9) == 2 * Pow(2, 8) && Pow(2, 8) == 2 * Pow(2, 7);
  }

  // ---------------------------------------------------------------- utf16_utf8.c

  /** What the masks leave of a lead byte and of a trailing one. */
  lemma LowBits(a: nat)
    ensures 0x80 <= a < 0xC0 ==> And(a, 0x3F) == a - 0x80
    ensures 0xC0 <= a < 0xE0 ==> And(a, 0x1F) == a - 0xC0
    ensures 0xE0 <= a < 0xF0 ==> And(a, 0x0F) == a - 0xE0
    ensures 0xF0 <= a < 0xF8 ==> And(a, 0x07) == a - 0xF0
  {
    hide And, Pow;
    Powers();
    MaskIsModulo(a, 6);
    MaskIsModulo(a, 5);
    MaskIsModulo(a, 4);
    MaskIsModulo(a, 3);
  }

  lemma Shifted(x: nat)
    ensures Shl(x, 6) == x * 0x40 && Shl(x, 12) == x * 0x1000 && Shl(x, 18) == x * 0x4_0000
  {
    hide Pow;
    Powers();
  }

  /** Two bytes: the masks and shifts give the code point of section 3 of RFC 3629. */
  lemma Decoded2(a: nat, b: nat)
    requires 0xC0 <= a < 0xE0 && 0x80 <= b < 0xC0
    ensures Or(Shl(And(a, 0x1F), 6), And(b, 0x3F)) == Value2(a, b)
  {
    hide And, Or, Shl, Pow;
    Powers();
    LowBits(a);
    LowBits(b);
    Shifted(a - 0xC0);
    OrIsSum(a - 0xC0, b - 0x80, 6);
  }

  lemma Decoded3(a: nat, b: nat, c: nat)
    requires 0xE0 <= a < 0xF0 && 0x80 <= b < 0xC0 && 0x80 <= c < 0xC0
    ensures Or(Or(Shl(And(a, 0x0F), 12), Shl(And(b, 0x3F), 6)), And(c, 0x3F)) == Value3(a, b, c)
  {
    hide And, Or, Shl, Pow;
    Powers();
    LowBits(a);
    LowBits(b);
    LowBits(c);
    Shifted(a - 0xE0);
    Shifted(b - 0x80);
    OrIsSum(a - 0xE0, (b - 0x80) * 0x40, 12);
    OrIsSum((a - 0xE0) * 0x40 + b - 0x80, c - 0x80, 6);
  }

  lemma Decoded4(a: nat, b: nat, c: nat, d: nat)
    requires 0xF0 <= a < 0xF8 && 0x80 <= b < 0xC0 && 0x80 <= c < 0xC0 && 0x80 <= d < 0xC0
    ensures Or(Or(Or(Shl(And(a, 0x07), 18), Shl(And(b, 0x3F), 12)), Shl(And(c, 0x3F), 6)), And(d, 0x3F)) == Value4(a, b, c, d)
  {
    hide And, Or, Shl, Pow;
    LowBits(a);
    LowBits(b);
    LowBits(c);
    LowBits(d);
    Shifted(a - 0xF0);
    Shifted(b - 0x80);
    Shifted(c - 0x80);
    Joined4(a - 0xF0, b - 0x80, c - 0x80, d - 0x80);
  }

  lemma Joined4(a: nat, b: nat, c: nat, d: nat)
    requires b < 0x40 && c < 0x40 && d < 0x40
    ensures Or(Or(Or(a * 0x4_0000, b * 0x1000), c * 0x40), d) == a * 0x4_0000 + b * 0x1000 + c * 0x40 + d
  {
    hide And, Or, Pow;
    Powers();
    OrIsSum(a, b * 0x1000, 18);
    OrIsSum(a * 0x40 + b, c * 0x40, 12);
    OrIsSum(a * 0x1000 + b * 0x40 + c, d, 6);
  }

  /** The bytes `_write_utf8_codeunits` stores for two, three and four bytes. */
  lemma Written2(k: nat)
    requires k < 0x800
    ensures Or(0xC0, Shr(k, 6)) == 0xC0 + k / 0x40 && Or(0x80, And(k, 0x3F)) == 0x80 + k % 0x40
  {
    hide And, Or, Pow;
    Powers();
    OrIsSum(3, k / 0x40, 6);
    Continued(k);
  }

  /** A trailing byte. */
  lemma Continued(k: nat)
    ensures Or(0x80, And(k, 0x3F)) == 0x80 + k % 0x40
  {
    hide And, Or, Pow;
    Powers();
    MaskIsModulo(k, 6);
    OrIsSum(2, k % 0x40, 6);
  }

  lemma Written3(k: nat)
    requires k < 0x1_0000
    ensures Or(0xE0, Shr(k, 12)) == 0xE0 + k / 0x1000
    ensures Or(0x80, And(Shr(k, 6), 0x3F)) == 0x80 + k / 0x40 % 0x40 && Or(0x80, And(k, 0x3F)) == 0x80 + k % 0x40
  {
    hide And, Or, Pow;
    Powers();
    OrIsSum(14, k / 0x1000, 4);
    Continued(k / 0x40);
    Continued(k);
  }

  lemma Written4(k: nat)
    requires k <= 0x10FFFF
    ensures Or(0xF0, Shr(k, 18)) == 0xF0 + k / 0x4_0000 && Or(0x80, And(Shr(k, 12), 0x3F)) == 0x80 + k / 0x1000 % 0x40
    ensures Or(0x80, And(Shr(k, 6), 0x3F)) == 0x80 + k / 0x40 % 0x40 && Or(0x80, And(k, 0x3F)) == 0x80 + k % 0x40
  {
    hide And, Or, Pow;
    Powers();
    OrIsSum(15, k / 0x4_0000, 4);
    Continued(k / 0x1000);
    Continued(k / 0x40);
    Continued(k);
  }

  /** The two units `_write_utf16_codeunits` stores. */
  lemma Written16(k: nat)
    requires k <= 0x10FFFF
    ensures Or(0xD800, Shr(And(k, 0xFFFF), 10)) == 0xD800 + k % 0x1_0000 / 0x400
    ensures Or(0xDC00, And(k, 0x3FF)) == 0xDC00 + k % 0x400
  {
    hide And, Or, Pow;
    Powers();
    MaskIsModulo(k, 16);
    MaskIsModulo(k, 10);
    OrIsSum(54, k % 0x1_0000 / 0x400, 10);
    OrIsSum(55, k % 0x400, 10);
  }

  // ---------------------------------------------------------------- base64.c

  /** The six-bit groups and the carries of `base64_stream_encode_plain`. */
  lemma FirstGroup(b: nat)
    requires b < 0x100
    ensures Shr(b, 2) == b / 4 && And(Shl(b, 4), 0x30) == b % 4 * 16
  {
    hide And, Or, Pow;
    Powers();
    AndShifted(b, 3, 4);
    MaskIsModulo(b, 2);
  }

  lemma SecondGroup(carry: nat, b: nat)
    requires b < 0x100 && carry < 4
    ensures Or(carry * 16, Shr(b, 4)) == carry * 16 + b / 16 && And(Shl(b, 2), 0x3C) == b % 16 * 4
  {
    hide And, Or, Pow;
    Powers();
    OrIsSum(carry, b / 16, 4);
    AndShifted(b, 15, 2);
    MaskIsModulo(b, 4);
  }

  lemma ThirdGroup(carry: nat, b: nat)
    requires b < 0x100 && carry < 16
    ensures Or(carry * 4, Shr(b, 6)) == carry * 4 + b / 64 && And(b, 0x3F) == b % 64
  {
    hide And, Or, Pow;
    Powers();
    OrIsSum(carry, b / 64, 2);
    MaskIsModulo(b, 6);
  }

  /** The four 12-bit indices of `enc_loop_generic_64_inner`. */
  lemma TwelveBits(v: nat)
    ensures And(Shr(v, 52), 0xFFF) == v / 0x10_0000_0000_0000 % 0x1000
    ensures And(Shr(v, 40), 0xFFF) == v / 0x100_0000_0000 % 0x1000
    ensures And(Shr(v, 28), 0xFFF) == v / 0x1000_0000 % 0x1000
    ensures And(Shr(v, 16), 0xFFF) == v / 0x1_0000 % 0x1000
  {
    hide And, Or, Pow;
    Powers();
    MaskIsModulo(Shr(v, 52), 12);
    MaskIsModulo(Shr(v, 40), 12);
    MaskIsModulo(Shr(v, 28), 12);
    MaskIsModulo(Shr(v, 16), 12);
  }
}
