/** Types and small sequence facts shared by every component. */
module Common {

  /** A C `uint8_t`. */
  type byte = b: int | 0 <= b < 0x100

  /** A UTF-16 code unit, the C `jchar`. */
  type unit16 = u: int | 0 <= u < 0x1_0000

  const UINT32_MAX: int := 0xFFFF_FFFF
  const INT_MAX: int := 0x7FFF_FFFF
  const SIZE_MAX: int := 0xFFFF_FFFF_FFFF_FFFF

  datatype Option<+T> = None | Some(value: T)

  function Min(a: int, b: int): (m: int)
    ensures m <= a && m <= b && (m == a || m == b)
  {
    if a <= b then a else b
  }

  function Max(a: int, b: int): (m: int)
    ensures a <= m && b <= m && (m == a || m == b)
  {
    if a <= b then b else a
  }

  /** The concatenation of a sequence of byte strings. */
  function Flatten<T>(parts: seq<seq<T>>): seq<T> {
    if parts == [] then [] else parts[0] + Flatten(parts[1..])
  }

  lemma {:induction false} FlattenAppend<T>(parts: seq<seq<T>>, more: seq<seq<T>>)
    ensures Flatten(parts + more) == Flatten(parts) + Flatten(more)
  {
    if parts == [] {
      assert parts + more == more;
    } else {
      assert (parts + more)[1..] == parts[1..] + more;
      FlattenAppend(parts[1..], more);
    }
  }

  lemma Associate<T>(a: seq<T>, b: seq<T>, c: seq<T>)
    ensures a + b + c == a + (b + c)
  {
  }

  function Pow(b: nat, n: nat): (p: nat)
    ensures b > 0 ==> p > 0
  {
    if n == 0 then 1 else b * Pow(b, n - 1)
  }

  lemma MulAssociate(a: nat, b: nat, c: nat)
    ensures a * (b * c) == (a * b) * c
  {
  }

  lemma {:induction false} PowSum(b: nat, m: nat, n: nat)
    ensures Pow(b, m + n) == Pow(b, m) * Pow(b, n)
  {
    if m > 0 {
      PowSum(b, m - 1, n);
      MulAssociate(b, Pow(b, m - 1), Pow(b, n));
    }
  }

  lemma Doubling(b: nat, n: nat, p: nat)
    requires Pow(b, n) == p
    ensures Pow(b, 2 * n) == p * p && Pow(b, 2 * n + 1) == b * (p * p)
  {
    PowSum(b, n, n);
  }
}
