/**
 * JavaScript's bitwise operators on integer-valued numbers: both operands are
 * converted to 32-bit integers (ToInt32), combined bit by bit, and the result
 * read back as a signed 32-bit integer.
 */
module JsBits {
  import opened Bytes

  function Pow2(k: nat): (p: nat)
    ensures p >= 1
  {
    if k == 0 then 1 else 2 * Pow2(k - 1)
  }

  /** ToUint32 of an integer: its value modulo 2^32. */
  function ToUint32(x: int): (u: nat)
    ensures u < Two32
  {
    x % Two32
  }

  /** ToInt32 of an integer: its value modulo 2^32, read as two's complement. */
  function ToInt32(x: int): (v: int)
    ensures -Two31 <= v < Two31
    ensures 0 <= x < Two31 ==> v == x
  {
    var u := x % Two32;
    if u >= Two31 then u - Two32 else u
  }

  /** Bitwise or of two naturals, lowest bit first. */
  function Or(a: nat, b: nat): nat
    decreases a + b
  {
    if a == 0 then b
    else if b == 0 then a
    else 2 * Or(a / 2, b / 2) + (if a % 2 == 1 || b % 2 == 1 then 1 else 0)
  }

  /** `a | b`. */
  function JsOr(a: int, b: int): (r: int)
    ensures -Two31 <= r < Two31
  {
    ToInt32(Or(ToUint32(a), ToUint32(b)))
  }

  /** `a << n` for a shift count below 32. */
  function JsShl(a: int, n: nat): (r: int)
    requires n < 32
    ensures -Two31 <= r < Two31
    ensures 0 <= a && a * Pow2(n) < Two31 ==> r == a * Pow2(n)
  {
    ToInt32(ToUint32(a) * Pow2(n))
  }

  /** Or-ing in a value that lies entirely below the lowest bit of a multiple of 2^k is addition. */
  lemma {:induction false} OrDisjoint(m: nat, b: nat, k: nat)
    requires b < Pow2(k)
    ensures Or(m * Pow2(k), b) == m * Pow2(k) + b
    decreases k
  {
    var a := m * Pow2(k);
    if a != 0 && b != 0 {
      var p := Pow2(k - 1);
      assert a == 2 * (m * p);
      OrDisjoint(m, b / 2, k - 1);
    }
  }

  /** `a | b` on operands that occupy disjoint bit ranges, below and from `p = 2^k`, with a sum below 2^31, adds them. */
  lemma {:induction false} JsOrDisjoint(a: int, m: nat, b: nat, k: nat, p: nat)
    requires p == Pow2(k) && a == m * p && b < p && a + b < Two31
    ensures JsOr(a, b) == a + b
  {
    assert ToUint32(a) == a && ToUint32(b) == b;
    OrDisjoint(m, b, k);
  }

  /** The powers of two the header fields sit at. */
  lemma Pow2Value()
    ensures Pow2(7) == 0x80 && Pow2(8) == 0x100 && Pow2(9) == 0x200 && Pow2(10) == 0x400
    ensures Pow2(11) == 0x800 && Pow2(15) == 0x8000
  {
    assert Pow2(7) == 0x80;
    assert Pow2(11) == 0x800;
    assert Pow2(15) == 0x8000;
  }
}
