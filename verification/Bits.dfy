/**
 Machine words as natural numbers: powers of two, single bits, and the C++ operators
 `|`, `&` and `<<` on unsigned operands, with the bit-by-bit laws the other modules use.
 */
module Bits {

  function Pow2(n: nat): (p: nat)
    ensures p > 0
  {
    if n == 0 then 1 else 2 * Pow2(n - 1)
  }

  /** Bit `i` of `x`, counting from the low end. */
  predicate Bit(x: nat, i: nat) {
    if i == 0 then x % 2 == 1 else Bit(x / 2, i - 1)
  }

  /** `x | y` */
  function Or(x: nat, y: nat): nat {
    if x == 0 && y == 0 then 0
    else 2 * Or(x / 2, y / 2) + (if x % 2 == 1 || y % 2 == 1 then 1 else 0)
  }

  /** `x & y` */
  function And(x: nat, y: nat): nat {
    if x == 0 || y == 0 then 0
    else 2 * And(x / 2, y / 2) + (if x % 2 == 1 && y % 2 == 1 then 1 else 0)
  }

  /** `x << s` kept in a word of `width` bits */
  function Shl(x: nat, s: nat, width: nat): nat {
    (x * Pow2(s)) % Pow2(width)
  }

  /** `x >> s` */
  function Shr(x: nat, s: nat): nat {
    if s == 0 then x else Shr(x / 2, s - 1)
  }

  lemma {:induction false} Pow2Sum(a: nat, b: nat)
    ensures Pow2(a + b) == Pow2(a) * Pow2(b)
  {
    if a > 0 {
      Pow2Sum(a - 1, b);
      assert Pow2(a + b) == 2 * (Pow2(a - 1) * Pow2(b)) == Pow2(a) * Pow2(b);
    }
  }

  lemma {:induction false} ZeroBit(i: nat)
    ensures !Bit(0, i)
  {
    if i > 0 { ZeroBit(i - 1); }
  }

  lemma OrHalves(x: nat, y: nat)
    ensures Or(x, y) / 2 == Or(x / 2, y / 2)
    ensures Or(x, y) % 2 == if x % 2 == 1 || y % 2 == 1 then 1 else 0
  {
  }

  lemma {:induction false} OrBit(x: nat, y: nat, i: nat)
    ensures Bit(Or(x, y), i) == (Bit(x, i) || Bit(y, i))
  {
    OrHalves(x, y);
    if i > 0 {
      OrBit(x / 2, y / 2, i - 1);
    }
  }

  /** The bit `1 << b` on its own. */
  lemma {:induction false} Pow2Bit(b: nat, i: nat)
    ensures Bit(Pow2(b), i) == (i == b)
  {
    if i == 0 {
    } else if b == 0 {
      ZeroBit(i - 1);
    } else {
      assert Pow2(b) / 2 == Pow2(b - 1);
      Pow2Bit(b - 1, i - 1);
    }
  }

  lemma {:induction false} ScaleBit(x: nat, s: nat, i: nat)
    ensures Bit(x * Pow2(s), i) == (i >= s && Bit(x, i - s))
  {
    if s > 0 {
      assert x * Pow2(s) == 2 * (x * Pow2(s - 1));
      if i > 0 { ScaleBit(x, s - 1, i - 1); }
    }
  }

  /** Halving commutes with truncation. */
  lemma {:induction false} ModHalves(x: nat, n: nat)
    requires n > 0
    ensures x % Pow2(n) == 2 * ((x / 2) % Pow2(n - 1)) + x % 2
  {
    var m := Pow2(n - 1);
    var q, r := (x / 2) / m, (x / 2) % m;
    assert x == 2 * (m * q + r) + x % 2;
    assert x == Pow2(n) * q + (2 * r + x % 2) by { assert 2 * (m * q) == Pow2(n) * q; }
    ModUnique(x, Pow2(n), q, 2 * r + x % 2);
  }

  /** Division has one quotient and one remainder. */
  lemma {:induction false} ModUnique(x: int, m: int, q: int, r: int)
    requires m > 0 && 0 <= r < m && x == m * q + r
    ensures x % m == r && x / m == q
  {
    var d := x / m - q;
    assert m * d == m * (x / m) - m * q;
    assert m * d == r - x % m;
    NoSmallMultiple(m, d);
  }

  lemma NoSmallMultiple(m: int, d: int)
    requires -m < m * d < m
    ensures d == 0
  {
  }

  lemma {:induction false} ModBit(x: nat, n: nat, i: nat)
    ensures Bit(x % Pow2(n), i) == (i < n && Bit(x, i))
  {
    if n == 0 {
      ZeroBit(i);
    } else {
      ModHalves(x, n);
      var half := (x / 2) % Pow2(n - 1);
      assert (x % Pow2(n)) / 2 == half && (x % Pow2(n)) % 2 == x % 2;
      if i > 0 { ModBit(x / 2, n - 1, i - 1); }
    }
  }

  lemma ShlBit(x: nat, s: nat, width: nat, i: nat)
    ensures Bit(Shl(x, s, width), i) == (s <= i < width && Bit(x, i - s))
  {
    ModBit(x * Pow2(s), width, i);
    ScaleBit(x, s, i);
  }

  /** `x & (2^n - 1)` is the remainder modulo the power of two, the identity behind ring indexing. */
  lemma {:induction false} MaskIsMod(x: nat, n: nat)
    ensures And(x, Pow2(n) - 1) == x % Pow2(n)
  {
    if n == 0 {
    } else if x == 0 {
      ModUnique(0, Pow2(n), 0, 0);
    } else {
      var mask := Pow2(n - 1) - 1;
      MaskIsMod(x / 2, n - 1);
      ModHalves(x, n);
      AndOddMask(x, mask);
    }
  }

  lemma AndOddMask(x: nat, mask: nat)
    ensures And(x, 2 * mask + 1) == 2 * And(x / 2, mask) + x % 2
  {
    assert (2 * mask + 1) / 2 == mask && (2 * mask + 1) % 2 == 1;
  }

  lemma ShrStep(x: nat, s: nat)
    ensures Shr(x, s + 1) == Shr(x / 2, s)
  {
  }

  ghost predicate Bytes(values: seq<nat>) {
    forall i :: 0 <= i < |values| ==> values[i] < 256
  }
}
