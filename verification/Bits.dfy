/** Bitwise operators on integers, defined bit by bit. Division and remainder by two are Euclidean, so a negative
    integer stands for its infinite two's complement expansion. */
module Bits {
  import opened Bytes

  /** a ^ b on the low n bits. */
  function Xor(a: nat, b: nat, n: nat): (r: nat)
    ensures r < Pow2(n)
    decreases n
  {
    if n == 0 then 0 else (a % 2 + b % 2) % 2 + 2 * Xor(a / 2, b / 2, n - 1)
  }

  function Pow2(n: nat): (r: nat)
    ensures r > 0
  {
    if n == 0 then 1 else 2 * Pow2(n - 1)
  }

  lemma Pow2Of32()
    ensures Pow2(32) == 0x1_0000_0000
  {
    assert Pow2(8) == 256;
    assert Pow2(16) == 0x1_0000;
    assert Pow2(24) == 0x100_0000;
  }

  function Bit(x: nat, i: nat): nat { if i == 0 then x % 2 else Bit(x / 2, i - 1) }

  /** Each bit is set when exactly one of the two is. */
  lemma {:induction false} XorBits(a: nat, b: nat, n: nat, i: nat)
    requires i < n
    ensures Bit(Xor(a, b, n), i) == if Bit(a, i) == Bit(b, i) then 0 else 1
    decreases i
  {
    XorStep(a, b, n);
    hide Xor;
    if i > 0 { XorBits(a / 2, b / 2, n - 1, i - 1); }
  }

  /** Applying a mask twice gives back the value. */
  lemma {:induction false} XorTwice(a: nat, k: nat, n: nat)
    requires a < Pow2(n)
    ensures Xor(Xor(a, k, n), k, n) == a
    decreases n
  {
    if n > 0 {
      var x := Xor(a, k, n);
      assert a / 2 < Pow2(n - 1);
      hide *;
      XorStep(a, k, n);
      XorStep(x, k, n);
      XorTwice(a / 2, k / 2, n - 1);
      TwoBits(a % 2, k % 2);
      SameHalves(Xor(x, k, n), a);
    }
  }

  lemma SameHalves(x: nat, y: nat)
    requires x / 2 == y / 2 && x % 2 == y % 2
    ensures x == y
  {
  }

  lemma TwoBits(x: nat, y: nat)
    requires x < 2 && y < 2
    ensures ((x + y) % 2 + y) % 2 == x
  {
  }

  lemma XorStep(a: nat, k: nat, n: nat)
    requires n > 0
    ensures Xor(a, k, n) % 2 == (a % 2 + k % 2) % 2 && Xor(a, k, n) / 2 == Xor(a / 2, k / 2, n - 1)
    ensures Xor(a, k, n) == Xor(a, k, n) % 2 + 2 * Xor(a / 2, k / 2, n - 1)
  {
  }

  function XorByte(a: byte, k: byte): byte {
    assert Pow2(8) == 256 by { assert Pow2(4) == 16; }
    Xor(a, k, 8)
  }

  lemma XorByteTwice(a: byte, k: byte)
    ensures XorByte(XorByte(a, k), k) == a
  {
    assert Pow2(8) == 256 by { assert Pow2(4) == 16; }
    XorTwice(a, k, 8);
  }

  /** a | b on the low n bits. */
  function Or(a: nat, b: nat, n: nat): (r: nat)
    ensures r < Pow2(n)
    decreases n
  {
    if n == 0 then 0 else (if a % 2 == 1 || b % 2 == 1 then 1 else 0) + 2 * Or(a / 2, b / 2, n - 1)
  }

  lemma {:induction false} OrZero(a: nat, n: nat)
    requires a < Pow2(n)
    ensures Or(a, 0, n) == Or(0, a, n) == a
    decreases n
  {
    if n > 0 { OrZero(a / 2, n - 1); }
  }

  /** Operands without a common bit add up: a multiple of 2^k and a number below 2^k. */
  lemma {:induction false} OrIsSum(a: nat, b: nat, k: nat, n: nat)
    requires k <= n && b < Pow2(k) && a < Pow2(n - k)
    ensures Or(a * Pow2(k), b, n) == a * Pow2(k) + b
    decreases n
  {
    if k == 0 {
      OrZero(a, n);
    } else {
      var x := a * Pow2(k - 1);
      Twice(a, k);
      OrIsSum(a, b / 2, k - 1, n - 1);
    }
  }

  lemma Twice(a: nat, k: nat)
    requires k > 0
    ensures a * Pow2(k) == 2 * (a * Pow2(k - 1))
  {
  }

  /** a & m for a mask m; a may be negative. */
  function And(a: int, m: nat): nat
    decreases m
  {
    if m == 0 then 0 else (if a % 2 == 1 && m % 2 == 1 then 1 else 0) + 2 * And(a / 2, m / 2)
  }

  predicate IsPow2(n: nat)
    decreases n
  {
    n == 1 || (n > 1 && n % 2 == 0 && IsPow2(n / 2))
  }

  /** Masking with a power of two less one is taking the remainder, also for negative values. */
  lemma {:induction false} AndMaskIsMod(a: int, n: nat)
    requires IsPow2(n)
    ensures And(a, n - 1) == a % n
    decreases n
  {
    if n > 1 {
      AndMaskIsMod(a / 2, n / 2);
      assert (n - 1) / 2 == n / 2 - 1 && (n - 1) % 2 == 1;
      HalfMod(a, n / 2);
    }
  }

  lemma HalfMod(a: int, m: nat)
    requires m > 0
    ensures a % (2 * m) == a % 2 + 2 * (a / 2 % m)
  {
    var q, r := a / 2, a % 2;
    var d, e := q / m, q % m;
    assert q == d * m + e;
    assert a == (2 * m) * d + (2 * e + r);
    assert 0 <= 2 * e + r < 2 * m;
    RemainderIs(a, 2 * m, d, 2 * e + r);
  }

  lemma RemainderIs(a: int, n: nat, q: int, r: nat)
    requires a == n * q + r && r < n
    ensures a % n == r
  {
    var k := a / n - q;
    assert n * k == r - a % n;
    Multiple(n, k);
  }

  lemma Multiple(n: int, k: int)
    requires n > 0
    ensures (k >= 1 ==> n * k >= n) && (k <= -1 ==> n * k <= 0 - n)
  {
  }

  lemma {:induction false} OrSelf(a: nat, n: nat)
    requires a < Pow2(n)
    ensures Or(a, a, n) == a
    decreases n
  {
    if n > 0 { OrSelf(a / 2, n - 1); }
  }

  /** size | (size - 1) equals their sum exactly for the powers of two. */
  lemma {:induction false} OrIsSumIffPow2(s: nat, n: nat)
    requires 0 < s < Pow2(n)
    ensures Or(s, s - 1, n) == s + (s - 1) <==> IsPow2(s)
    decreases n
  {
    if s % 2 == 0 {
      assert (s - 1) / 2 == s / 2 - 1;
      OrIsSumIffPow2(s / 2, n - 1);
    } else {
      assert (s - 1) / 2 == s / 2;
      OrSelf(s / 2, n - 1);
    }
  }
}
