/** Utils::RoundUp and the alignment facts the layout proofs rest on. */
module Alignment {

  function Pow2(n: nat): (r: nat)
    ensures r >= 1
  {
    if n == 0 then 1 else 2 * Pow2(n - 1)
  }

  lemma {:induction false} Pow2Add(a: nat, b: nat)
    ensures Pow2(a + b) == Pow2(a) * Pow2(b)
  {
    if a != 0 {
      Pow2Add(a - 1, b);
      assert Pow2(a + b) == 2 * Pow2(a - 1 + b);
    }
  }

  /** The powers of two that name integer widths. */
  lemma Pow2Values()
    ensures Pow2(8) == 0x100 && Pow2(16) == 0x1_0000 && Pow2(31) == 0x8000_0000
    ensures Pow2(32) == 0x1_0000_0000 && Pow2(62) == 0x4000_0000_0000_0000
    ensures Pow2(63) == 0x8000_0000_0000_0000
  {
    assert Pow2(8) == 0x100;
    Pow2Add(8, 8);
    Pow2Add(16, 16);
    assert Pow2(32) == 2 * Pow2(31);
    Pow2Add(31, 31);
    Pow2Add(32, 31);
  }

  predicate IsPowerOfTwo(a: nat) {
    if a == 0 then false else if a == 1 then true else a % 2 == 0 && IsPowerOfTwo(a / 2)
  }

  /** Utils::ShiftForPowerOfTwo: the exponent of a power of two. */
  function Log2(a: nat): (r: nat)
    requires IsPowerOfTwo(a)
    ensures Pow2(r) == a
    decreases a
  {
    if a == 1 then 0 else 1 + Log2(a / 2)
  }

  lemma MulNonneg(d: int, a: int)
    requires d >= 0 && a >= 0
    ensures d * a >= 0
  {
  }

  lemma MulAtLeast(d: int, a: int)
    requires d >= 1 && a > 0
    ensures d * a >= a
  {
    assert d * a == (d - 1) * a + a;
    MulNonneg(d - 1, a);
  }

  /** Quotient and remainder are determined by `x == q * a + r` with `0 <= r < a`. */
  lemma DivModUnique(x: int, a: int, q: int, r: int)
    requires a > 0 && 0 <= r < a && x == q * a + r
    ensures x / a == q && x % a == r
  {
    var q0 := x / a;
    var r0 := x % a;
    assert x == q0 * a + r0;
    assert (q - q0) * a == r0 - r;
    if q > q0 {
      MulAtLeast(q - q0, a);
    } else if q < q0 {
      assert (q0 - q) * a == r - r0;
      MulAtLeast(q0 - q, a);
    }
  }

  lemma MultipleMod(k: int, a: int)
    requires a > 0
    ensures (k * a) % a == 0
  {
    DivModUnique(k * a, a, k, 0);
  }

  /** The least multiple of `a` that is not below `x`. */
  function RoundUp(x: nat, a: nat): (r: nat)
    requires a > 0
    ensures r >= x && r % a == 0
    ensures r < x + a
    ensures x % a == 0 ==> r == x
  {
    if x % a == 0 then x
    else
      assert x + (a - x % a) == (x / a + 1) * a;
      MultipleMod(x / a + 1, a);
      x + (a - x % a)
  }

  /** Integer division rounded towards +infinity, written `(n + d - 1) / d`. */
  function CeilDiv(n: nat, d: nat): (r: nat)
    requires d > 0
    ensures r * d >= n
    ensures r == 0 || (r - 1) * d < n
  {
    var r := (n + d - 1) / d;
    assert n + d - 1 == r * d + (n + d - 1) % d;
    assert r * d >= n;
    assert r == 0 || (r - 1) * d < n by {
      if r > 0 {
        assert (r - 1) * d == r * d - d;
      }
    }
    r
  }

  /** CeilDiv is the only number with the two properties above. */
  lemma CeilDivUnique(n: nat, d: nat, r: nat)
    requires d > 0 && r * d >= n && (r == 0 || (r - 1) * d < n)
    ensures r == CeilDiv(n, d)
  {
    var c := CeilDiv(n, d);
    if r < c {
      MulMono(r, c - 1, d);
    } else if r > c {
      MulMono(c, r - 1, d);
    }
  }

  lemma MulMono(x: int, y: int, d: int)
    requires 0 <= x <= y && d > 0
    ensures x * d <= y * d
  {
    assert y * d == x * d + (y - x) * d;
    MulNonneg(y - x, d);
  }

  lemma RoundUpIsLeast(x: nat, a: nat, y: nat)
    requires a > 0 && y >= x && y % a == 0
    ensures RoundUp(x, a) <= y
  {
    var r := RoundUp(x, a);
    if r > y {
      // r and y are multiples of a with y < r < x + a <= y + a.
      var qr := r / a;
      var qy := y / a;
      DivModUnique(r, a, qr, 0);
      DivModUnique(y, a, qy, 0);
      assert r == qr * a && y == qy * a;
      assert (qr - qy) * a == r - y;
      MulAtLeast(qr - qy, a);
    }
  }

  lemma RoundUpMonotone(x: nat, y: nat, a: nat)
    requires a > 0 && x <= y
    ensures RoundUp(x, a) <= RoundUp(y, a)
  {
    RoundUpIsLeast(x, a, RoundUp(y, a));
  }

  lemma ModAddMultiple(x: nat, k: nat, a: nat)
    requires a > 0
    ensures (x + k * a) % a == x % a
  {
    assert x + k * a == (x / a + k) * a + x % a;
    DivModUnique(x + k * a, a, x / a + k, x % a);
  }

  /** Rounding an offset counted from a multiple of `a` commutes with that start. */
  lemma RoundUpShift(base: nat, x: nat, a: nat)
    requires a > 0 && base % a == 0
    ensures RoundUp(base + x, a) == base + RoundUp(x, a)
  {
    var k := base / a;
    assert base == k * a;
    ModAddMultiple(x, k, a);
  }

  /** A multiple of `big` is a multiple of every `a` dividing `big`. */
  lemma AlignedDivides(x: nat, a: nat, big: nat)
    requires a > 0 && big > 0 && big % a == 0 && x % big == 0
    ensures x % a == 0
  {
    var k := x / big;
    var m := big / a;
    assert x == k * big;
    assert big == m * a;
    assert x == (k * m) * a;
    MultipleMod(k * m, a);
  }

  lemma PowerOfTwoDivides(a: nat, b: nat)
    requires IsPowerOfTwo(a) && IsPowerOfTwo(b) && a <= b
    ensures b % a == 0
    decreases b
  {
    if a == 1 {
    } else if b == a {
    } else {
      PowerOfTwoDivides(a / 2, b / 2);
      var k := (b / 2) / (a / 2);
      assert b / 2 == k * (a / 2);
      assert b == k * a;
      MultipleMod(k, a);
    }
  }
}
