/** Small facts about multiplication, division and remainder on naturals, proved
    once here so that the models using them stay linear. */
module Arith {

  lemma MulLeft(a: int, b: int, c: int)
    requires a >= 0 && b <= c
    ensures a * b <= a * c
  {
  }

  lemma MulAssoc(a: int, b: int, c: int)
    ensures a * (b * c) == (a * b) * c
  {
  }

  /** `a * b == n` with `a > 0` means `a` divides `n` with quotient `b`. */
  lemma ProductDivides(n: nat, a: nat, b: nat)
    requires a > 0 && n == a * b
    ensures n % a == 0 && n / a == b
  {
    var k, r := n / a, n % a;
    assert n == a * k + r;
    assert a * (b - k) == r;
    if b - k >= 1 {
      MulLeft(a, 1, b - k);
    } else if b - k <= -1 {
      MulLeft(a, b - k, -1);
    }
  }

  /** `(t * s + r) % s == r` and `(t * s + r) / s == t` for `0 <= r < s`. */
  lemma ModOfOffset(t: nat, s: nat, r: nat)
    requires r < s
    ensures (t * s + r) % s == r
    ensures (t * s + r) / s == t
  {
    var n := t * s + r;
    var q, m := n / s, n % s;
    assert n == s * q + m;
    assert s * (t - q) == m - r;
    if t - q >= 1 {
      MulLeft(s, 1, t - q);
    } else if t - q <= -1 {
      MulLeft(s, t - q, -1);
    }
  }

  lemma {:induction false} Pow2Add(a: nat, b: nat)
    ensures Pow2(a + b) == Pow2(a) * Pow2(b)
  {
    if a > 0 {
      Pow2Add(a - 1, b);
      MulAssoc(2, Pow2(a - 1), Pow2(b));
    }
  }

  /** `2^n`. */
  function Pow2(n: nat): (r: nat)
    ensures r > 0
  {
    if n == 0 then 1 else 2 * Pow2(n - 1)
  }

  /** Bitwise and of two naturals, bit by bit from the least significant one. */
  function BitAnd(x: nat, y: nat): nat
    decreases x
  {
    if x == 0 || y == 0 then 0
    else 2 * BitAnd(x / 2, y / 2) + (if x % 2 == 1 && y % 2 == 1 then 1 else 0)
  }

  /** Masking with `n` one bits keeps every `x` below `2^n`. */
  lemma {:induction false} LowMask(x: nat, n: nat)
    requires x < Pow2(n)
    ensures BitAnd(x, Pow2(n) - 1) == x
  {
    if n > 0 && x > 0 {
      var p := Pow2(n - 1);
      assert Pow2(n) - 1 == 2 * (p - 1) + 1;
      BitAndStep(x, p - 1, 1);
      LowMask(x / 2, n - 1);
    }
  }

  /** One step of `BitAnd` with the mask written as `2 * z + b`. */
  lemma BitAndStep(x: nat, z: nat, b: nat)
    requires b < 2
    ensures BitAnd(x, 2 * z + b) == 2 * BitAnd(x / 2, z) + (if x % 2 == 1 && b == 1 then 1 else 0)
  {
    var y := 2 * z + b;
    assert y / 2 == z && y % 2 == b;
    if x == 0 {
      assert BitAnd(x / 2, z) == 0;
    }
  }

  lemma SmallMod(x: nat, m: nat)
    requires x < m
    ensures x % m == x
  {
  }

  lemma {:induction false} Pow2Monotone(k: nat, n: nat)
    requires k <= n
    ensures Pow2(k) <= Pow2(n)
    decreases n
  {
    if k < n {
      Pow2Monotone(k, n - 1);
    }
  }

  /** `x` with its low `k` bits cleared, i.e. `(x >> k) << k`. */
  function ClearLow(x: nat, k: nat): nat
  {
    if k == 0 then x else 2 * ClearLow(x / 2, k - 1)
  }

  /** Clearing the low `k` bits rounds down to a multiple of `2^k`. */
  lemma {:induction false} ClearLowRoundsDown(x: nat, k: nat)
    ensures ClearLow(x, k) % Pow2(k) == 0
    ensures x - Pow2(k) < ClearLow(x, k) <= x
  {
    if k > 0 {
      var c, q := ClearLow(x / 2, k - 1), Pow2(k - 1);
      ClearLowRoundsDown(x / 2, k - 1);
      var t := c / q;
      assert c == q * t;
      MulAssoc(2, q, t);
      ProductDivides(2 * c, 2 * q, t);
    }
  }

  /** Below `2^k`, clearing the low `k` bits leaves nothing. */
  lemma ClearLowOfSmall(x: nat, k: nat)
    requires x < Pow2(k)
    ensures ClearLow(x, k) == 0
  {
    ClearLowRoundsDown(x, k);
    SmallMod(ClearLow(x, k), Pow2(k));
  }

  /** Masking an `n`-bit `x` with ones everywhere but the low `k` bits clears those bits. */
  lemma {:induction false} HighMask(x: nat, n: nat, k: nat)
    requires k <= n && x < Pow2(n)
    ensures Pow2(k) <= Pow2(n)
    ensures BitAnd(x, Pow2(n) - Pow2(k)) == ClearLow(x, k)
    decreases k, 1
  {
    Pow2Monotone(k, n);
    if k == 0 {
      LowMask(x, n);
    } else if k == n {
      ClearLowOfSmall(x, k);
    } else {
      HighMaskStep(x, n, k);
    }
  }

  /** The inductive step of `HighMask`: the mask is even, so the last bit of `x` goes
      and the rest is `x / 2` under the mask shifted right by one. */
  lemma {:induction false} HighMaskStep(x: nat, n: nat, k: nat)
    requires 0 < k < n && x < Pow2(n)
    ensures Pow2(k) <= Pow2(n)
    ensures BitAnd(x, Pow2(n) - Pow2(k)) == ClearLow(x, k)
    decreases k, 0
  {
    var p, q := Pow2(n - 1), Pow2(k - 1);
    Pow2Monotone(k - 1, n - 1);
    BitAndStep(x, p - q, 0);
    HighMask(x / 2, n - 1, k - 1);
  }
}
