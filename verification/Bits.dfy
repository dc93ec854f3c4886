/** Powers of two and the bit operations of the source, on natural numbers. */
module Bits {

  function Pow2(n: nat): (p: nat)
    ensures p > 0
  {
    if n == 0 then 1 else 2 * Pow2(n - 1)
  }

  ghost predicate IsPow2(s: nat) {
    exists k: nat :: s == Pow2(k)
  }

  /** v >> k */
  function Shr(v: nat, k: nat): nat
    decreases k
  {
    if k == 0 then v else Shr(v / 2, k - 1)
  }

  /** The k lowest bits of v. */
  function Low(v: nat, k: nat): nat
    decreases k
  {
    if k == 0 then 0 else 2 * Low(v / 2, k - 1) + v % 2
  }

  /** Bitwise or. */
  function Or(a: nat, b: nat): nat
    decreases a + b
  {
    if a == 0 && b == 0 then 0 else 2 * Or(a / 2, b / 2) + if a % 2 == 1 || b % 2 == 1 then 1 else 0
  }

  /** Bitwise and. */
  function And(a: nat, b: nat): nat {
    if a == 0 || b == 0 then 0 else 2 * And(a / 2, b / 2) + if a % 2 == 1 && b % 2 == 1 then 1 else 0
  }

  // ---------------------------------------------------------------- powers of two

  lemma {:induction false} Pow2Less(a: nat, b: nat)
    requires a < b
    ensures 2 * Pow2(a) <= Pow2(b)
  {
    if a < b - 1 { Pow2Less(a, b - 1); }
  }

  lemma Pow2Order(a: nat, b: nat)
    ensures a < b <==> Pow2(a) < Pow2(b)
    ensures a < b ==> 2 * Pow2(a) <= Pow2(b)
  {
    if b < a { Pow2Less(b, a); }
    if a < b { Pow2Less(a, b); }
  }

  /** A power of two below another is at most its half. */
  lemma HalfPow2(s: nat, m: nat)
    requires IsPow2(s) && IsPow2(m) && s < m
    ensures 2 * s <= m && m % 2 == 0 && IsPow2(m / 2)
  {
    var a: nat :| s == Pow2(a);
    var b: nat :| m == Pow2(b);
    Pow2Order(a, b);
    assert m / 2 == Pow2(b - 1);
  }

  lemma PowerIsPow2(k: nat)
    ensures IsPow2(Pow2(k))
  {
  }

  /** Every positive number lies between two consecutive powers of two. */
  lemma {:induction false} TopBit(v: nat) returns (k: nat)
    requires v > 0
    ensures Pow2(k) <= v < Pow2(k + 1)
  {
    if v == 1 {
      k := 0;
      assert Pow2(1) == 2;
    } else {
      k := TopBit(v / 2);
      k := k + 1;
    }
  }

  // ---------------------------------------------------------------- shifting

  lemma {:induction false} LowBound(v: nat, k: nat)
    ensures Low(v, k) < Pow2(k)
    decreases k
  {
    if k > 0 { LowBound(v / 2, k - 1); }
  }

  lemma {:induction false} Split(v: nat, k: nat)
    ensures v == Shr(v, k) * Pow2(k) + Low(v, k)
    decreases k
  {
    if k > 0 {
      Split(v / 2, k - 1);
      Twice(Shr(v, k), Pow2(k - 1));
    }
  }

  lemma Twice(a: nat, b: nat)
    ensures 2 * (a * b) == a * (2 * b)
  {
  }

  /** Shifting and masking are division and remainder. */
  lemma ShiftIsDivision(v: nat, k: nat)
    ensures v / Pow2(k) == Shr(v, k) && v % Pow2(k) == Low(v, k)
  {
    Split(v, k);
    LowBound(v, k);
    Quotient(v, Pow2(k), Shr(v, k), Low(v, k));
  }

  lemma Quotient(v: nat, d: nat, y: nat, r: nat)
    requires d > 0 && v == y * d + r && r < d
    ensures v / d == y && v % d == r
  {
    var z, s := v / d, v % d;
    assert v == z * d + s;
    Multiple(y - z, d);
    assert (y - z) * d == y * d - z * d;
  }

  /** A multiple of d closer to 0 than d is 0. */
  lemma Multiple(x: int, d: nat)
    requires d > 0
    ensures x > 0 ==> x * d >= d
    ensures x < 0 ==> x * d + d <= 0
  {
  }

  lemma {:induction false} ShrShr(v: nat, a: nat, b: nat)
    ensures Shr(Shr(v, a), b) == Shr(v, a + b)
    decreases a
  {
    if a > 0 { ShrShr(v / 2, a - 1, b); }
  }

  lemma {:induction false} ShrBounds(v: nat, n: nat, k: nat)
    requires v < Pow2(n + k)
    ensures Shr(v, k) < Pow2(n)
    decreases k
  {
    if k > 0 { ShrBounds(v / 2, n, k - 1); }
  }

  // ---------------------------------------------------------------- or and and

  lemma {:induction false} OrShr(a: nat, b: nat, j: nat)
    ensures Shr(Or(a, b), j) == Or(Shr(a, j), Shr(b, j))
    decreases j
  {
    if j > 0 {
      assert Or(a, b) / 2 == Or(a / 2, b / 2);
      OrShr(a / 2, b / 2, j - 1);
    }
  }

  lemma {:induction false} OrBounds(a: nat, b: nat, n: nat)
    requires a < Pow2(n) && b < Pow2(n)
    ensures a <= Or(a, b) < Pow2(n)
    decreases n
  {
    if n > 0 { OrBounds(a / 2, b / 2, n - 1); }
  }

  lemma {:induction false} OrZero(x: nat)
    ensures Or(x, 0) == x
  {
    if x > 0 { OrZero(x / 2); }
  }

  lemma HalveOnes(t: nat)
    requires t > 0
    ensures (Pow2(t) - 1) / 2 == Pow2(t - 1) - 1 && (Pow2(t) - 1) % 2 == 1
  {
  }

  /** Or with the t lowest bits sets them. */
  lemma {:induction false} OrLowOnes(x: nat, t: nat)
    ensures Or(x, Pow2(t) - 1) == x - Low(x, t) + Pow2(t) - 1
    decreases t
  {
    if t == 0 {
      OrZero(x);
    } else {
      HalveOnes(t);
      OrLowOnes(x / 2, t - 1);
    }
  }

  /** And with the t lowest bits keeps them alone. */
  lemma {:induction false} AndLowOnes(x: nat, t: nat)
    ensures And(x, Pow2(t) - 1) == Low(x, t)
    decreases t
  {
    if t == 0 {
    } else if x == 0 {
      LowOfZero(t);
    } else {
      HalveOnes(t);
      AndLowOnes(x / 2, t - 1);
    }
  }

  lemma {:induction false} LowOfZero(t: nat)
    ensures Low(0, t) == 0
  {
    if t > 0 { LowOfZero(t - 1); }
  }

  /** And with all of the lowest n bits but the t lowest clears those. */
  lemma {:induction false} AndHighOnes(x: nat, n: nat, t: nat)
    requires x < Pow2(n) && t <= n
    ensures Pow2(t) <= Pow2(n) && And(x, Pow2(n) - Pow2(t)) == x - Low(x, t)
    decreases n
  {
    if t == 0 {
      AndLowOnes(x, n);
      LowIsAll(x, n);
    } else if x == 0 {
      LowOfZero(t);
      if t < n { Pow2Less(t, n); }
    } else {
      AndHighOnes(x / 2, n - 1, t - 1);
      assert (Pow2(n) - Pow2(t)) / 2 == Pow2(n - 1) - Pow2(t - 1) && (Pow2(n) - Pow2(t)) % 2 == 0;
      if Pow2(n) == Pow2(t) { LowIsAll(x, n); Pow2Order(t, n); }
    }
  }

  lemma {:induction false} LowIsAll(x: nat, n: nat)
    requires x < Pow2(n)
    ensures Low(x, n) == x
    decreases n
  {
    if n > 0 { LowIsAll(x / 2, n - 1); }
  }

  lemma {:induction false} Pow2Add(a: nat, b: nat)
    ensures Pow2(a) * Pow2(b) == Pow2(a + b)
    decreases b
  {
    if b > 0 {
      Pow2Add(a, b - 1);
      Twice(Pow2(a), Pow2(b - 1));
    }
  }

  lemma {:induction false} ShrOnes(n: nat, k: nat)
    ensures Shr(Pow2(n + k) - 1, k) == Pow2(n) - 1
    decreases k
  {
    if k > 0 {
      HalveOnes(n + k);
      ShrOnes(n, k - 1);
    }
  }

  lemma {:induction false} ShrTopBit(v: nat, k: nat)
    requires Pow2(k) <= v < Pow2(k + 1)
    ensures Shr(v, k) == 1
    decreases k
  {
    if k > 0 { ShrTopBit(v / 2, k - 1); }
  }

  lemma {:induction false} ShrLess(v: nat, k: nat)
    ensures Shr(v, k) <= v
    decreases k
  {
    if k > 0 { ShrLess(v / 2, k - 1); }
  }
}
