/** Bitwise or of non-negative integers, and the laws the header flags rely on. */
module Bits {
  function Or(a: nat, b: nat): (r: nat)
    decreases a + b
  {
    if a == 0 then b else if b == 0 then a
    else 2 * Or(a / 2, b / 2) + if a % 2 == 1 || b % 2 == 1 then 1 else 0
  }

  /** n >> k */
  function Shr(n: nat, k: nat): (r: nat)
    decreases k
  {
    if k == 0 then n else Shr(n / 2, k - 1)
  }

  /** The k lowest bits of n. */
  function Low(n: nat, k: nat): (r: nat)
    decreases k
  {
    if k == 0 then 0 else 2 * Low(n / 2, k - 1) + n % 2
  }

  predicate HasBit(n: nat, k: nat) {
    Shr(n, k) % 2 == 1
  }

  /** The step of Or, whether or not an argument is zero. */
  lemma OrStep(a: nat, b: nat)
    ensures Or(a, b) % 2 == 1 <==> a % 2 == 1 || b % 2 == 1
    ensures Or(a, b) / 2 == Or(a / 2, b / 2)
  {
  }

  lemma {:induction false} OrCommutes(a: nat, b: nat)
    ensures Or(a, b) == Or(b, a)
    decreases a + b
  {
    if a != 0 && b != 0 { OrCommutes(a / 2, b / 2); }
  }

  /** Or-ing a value in again changes nothing. */
  lemma {:induction false} OrAbsorbs(a: nat, b: nat)
    ensures Or(Or(a, b), b) == Or(a, b)
    decreases a + b
  {
    if a == 0 {
      OrIdempotent(b);
    } else if b != 0 {
      OrAbsorbs(a / 2, b / 2);
      OrStep(a, b);
      OrStep(Or(a, b), b);
    }
  }

  lemma {:induction false} OrIdempotent(a: nat)
    ensures Or(a, a) == a
  {
    if a != 0 { OrIdempotent(a / 2); }
  }

  lemma {:induction false} OrNothing(a: nat)
    ensures Or(a, 0) == a
  {
    if a > 0 { OrNothing(a / 2); }
  }

  lemma {:induction false} OrAssociates(a: nat, b: nat, c: nat)
    ensures Or(Or(a, b), c) == Or(a, Or(b, c))
    decreases a + b + c
  {
    if a != 0 && b != 0 && c != 0 {
      OrAssociates(a / 2, b / 2, c / 2);
      OrStep(a, b);
      OrStep(b, c);
      OrStep(Or(a, b), c);
      OrStep(a, Or(b, c));
    }
  }

  lemma {:induction false} OrLow(a: nat, b: nat, k: nat)
    ensures Low(Or(a, b), k) == Or(Low(a, k), Low(b, k))
    decreases k
  {
    if k > 0 {
      OrLow(a / 2, b / 2, k - 1);
      OrStep(a, b);
      OrStep(Low(a, k), Low(b, k));
    }
  }

  lemma {:induction false} OrShr(a: nat, b: nat, k: nat)
    ensures Shr(Or(a, b), k) == Or(Shr(a, k), Shr(b, k))
    decreases k
  {
    if k > 0 {
      OrShr(a / 2, b / 2, k - 1);
      OrStep(a, b);
    }
  }

  lemma OrBit(a: nat, b: nat, k: nat)
    ensures HasBit(Or(a, b), k) <==> HasBit(a, k) || HasBit(b, k)
  {
    OrShr(a, b, k);
    OrStep(Shr(a, k), Shr(b, k));
  }

  /** Taking the low bits again changes nothing. */
  lemma {:induction false} LowLow(n: nat, k: nat)
    ensures Low(Low(n, k), k) == Low(n, k)
    decreases k
  {
    if k > 0 { LowLow(n / 2, k - 1); }
  }

  lemma {:induction false} LowZero(k: nat)
    ensures Low(0, k) == 0
    decreases k
  {
    if k > 0 { LowZero(k - 1); }
  }

  /** A number below 2^k is its own k lowest bits, and has no others. */
  lemma {:induction false} LowSelf(n: nat, k: nat)
    requires Shr(n, k) == 0
    ensures Low(n, k) == n
    decreases k
  {
    if k > 0 { LowSelf(n / 2, k - 1); }
  }

  lemma {:induction false} ShrZero(n: nat, j: nat, k: nat)
    requires Shr(n, j) == 0 && j <= k
    ensures Shr(n, k) == 0
    decreases k
  {
    if j > 0 {
      ShrZero(n / 2, j - 1, k - 1);
    } else if k > 0 {
      ShrZero(n / 2, j, k - 1);
    }
  }

  function Pow2(k: nat): (r: nat) {
    if k == 0 then 1 else 2 * Pow2(k - 1)
  }

  lemma {:induction false} ShrIsZero(n: nat, k: nat)
    ensures Shr(n, k) == 0 <==> n < Pow2(k)
    decreases k
  {
    if k > 0 { ShrIsZero(n / 2, k - 1); }
  }

  lemma {:induction false} LowBound(n: nat, k: nat)
    ensures Low(n, k) < Pow2(k)
    decreases k
  {
    if k > 0 { LowBound(n / 2, k - 1); }
  }

  lemma Pow2Values()
    ensures Pow2(11) == 0x800 && Pow2(13) == 0x2000 && Pow2(14) == 0x4000 && Pow2(15) == 0x8000 && Pow2(16) == 0x1_0000
  {
    assert Pow2(2) == 4;
    assert Pow2(4) == 0x10;
    assert Pow2(6) == 0x40;
    assert Pow2(8) == 0x100;
    assert Pow2(10) == 0x400;
    assert Pow2(12) == 0x1000;
    assert Pow2(14) == 0x4000;
  }

  /** A power of two has one bit. */
  lemma {:induction false} Pow2Bit(j: nat, k: nat)
    ensures HasBit(Pow2(j), k) <==> j == k
    ensures k <= j ==> Low(Pow2(j), k) == 0
    decreases k
  {
    if k > 0 {
      if j > 0 {
        assert Pow2(j) / 2 == Pow2(j - 1);
        Pow2Bit(j - 1, k - 1);
      } else {
        ShrZero(0, 0, k - 1);
        assert Shr(Pow2(j), k) == Shr(0, k - 1);
      }
    }
  }

  lemma ZeroBits(k: nat)
    ensures !HasBit(0, k) && Low(0, k) == 0
  {
    ShrZero(0, 0, k);
    LowZero(k);
  }

  /** All bits of b are set in a already. */
  predicate Covers(a: nat, b: nat) {
    Or(a, b) == a
  }

  lemma CoversOr(a: nat, b: nat, c: nat)
    requires Covers(a, b)
    ensures Covers(Or(a, c), b)
  {
    OrAssociates(a, c, b);
    OrCommutes(c, b);
    OrAssociates(a, b, c);
  }

  /** Quotient and remainder are what a decomposition says they are. */
  lemma DivMod(x: int, m: int, q: int, r: int)
    requires 0 <= r < m && x == m * q + r
    ensures x / m == q && x % m == r
  {
    var d := x / m - q;
    assert m * d == r - x % m;
    Bounded(m, d);
  }

  lemma Bounded(m: int, d: int)
    requires m >= 0
    ensures d >= 1 ==> m * d >= m
    ensures d <= -1 ==> m * d <= -m
  {
  }

  /** Or-ing a field into the zero bits below a value adds it. */
  lemma {:induction false} OrAdds(r: nat, k: nat, field: nat)
    requires field < Pow2(k)
    ensures Or(r * Pow2(k), field) == r * Pow2(k) + field
  {
    if k == 0 {
      OrNothing(r);
    } else {
      OrAdds(r, k - 1, field / 2);
      Shifted(r, k);
      EvenOr(r * Pow2(k - 1), field);
    }
  }

  lemma Shifted(r: nat, k: nat)
    requires k > 0
    ensures r * Pow2(k) == 2 * (r * Pow2(k - 1))
  {
  }

  lemma EvenOr(half: nat, field: nat)
    ensures Or(2 * half, field) == 2 * Or(half, field / 2) + field % 2
  {
    hide Or;
    OrStep(2 * half, field);
  }

  /** Dividing a half is dividing by twice as much. */
  lemma HalfDivided(n: nat, m: nat)
    requires m > 0
    ensures n / 2 / m == n / (2 * m) && 2 * (n / 2 % m) + n % 2 == n % (2 * m)
  {
    var q, r := n / 2 / m, n / 2 % m;
    assert n / 2 == m * q + r;
    TwiceProduct(m, q);
    DivMod(n, 2 * m, q, 2 * r + n % 2);
  }

  lemma TwiceProduct(m: int, q: int)
    ensures 2 * m * q == 2 * (m * q)
  {
  }

  lemma {:induction false} LowIsMod(n: nat, k: nat)
    ensures Pow2(k) > 0 && Low(n, k) == n % Pow2(k)
    decreases k
  {
    if k > 0 {
      LowIsMod(n / 2, k - 1);
      HalfDivided(n, Pow2(k - 1));
    }
  }

  lemma {:induction false} ShrIsDiv(n: nat, k: nat)
    ensures Pow2(k) > 0 && Shr(n, k) == n / Pow2(k)
    decreases k
  {
    if k > 0 {
      ShrIsDiv(n / 2, k - 1);
      HalfDivided(n, Pow2(k - 1));
    }
  }
}
