/** Bitwise operations of C on non-negative integers, and powers of two. */
module Bits {

  function Pow2(n: nat): (r: nat)
    ensures r >= 1
  {
    if n == 0 then 1 else 2 * Pow2(n - 1)
  }

  /** `a ^ b` */
  function Xor(a: nat, b: nat): nat
    decreases a + b
  {
    if a == 0 && b == 0 then 0
    else 2 * Xor(a / 2, b / 2) + (if a % 2 == b % 2 then 0 else 1)
  }

  lemma {:induction false} XorZero(a: nat)
    ensures Xor(a, 0) == a && Xor(0, a) == a
  {
    if a != 0 {
      XorZero(a / 2);
    }
  }

  lemma {:induction false} XorSelf(a: nat)
    ensures Xor(a, a) == 0
  {
    if a != 0 {
      XorSelf(a / 2);
    }
  }

  lemma {:induction false} XorComm(a: nat, b: nat)
    ensures Xor(a, b) == Xor(b, a)
    decreases a + b
  {
    if a != 0 || b != 0 {
      XorComm(a / 2, b / 2);
    }
  }

  lemma {:induction false} XorAssoc(a: nat, b: nat, c: nat)
    ensures Xor(Xor(a, b), c) == Xor(a, Xor(b, c))
    decreases a + b + c
  {
    if a != 0 || b != 0 || c != 0 {
      XorAssoc(a / 2, b / 2, c / 2);
      XorHalf(a, b);
      XorHalf(b, c);
      XorHalf(Xor(a, b), c);
      XorHalf(a, Xor(b, c));
    }
  }

  lemma {:induction false} XorHalf(a: nat, b: nat)
    ensures Xor(a, b) / 2 == Xor(a / 2, b / 2)
    ensures Xor(a, b) % 2 == if a % 2 == b % 2 then 0 else 1
  {
    if a == 0 && b == 0 {
      assert Xor(0, 0) == 0;
    }
  }

  lemma {:induction false} XorBound(a: nat, b: nat, m: nat)
    requires a < Pow2(m) && b < Pow2(m)
    ensures Xor(a, b) < Pow2(m)
    decreases m
  {
    if m > 0 {
      XorBound(a / 2, b / 2, m - 1);
    }
  }

  /** `(a >> k) & 1`, as a truth value */
  predicate Bit(a: nat, k: nat) {
    if k == 0 then a % 2 == 1 else Bit(a / 2, k - 1)
  }

  /** Bit k is digit k to the base 2. */
  lemma {:induction false} BitIsDigit(a: nat, k: nat)
    ensures Bit(a, k) <==> a / Pow2(k) % 2 == 1
  {
    if k > 0 {
      BitIsDigit(a / 2, k - 1);
      HalfQuotient(a, Pow2(k - 1));
    }
  }

  lemma HalfQuotient(a: nat, p: nat)
    requires p >= 1
    ensures a / 2 / p == a / (2 * p)
  {
    var q, r := a / 2 / p, a / 2 % p;
    assert a / 2 == q * p + r;
    assert a == q * (2 * p) + (2 * r + a % 2);
    ModUnique(a, 2 * p, q, 2 * r + a % 2);
  }

  /** `a & ((1 << m) - 1)` */
  function Low(a: nat, m: nat): (r: nat)
    ensures r < Pow2(m)
    ensures a < Pow2(m) ==> r == a
  {
    if m == 0 then 0 else 2 * Low(a / 2, m - 1) + a % 2
  }

  lemma {:induction false} ZeroBit(k: nat)
    ensures !Bit(0, k)
  {
    if k > 0 {
      ZeroBit(k - 1);
    }
  }

  lemma LowHalf(a: nat, m: nat)
    requires m > 0
    ensures Low(a, m) / 2 == Low(a / 2, m - 1)
    ensures Low(a, m) % 2 == a % 2
  {
  }

  lemma LowNone(a: nat)
    ensures Low(a, 0) == 0
  {
  }

  lemma HalvesEqual(x: nat, y: nat)
    requires x / 2 == y / 2 && x % 2 == y % 2
    ensures x == y
  {
  }

  lemma {:induction false} XorLow(a: nat, b: nat, m: nat)
    ensures Low(Xor(a, b), m) == Xor(Low(a, m), Low(b, m))
    decreases m
  {
    hide *;
    var x, y, z := Low(a, m), Low(b, m), Low(Xor(a, b), m);
    if m == 0 {
      LowNone(a);
      LowNone(b);
      LowNone(Xor(a, b));
      XorZero(0);
    } else {
      XorLow(a / 2, b / 2, m - 1);
      XorHalf(a, b);
      XorHalf(x, y);
      LowHalf(a, m);
      LowHalf(b, m);
      LowHalf(Xor(a, b), m);
      HalvesEqual(z, Xor(x, y));
    }
  }

  lemma {:induction false} XorBit(a: nat, b: nat, k: nat)
    ensures Bit(Xor(a, b), k) == (Bit(a, k) != Bit(b, k))
    decreases k
  {
    XorHalf(a, b);
    if k > 0 {
      XorBit(a / 2, b / 2, k - 1);
    }
  }

  lemma ModUnique(a: int, n: int, q: int, r: int)
    requires a == q * n + r && 0 <= r < n
    ensures a % n == r && a / n == q
  {
    var d := a / n;
    assert a == d * n + a % n;
    if d > q {
      MulMono(q + 1, d, n);
    } else if d < q {
      MulMono(d + 1, q, n);
    }
  }

  lemma ModPlus(a: int, n: int)
    requires n > 0
    ensures (a + n) % n == a % n && (a + n) / n == a / n + 1
  {
    assert a == (a / n) * n + a % n;
    ModUnique(a + n, n, a / n + 1, a % n);
  }

  lemma MulMono(a: int, b: int, n: nat)
    requires a <= b
    ensures a * n <= b * n
  {
  }

  /** Adding a right operand that is there already cancels it. */
  lemma XorCancel(a: nat, b: nat)
    ensures Xor(Xor(a, b), b) == a
    ensures Xor(b, Xor(b, a)) == a
  {
    XorAssoc(a, b, b);
    XorAssoc(b, b, a);
    XorSelf(b);
    XorZero(a);
  }

  lemma XorEqualZero(a: nat, b: nat)
    ensures Xor(a, b) == 0 <==> a == b
  {
    XorSelf(a);
    XorCancel(a, b);
    XorZero(b);
  }

  /** (a ^ b) ^ (c ^ d) == (a ^ c) ^ (b ^ d) */
  lemma XorSwap(a: nat, b: nat, c: nat, d: nat)
    ensures Xor(Xor(a, b), Xor(c, d)) == Xor(Xor(a, c), Xor(b, d))
  {
    XorAssoc(a, b, Xor(c, d));
    XorAssoc(b, c, d);
    XorComm(b, c);
    XorAssoc(c, b, d);
    XorAssoc(a, c, Xor(b, d));
  }

  /** `a | b` */
  function Or(a: nat, b: nat): nat
    decreases a + b
  {
    if a == 0 && b == 0 then 0
    else 2 * Or(a / 2, b / 2) + (if a % 2 == 0 && b % 2 == 0 then 0 else 1)
  }

  lemma {:induction false} OrZero(a: nat, b: nat)
    ensures Or(a, b) == 0 <==> a == 0 && b == 0
    decreases a + b
  {
    if a != 0 || b != 0 {
      OrZero(a / 2, b / 2);
    }
  }

  /** `a >> k` */
  function Shr(a: nat, k: nat): nat {
    if k == 0 then a else Shr(a / 2, k - 1)
  }

  lemma {:induction false} ShrLow(a: nat, k: nat)
    ensures a == Shr(a, k) * Pow2(k) + Low(a, k)
    decreases k
  {
    if k > 0 {
      ShrLow(a / 2, k - 1);
      DoubleSplit(a, Shr(a / 2, k - 1), Pow2(k - 1), Low(a / 2, k - 1));
    }
  }

  lemma DoubleSplit(a: nat, h: nat, p: nat, l: nat)
    requires a / 2 == h * p + l
    ensures a == h * (2 * p) + (2 * l + a % 2)
  {
    assert h * (2 * p) == 2 * (h * p);
  }

  /** `a << k` */
  function Shl(a: nat, k: nat): nat {
    if k == 0 then a else 2 * Shl(a, k - 1)
  }

  lemma {:induction false} BitShl(a: nat, k: nat, m: nat)
    ensures Bit(Shl(a, k), m) <==> m >= k && Bit(a, m - k)
    decreases k
  {
    if k > 0 && m > 0 {
      BitShl(a, k - 1, m - 1);
    }
  }

  lemma {:induction false} BitOr(a: nat, b: nat, m: nat)
    ensures Bit(Or(a, b), m) <==> Bit(a, m) || Bit(b, m)
    decreases m
  {
    OrHalf(a, b);
    if m > 0 {
      BitOr(a / 2, b / 2, m - 1);
    }
  }

  lemma OrHalf(a: nat, b: nat)
    ensures Or(a, b) / 2 == Or(a / 2, b / 2)
    ensures Or(a, b) % 2 == if a % 2 == 0 && b % 2 == 0 then 0 else 1
  {
    if a == 0 && b == 0 {
      assert Or(0, 0) == 0;
    }
  }

  lemma {:induction false} BitShr(a: nat, k: nat, m: nat)
    ensures Bit(Shr(a, k), m) == Bit(a, m + k)
    decreases k
  {
    if k > 0 {
      BitShr(a / 2, k - 1, m);
    }
  }

  lemma {:induction false} BitAbove(a: nat, k: nat, m: nat)
    requires a < Pow2(k) && k <= m
    ensures !Bit(a, m)
    decreases m
  {
    if k > 0 {
      BitAbove(a / 2, k - 1, m - 1);
    } else {
      ZeroBit(m);
    }
  }

  lemma {:induction false} BitPlusPower(a: nat, h: nat, m: nat)
    requires a < Pow2(h) && m <= h
    ensures Bit(a + Pow2(h), m) == (m == h || Bit(a, m))
    decreases m
  {
    if m > 0 {
      assert (a + Pow2(h)) / 2 == a / 2 + Pow2(h - 1);
      BitPlusPower(a / 2, h - 1, m - 1);
    }
  }

  /** Or-ing a bit above all others adds it. */
  lemma {:induction false} OrTopBit(a: nat, f: nat, k: nat)
    requires a < Pow2(k) && f < 2
    ensures Or(a, Shl(f, k)) == a + f * Pow2(k)
    decreases k
  {
    OrHalf(a, Shl(f, k));
    if k == 0 {
      if f == 0 {
        assert Or(0, 0) == 0;
      } else {
        assert Or(0, 0) == 0;
      }
    } else {
      OrTopBit(a / 2, f, k - 1);
    }
  }

  lemma {:induction false} ShrPlusTop(a: nat, h: nat, m: nat)
    requires m <= h
    ensures Shr(a + Pow2(h), m) == Shr(a, m) + Pow2(h - m)
    decreases m
  {
    if m > 0 {
      assert (a + Pow2(h)) / 2 == a / 2 + Pow2(h - 1);
      ShrPlusTop(a / 2, h - 1, m - 1);
    }
  }

  lemma {:induction false} ShrShl(a: nat, k: nat)
    ensures Shr(Shl(a, k), k) == a
    decreases k
  {
    if k > 0 {
      ShrShl(a, k - 1);
    }
  }

  lemma {:induction false} ShlBound(a: nat, m: nat, k: nat)
    requires a < Pow2(m)
    ensures Shl(a, k) < Pow2(m + k)
    decreases k
  {
    if k > 0 {
      ShlBound(a, m, k - 1);
    }
  }

  lemma {:induction false} ShrHalf(a: nat, k: nat)
    ensures Shr(a / 2, k) == Shr(a, k) / 2
    decreases k
  {
    if k > 0 {
      ShrHalf(a / 2, k - 1);
    }
  }
}
