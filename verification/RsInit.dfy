/** What the checks of the codec's initialisation establish, and what they leave to the caller. */
module RsInit {
  import opened Bits
  import opened GaloisField

  // ----- The walk of the register and its period

  /** p is the number of clocks after which the register first returns to 1. */
  ghost predicate IsPeriod(F: Lfsr, p: nat) {
    && p >= 1
    && Exp(F, p) == 1
    && forall i :: 0 < i < p ==> Exp(F, i) != 1
  }

  lemma {:induction false} PeriodExists(F: Lfsr, n: nat)
    requires n >= 1 && Exp(F, n) == 1
    ensures exists p: nat :: 1 <= p <= n && IsPeriod(F, p)
    decreases n
  {
    if i :| 0 < i < n && Exp(F, i) == 1 {
      PeriodExists(F, i);
      var p: nat :| 1 <= p <= i && IsPeriod(F, p);
    } else {
      assert IsPeriod(F, n);
    }
  }

  /** The register is back at 1 exactly after the multiples of its period. */
  lemma {:induction false} ReturnsAtMultiples(F: Lfsr, p: nat, n: nat)
    requires p >= 1 && IsPeriod(F, p)
    ensures Exp(F, n) == 1 <==> n % p == 0
    decreases n
  {
    hide Step;
    if n < p {
      ModUnique(n, p, 0, n);
    } else {
      IterAdd(F, n - p, p, 1);
      ReturnsAtMultiples(F, p, n - p);
      ModPlus(n - p, p);
    }
  }

  /**
   The generator's own check accepts a polynomial exactly when the period of
   its register divides nn; the period need not be nn.
   */
  lemma CheckMeansPeriodDivides(F: Lfsr)
    requires F.mm >= 1
    ensures Exp(F, Nn(F)) == 1 <==> exists p: nat :: 1 <= p <= Nn(F) && IsPeriod(F, p) && Nn(F) % p == 0
  {
    hide Exp, IsPeriod;
    assert Nn(F) >= 1 by {
      assert Pow2(F.mm) == 2 * Pow2(F.mm - 1);
    }
    if Exp(F, Nn(F)) == 1 {
      PeriodExists(F, Nn(F));
      var p: nat :| 1 <= p <= Nn(F) && IsPeriod(F, p);
      ReturnsAtMultiples(F, p, Nn(F));
    }
    if p: nat :| 1 <= p <= Nn(F) && IsPeriod(F, p) && Nn(F) % p == 0 {
      ReturnsAtMultiples(F, p, Nn(F));
    }
  }

  /** A polynomial that passes the check although its register visits only 5 of the 15 symbols. */
  lemma {:induction false} ShortPeriodAccepted()
    ensures var F := Lfsr(4, 0x1f);
            Nn(F) == 15 && Exp(F, 15) == 1 && IsPeriod(F, 5) && !FullPeriod(F)
  {
    var F := Lfsr(4, 0x1f);
    assert Pow2(4) == 16;
    assert Exp(F, 0) == 1;
    assert Step(F, 1) == 2 && Step(F, 2) == 4 && Step(F, 4) == 8 && Step(F, 8) == 15 && Step(F, 15) == 1;
    assert Exp(F, 1) == 2;
    assert Exp(F, 2) == 4;
    assert Exp(F, 3) == 8;
    assert Exp(F, 4) == 15;
    assert Exp(F, 5) == 1;
    ReturnsAtMultiples(F, 5, 15);
  }

  /** When nn is prime the check alone makes the period full. */
  lemma PrimeSizeSuffices(F: Lfsr)
    requires F.mm >= 2
    requires forall d :: 1 < d < Nn(F) ==> Nn(F) % d != 0
    requires Exp(F, Nn(F)) == 1
    ensures FullPeriod(F)
  {
    hide Step;
    assert Pow2(F.mm) == 2 * Pow2(F.mm - 1) && Pow2(F.mm - 1) == 2 * Pow2(F.mm - 2);
    PeriodExists(F, Nn(F));
    var p: nat :| 1 <= p <= Nn(F) && IsPeriod(F, p);
    ReturnsAtMultiples(F, p, Nn(F));
    SecondSymbol(F);
    assert Exp(F, 1) == Step(F, Exp(F, 0)) == 2;
  }

  lemma {:induction false} SecondSymbol(F: Lfsr)
    requires F.mm >= 2
    ensures Step(F, 1) == 2
  {
    assert Pow2(F.mm) == 2 * Pow2(F.mm - 1) && Pow2(F.mm - 1) == 2 * Pow2(F.mm - 2);
    BitAbove(2, F.mm, F.mm);
  }

  // ----- The search for iprim

  ghost function Gcd(a: nat, b: nat): nat
    decreases b
  {
    if b == 0 then a else Gcd(b, a % b)
  }

  lemma {:induction false} Bezout(a: nat, b: nat) returns (x: int, y: int)
    ensures a * x + b * y == Gcd(a, b)
    decreases b
  {
    if b == 0 {
      x, y := 1, 0;
    } else {
      var q, r := a / b, a % b;
      var u, v := Bezout(b, r);
      x, y := v, u - q * v;
      BezoutStep(a, b, q, r, u, v);
    }
  }

  lemma BezoutStep(a: int, b: int, q: int, r: int, u: int, v: int)
    requires a == b * q + r
    ensures a * v + b * (u - q * v) == b * u + r * v
  {
    assert b * (u - q * v) == b * u - b * (q * v);
    assert (b * q + r) * v == (b * q) * v + r * v;
    assert b * (q * v) == (b * q) * v;
  }

  lemma {:induction false} GcdDivides(a: nat, b: nat)
    requires a > 0 || b > 0
    ensures Gcd(a, b) >= 1 && a % Gcd(a, b) == 0 && b % Gcd(a, b) == 0
    decreases b
  {
    if b == 0 {
      ModUnique(a, a, 1, 0);
      ModUnique(0, a, 0, 0);
    } else {
      GcdDivides(b, a % b);
      DivisionLaw(a, b);
      MultipleSum(b, a / b, a % b, Gcd(b, a % b));
    }
  }

  lemma DivisionLaw(a: nat, b: nat)
    requires b > 0
    ensures a == b * (a / b) + a % b && a / b >= 0
  {
  }

  lemma MultipleSum(b: nat, q: nat, r: nat, g: nat)
    requires g >= 1 && b % g == 0 && r % g == 0
    ensures (b * q + r) % g == 0
  {
    var k, l := b / g, r / g;
    assert b == k * g && r == l * g;
    assert k * g * q == (k * q) * g;
    assert b * q + r == (k * q + l) * g;
    ModUnique(b * q + r, g, k * q + l, 0);
  }

  /** What the search tries in round k. */
  function Candidate(nn: nat, k: nat): nat {
    1 + k * nn
  }

  /**
   The search for iprim finds a multiple of prim exactly when prim and nn are
   coprime, and then it does so in fewer than prim rounds.
   */
  lemma IprimSearchEnds(prim: nat, nn: nat)
    requires prim >= 1 && nn >= 1
    ensures Gcd(prim, nn) == 1 <==> exists k :: 0 <= k < prim && Candidate(nn, k) % prim == 0
    ensures Gcd(prim, nn) == 1 <==> exists k: nat :: Candidate(nn, k) % prim == 0
  {
    if Gcd(prim, nn) == 1 {
      var x, y := Bezout(prim, nn);
      var k := (-y) % prim;
      CandidateIsMultiple(prim, nn, x, y);
      assert Candidate(nn, k) % prim == 0;
    }
    if k: nat :| Candidate(nn, k) % prim == 0 {
      CommonDivisorIsOne(prim, nn, k);
    }
  }

  lemma CandidateIsMultiple(prim: nat, nn: nat, x: int, y: int)
    requires prim >= 1 && prim * x + nn * y == 1
    ensures Candidate(nn, (-y) % prim) % prim == 0
  {
    var k, m := (-y) % prim, (-y) / prim;
    assert -y == m * prim + k;
    assert nn * y == -(nn * (m * prim + k));
    assert nn * (m * prim + k) == (nn * m) * prim + k * nn;
    assert 1 + k * nn == prim * x - (nn * m) * prim == (x - nn * m) * prim;
    ModUnique(1 + k * nn, prim, x - nn * m, 0);
  }

  lemma CommonDivisorIsOne(prim: nat, nn: nat, k: nat)
    requires prim >= 1 && Candidate(nn, k) % prim == 0
    ensures Gcd(prim, nn) == 1
  {
    var g := Gcd(prim, nn);
    GcdDivides(prim, nn);
    ExactDivision(prim, g);
    ExactDivision(nn, g);
    ExactDivision(Candidate(nn, k), prim);
    DivisorOfOne(prim / g, nn / g, Candidate(nn, k) / prim, k, g, prim, nn);
  }

  lemma ExactDivision(a: nat, d: nat)
    requires d >= 1 && a % d == 0
    ensures a == (a / d) * d
  {
  }

  lemma DivisorOfOne(a: int, b: int, d: int, k: int, g: int, prim: int, nn: int)
    requires g >= 1 && prim == a * g && nn == b * g && 1 + k * nn == d * prim
    ensures g == 1
  {
    assert d * (a * g) == (d * a) * g;
    assert k * (b * g) == (k * b) * g;
    var m := d * a - k * b;
    assert 1 == m * g;
    if m >= 1 {
      MulMono(1, m, g);
    } else {
      MulMono(m, 0, g);
    }
  }
}
