/**
 Sums over a field that the Reed-Solomon codec works with: polynomials
 evaluated by Horner's rule (first coefficient highest), power sums of
 weighted locators, and convolutions.
 */
module RsAlgebra {
  import opened Bits
  import opened GaloisField

  ghost predicate Symbols(F: Lfsr, p: seq<nat>) {
    forall i :: 0 <= i < |p| ==> p[i] <= Nn(F)
  }

  predicate Distinct(xs: seq<nat>) {
    forall i, j :: 0 <= i < j < |xs| ==> xs[i] != xs[j]
  }

  ghost function Pow(F: Gf, x: nat, n: nat): nat {
    if n == 0 then 1 else Mul(F, x, Pow(F, x, n - 1))
  }

  /** p[0]*x^(n-1) + ... + p[n-1] */
  ghost function Horner(F: Gf, p: seq<nat>, x: nat, n: nat): nat
    requires n <= |p|
  {
    if n == 0 then 0 else Xor(p[n - 1], Mul(F, x, Horner(F, p, x, n - 1)))
  }

  /** p[0] + ... + p[n-1]*y^(n-1) */
  ghost function Eval(F: Gf, p: seq<nat>, y: nat, n: nat): nat
    requires n <= |p|
  {
    if n == 0 then 0 else Xor(Eval(F, p, y, n - 1), Mul(F, p[n - 1], Pow(F, y, n - 1)))
  }

  /** ws[0]*xs[0]^j + ... + ws[n-1]*xs[n-1]^j */
  ghost function PowerSum(F: Gf, ws: seq<nat>, xs: seq<nat>, j: nat, n: nat): nat
    requires n <= |ws| && n <= |xs|
  {
    if n == 0 then 0 else Xor(PowerSum(F, ws, xs, j, n - 1), Mul(F, ws[n - 1], Pow(F, xs[n - 1], j)))
  }

  /** lam[0]*s[k] + ... + lam[n-1]*s[k-n+1] */
  ghost function Conv(F: Gf, lam: seq<nat>, s: seq<nat>, k: nat, n: nat): nat
    requires n <= |lam| && n <= k + 1 <= |s|
  {
    if n == 0 then 0 else Xor(Conv(F, lam, s, k, n - 1), Mul(F, lam[n - 1], s[k - (n - 1)]))
  }

  /** Coefficient k of the product of two series. */
  ghost function Coef(F: Gf, lam: seq<nat>, s: seq<nat>, k: nat): nat
    requires k < |lam| && k < |s|
  {
    Conv(F, lam, s, k, k + 1)
  }

  // ----- Ranges

  lemma XorRange(F: Lfsr, a: nat, b: nat)
    requires a <= Nn(F) && b <= Nn(F)
    ensures Xor(a, b) <= Nn(F)
  {
    XorBound(a, b, F.mm);
  }

  lemma {:induction false} HornerRange(F: Gf, p: seq<nat>, x: nat, n: nat)
    requires n <= |p| && Symbols(F, p)
    ensures Horner(F, p, x, n) <= Nn(F)
  {
    if n > 0 {
      XorRange(F, p[n - 1], Mul(F, x, Horner(F, p, x, n - 1)));
    }
  }

  lemma PowRange(F: Gf, x: nat, n: nat)
    ensures Pow(F, x, n) <= Nn(F)
  {
    NnPositive(F);
  }

  // ----- Powers

  lemma {:induction false} PowNonzero(F: Gf, x: nat, n: nat)
    requires 0 < x <= Nn(F)
    ensures 0 < Pow(F, x, n) <= Nn(F)
  {
    if n > 0 {
      PowNonzero(F, x, n - 1);
      MulNonzero(F, x, Pow(F, x, n - 1));
    } else {
      NnPositive(F);
    }
  }

  lemma {:induction false} PowAdd(F: Gf, x: nat, m: nat, n: nat)
    ensures Pow(F, x, m + n) == Mul(F, Pow(F, x, m), Pow(F, x, n))
  {
    hide Mul, Exp, FullPeriod;
    if m == 0 {
      MulOne(F, Pow(F, x, n));
      PowRange(F, x, n);
    } else {
      PowAdd(F, x, m - 1, n);
      MulAssoc(F, x, Pow(F, x, m - 1), Pow(F, x, n));
    }
  }

  lemma {:induction false} PowExp(F: Gf, i: nat, n: nat)
    ensures Pow(F, Exp(F, i), n) == Exp(F, i * n)
  {
    hide *;
    var x := Exp(F, i);
    TimesSucc(i, n);
    if n > 0 {
      PowExp(F, i, n - 1);
      PowNext(F, x, n);
      MulExp(F, i, i * (n - 1));
    } else {
      PowNext(F, x, 0);
      ExpStart(F);
    }
  }

  lemma PowNext(F: Gf, x: nat, n: nat)
    ensures Pow(F, x, n) == if n == 0 then 1 else Mul(F, x, Pow(F, x, n - 1))
  {
  }

  lemma TimesSucc(i: nat, n: nat)
    ensures i * n >= 0
    ensures n > 0 ==> i * (n - 1) >= 0 && i + i * (n - 1) == i * n
    ensures n == 0 ==> i * n == 0
  {
  }

  lemma {:induction false} PowMul(F: Gf, x: nat, y: nat, n: nat)
    ensures Pow(F, Mul(F, x, y), n) == Mul(F, Pow(F, x, n), Pow(F, y, n))
  {
    if n == 0 {
      NnPositive(F);
      MulOne(F, 1);
    } else {
      PowMul(F, x, y, n - 1);
      MulSwap(F, x, y, Pow(F, x, n - 1), Pow(F, y, n - 1));
    }
  }

  /** (a*b)*(c*d) == (a*c)*(b*d) */
  lemma MulSwap(F: Gf, a: nat, b: nat, c: nat, d: nat)
    ensures Mul(F, Mul(F, a, b), Mul(F, c, d)) == Mul(F, Mul(F, a, c), Mul(F, b, d))
  {
    hide *;
    MulAssoc(F, a, b, Mul(F, c, d));
    MulAssoc(F, b, c, d);
    MulComm(F, b, c);
    MulAssoc(F, c, b, d);
    MulAssoc(F, a, c, Mul(F, b, d));
  }

  lemma MulDistR(F: Gf, a: nat, b: nat, c: nat)
    ensures Mul(F, Xor(a, b), c) == Xor(Mul(F, a, c), Mul(F, b, c))
  {
    hide *;
    MulComm(F, Xor(a, b), c);
    MulComm(F, a, c);
    MulComm(F, b, c);
    MulDist(F, c, a, b);
  }

  /** a*(b*c) == b*(a*c) */
  lemma MulLeftComm(F: Gf, a: nat, b: nat, c: nat)
    ensures Mul(F, a, Mul(F, b, c)) == Mul(F, b, Mul(F, a, c))
  {
    hide *;
    MulAssoc(F, a, b, c);
    MulComm(F, a, b);
    MulAssoc(F, b, a, c);
  }

  // ----- Distinct locators: the Vandermonde argument

  ghost function Scaled(F: Gf, ws: seq<nat>, xs: seq<nat>, z: nat): (r: seq<nat>)
    requires |ws| == |xs|
    ensures |r| == |ws| && Symbols(F, r)
    ensures forall l :: 0 <= l < |ws| ==> r[l] == Mul(F, ws[l], Xor(xs[l], z))
  {
    seq(|ws|, l requires 0 <= l < |ws| => Mul(F, ws[l], Xor(xs[l], z)))
  }

  lemma {:induction false} ScaledPowerSum(F: Gf, ws: seq<nat>, xs: seq<nat>, z: nat, j: nat, n: nat)
    requires |ws| == |xs| && n <= |ws|
    ensures PowerSum(F, Scaled(F, ws, xs, z), xs, j, n)
            == Xor(PowerSum(F, ws, xs, j + 1, n), Mul(F, z, PowerSum(F, ws, xs, j, n)))
  {
    hide Mul, Xor, Pow, FullPeriod;
    if n == 0 {
      MulZero(F, z);
      XorZero(0);
    } else {
      ScaledPowerSum(F, ws, xs, z, j, n - 1);
      ScaledTerm(F, ws[n - 1], xs[n - 1], z, j);
      var w, x := ws[n - 1], xs[n - 1];
      var t := Mul(F, w, Pow(F, x, j));
      MulDist(F, z, PowerSum(F, ws, xs, j, n - 1), t);
      XorSwap(PowerSum(F, ws, xs, j + 1, n - 1), Mul(F, z, PowerSum(F, ws, xs, j, n - 1)),
              Mul(F, w, Pow(F, x, j + 1)), Mul(F, z, t));
    }
  }

  lemma ScaledTerm(F: Gf, w: nat, x: nat, z: nat, j: nat)
    ensures Mul(F, Mul(F, w, Xor(x, z)), Pow(F, x, j))
            == Xor(Mul(F, w, Pow(F, x, j + 1)), Mul(F, z, Mul(F, w, Pow(F, x, j))))
  {
    var p := Pow(F, x, j);
    assert Pow(F, x, j + 1) == Mul(F, x, p);
    hide *;
    MulAssoc(F, w, Xor(x, z), p);
    MulDistR(F, x, z, p);
    MulDist(F, w, Mul(F, x, p), Mul(F, z, p));
    MulLeftComm(F, w, z, p);
  }

  /** Weights of distinct locators vanish when as many consecutive power sums vanish. */
  lemma {:induction false} Vandermonde(F: Gf, ws: seq<nat>, xs: seq<nat>)
    requires |ws| == |xs| && Symbols(F, ws) && Symbols(F, xs) && Distinct(xs)
    requires forall j :: 0 <= j < |xs| ==> PowerSum(F, ws, xs, j, |xs|) == 0
    ensures forall l :: 0 <= l < |ws| ==> ws[l] == 0
    decreases |xs|
  {
    if |xs| > 0 {
      hide Mul, Xor, Pow, PowerSum, Scaled, FullPeriod, Nn;
      var m, z := |xs| - 1, xs[|xs| - 1];
      var vs := Scaled(F, ws, xs, z);
      ReducedSums(F, ws, xs);
      Vandermonde(F, vs[..m], xs[..m]);
      forall l | 0 <= l < m
        ensures ws[l] == 0
      {
        assert vs[..m][l] == Mul(F, ws[l], Xor(xs[l], z));
        ScaledWeight(F, ws[l], xs[l], z);
      }
      LastWeight(F, ws, xs);
    }
  }

  lemma ReducedSums(F: Gf, ws: seq<nat>, xs: seq<nat>)
    requires |ws| == |xs| > 0
    requires forall j :: 0 <= j < |xs| ==> PowerSum(F, ws, xs, j, |xs|) == 0
    ensures var m := |xs| - 1;
            var vs := Scaled(F, ws, xs, xs[m]);
            forall j :: 0 <= j < m ==> PowerSum(F, vs[..m], xs[..m], j, m) == 0
  {
    hide Mul, Xor, Pow, PowerSum, Scaled, FullPeriod;
    var m := |xs| - 1;
    var vs := Scaled(F, ws, xs, xs[m]);
    forall j | 0 <= j < m
      ensures PowerSum(F, vs[..m], xs[..m], j, m) == 0
    {
      assert PowerSum(F, ws, xs, j, |xs|) == 0 && PowerSum(F, ws, xs, j + 1, |xs|) == 0;
      ScaledSumVanishes(F, ws, xs, j);
      PowerSumPrefix(F, vs, xs, vs[..m], xs[..m], j, m);
    }
  }

  lemma ScaledSumVanishes(F: Gf, ws: seq<nat>, xs: seq<nat>, j: nat)
    requires |ws| == |xs| > 0
    requires PowerSum(F, ws, xs, j, |xs|) == 0 && PowerSum(F, ws, xs, j + 1, |xs|) == 0
    ensures PowerSum(F, Scaled(F, ws, xs, xs[|xs| - 1]), xs, j, |xs| - 1) == 0
  {
    hide Mul, Xor, Pow, FullPeriod;
    var n, z := |xs|, xs[|xs| - 1];
    ScaledPowerSum(F, ws, xs, z, j, n);
    MulZero(F, z);
    XorZero(0);
    XorSelf(z);
    MulZero(F, ws[n - 1]);
    MulZero(F, Pow(F, z, j));
    XorZero(PowerSum(F, Scaled(F, ws, xs, z), xs, j, n - 1));
  }

  lemma ScaledWeight(F: Gf, w: nat, x: nat, z: nat)
    requires w <= Nn(F) && x <= Nn(F) && z <= Nn(F) && x != z
    requires Mul(F, w, Xor(x, z)) == 0
    ensures w == 0
  {
    hide Mul, Xor, FullPeriod;
    XorRange(F, x, z);
    XorEqualZero(x, z);
    MulNonzero(F, w, Xor(x, z));
  }

  lemma LastWeight(F: Gf, ws: seq<nat>, xs: seq<nat>)
    requires |ws| == |xs| > 0 && Symbols(F, ws)
    requires forall l :: 0 <= l < |ws| - 1 ==> ws[l] == 0
    requires PowerSum(F, ws, xs, 0, |xs|) == 0
    ensures ws[|ws| - 1] == 0
  {
    hide Mul, Xor, FullPeriod;
    var n := |xs|;
    PowerSumZero(F, ws, xs, 0, n - 1);
    XorZero(Mul(F, ws[n - 1], 1));
    MulOne(F, ws[n - 1]);
  }

  lemma {:induction false} PowerSumPrefix(F: Gf, ws: seq<nat>, xs: seq<nat>, vs: seq<nat>, ys: seq<nat>, j: nat, n: nat)
    requires n <= |ws| && n <= |xs| && n <= |vs| && n <= |ys|
    requires forall l :: 0 <= l < n ==> ws[l] == vs[l] && xs[l] == ys[l]
    ensures PowerSum(F, ws, xs, j, n) == PowerSum(F, vs, ys, j, n)
  {
    if n > 0 {
      PowerSumPrefix(F, ws, xs, vs, ys, j, n - 1);
    }
  }

  lemma {:induction false} PowerSumZero(F: Gf, ws: seq<nat>, xs: seq<nat>, j: nat, n: nat)
    requires n <= |ws| && n <= |xs|
    requires forall l :: 0 <= l < n ==> ws[l] == 0
    ensures PowerSum(F, ws, xs, j, n) == 0
  {
    if n > 0 {
      PowerSumZero(F, ws, xs, j, n - 1);
      MulZero(F, Pow(F, xs[n - 1], j));
      XorZero(0);
    }
  }

  // ----- Roots of polynomials

  /** The coefficients of p divided by x - z. */
  ghost function Deflated(F: Gf, p: seq<nat>, z: nat): (q: seq<nat>)
    ensures |q| == |p|
    ensures forall i :: 0 <= i < |p| ==> q[i] == Horner(F, p, z, i + 1)
  {
    seq(|p|, i requires 0 <= i < |p| => Horner(F, p, z, i + 1))
  }

  lemma {:induction false} Deflation(F: Gf, p: seq<nat>, x: nat, z: nat, n: nat)
    requires 1 <= n <= |p|
    ensures Xor(Horner(F, p, x, n), Horner(F, p, z, n)) == Mul(F, Xor(x, z), Horner(F, Deflated(F, p, z), x, n - 1))
  {
    if n == 1 {
      MulZero(F, x);
      MulZero(F, z);
      MulZero(F, Xor(x, z));
      XorSelf(Horner(F, p, x, 1));
    } else {
      Deflation(F, p, x, z, n - 1);
      DeflationStep(F, p[n - 1], x, z, Horner(F, p, x, n - 1), Horner(F, p, z, n - 1),
                    Horner(F, Deflated(F, p, z), x, n - 2));
    }
  }

  lemma DeflationStep(F: Gf, c: nat, x: nat, z: nat, hx: nat, hz: nat, d: nat)
    requires Xor(hx, hz) == Mul(F, Xor(x, z), d)
    ensures Xor(Xor(c, Mul(F, x, hx)), Xor(c, Mul(F, z, hz))) == Mul(F, Xor(x, z), Xor(hz, Mul(F, x, d)))
  {
    hide *;
    var a, b := Mul(F, x, hx), Mul(F, z, hz);
    XorSwap(c, a, c, b);
    XorSelf(c);
    XorZero(Xor(a, b));
    // x*hx + z*hz == x*(hx + hz) + (x + z)*hz
    MulDist(F, x, hx, hz);
    MulDistR(F, x, z, hz);
    XorSwap(a, Mul(F, x, hz), Mul(F, x, hz), b);
    XorAssoc(a, Mul(F, x, hz), Xor(Mul(F, x, hz), b));
    XorCancel(b, Mul(F, x, hz));
    // x*((x + z)*d) == (x + z)*(x*d)
    MulLeftComm(F, x, Xor(x, z), d);
    XorComm(Mul(F, Xor(x, z), Mul(F, x, d)), Mul(F, Xor(x, z), hz));
    MulDist(F, Xor(x, z), hz, Mul(F, x, d));
  }

  lemma QuotientRoot(F: Gf, p: seq<nat>, q: seq<nat>, x: nat, z: nat, n: nat)
    requires 1 <= n <= |p| && q == Deflated(F, p, z) && Symbols(F, q)
    requires x != z && x <= Nn(F) && z <= Nn(F)
    requires Horner(F, p, x, n) == Horner(F, p, z, n)
    ensures Horner(F, q, x, n - 1) == 0
  {
    hide Mul, Xor, FullPeriod;
    Deflation(F, p, x, z, n);
    XorSelf(Horner(F, p, z, n));
    HornerRange(F, q, x, n - 1);
    XorRange(F, x, z);
    XorEqualZero(x, z);
    MulNonzero(F, Xor(x, z), Horner(F, q, x, n - 1));
  }

  /** A polynomial with n coefficients and n distinct roots is zero. */
  lemma {:induction false} RootBound(F: Gf, p: seq<nat>, xs: seq<nat>, n: nat)
    requires n <= |p| && |xs| == n && Symbols(F, p) && Symbols(F, xs) && Distinct(xs)
    requires forall l :: 0 <= l < n ==> Horner(F, p, xs[l], n) == 0
    ensures forall i :: 0 <= i < n ==> p[i] == 0
    decreases n
  {
    hide Mul, Xor, FullPeriod, Nn;
    if n > 0 {
      var z := xs[n - 1];
      var q := Deflated(F, p, z);
      forall i | 0 <= i < |q|
        ensures q[i] <= Nn(F)
      {
        HornerRange(F, p, z, i + 1);
      }
      var m, ys := n - 1, xs[..n - 1];
      forall l | 0 <= l < m
        ensures Horner(F, q, ys[l], m) == 0
      {
        assert ys[l] == xs[l];
        QuotientRoot(F, p, q, xs[l], z, n);
      }
      RootBound(F, q, ys, m);
      forall i | 0 <= i < n
        ensures p[i] == 0
      {
        assert Horner(F, p, z, i + 1) == 0 by {
          if i < n - 1 {
            assert q[i] == 0;
          }
        }
        assert Horner(F, p, z, i) == 0 by {
          if i > 0 {
            assert q[i - 1] == 0;
          }
        }
        MulZero(F, z);
        XorZero(p[i]);
      }
    }
  }

  // ----- Linearity

  lemma {:induction false} HornerXor(F: Gf, p: seq<nat>, q: seq<nat>, r: seq<nat>, x: nat, n: nat)
    requires n <= |p| && n <= |q| && n <= |r|
    requires forall i :: 0 <= i < n ==> r[i] == Xor(p[i], q[i])
    ensures Horner(F, r, x, n) == Xor(Horner(F, p, x, n), Horner(F, q, x, n))
  {
    hide Mul, Xor, FullPeriod;
    if n == 0 {
      XorZero(0);
    } else {
      HornerXor(F, p, q, r, x, n - 1);
      var hp, hq := Horner(F, p, x, n - 1), Horner(F, q, x, n - 1);
      MulDist(F, x, hp, hq);
      XorSwap(p[n - 1], q[n - 1], Mul(F, x, hp), Mul(F, x, hq));
    }
  }

  lemma {:induction false} HornerScale(F: Gf, p: seq<nat>, r: seq<nat>, c: nat, x: nat, n: nat)
    requires n <= |p| && n <= |r|
    requires forall i :: 0 <= i < n ==> r[i] == Mul(F, c, p[i])
    ensures Horner(F, r, x, n) == Mul(F, c, Horner(F, p, x, n))
  {
    if n == 0 {
      MulZero(F, c);
    } else {
      HornerScale(F, p, r, c, x, n - 1);
      var h := Horner(F, p, x, n - 1);
      MulLeftComm(F, c, x, h);
      MulDist(F, c, p[n - 1], Mul(F, x, h));
    }
  }

  lemma {:induction false} HornerZero(F: Gf, p: seq<nat>, x: nat, n: nat)
    requires n <= |p|
    requires forall i :: 0 <= i < n ==> p[i] == 0
    ensures Horner(F, p, x, n) == 0
  {
    if n > 0 {
      HornerZero(F, p, x, n - 1);
      MulZero(F, x);
      XorZero(0);
    }
  }

  lemma {:induction false} HornerSame(F: Gf, p: seq<nat>, q: seq<nat>, x: nat, n: nat)
    requires n <= |p| && n <= |q|
    requires forall i :: 0 <= i < n ==> p[i] == q[i]
    ensures Horner(F, p, x, n) == Horner(F, q, x, n)
  {
    if n > 0 {
      HornerSame(F, p, q, x, n - 1);
    }
  }

  /** A zero put in front does not change a polynomial. */
  lemma {:induction false} HornerLeadingZero(F: Gf, p: seq<nat>, q: seq<nat>, x: nat, n: nat)
    requires n <= |p| && n + 1 <= |q| && q[0] == 0
    requires forall i :: 0 <= i < n ==> q[i + 1] == p[i]
    ensures Horner(F, q, x, n + 1) == Horner(F, p, x, n)
  {
    if n == 0 {
      MulZero(F, x);
      XorZero(0);
    } else {
      HornerLeadingZero(F, p, q, x, n - 1);
    }
  }

  /** Zero coefficients at the end multiply by a power of x. */
  lemma {:induction false} HornerTrailingZeros(F: Gf, p: seq<nat>, x: nat, m: nat, n: nat)
    requires m <= n <= |p|
    requires Symbols(F, p)
    requires forall i :: m <= i < n ==> p[i] == 0
    ensures Horner(F, p, x, n) == Mul(F, Pow(F, x, n - m), Horner(F, p, x, m))
  {
    hide Mul, Xor, FullPeriod;
    if n == m {
      HornerRange(F, p, x, m);
      MulOne(F, Horner(F, p, x, m));
    } else {
      HornerTrailingZeros(F, p, x, m, n - 1);
      MulAssoc(F, x, Pow(F, x, n - 1 - m), Horner(F, p, x, m));
      XorZero(Mul(F, x, Horner(F, p, x, n - 1)));
    }
  }

  // ----- Convolution with power sums

  /** The weights multiplied by the value of a polynomial at their locators. */
  ghost function Weighted(F: Gf, ws: seq<nat>, lam: seq<nat>, xs: seq<nat>, n: nat): (r: seq<nat>)
    requires |ws| == |xs| && n <= |lam|
    ensures |r| == |ws| && Symbols(F, r)
    ensures forall l :: 0 <= l < |ws| ==> r[l] == Mul(F, ws[l], Horner(F, lam, xs[l], n))
  {
    seq(|ws|, l requires 0 <= l < |ws| => Mul(F, ws[l], Horner(F, lam, xs[l], n)))
  }

  lemma {:induction false} WeightedStep(F: Gf, ws: seq<nat>, lam: seq<nat>, xs: seq<nat>, n: nat, d: nat, v: nat)
    requires |ws| == |xs| && n + 1 <= |lam| && v <= |ws|
    ensures PowerSum(F, Weighted(F, ws, lam, xs, n + 1), xs, d, v)
            == Xor(PowerSum(F, Weighted(F, ws, lam, xs, n), xs, d + 1, v), Mul(F, lam[n], PowerSum(F, ws, xs, d, v)))
  {
    hide Mul, Xor, Pow, FullPeriod;
    if v == 0 {
      MulZero(F, lam[n]);
      XorZero(0);
    } else {
      WeightedStep(F, ws, lam, xs, n, d, v - 1);
      var w, x, h := ws[v - 1], xs[v - 1], Horner(F, lam, xs[v - 1], n);
      WeightedTerm(F, w, x, h, lam[n], d);
      var t := Mul(F, w, Pow(F, x, d));
      MulDist(F, lam[n], PowerSum(F, ws, xs, d, v - 1), t);
      XorSwap(PowerSum(F, Weighted(F, ws, lam, xs, n), xs, d + 1, v - 1), Mul(F, lam[n], PowerSum(F, ws, xs, d, v - 1)),
              Mul(F, Mul(F, w, h), Pow(F, x, d + 1)), Mul(F, lam[n], t));
    }
  }

  lemma WeightedTerm(F: Gf, w: nat, x: nat, h: nat, c: nat, d: nat)
    ensures Mul(F, Mul(F, w, Xor(c, Mul(F, x, h))), Pow(F, x, d))
            == Xor(Mul(F, Mul(F, w, h), Pow(F, x, d + 1)), Mul(F, c, Mul(F, w, Pow(F, x, d))))
  {
    var p := Pow(F, x, d);
    assert Pow(F, x, d + 1) == Mul(F, x, p);
    hide *;
    MulDist(F, w, c, Mul(F, x, h));
    MulDistR(F, Mul(F, w, c), Mul(F, w, Mul(F, x, h)), p);
    MulComm(F, w, c);
    MulAssoc(F, c, w, p);
    MulComm(F, x, h);
    MulAssoc(F, w, h, x);
    MulAssoc(F, Mul(F, w, h), x, p);
    XorComm(Mul(F, c, Mul(F, w, p)), Mul(F, Mul(F, w, h), Mul(F, x, p)));
  }

  /** Convolving power sums with a polynomial evaluates it at every locator. */
  lemma {:induction false} ConvPowerSums(F: Gf, lam: seq<nat>, s: seq<nat>, ws: seq<nat>, xs: seq<nat>, k: nat, n: nat)
    requires |ws| == |xs| && n <= |lam| && n <= k + 1 <= |s|
    requires forall j :: 0 <= j <= k ==> s[j] == PowerSum(F, ws, xs, j, |xs|)
    ensures Conv(F, lam, s, k, n) == PowerSum(F, Weighted(F, ws, lam, xs, n), xs, k + 1 - n, |xs|)
  {
    hide Mul, Xor, Pow, FullPeriod, Weighted;
    if n == 0 {
      forall l | 0 <= l < |ws|
        ensures Weighted(F, ws, lam, xs, 0)[l] == 0
      {
        MulZero(F, ws[l]);
      }
      PowerSumZero(F, Weighted(F, ws, lam, xs, 0), xs, k + 1, |xs|);
    } else {
      ConvPowerSums(F, lam, s, ws, xs, k, n - 1);
      WeightedStep(F, ws, lam, xs, n - 1, k + 1 - n, |xs|);
    }
  }
}
