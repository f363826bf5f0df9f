/** Error evaluation: numerator over formal derivative gives back the error. */
module RsForney {
  import opened Bits
  import opened GaloisField
  import opened RsAlgebra
  import opened RsCode
  import opened RsBerlekamp

  // ----- Evaluation at the reciprocal of a locator

  lemma {:induction false} PowReciprocal(F: Gf, x: nat, y: nat, n: nat)
    requires Mul(F, x, y) == 1
    ensures Mul(F, Pow(F, x, n), Pow(F, y, n)) == 1
  {
    hide Mul, FullPeriod;
    PowMul(F, x, y, n);
    PowOne(F, n);
  }

  lemma {:induction false} PowOne(F: Gf, n: nat)
    ensures Pow(F, 1, n) == 1
  {
    hide Mul, FullPeriod;
    if n > 0 {
      PowOne(F, n - 1);
      MulOne(F, 1);
      NnPositive(F);
    }
  }

  /** c * x^n * y^n == c */
  lemma CancelPowers(F: Gf, x: nat, y: nat, c: nat, n: nat)
    requires Mul(F, x, y) == 1 && c <= Nn(F)
    ensures Mul(F, Pow(F, x, n), Mul(F, c, Pow(F, y, n))) == c
  {
    hide Mul, FullPeriod, Pow;
    MulLeftComm(F, Pow(F, x, n), c, Pow(F, y, n));
    PowReciprocal(F, x, y, n);
    MulOne(F, c);
  }

  lemma {:induction false} HornerIsEval(F: Gf, p: seq<nat>, x: nat, y: nat, n: nat)
    requires 1 <= n <= |p| && Symbols(F, p) && Mul(F, x, y) == 1
    ensures Horner(F, p, x, n) == Mul(F, Pow(F, x, n - 1), Eval(F, p, y, n))
  {
    hide Mul, Xor, FullPeriod;
    if n == 1 {
      MulZero(F, x);
      MulOne(F, p[0]);
      XorZero(p[0]);
    } else {
      HornerIsEval(F, p, x, y, n - 1);
      var e, q := Eval(F, p, y, n - 1), Pow(F, x, n - 2);
      MulAssoc(F, x, q, e);
      CancelPowers(F, x, y, p[n - 1], n - 1);
      MulDist(F, Pow(F, x, n - 1), e, Mul(F, p[n - 1], Pow(F, y, n - 1)));
      XorComm(p[n - 1], Mul(F, Pow(F, x, n - 1), e));
    }
  }

  // ----- The formal derivative

  /** The terms with odd index of Horner's sum. */
  ghost function OddPart(F: Gf, p: seq<nat>, x: nat, n: nat): nat
    requires n <= |p|
  {
    if n == 0 then 0
    else if n % 2 == 0 then Xor(p[n - 1], Mul(F, x, OddPart(F, p, x, n - 1)))
    else Mul(F, x, OddPart(F, p, x, n - 1))
  }

  ghost function EvenPart(F: Gf, p: seq<nat>, x: nat, n: nat): nat
    requires n <= |p|
  {
    if n == 0 then 0
    else if n % 2 == 1 then Xor(p[n - 1], Mul(F, x, EvenPart(F, p, x, n - 1)))
    else Mul(F, x, EvenPart(F, p, x, n - 1))
  }

  lemma {:induction false} SplitParity(F: Gf, p: seq<nat>, x: nat, n: nat)
    requires n <= |p|
    ensures Horner(F, p, x, n) == Xor(OddPart(F, p, x, n), EvenPart(F, p, x, n))
  {
    hide Mul, Xor, FullPeriod;
    if n == 0 {
      XorZero(0);
    } else {
      SplitParity(F, p, x, n - 1);
      var o, e := OddPart(F, p, x, n - 1), EvenPart(F, p, x, n - 1);
      MulDist(F, x, o, e);
      XorAssoc(p[n - 1], Mul(F, x, o), Mul(F, x, e));
      XorAssoc(Mul(F, x, o), p[n - 1], Mul(F, x, e));
      XorComm(Mul(F, x, o), p[n - 1]);
    }
  }

  /** Dividing by x - z and evaluating at z leaves every second term. */
  lemma {:induction false} DeflatedAtRoot(F: Gf, p: seq<nat>, x: nat, n: nat)
    requires n <= |p|
    ensures Horner(F, Deflated(F, p, x), x, n) == if n % 2 == 0 then OddPart(F, p, x, n) else EvenPart(F, p, x, n)
  {
    hide Mul, Xor, FullPeriod, Deflated;
    if n > 0 {
      DeflatedAtRoot(F, p, x, n - 1);
      var o, e := OddPart(F, p, x, n), EvenPart(F, p, x, n);
      SplitParity(F, p, x, n);
      XorComm(o, e);
      XorCancel(o, e);
      XorCancel(e, o);
    }
  }

  lemma {:induction false} DerivativeIsOddPart(F: Gf, p: seq<nat>, x: nat, y: nat, n: nat)
    requires 1 <= n <= |p| && Symbols(F, p) && Mul(F, x, y) == 1
    ensures Mul(F, Pow(F, x, n - 1), Derivative(F, p, y, n)) == Mul(F, x, OddPart(F, p, x, n))
  {
    hide Mul, Xor, FullPeriod;
    if n == 1 {
      MulZero(F, x);
      MulZero(F, Pow(F, x, 0));
    } else {
      DerivativeIsOddPart(F, p, x, y, n - 1);
      var d, o := Derivative(F, p, y, n - 1), OddPart(F, p, x, n - 1);
      var q := Pow(F, x, n - 2);
      MulAssoc(F, x, q, d);
      if n % 2 == 0 {
        var t := Mul(F, p[n - 1], Pow(F, y, n - 2));
        CancelPowers(F, x, y, p[n - 1], n - 2);
        MulAssoc(F, x, q, t);
        MulDist(F, Pow(F, x, n - 1), d, t);
        MulDist(F, x, p[n - 1], Mul(F, x, o));
        XorComm(Mul(F, x, p[n - 1]), Mul(F, x, Mul(F, x, o)));
      }
    }
  }

  /** Trailing zero coefficients do not count in the derivative. */
  lemma {:induction false} DerivativeOfPrefix(F: Gf, p: seq<nat>, y: nat, m: nat, n: nat)
    requires m <= n <= |p|
    requires forall i :: m <= i < n ==> p[i] == 0
    ensures Derivative(F, p, y, n) == Derivative(F, p, y, m)
  {
    hide Mul, Xor, FullPeriod;
    if m < n {
      DerivativeOfPrefix(F, p, y, m, n - 1);
      if n % 2 == 0 {
        MulZero(F, Pow(F, y, n - 2));
        XorZero(Derivative(F, p, y, n - 1));
      }
    }
  }

  // ----- The error evaluator

  /** The sum of ws[l] times the polynomial deflated at xs[l], at x. */
  ghost function DeflatedSum(F: Gf, ws: seq<nat>, lam: seq<nat>, xs: seq<nat>, x: nat, n: nat, v: nat): nat
    requires |ws| == |xs| && n <= |lam| && v <= |xs|
  {
    if v == 0 then 0
    else Xor(DeflatedSum(F, ws, lam, xs, x, n, v - 1), Mul(F, ws[v - 1], Horner(F, Deflated(F, lam, xs[v - 1]), x, n)))
  }

  lemma {:induction false} DeflatedSumStep(F: Gf, ws: seq<nat>, lam: seq<nat>, xs: seq<nat>, x: nat, n: nat, v: nat)
    requires |ws| == |xs| && n + 1 <= |lam| && v <= |xs|
    ensures DeflatedSum(F, ws, lam, xs, x, n + 1, v)
            == Xor(PowerSum(F, Weighted(F, ws, lam, xs, n + 1), xs, 0, v), Mul(F, x, DeflatedSum(F, ws, lam, xs, x, n, v)))
  {
    hide Mul, Xor, FullPeriod, Deflated, Weighted;
    if v == 0 {
      MulZero(F, x);
      XorZero(0);
    } else {
      DeflatedSumStep(F, ws, lam, xs, x, n, v - 1);
      var w, h, d := ws[v - 1], Horner(F, lam, xs[v - 1], n + 1), Horner(F, Deflated(F, lam, xs[v - 1]), x, n);
      MulDist(F, w, h, Mul(F, x, d));
      MulLeftComm(F, w, x, d);
      MulOne(F, Mul(F, w, h));
      MulDist(F, x, DeflatedSum(F, ws, lam, xs, x, n, v - 1), Mul(F, w, d));
      XorSwap(PowerSum(F, Weighted(F, ws, lam, xs, n + 1), xs, 0, v - 1), Mul(F, x, DeflatedSum(F, ws, lam, xs, x, n, v - 1)),
              Mul(F, w, h), Mul(F, x, Mul(F, w, d)));
    }
  }

  lemma {:induction false} DeflatedSumEmpty(F: Gf, ws: seq<nat>, lam: seq<nat>, xs: seq<nat>, x: nat, v: nat)
    requires |ws| == |xs| && v <= |xs|
    ensures DeflatedSum(F, ws, lam, xs, x, 0, v) == 0
  {
    if v > 0 {
      DeflatedSumEmpty(F, ws, lam, xs, x, v - 1);
      MulZero(F, ws[v - 1]);
      XorZero(0);
    }
  }

  lemma {:induction false} OmegaAsSum(C: Code, s: seq<nat>, ws: seq<nat>, xs: seq<nat>, rho: nat, lam: seq<nat>, deg: nat, x: nat, n: nat)
    requires Pattern(C, s, ws, xs, rho) && |lam| == C.nroots + 1 && n <= deg <= C.nroots
    ensures Horner(C.field, Omega(C, s, lam, deg), x, n) == DeflatedSum(C.field, ws, lam, xs, x, n, |xs|)
  {
    hide Mul, Xor, FullPeriod, Omega, Weighted;
    var F := C.field;
    if n == 0 {
      DeflatedSumEmpty(F, ws, lam, xs, x, |xs|);
    } else {
      OmegaAsSum(C, s, ws, xs, rho, lam, deg, x, n - 1);
      ConvPowerSums(F, lam, s, ws, xs, n - 1, n);
      DeflatedSumStep(F, ws, lam, xs, x, n - 1, |xs|);
    }
  }

  /** All locators of a pattern are roots of a polynomial of exactly their number. */
  ghost predicate Located(C: Code, xs: seq<nat>, lam: seq<nat>) {
    && 1 <= |xs| <= C.nroots && |lam| == C.nroots + 1
    && Symbols(C.field, lam) && Symbols(C.field, xs) && Distinct(xs)
    && lam[0] == 1 && ZeroFrom(lam, |xs| + 1)
    && forall l :: 0 <= l < |xs| ==> Horner(C.field, lam, xs[l], |xs| + 1) == 0
  }

  lemma OtherLocatorVanishes(C: Code, xs: seq<nat>, lam: seq<nat>, m: nat, l: nat)
    requires Located(C, xs, lam) && m < |xs| && l < |xs| && l != m
    ensures Horner(C.field, Deflated(C.field, lam, xs[l]), xs[m], |xs|) == 0
  {
    hide Mul, Xor, FullPeriod, Horner, Deflated;
    DeflatedSymbols(C.field, lam, xs[l]);
    QuotientRoot(C.field, lam, Deflated(C.field, lam, xs[l]), xs[m], xs[l], |xs| + 1);
  }

  lemma DeflatedSymbols(F: Gf, p: seq<nat>, z: nat)
    requires Symbols(F, p)
    ensures Symbols(F, Deflated(F, p, z))
  {
    hide Mul, Xor, FullPeriod, Horner, Deflated;
    var q := Deflated(F, p, z);
    forall i | 0 <= i < |q|
      ensures q[i] <= Nn(F)
    {
      HornerRange(F, p, z, i + 1);
    }
  }

  /** At a locator only its own term of the evaluator is left. */
  lemma {:induction false} OneTermLeft(C: Code, ws: seq<nat>, xs: seq<nat>, lam: seq<nat>, m: nat, v: nat)
    requires Located(C, xs, lam) && |ws| == |xs| && m < |xs| && v <= |xs|
    ensures DeflatedSum(C.field, ws, lam, xs, xs[m], |xs|, v)
            == if m < v then Mul(C.field, ws[m], Horner(C.field, Deflated(C.field, lam, xs[m]), xs[m], |xs|)) else 0
  {
    hide Mul, Xor, FullPeriod, Horner, Deflated;
    if v > 0 {
      OneTermLeft(C, ws, xs, lam, m, v - 1);
      if v - 1 == m {
        XorZero(Mul(C.field, ws[m], Horner(C.field, Deflated(C.field, lam, xs[m]), xs[m], |xs|)));
      } else {
        OtherLocatorVanishes(C, xs, lam, m, v - 1);
        MulZero(C.field, ws[v - 1]);
        XorZero(DeflatedSum(C.field, ws, lam, xs, xs[m], |xs|, v - 1));
      }
    }
  }

  /** The locators are simple roots. */
  lemma SimpleRoot(C: Code, xs: seq<nat>, lam: seq<nat>, m: nat)
    requires Located(C, xs, lam) && m < |xs|
    ensures 0 < Horner(C.field, Deflated(C.field, lam, xs[m]), xs[m], |xs|) <= C.nn()
  {
    hide Mul, Xor, FullPeriod, Deflated;
    var q := Deflated(C.field, lam, xs[m]);
    DeflatedSymbols(C.field, lam, xs[m]);
    HornerRange(C.field, q, xs[m], |xs|);
    FirstOfDeflated(C.field, lam, xs[m]);
    hide Horner;
    if Horner(C.field, q, xs[m], |xs|) == 0 {
      forall l | 0 <= l < |xs|
        ensures Horner(C.field, q, xs[l], |xs|) == 0
      {
        if l != m {
          assert Located(C, xs, lam);
          DeflatedAtOther(C, xs, lam, m, l);
        }
      }
      RootBound(C.field, q, xs, |xs|);
    }
  }

  lemma DeflatedAtOther(C: Code, xs: seq<nat>, lam: seq<nat>, m: nat, l: nat)
    requires Located(C, xs, lam) && m < |xs| && l < |xs| && l != m
    ensures Horner(C.field, Deflated(C.field, lam, xs[m]), xs[l], |xs|) == 0
  {
    OtherLocatorVanishes(C, xs, lam, l, m);
  }

  lemma FirstOfDeflated(F: Gf, p: seq<nat>, z: nat)
    requires |p| > 0
    ensures Deflated(F, p, z)[0] == p[0]
  {
    hide Mul, Xor, FullPeriod, Deflated;
    assert Horner(F, p, z, 1) == Xor(p[0], Mul(F, z, Horner(F, p, z, 0)));
    MulZero(F, z);
    XorZero(p[0]);
  }

  // ----- Values

  /** X^v * derivative == X * (X * D), where D is the deflated polynomial at its root. */
  lemma DerivativeAtLocator(C: Code, xs: seq<nat>, lam: seq<nat>, m: nat, y: nat)
    requires Located(C, xs, lam) && m < |xs| && Mul(C.field, xs[m], y) == 1
    ensures var x, v := xs[m], |xs|;
            Mul(C.field, Pow(C.field, x, v), Derivative(C.field, lam, y, |lam|))
            == Mul(C.field, x, Mul(C.field, x, Horner(C.field, Deflated(C.field, lam, x), x, v)))
  {
    hide Mul, Xor, FullPeriod, Deflated, Horner;
    var F, x, v := C.field, xs[m], |xs|;
    DerivativeOfPrefix(F, lam, y, v + 1, |lam|);
    DerivativeIsOddPart(F, lam, x, y, v + 1);
    DeflatedAtRoot(F, lam, x, v);
    SplitParity(F, lam, x, v + 1);
    XorEqualZero(OddPart(F, lam, x, v + 1), EvenPart(F, lam, x, v + 1));
  }

  /** X^v * numerator == X * (W * D) */
  lemma NumeratorAtLocator(C: Code, s: seq<nat>, ws: seq<nat>, xs: seq<nat>, rho: nat, lam: seq<nat>, m: nat, y: nat)
    requires Pattern(C, s, ws, xs, rho) && Located(C, xs, lam) && m < |xs| && Mul(C.field, xs[m], y) == 1
    ensures var x, v := xs[m], |xs|;
            Mul(C.field, Pow(C.field, x, v), Eval(C.field, Omega(C, s, lam, v), y, v))
            == Mul(C.field, x, Mul(C.field, ws[m], Horner(C.field, Deflated(C.field, lam, x), x, v)))
  {
    hide Mul, Xor, FullPeriod, Deflated, Horner, Omega, Eval;
    var F, x, v := C.field, xs[m], |xs|;
    OmegaSymbols(C, s, lam, v);
    HornerIsEval(F, Omega(C, s, lam, v), x, y, v);
    OmegaAsSum(C, s, ws, xs, rho, lam, v, x, v);
    OneTermLeft(C, ws, xs, lam, m, v);
    MulAssoc(F, x, Pow(F, x, v - 1), Eval(F, Omega(C, s, lam, v), y, v));
  }

  lemma OmegaSymbols(C: Code, s: seq<nat>, lam: seq<nat>, deg: nat)
    requires deg <= |s| == C.nroots && |lam| == C.nroots + 1
    ensures Symbols(C.field, Omega(C, s, lam, deg))
  {
    hide FullPeriod, Omega;
    var om := Omega(C, s, lam, deg);
    forall i | 0 <= i < |om|
      ensures om[i] <= Nn(C.field)
    {
      ConvRange(C.field, lam, s, i, i + 1);
    }
  }

  /** From p*den == x*(x*d) and p*num == x*(w*d): num*x == w*den. */
  lemma CancelScale(F: Gf, p: nat, den: nat, num: nat, x: nat, w: nat, d: nat)
    requires 0 < p <= Nn(F)
    requires Mul(F, p, den) == Mul(F, x, Mul(F, x, d))
    requires Mul(F, p, num) == Mul(F, x, Mul(F, w, d))
    ensures Mul(F, num, x) == Mul(F, w, den)
  {
    hide *;
    // p*(x*num) == x*(x*(w*d)) == w*(x*(x*d)) == p*(w*den)
    MulLeftComm(F, p, x, num);
    MulLeftComm(F, x, w, d);
    MulLeftComm(F, x, w, Mul(F, x, d));
    MulLeftComm(F, p, w, den);
    MulComm(F, num, x);
    CancelFactor(F, p, Mul(F, x, num), Mul(F, w, den));
  }

  lemma CancelFactor(F: Gf, p: nat, a: nat, b: nat)
    requires 0 < p <= Nn(F) && a <= Nn(F) && b <= Nn(F)
    requires Mul(F, p, a) == Mul(F, p, b)
    ensures a == b
  {
    hide Mul, Xor, FullPeriod;
    MulDist(F, p, a, b);
    XorSelf(Mul(F, p, a));
    XorRange(F, a, b);
    MulNonzero(F, p, Xor(a, b));
    XorEqualZero(a, b);
  }

  /** num2 times X^fcr is X. */
  lemma Num2AtLocator(C: Code, root: nat, x: nat)
    requires 1 <= root <= C.nn() && x <= C.nn() && Mul(C.field, x, Exp(C.field, root)) == 1
    ensures Mul(C.field, Exp(C.field, Num2Exponent(C, root)), Pow(C.field, x, C.fcr)) == x
  {
    hide *;
    if C.fcr == 0 {
      Num2IsReciprocal(C, root, x);
    } else {
      MulMono(0, root, C.fcr - 1);
      Num2IsPower(C, root, x, root * (C.fcr - 1));
    }
  }

  lemma Num2IsReciprocal(C: Code, root: nat, x: nat)
    requires 1 <= root <= C.nn() && x <= C.nn() && Mul(C.field, x, Exp(C.field, root)) == 1 && C.fcr == 0
    ensures Mul(C.field, Exp(C.field, Num2Exponent(C, root)), Pow(C.field, x, C.fcr)) == x
  {
    hide Mul, FullPeriod, Exp;
    var F, y := C.field, Exp(C.field, root);
    var num2 := Exp(F, Num2Exponent(C, root));
    MulExp(F, root, C.nn() - root);
    ExpZero(F);
    ExpMod(F, Num2Exponent(C, root));
    // y*num2 == 1 == y*x
    MulComm(F, x, y);
    ExpNonzero(F, root);
    ExpNonzero(F, Num2Exponent(C, root));
    CancelFactor(F, y, num2, x);
    MulOne(F, num2);
  }

  lemma Num2IsPower(C: Code, root: nat, x: nat, e: nat)
    requires 1 <= root <= C.nn() && x <= C.nn() && Mul(C.field, x, Exp(C.field, root)) == 1
    requires C.fcr > 0 && e == root * (C.fcr - 1)
    ensures Mul(C.field, Exp(C.field, Num2Exponent(C, root)), Pow(C.field, x, C.fcr)) == x
  {
    hide Mul, FullPeriod, Exp;
    var F, y := C.field, Exp(C.field, root);
    ExpPeriod(F, e);
    PowExp(F, root, C.fcr - 1);
    MulLeftComm(F, Pow(F, y, C.fcr - 1), x, Pow(F, x, C.fcr - 1));
    PowReciprocal(F, x, y, C.fcr - 1);
    MulComm(F, Pow(F, y, C.fcr - 1), Pow(F, x, C.fcr - 1));
    MulOne(F, x);
  }

  lemma ExpZero(F: Gf)
    ensures Exp(F, 0) == 1 && Exp(F, Nn(F)) == 1
  {
  }

  /** a*den == num*num2 when num*x == (a*t)*den and num2*t == x. */
  lemma ValueFromParts(F: Gf, a: nat, t: nat, den: nat, num: nat, num2: nat, x: nat)
    requires 0 < x <= Nn(F) && a <= Nn(F)
    requires Mul(F, num, x) == Mul(F, Mul(F, a, t), den)
    requires Mul(F, num2, t) == x
    ensures Mul(F, num, num2) == Mul(F, a, den)
  {
    hide *;
    // x*(num*num2) == num2*((a*t)*den) == ((num2*t)*a)*den == x*(a*den)
    MulComm(F, num, num2);
    MulLeftComm(F, x, num2, num);
    MulComm(F, x, num);
    MulComm(F, a, t);
    MulAssoc(F, t, a, den);
    MulAssoc(F, num2, t, Mul(F, a, den));
    CancelFactor(F, x, Mul(F, num, num2), Mul(F, a, den));
  }

  /** The value computed at a locator is the change that was made there. */
  lemma ErrorValueIsExact(C: Code, s: seq<nat>, ws: seq<nat>, xs: seq<nat>, rho: nat, lam: seq<nat>, m: nat, root: nat, a: nat)
    requires Pattern(C, s, ws, xs, rho) && Located(C, xs, lam) && m < |xs|
    requires 1 <= root <= C.nn() && Mul(C.field, xs[m], Exp(C.field, root)) == 1
    requires a <= C.nn() && ws[m] == Mul(C.field, a, Pow(C.field, xs[m], C.fcr))
    ensures ErrorValue(C, s, lam, |xs|, root) == a
  {
    hide Mul, Xor, FullPeriod, Deflated, Horner, Omega, Eval, Exp, Derivative, Pow, InvOf, Num2Exponent;
    var F, x, v, y := C.field, xs[m], |xs|, Exp(C.field, root);
    var d := Horner(F, Deflated(F, lam, x), x, v);
    var num := Eval(F, Omega(C, s, lam, v), y, v);
    var num2 := Exp(F, Num2Exponent(C, root));
    var den := Derivative(F, lam, y, |lam|);
    var p := Pow(F, x, v);
    PowNonzero(F, x, v);
    DerivativeAtLocator(C, xs, lam, m, y);
    NumeratorAtLocator(C, s, ws, xs, rho, lam, m, y);
    CancelScale(F, p, den, num, x, ws[m], d);
    Num2AtLocator(C, root, x);
    ValueFromParts(F, a, Pow(F, x, C.fcr), den, num, num2, x);
    DerivativeNonzero(F, p, den, x, d, C, xs, lam, m);
    DerivativeRange(F, lam, y, |lam|);
    QuotientOfProduct(F, a, den);
  }

  lemma DerivativeNonzero(F: Gf, p: nat, den: nat, x: nat, d: nat, C: Code, xs: seq<nat>, lam: seq<nat>, m: nat)
    requires F == C.field && Located(C, xs, lam) && m < |xs| && x == xs[m] && 0 < x <= Nn(F)
    requires d == Horner(F, Deflated(F, lam, x), x, |xs|)
    requires Mul(F, p, den) == Mul(F, x, Mul(F, x, d))
    ensures den != 0
  {
    hide Mul, FullPeriod, Horner, Deflated;
    SimpleRoot(C, xs, lam, m);
    MulNonzero(F, x, d);
    MulNonzero(F, x, Mul(F, x, d));
    MulZero(F, p);
  }

  lemma {:induction false} DerivativeRange(F: Gf, p: seq<nat>, y: nat, n: nat)
    requires n <= |p|
    ensures Derivative(F, p, y, n) <= Nn(F)
  {
    if n > 0 {
      DerivativeRange(F, p, y, n - 1);
      if n % 2 == 0 {
        XorRange(F, Derivative(F, p, y, n - 1), Mul(F, p[n - 1], Pow(F, y, n - 2)));
      }
    }
  }

  lemma QuotientOfProduct(F: Gf, a: nat, den: nat)
    requires a <= Nn(F) && 0 < den <= Nn(F)
    ensures Quotient(F, Mul(F, a, den), den) == a
  {
    hide Mul, FullPeriod, Exp, Inv;
    MulInv(F, den);
    MulAssoc(F, a, den, Inv(F, den));
    MulOne(F, a);
  }
}
