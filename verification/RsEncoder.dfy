/** The generator polynomial and the systematic encoder that divides by it. */
module RsEncoder {
  import opened Bits
  import opened GaloisField
  import opened RsAlgebra
  import opened RsCode
  import opened RsErrors
  import opened RsBerlekamp
  import opened RsForney
  import opened RsDecoder

  // ----- Generator polynomial

  /** Coefficients, constant term first, of the product of x + Root(i) for i below n. */
  ghost function GenPoly(C: Code, n: nat): (g: seq<nat>)
    ensures |g| == n + 1
  {
    if n == 0 then [1]
    else
      var p, z := GenPoly(C, n - 1), Root(C, n - 1);
      seq(n + 1, j requires 0 <= j <= n => NextCoefficient(C.field, p, z, j))
  }

  ghost function NextCoefficient(F: Gf, p: seq<nat>, z: nat, j: nat): nat
    requires 1 <= |p| && j <= |p|
  {
    if j == |p| then 1
    else if j == 0 then Mul(F, p[0], z)
    else Xor(p[j - 1], Mul(F, p[j], z))
  }

  lemma {:induction false} GenPolyMonic(C: Code, n: nat)
    ensures GenPoly(C, n)[n] == 1 && Symbols(C.field, GenPoly(C, n))
  {
    hide Mul, Xor, FullPeriod, Root;
    NnPositive(C.field);
    if n > 0 {
      GenPolyMonic(C, n - 1);
      var p, g := GenPoly(C, n - 1), GenPoly(C, n);
      forall j | 0 <= j <= n
        ensures g[j] <= Nn(C.field)
      {
        if 0 < j < n {
          XorRange(C.field, p[j - 1], Mul(C.field, p[j], Root(C, n - 1)));
        }
      }
    }
  }

  /** Up to the last coefficient, multiplying by x + z adds z times p to x times p. */
  lemma {:induction false} ProductPrefix(F: Gf, p: seq<nat>, q: seq<nat>, z: nat, x: nat, m: nat)
    requires 1 <= m <= |p| && |q| == |p| + 1
    requires forall j :: 0 <= j <= |p| ==> q[j] == NextCoefficient(F, p, z, j)
    ensures Eval(F, q, x, m) == Xor(Mul(F, x, Eval(F, p, x, m - 1)), Mul(F, z, Eval(F, p, x, m)))
  {
    hide Mul, Xor, FullPeriod;
    if m == 1 {
      MulZero(F, x);
      MulComm(F, p[0], z);
      MulAssoc(F, z, p[0], 1);
      XorZero(Mul(F, p[0], 1));
    } else {
      ProductPrefix(F, p, q, z, x, m - 1);
      var e0, e1 := Eval(F, p, x, m - 2), Eval(F, p, x, m - 1);
      var a, b, y := p[m - 2], p[m - 1], Pow(F, x, m - 1);
      // (a + b*z)*x^(m-1) == x*(a*x^(m-2)) + z*(b*x^(m-1))
      MulComm(F, b, z);
      MulDistR(F, a, Mul(F, z, b), y);
      MulLeftComm(F, a, x, Pow(F, x, m - 2));
      MulAssoc(F, z, b, y);
      MulDist(F, x, e0, Mul(F, a, Pow(F, x, m - 2)));
      MulDist(F, z, e1, Mul(F, b, y));
      XorSwap(Mul(F, x, e0), Mul(F, z, e1), Mul(F, x, Mul(F, a, Pow(F, x, m - 2))), Mul(F, z, Mul(F, b, y)));
    }
  }

  lemma ProductEval(F: Gf, p: seq<nat>, q: seq<nat>, z: nat, x: nat)
    requires 1 <= |p| && |q| == |p| + 1 && p[|p| - 1] == 1
    requires forall j :: 0 <= j <= |p| ==> q[j] == NextCoefficient(F, p, z, j)
    ensures Eval(F, q, x, |q|) == Mul(F, Xor(x, z), Eval(F, p, x, |p|))
  {
    hide Mul, Xor, FullPeriod;
    var m := |p|;
    ProductPrefix(F, p, q, z, x, m);
    var e, t := Eval(F, p, x, m - 1), Eval(F, p, x, m);
    var y := Pow(F, x, m - 1);
    MulLeftComm(F, 1, x, y);
    MulDist(F, x, e, Mul(F, 1, y));
    XorAssoc(Mul(F, x, e), Mul(F, z, t), Mul(F, x, Mul(F, 1, y)));
    XorComm(Mul(F, z, t), Mul(F, x, Mul(F, 1, y)));
    XorAssoc(Mul(F, x, e), Mul(F, x, Mul(F, 1, y)), Mul(F, z, t));
    MulDistR(F, x, z, t);
  }

  lemma {:induction false} GenPolyRoots(C: Code, n: nat, k: nat)
    requires k < n
    ensures Eval(C.field, GenPoly(C, n), Root(C, k), n + 1) == 0
  {
    hide Mul, Xor, FullPeriod, Root, Eval;
    var F, p, z, x := C.field, GenPoly(C, n - 1), Root(C, n - 1), Root(C, k);
    GenPolyMonic(C, n - 1);
    ProductEval(F, p, GenPoly(C, n), z, x);
    if k == n - 1 {
      XorSelf(z);
      MulZero(F, Eval(F, p, x, n));
    } else {
      GenPolyRoots(C, n - 1, k);
      MulZero(F, Xor(x, z));
    }
  }

  // ----- No coefficient is zero

  /** All indices below n + 1 except m. */
  function Others(n: nat, m: nat): (r: seq<nat>)
    ensures |r| == n
    ensures forall l :: 0 <= l < n ==> r[l] == if l < m then l else l + 1
  {
    seq(n, l requires 0 <= l < n => if l < m then l else l + 1)
  }

  /** g[l] * beta^(fcr*l), for the l-th remaining index. */
  ghost function TermWeights(C: Code, g: seq<nat>, idx: seq<nat>): (ws: seq<nat>)
    requires forall l :: 0 <= l < |idx| ==> idx[l] < |g|
    ensures |ws| == |idx| && Symbols(C.field, ws)
    ensures forall l :: 0 <= l < |idx| ==> ws[l] == Mul(C.field, g[idx[l]], Exp(C.field, C.prim * C.fcr * idx[l]))
  {
    seq(|idx|, l requires 0 <= l < |idx| => Mul(C.field, g[idx[l]], Exp(C.field, C.prim * C.fcr * idx[l])))
  }

  ghost function TermLocators(C: Code, idx: seq<nat>): (xs: seq<nat>)
    ensures |xs| == |idx|
    ensures forall l :: 0 <= l < |idx| ==> xs[l] == Exp(C.field, C.prim * idx[l])
  {
    seq(|idx|, l requires 0 <= l < |idx| => Exp(C.field, C.prim * idx[l]))
  }

  lemma RootTerm(C: Code, a: nat, i: nat, k: nat, e: nat, f: nat)
    requires e == C.prim * C.fcr * k && f == C.prim * k
    ensures Mul(C.field, a, Pow(C.field, Root(C, i), k))
            == Mul(C.field, Mul(C.field, a, Exp(C.field, e)), Pow(C.field, Exp(C.field, f), i))
  {
    hide Mul, Xor, FullPeriod, Exp, Pow;
    PowExp(C.field, (C.fcr + i) * C.prim, k);
    PowExp(C.field, f, i);
    RootExponent(C.fcr, i, C.prim, k);
    MulExp(C.field, e, f * i);
    MulAssoc(C.field, a, Exp(C.field, e), Exp(C.field, f * i));
  }

  lemma RootExponent(fcr: nat, i: nat, p: nat, k: nat)
    ensures (fcr + i) * p * k == p * fcr * k + p * k * i
  {
  }

  lemma TermExponents(p: nat, fcr: nat, k: nat)
    ensures p * fcr * k >= 0 && p * k >= 0
  {
    MulMono(0, p, fcr);
    MulMono(0, p * fcr, k);
    MulMono(0, p, k);
  }

  /** With coefficient m equal to zero, a value at a root is a power sum over the other indices. */
  lemma {:induction false} EvalWithoutTerm(C: Code, g: seq<nat>, m: nat, i: nat, n: nat)
    requires m < |g| && n <= |g| && g[m] == 0
    ensures var idx := Others(|g| - 1, m);
            var ws, xs := TermWeights(C, g, idx), TermLocators(C, idx);
            Eval(C.field, g, Root(C, i), n) == PowerSum(C.field, ws, xs, i, if n <= m then n else n - 1)
  {
    hide Mul, Xor, FullPeriod, Exp, Pow, Root, TermWeights, TermLocators, Others, Nn, Pow2;
    if n > 0 {
      EvalWithoutTerm(C, g, m, i, n - 1);
      if n - 1 == m {
        MulZero(C.field, Pow(C.field, Root(C, i), n - 1));
        XorZero(Eval(C.field, g, Root(C, i), n - 1));
      } else {
        TermExponents(C.prim, C.fcr, n - 1);
        RootTerm(C, g[n - 1], i, n - 1, C.prim * C.fcr * (n - 1), C.prim * (n - 1));
      }
    }
  }

  lemma TermLocatorsDistinct(C: Code, idx: seq<nat>)
    requires ValidCode(C) && Distinct(idx)
    requires forall l :: 0 <= l < |idx| ==> idx[l] < C.nn()
    ensures Distinct(TermLocators(C, idx)) && Symbols(C.field, TermLocators(C, idx))
  {
    hide FullPeriod, Exp, TermLocators;
    var xs := TermLocators(C, idx);
    forall i, j | 0 <= i < j < |xs|
      ensures xs[i] != xs[j]
    {
      if xs[i] == xs[j] {
        PrimPowersInjective(C, idx[i], idx[j], C.prim * idx[i], C.prim * idx[j]);
      }
    }
    forall i | 0 <= i < |xs|
      ensures xs[i] <= Nn(C.field)
    {
      ExpNonzero(C.field, C.prim * idx[i]);
    }
  }

  lemma PrimPowersInjective(C: Code, a: nat, b: nat, x: nat, y: nat)
    requires ValidCode(C) && a < C.nn() && b < C.nn()
    requires x == C.prim * a && y == C.prim * b && Exp(C.field, x) == Exp(C.field, y)
    ensures a == b
  {
    hide FullPeriod, Exp;
    PrimPower(C, a);
    PrimPower(C, b);
    ExpInjective(C.field, a, b);
  }

  lemma PrimPower(C: Code, a: nat)
    requires ValidCode(C)
    ensures Pow(C.field, Exp(C.field, C.prim * a), C.iprim) == Exp(C.field, a)
  {
    hide FullPeriod, Exp, Pow;
    PowExp(C.field, C.prim * a, C.iprim);
    Reorder(C.prim, a, C.iprim);
    PrimInverse(C, a, C.prim * a * C.iprim);
  }

  /**
   No coefficient of the finished generator polynomial is zero, which the
   encoder relies on when it adds their logarithms without looking.
   */
  lemma GenPolyNonzero(C: Code, m: nat)
    requires ValidCode(C) && m <= C.nroots
    ensures GenPoly(C, C.nroots)[m] != 0
  {
    hide Mul, Xor, FullPeriod, Exp, Root, Eval, TermWeights, TermLocators, GenPoly, PowerSum;
    var F, n, g := C.field, C.nroots, GenPoly(C, C.nroots);
    GenPolyMonic(C, n);
    if g[m] == 0 {
      var idx := Others(n, m);
      var ws := TermWeights(C, g, idx);
      OtherTermsVanish(C, g, m);
      assert ws[n - 1] == Mul(F, 1, Exp(F, C.prim * C.fcr * n));
      ExpNonzero(F, C.prim * C.fcr * n);
      MulOne(F, Exp(F, C.prim * C.fcr * n));
    }
  }

  lemma OtherTermsVanish(C: Code, g: seq<nat>, m: nat)
    requires ValidCode(C) && m < |g| && g == GenPoly(C, C.nroots) && g[m] == 0
    ensures var ws := TermWeights(C, g, Others(C.nroots, m));
            forall l :: 0 <= l < |ws| ==> ws[l] == 0
  {
    hide Mul, Xor, FullPeriod, Exp, Pow, Root, Eval, TermWeights, TermLocators, GenPoly, PowerSum;
    var n := C.nroots;
    var idx := Others(n, m);
    var ws, xs := TermWeights(C, g, idx), TermLocators(C, idx);
    TermLocatorsDistinct(C, idx);
    forall j | 0 <= j < n
      ensures PowerSum(C.field, ws, xs, j, n) == 0
    {
      GenPolyRoots(C, n, j);
      EvalWithoutTerm(C, g, m, j, n + 1);
    }
    Vandermonde(C.field, ws, xs);
  }

  // ----- Division

  /** The feedback symbol for data symbol d. */
  function Feedback(d: nat, p: seq<nat>): nat
    requires |p| > 0
  {
    Xor(d, p[0])
  }

  /** The shift register after one data symbol: add feedback times g, shift left. */
  ghost function Shifted(F: Gf, g: seq<nat>, p: seq<nat>, fb: nat): (q: seq<nat>)
    requires |g| == |p| + 1
    ensures |q| == |p|
    ensures forall j :: 0 <= j < |p| ==> q[j] == ShiftedAt(F, g, p, fb, j)
  {
    seq(|p|, j requires 0 <= j < |p| => ShiftedAt(F, g, p, fb, j))
  }

  ghost function ShiftedAt(F: Gf, g: seq<nat>, p: seq<nat>, fb: nat, j: nat): nat
    requires j < |p| && |g| == |p| + 1
  {
    if j == |p| - 1 then Mul(F, fb, g[0]) else Xor(p[j + 1], Mul(F, fb, g[|p| - 1 - j]))
  }

  /** The register after the first n data symbols. */
  ghost function Register(C: Code, data: seq<nat>, n: nat): (p: seq<nat>)
    requires n <= |data| && C.nroots >= 1
    ensures |p| == C.nroots
  {
    if n == 0 then seq(C.nroots, _ => 0)
    else
      var p := Register(C, data, n - 1);
      Shifted(C.field, GenPoly(C, C.nroots), p, Feedback(data[n - 1], p))
  }

  /** The feedback symbols, which form the quotient polynomial. */
  ghost function Feedbacks(C: Code, data: seq<nat>, n: nat): (q: seq<nat>)
    requires n <= |data| && C.nroots >= 1
    ensures |q| == n
  {
    if n == 0 then []
    else Feedbacks(C, data, n - 1) + [Feedback(data[n - 1], Register(C, data, n - 1))]
  }

  ghost function Encode(C: Code, data: seq<nat>): (parity: seq<nat>)
    requires C.nroots >= 1
    ensures |parity| == C.nroots
  {
    Register(C, data, |data|)
  }

  lemma {:induction false} RegisterSymbols(C: Code, data: seq<nat>, n: nat)
    requires n <= |data| && C.nroots >= 1
    ensures Symbols(C.field, Register(C, data, n))
  {
    hide Mul, Xor, FullPeriod, GenPoly, Feedback, Shifted;
    var p := Register(C, data, n);
    if n > 0 {
      RegisterSymbols(C, data, n - 1);
      var q := Register(C, data, n - 1);
      var fb := Feedback(data[n - 1], q);
      forall j | 0 <= j < |p|
        ensures p[j] <= Nn(C.field)
      {
        if j < |p| - 1 {
          XorRange(C.field, q[j + 1], Mul(C.field, fb, GenPoly(C, C.nroots)[|p| - 1 - j]));
        }
      }
    }
  }

  /** Horner's sum of the generator's low coefficients, read from the top, is their value. */
  lemma {:induction false} ReversedEval(F: Gf, g: seq<nat>, r: seq<nat>, x: nat, k: nat, n: nat)
    requires k <= n <= |g| && n <= |r| && Symbols(F, g)
    requires forall j :: 0 <= j < n ==> r[j] == g[n - 1 - j]
    ensures Xor(Eval(F, g, x, n - k), Mul(F, Pow(F, x, n - k), Horner(F, r, x, k))) == Eval(F, g, x, n)
  {
    hide Mul, Xor, FullPeriod;
    if k == 0 {
      MulZero(F, Pow(F, x, n));
      XorZero(Eval(F, g, x, n));
    } else {
      ReversedEval(F, g, r, x, k - 1, n);
      var m := n - k;
      var a, h, y := g[m], Horner(F, r, x, k - 1), Pow(F, x, m);
      // y*(a + x*h) == a*y + (x*y)*h
      MulDist(F, y, a, Mul(F, x, h));
      MulComm(F, y, a);
      MulAssoc(F, y, x, h);
      MulComm(F, y, x);
      XorAssoc(Eval(F, g, x, m), Mul(F, a, y), Mul(F, Mul(F, x, y), h));
    }
  }

  /** The register shifted left, without feedback: x*p plus p[0]*x^n. */
  lemma {:induction false} ShiftLeftHorner(F: Gf, p: seq<nat>, q: seq<nat>, x: nat, n: nat)
    requires 1 <= n <= |p| && n <= |q| && Symbols(F, p)
    requires forall j :: 0 <= j < n - 1 ==> q[j] == p[j + 1]
    ensures Xor(Horner(F, q, x, n - 1), Mul(F, p[0], Pow(F, x, n - 1))) == Horner(F, p, x, n)
  {
    hide Mul, Xor, FullPeriod;
    if n == 1 {
      MulZero(F, x);
      MulOne(F, p[0]);
      XorComm(0, p[0]);
    } else {
      ShiftLeftHorner(F, p, q, x, n - 1);
      var h, t := Horner(F, q, x, n - 2), Mul(F, p[0], Pow(F, x, n - 2));
      MulDist(F, x, h, t);
      MulLeftComm(F, x, p[0], Pow(F, x, n - 2));
      XorAssoc(q[n - 2], Mul(F, x, h), Mul(F, x, t));
    }
  }

  function ShiftLeft(p: seq<nat>): (q: seq<nat>)
    requires |p| > 0
    ensures |q| == |p| && q[|p| - 1] == 0
    ensures forall j :: 0 <= j < |p| - 1 ==> q[j] == p[j + 1]
  {
    p[1..] + [0]
  }

  function Reversed(g: seq<nat>, n: nat): (r: seq<nat>)
    requires n <= |g|
    ensures |r| == n
    ensures forall j :: 0 <= j < n ==> r[j] == g[n - 1 - j]
  {
    seq(n, j requires 0 <= j < n => g[n - 1 - j])
  }

  lemma ShiftedAsSum(F: Gf, g: seq<nat>, p: seq<nat>, fb: nat)
    requires |g| == |p| + 1 && |p| > 0
    ensures Shifted(F, g, p, fb) == AddScaled(F, ShiftLeft(p), fb, Reversed(g, |p|))
  {
    hide Mul, Xor, FullPeriod, Shifted, AddScaled, ShiftLeft, Reversed;
    var n := |p|;
    var q, r := Shifted(F, g, p, fb), AddScaled(F, ShiftLeft(p), fb, Reversed(g, n));
    forall j | 0 <= j < n
      ensures q[j] == r[j]
    {
      XorZero(Mul(F, fb, g[0]));
    }
  }

  /** One clock of the register: x*p + fb*g(x) + d*x^n. */
  lemma ShiftedHorner(F: Gf, g: seq<nat>, p: seq<nat>, d: nat, x: nat)
    requires |g| == |p| + 1 && |p| > 0 && Symbols(F, g) && Symbols(F, p) && g[|p|] == 1
    ensures var n, fb := |p|, Feedback(d, p);
            Horner(F, Shifted(F, g, p, fb), x, n)
            == Xor(Xor(Mul(F, x, Horner(F, p, x, n)), Mul(F, d, Pow(F, x, n))), Mul(F, fb, Eval(F, g, x, n + 1)))
  {
    hide Mul, Xor, FullPeriod, Shifted, AddScaled, ShiftLeft, Reversed;
    var n, fb := |p|, Feedback(d, p);
    var q, r, y := ShiftLeft(p), Reversed(g, n), Pow(F, x, n);
    ShiftedAsSum(F, g, p, fb);
    HornerAddScaled(F, q, fb, r, x);
    // x*q == x*p + p[0]*x^n
    ShiftLeftHorner(F, p, q, x, n);
    var h, t := Horner(F, q, x, n - 1), Mul(F, p[0], Pow(F, x, n - 1));
    XorZero(Mul(F, x, h));
    MulDist(F, x, h, t);
    MulLeftComm(F, x, p[0], Pow(F, x, n - 1));
    XorCancel(Mul(F, x, h), Mul(F, x, t));
    // r == g + x^n
    ReversedLow(F, g, r, x, n);
    var e := Eval(F, g, x, n);
    MulOne(F, y);
    PowRange(F, x, n);
    MulDist(F, fb, e, y);
    MulDistR(F, d, p[0], y);
    RegisterSum(Mul(F, x, Horner(F, p, x, n)), Mul(F, p[0], y), Mul(F, d, y), Mul(F, fb, e));
  }

  lemma ReversedLow(F: Gf, g: seq<nat>, r: seq<nat>, x: nat, n: nat)
    requires n <= |g| && n <= |r| && Symbols(F, g) && Symbols(F, r)
    requires forall j :: 0 <= j < n ==> r[j] == g[n - 1 - j]
    ensures Horner(F, r, x, n) == Eval(F, g, x, n)
  {
    hide Mul, Xor, FullPeriod, Horner;
    ReversedEval(F, g, r, x, n, n);
    HornerRange(F, r, x, n);
    MulOne(F, Horner(F, r, x, n));
    XorZero(Horner(F, r, x, n));
  }

  /** (a + p) + f == (a + d) + (f + (d + p)) */
  lemma RegisterSum(a: nat, p: nat, d: nat, f: nat)
    ensures Xor(Xor(a, p), f) == Xor(Xor(a, d), Xor(f, Xor(d, p)))
  {
    hide *;
    XorComm(f, Xor(d, p));
    XorAssoc(Xor(a, d), Xor(d, p), f);
    XorAssoc(a, d, Xor(d, p));
    XorAssoc(d, d, p);
    XorSelf(d);
    XorZero(p);
  }

  /**
   Encoding divides: for every x,
   data(x) * x^nroots == generator(x) * quotient(x) + parity(x).
   */
  lemma {:induction false} DivisionIdentity(C: Code, data: seq<nat>, n: nat, x: nat)
    requires n <= |data| && C.nroots >= 1
    ensures Xor(Mul(C.field, Pow(C.field, x, C.nroots), Horner(C.field, data, x, n)),
                Horner(C.field, Register(C, data, n), x, C.nroots))
            == Mul(C.field, Eval(C.field, GenPoly(C, C.nroots), x, C.nroots + 1),
                   Horner(C.field, Feedbacks(C, data, n), x, n))
  {
    var F, k := C.field, C.nroots;
    hide Mul, Xor, FullPeriod, GenPoly, Pow, Eval, Shifted, Feedback;
    var y, gx := Pow(F, x, k), Eval(F, GenPoly(C, k), x, k + 1);
    if n == 0 {
      MulZero(F, y);
      MulZero(F, gx);
      XorZero(0);
      HornerZero(F, Register(C, data, 0), x, k);
    } else {
      DivisionIdentity(C, data, n - 1, x);
      var p, d := Register(C, data, n - 1), data[n - 1];
      var fb, qs := Feedback(d, p), Feedbacks(C, data, n - 1);
      RegisterSymbols(C, data, n - 1);
      GenPolyMonic(C, k);
      ShiftedHorner(F, GenPoly(C, k), p, d, x);
      HornerSame(F, qs, Feedbacks(C, data, n), x, n - 1);
      DivisionStep(F, y, d, x, Horner(F, data, x, n - 1), Horner(F, p, x, k), gx, fb, Horner(F, qs, x, n - 1));
    }
  }

  lemma DivisionStep(F: Gf, y: nat, d: nat, x: nat, h: nat, p: nat, gx: nat, fb: nat, q: nat)
    requires Xor(Mul(F, y, h), p) == Mul(F, gx, q)
    ensures Xor(Mul(F, y, Xor(d, Mul(F, x, h))), Xor(Xor(Mul(F, x, p), Mul(F, d, y)), Mul(F, fb, gx)))
            == Mul(F, gx, Xor(fb, Mul(F, x, q)))
  {
    hide *;
    var a, b, c, e := Mul(F, y, d), Mul(F, x, Mul(F, y, h)), Mul(F, x, p), Mul(F, fb, gx);
    MulDist(F, y, d, Mul(F, x, h));
    MulLeftComm(F, y, x, h);
    MulComm(F, d, y);
    // (a + b) + ((c + a) + e) == e + (b + c)
    XorComm(a, b);
    XorComm(c, a);
    XorAssoc(Xor(b, a), Xor(a, c), e);
    XorAssoc(b, a, Xor(a, c));
    XorCancel(c, a);
    XorComm(Xor(b, c), e);
    MulDist(F, x, Mul(F, y, h), p);
    MulDist(F, gx, fb, Mul(F, x, q));
    MulComm(F, gx, fb);
    MulLeftComm(F, gx, x, q);
  }

  // ----- Codewords

  lemma {:induction false} HornerConcat(F: Gf, a: seq<nat>, b: seq<nat>, x: nat, n: nat)
    requires n <= |b| && Symbols(F, a)
    ensures Horner(F, a + b, x, |a| + n) == Xor(Mul(F, Pow(F, x, n), Horner(F, a, x, |a|)), Horner(F, b, x, n))
  {
    hide Mul, Xor, FullPeriod;
    var h := Horner(F, a, x, |a|);
    if n == 0 {
      HornerSame(F, a, a + b, x, |a|);
      HornerRange(F, a, x, |a|);
      MulOne(F, h);
      XorZero(h);
    } else {
      HornerConcat(F, a, b, x, n - 1);
      var t, u := Mul(F, Pow(F, x, n - 1), h), Horner(F, b, x, n - 1);
      MulDist(F, x, t, u);
      MulAssoc(F, x, Pow(F, x, n - 1), h);
      XorAssoc(b[n - 1], Mul(F, x, t), Mul(F, x, u));
      XorAssoc(Mul(F, x, t), b[n - 1], Mul(F, x, u));
      XorComm(b[n - 1], Mul(F, x, t));
    }
  }

  ghost predicate EncoderInput(C: Code, data: seq<nat>) {
    ValidCode(C) && C.nroots >= 1 && |data| == C.nn() - C.nroots - C.pad && Symbols(C.field, data)
  }

  /** Data followed by its parity is a codeword. */
  lemma EncodeGivesCodeword(C: Code, data: seq<nat>)
    requires EncoderInput(C, data)
    ensures IsCodeword(C, data + Encode(C, data))
  {
    hide Mul, Xor, FullPeriod, Root, GenPoly, Register, Horner, Eval;
    var F, parity, k := C.field, Encode(C, data), C.nroots;
    var block := data + parity;
    RegisterSymbols(C, data, |data|);
    forall i | 0 <= i < k
      ensures Horner(F, block, Root(C, i), |block|) == 0
    {
      var x := Root(C, i);
      HornerConcat(F, data, parity, x, k);
      DivisionIdentity(C, data, |data|, x);
      GenPolyRoots(C, k, i);
      MulZero(F, Horner(F, Feedbacks(C, data, |data|), x, |data|));
    }
  }

  lemma RootsDistinct(C: Code, i: nat, j: nat)
    requires ValidCode(C) && i < C.nn() && j < C.nn() && Root(C, i) == Root(C, j)
    ensures i == j
  {
    hide Mul, FullPeriod, Exp, Pow;
    var F := C.field;
    PrimPower(C, C.fcr + i);
    PrimPower(C, C.fcr + j);
    assert (C.fcr + i) * C.prim == C.prim * (C.fcr + i);
    assert (C.fcr + j) * C.prim == C.prim * (C.fcr + j);
    MulExp(F, C.fcr, i);
    MulExp(F, C.fcr, j);
    ExpNonzero(F, C.fcr);
    ExpNonzero(F, i);
    ExpNonzero(F, j);
    CancelFactor(F, Exp(F, C.fcr), Exp(F, i), Exp(F, j));
    ExpInjective(F, i, j);
  }

  ghost function RootList(C: Code): (xs: seq<nat>)
    ensures |xs| == C.nroots
    ensures forall i :: 0 <= i < C.nroots ==> xs[i] == Root(C, i)
  {
    seq(C.nroots, i requires 0 <= i < C.nroots => Root(C, i))
  }

  lemma RootListDistinct(C: Code)
    requires ValidCode(C)
    ensures Distinct(RootList(C)) && Symbols(C.field, RootList(C))
  {
    hide FullPeriod, Root, RootList;
    var xs := RootList(C);
    forall i, j | 0 <= i < j < |xs|
      ensures xs[i] != xs[j]
    {
      if xs[i] == xs[j] {
        RootsDistinct(C, i, j);
      }
    }
    forall i | 0 <= i < |xs|
      ensures xs[i] <= Nn(C.field)
    {
      RootRange(C, i);
    }
  }

  lemma RootRange(C: Code, i: nat)
    ensures 0 < Root(C, i) <= C.nn()
  {
    hide FullPeriod, Exp;
    ExpNonzero(C.field, (C.fcr + i) * C.prim);
  }

  /** The parity symbols are the only ones that complete the data to a codeword. */
  lemma ParityUnique(C: Code, data: seq<nat>, parity: seq<nat>)
    requires EncoderInput(C, data) && |parity| == C.nroots && Symbols(C.field, parity)
    ensures IsCodeword(C, data + parity) <==> parity == Encode(C, data)
  {
    hide Mul, Xor, FullPeriod, Root, Horner, Encode, RootList;
    EncodeGivesCodeword(C, data);
    if IsCodeword(C, data + parity) {
      var F, k, p := C.field, C.nroots, Encode(C, data);
      EncodeSymbols(C, data);
      var r := seq(k, i requires 0 <= i < k => Xor(parity[i], p[i]));
      forall i | 0 <= i < k
        ensures r[i] <= Nn(F)
      {
        XorRange(F, parity[i], p[i]);
      }
      forall i | 0 <= i < k
        ensures Horner(F, r, RootList(C)[i], k) == 0
      {
        SameAtRoot(C, data, parity, p, r, i);
      }
      RootListDistinct(C);
      RootBound(F, r, RootList(C), k);
      forall i | 0 <= i < k
        ensures parity[i] == p[i]
      {
        XorEqualZero(parity[i], p[i]);
        assert r[i] == 0;
      }
    }
  }

  lemma EncodeSymbols(C: Code, data: seq<nat>)
    requires C.nroots >= 1
    ensures Symbols(C.field, Encode(C, data))
  {
    RegisterSymbols(C, data, |data|);
  }

  lemma SameAtRoot(C: Code, data: seq<nat>, a: seq<nat>, b: seq<nat>, r: seq<nat>, i: nat)
    requires IsCodeword(C, data + a) && IsCodeword(C, data + b) && Symbols(C.field, data)
    requires |a| == |b| == |r| == C.nroots && i < C.nroots
    requires forall j :: 0 <= j < |r| ==> r[j] == Xor(a[j], b[j])
    ensures Horner(C.field, r, Root(C, i), |r|) == 0
  {
    hide Mul, Xor, FullPeriod, Root, Horner;
    var F, x := C.field, Root(C, i);
    assert Horner(F, data + a, x, |data + a|) == 0 && Horner(F, data + b, x, |data + b|) == 0;
    HornerConcat(F, data, a, x, |a|);
    HornerConcat(F, data, b, x, |b|);
    HornerXor(F, a, b, r, x, |r|);
    var t := Mul(F, Pow(F, x, |a|), Horner(F, data, x, |data|));
    XorEqualZero(t, Horner(F, a, x, |a|));
    XorEqualZero(t, Horner(F, b, x, |b|));
    XorSelf(t);
  }

  // ----- Encoding and decoding together

  /**
   An encoded block comes back whole after any correctable damage, and passes
   through unchanged with return value 0 when there is none.
   */
  lemma EncodeDecode(C: Code, data: seq<nat>, received: seq<nat>, eras: seq<nat>)
    requires EncoderInput(C, data) && Correctable(C, data + Encode(C, data), received, eras)
    ensures var out := Decode(C, received, eras);
            && out.data[..|data|] == data
            && out.data[|data|..] == Encode(C, data)
            && (received == data + Encode(C, data) ==> out.count == 0)
  {
    hide FullPeriod, Encode, Decode, IsCodeword;
    DecodeRestores(C, data + Encode(C, data), received, eras);
  }
}
