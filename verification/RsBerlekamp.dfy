/** The Berlekamp-Massey loop: what every step keeps, and how long the register gets. */
module RsBerlekamp {
  import opened Bits
  import opened GaloisField
  import opened RsAlgebra
  import opened RsCode
  import opened RsErrors

  predicate ZeroFrom(p: seq<nat>, k: int) {
    forall i :: 0 <= i < |p| && k <= i ==> p[i] == 0
  }

  /** What holds after step r, for any syndromes at all. */
  ghost predicate BmInv(C: Code, s: seq<nat>, rho: nat, r: nat, st: Bm)
  {
    && r <= |s| == C.nroots
    && Sized(C, st) && Symbols(C.field, st.lam) && Symbols(C.field, st.b)
    && rho <= st.el <= r
    && st.lam[0] == 1
    && ZeroFrom(st.lam, st.el + 1)
    && ZeroFrom(st.b, r - st.el + rho + 1)
    && (forall k :: st.el <= k < r ==> Coef(C.field, st.lam, s, k) == 0)
    && (st.el > rho ==> r >= 1 && Coef(C.field, st.b, s, r - 1) == 1)
    && (st.el > rho ==> forall k :: r - st.el + rho <= k < r - 1 ==> Coef(C.field, st.b, s, k) == 0)
  }

  // ----- Coefficients of products are linear

  lemma {:induction false} ConvAddScaled(F: Gf, p: seq<nat>, c: nat, q: seq<nat>, s: seq<nat>, k: nat, n: nat)
    requires |p| == |q| && n <= |p| && n <= k + 1 <= |s|
    ensures Conv(F, AddScaled(F, p, c, q), s, k, n) == Xor(Conv(F, p, s, k, n), Mul(F, c, Conv(F, q, s, k, n)))
  {
    hide Mul, Xor, FullPeriod;
    if n == 0 {
      MulZero(F, c);
      XorZero(0);
    } else {
      ConvAddScaled(F, p, c, q, s, k, n - 1);
      var a, b, t := p[n - 1], q[n - 1], s[k - (n - 1)];
      MulDistR(F, a, Mul(F, c, b), t);
      MulAssoc(F, c, b, t);
      MulDist(F, c, Conv(F, q, s, k, n - 1), Mul(F, b, t));
      XorSwap(Conv(F, p, s, k, n - 1), Mul(F, c, Conv(F, q, s, k, n - 1)), Mul(F, a, t), Mul(F, c, Mul(F, b, t)));
    }
  }

  lemma {:induction false} ConvScale(F: Gf, c: nat, q: seq<nat>, s: seq<nat>, k: nat, n: nat)
    requires n <= |q| && n <= k + 1 <= |s|
    ensures Conv(F, Scale(F, c, q), s, k, n) == Mul(F, c, Conv(F, q, s, k, n))
  {
    hide Mul, Xor, FullPeriod;
    if n == 0 {
      MulZero(F, c);
    } else {
      ConvScale(F, c, q, s, k, n - 1);
      MulAssoc(F, c, q[n - 1], s[k - (n - 1)]);
      MulDist(F, c, Conv(F, q, s, k, n - 1), Mul(F, q[n - 1], s[k - (n - 1)]));
    }
  }

  lemma {:induction false} ConvShift(F: Gf, q: seq<nat>, s: seq<nat>, k: nat, n: nat)
    requires n + 1 <= |q| && n <= k && 1 <= k < |s|
    ensures Conv(F, ShiftUp(q), s, k, n + 1) == Conv(F, q, s, k - 1, n)
  {
    hide Mul, Xor, FullPeriod, ShiftUp;
    if n == 0 {
      MulZero(F, s[k]);
      XorZero(0);
    } else {
      ConvShift(F, q, s, k, n - 1);
    }
  }

  lemma CoefShift(F: Gf, q: seq<nat>, s: seq<nat>, k: nat)
    requires 1 <= k < |q| && k < |s|
    ensures Coef(F, ShiftUp(q), s, k) == Coef(F, q, s, k - 1)
  {
    ConvShift(F, q, s, k, k);
  }

  lemma {:induction false} ConvRange(F: Gf, lam: seq<nat>, s: seq<nat>, k: nat, n: nat)
    requires n <= |lam| && n <= k + 1 <= |s|
    ensures Conv(F, lam, s, k, n) <= Nn(F)
  {
    if n > 0 {
      ConvRange(F, lam, s, k, n - 1);
      XorRange(F, Conv(F, lam, s, k, n - 1), Mul(F, lam[n - 1], s[k - (n - 1)]));
    }
  }

  // ----- Symbols stay symbols

  lemma AddScaledSymbols(F: Gf, p: seq<nat>, c: nat, q: seq<nat>)
    requires |p| == |q| && Symbols(F, p)
    ensures Symbols(F, AddScaled(F, p, c, q))
  {
    hide Mul, Xor, FullPeriod, AddScaled;
    var r := AddScaled(F, p, c, q);
    forall i | 0 <= i < |r|
      ensures r[i] <= Nn(F)
    {
      XorRange(F, p[i], Mul(F, c, q[i]));
    }
  }

  lemma ShiftUpSymbols(F: Gf, q: seq<nat>)
    requires |q| > 0 && Symbols(F, q)
    ensures Symbols(F, ShiftUp(q))
  {
    var r := ShiftUp(q);
    forall i | 0 <= i < |r|
      ensures r[i] <= Nn(F)
    {
      if i > 0 {
        assert r[i] == q[i - 1];
      }
    }
  }

  /** The entry that the shift pushes out is zero as long as the polynomial is short enough. */
  lemma ShiftUpZero(q: seq<nat>, k: int)
    requires |q| > 0 && k >= 0 && ZeroFrom(q, k)
    ensures ZeroFrom(ShiftUp(q), k + 1)
  {
    var r := ShiftUp(q);
    forall i | 0 <= i < |r| && k + 1 <= i
      ensures r[i] == 0
    {
      assert r[i] == q[i - 1];
    }
  }

  lemma AddScaledZero(F: Gf, p: seq<nat>, c: nat, q: seq<nat>, k: int)
    requires |p| == |q| && ZeroFrom(p, k) && ZeroFrom(q, k)
    ensures ZeroFrom(AddScaled(F, p, c, q), k)
  {
    hide Mul, Xor, FullPeriod, AddScaled;
    var r := AddScaled(F, p, c, q);
    forall i | 0 <= i < |r| && k <= i
      ensures r[i] == 0
    {
      MulZero(F, c);
      XorZero(0);
    }
  }

  lemma ScaleZero(F: Gf, c: nat, q: seq<nat>, k: int)
    requires ZeroFrom(q, k)
    ensures ZeroFrom(Scale(F, c, q), k) && Symbols(F, Scale(F, c, q))
  {
    hide Mul, FullPeriod, Scale;
    MulZero(F, c);
  }

  // ----- One step

  lemma InvOfProduct(F: Gf, d: nat)
    requires 0 < d <= Nn(F)
    ensures Mul(F, InvOf(F, d), d) == 1
  {
    MulInv(F, d);
    MulComm(F, InvOf(F, d), d);
  }

  lemma {:induction false} StepKeepsInv(C: Code, s: seq<nat>, rho: nat, r: nat, st: Bm)
    requires 1 <= r <= |s| && BmInv(C, s, rho, r - 1, st)
    ensures BmInv(C, s, rho, r, BmStep(C, s, rho, r, st))
  {
    hide Mul, Xor, FullPeriod, Coef, ShiftUp, AddScaled, Scale, InvOf, Symbols, ZeroFrom;
    var F := C.field;
    var d := Discrepancy(C, s, st.lam, r);
    ShiftUpSymbols(F, st.b);
    ShiftUpZero(st.b, r - 1 - st.el + rho + 1);
    if d == 0 {
      if st.el > rho {
        ShiftKeepsCoefs(C, s, rho, r, st);
      }
    } else {
      var t := AddScaled(F, st.lam, d, ShiftUp(st.b));
      UpdatedLocator(C, s, rho, r, st);
      if 2 * st.el <= r + rho - 1 {
        ScaledLocator(C, s, r, st);
      } else {
        ShiftKeepsCoefs(C, s, rho, r, st);
      }
    }
  }

  /** Shifting the correction polynomial keeps its part of the invariant. */
  lemma ShiftKeepsCoefs(C: Code, s: seq<nat>, rho: nat, r: nat, st: Bm)
    requires 1 <= r <= |s| && BmInv(C, s, rho, r - 1, st)
    requires st.el > rho
    ensures Coef(C.field, ShiftUp(st.b), s, r - 1) == 1
    ensures forall k :: r - st.el + rho <= k < r - 1 ==> Coef(C.field, ShiftUp(st.b), s, k) == 0
  {
    hide Mul, Xor, FullPeriod, Coef, ShiftUp, Symbols, ZeroFrom;
    CoefShift(C.field, st.b, s, r - 1);
    forall k | r - st.el + rho <= k < r - 1
      ensures Coef(C.field, ShiftUp(st.b), s, k) == 0
    {
      CoefShift(C.field, st.b, s, k);
      assert Coef(C.field, st.b, s, k - 1) == 0;
    }
  }

  /** Correcting the locator polynomial cancels the discrepancy and nothing found before is lost. */
  lemma UpdatedLocator(C: Code, s: seq<nat>, rho: nat, r: nat, st: Bm)
    requires 1 <= r <= |s| && BmInv(C, s, rho, r - 1, st)
    requires Discrepancy(C, s, st.lam, r) != 0
    ensures var d := Discrepancy(C, s, st.lam, r);
            var t := AddScaled(C.field, st.lam, d, ShiftUp(st.b));
            var el := if 2 * st.el <= r + rho - 1 then r + rho - st.el else st.el;
            && Symbols(C.field, t) && t[0] == 1 && ZeroFrom(t, el + 1)
            && forall k :: el <= k < r ==> Coef(C.field, t, s, k) == 0
  {
    hide Mul, Xor, FullPeriod, Coef, ShiftUp, AddScaled, Symbols;
    var F := C.field;
    var d := Discrepancy(C, s, st.lam, r);
    var t := AddScaled(F, st.lam, d, ShiftUp(st.b));
    var el := if 2 * st.el <= r + rho - 1 then r + rho - st.el else st.el;
    AddScaledSymbols(F, st.lam, d, ShiftUp(st.b));
    ShiftUpZero(st.b, r - 1 - st.el + rho + 1);
    AddScaledZero(F, st.lam, d, ShiftUp(st.b), el + 1);
    MulZero(F, d);
    XorZero(1);
    forall k | el <= k < r
      ensures Coef(F, t, s, k) == 0
    {
      CoefAddScaled(F, st.lam, d, ShiftUp(st.b), s, k);
      CoefShift(F, st.b, s, k);
      XorZero(0);
      if k == r - 1 {
        DiscrepancyCancels(C, s, rho, r, st);
      } else {
        assert Coef(F, st.b, s, k - 1) == 0;
        assert Coef(F, st.lam, s, k) == 0;
      }
    }
  }

  lemma CoefAddScaled(F: Gf, p: seq<nat>, c: nat, q: seq<nat>, s: seq<nat>, k: nat)
    requires |p| == |q| && k < |p| && k < |s|
    ensures Coef(F, AddScaled(F, p, c, q), s, k) == Xor(Coef(F, p, s, k), Mul(F, c, Coef(F, q, s, k)))
  {
    ConvAddScaled(F, p, c, q, s, k, k + 1);
  }

  lemma DiscrepancyCancels(C: Code, s: seq<nat>, rho: nat, r: nat, st: Bm)
    requires 1 <= r <= |s| && BmInv(C, s, rho, r - 1, st) && st.el > rho
    ensures var d := Discrepancy(C, s, st.lam, r);
            Xor(d, Mul(C.field, d, Coef(C.field, st.b, s, r - 2))) == 0
  {
    hide Mul, Xor, FullPeriod, Coef;
    var d := Discrepancy(C, s, st.lam, r);
    DiscrepancyRange(C, s, st.lam, r);
    MulOne(C.field, d);
    XorSelf(d);
  }

  lemma DiscrepancyRange(C: Code, s: seq<nat>, lam: seq<nat>, r: nat)
    requires 1 <= r <= |s| == C.nroots && |lam| == C.nroots + 1
    ensures Discrepancy(C, s, lam, r) <= Nn(C.field)
  {
    ConvRange(C.field, lam, s, r - 1, r);
  }

  /** The old locator polynomial divided by its discrepancy becomes the correction polynomial. */
  lemma ScaledLocator(C: Code, s: seq<nat>, r: nat, st: Bm)
    requires 1 <= r <= |s| == C.nroots && Sized(C, st) && 0 <= st.el
    requires ZeroFrom(st.lam, st.el + 1)
    requires forall k :: st.el <= k < r - 1 ==> Coef(C.field, st.lam, s, k) == 0
    requires Discrepancy(C, s, st.lam, r) != 0
    ensures var b := Scale(C.field, InvOf(C.field, Discrepancy(C, s, st.lam, r)), st.lam);
            && Symbols(C.field, b) && ZeroFrom(b, st.el + 1)
            && Coef(C.field, b, s, r - 1) == 1
            && forall k :: st.el <= k < r - 1 ==> Coef(C.field, b, s, k) == 0
  {
    hide Mul, Xor, FullPeriod, Scale, InvOf, Symbols, ZeroFrom;
    var F := C.field;
    var d := Discrepancy(C, s, st.lam, r);
    var c := InvOf(F, d);
    DiscrepancyRange(C, s, st.lam, r);
    InvOfProduct(F, d);
    ScaleZero(F, c, st.lam, st.el + 1);
    ConvScale(F, c, st.lam, s, r - 1, r);
    forall k | st.el <= k < r - 1
      ensures Coef(F, Scale(F, c, st.lam), s, k) == 0
    {
      ConvScale(F, c, st.lam, s, k, k + 1);
      assert Coef(F, st.lam, s, k) == 0;
      MulZero(F, c);
    }
  }

  // ----- Erasures stay roots

  lemma HornerAddScaled(F: Gf, p: seq<nat>, c: nat, q: seq<nat>, x: nat)
    requires |p| == |q|
    ensures Horner(F, AddScaled(F, p, c, q), x, |p|) == Xor(Horner(F, p, x, |p|), Mul(F, c, Horner(F, q, x, |p|)))
  {
    hide Mul, Xor, FullPeriod, AddScaled, Scale, Horner;
    HornerScale(F, q, Scale(F, c, q), c, x, |p|);
    HornerXor(F, p, Scale(F, c, q), AddScaled(F, p, c, q), x, |p|);
  }

  lemma HornerShiftUp(F: Gf, p: seq<nat>, x: nat)
    requires |p| > 0
    ensures Horner(F, ShiftUp(p), x, |p|) == Horner(F, p, x, |p| - 1)
  {
    HornerLeadingZero(F, p, ShiftUp(p), x, |p| - 1);
  }

  lemma DropLastRoot(F: Gf, p: seq<nat>, x: nat)
    requires |p| > 0 && Symbols(F, p) && 0 < x <= Nn(F)
    requires p[|p| - 1] == 0 && Horner(F, p, x, |p|) == 0
    ensures Horner(F, p, x, |p| - 1) == 0
  {
    hide Mul, Xor, FullPeriod;
    var h := Horner(F, p, x, |p| - 1);
    XorZero(Mul(F, x, h));
    HornerRange(F, p, x, |p| - 1);
    MulNonzero(F, x, h);
  }

  /** Both polynomials have the reciprocal of x as a root. */
  ghost predicate KeepsRoot(F: Gf, st: Bm, x: nat) {
    Horner(F, st.lam, x, |st.lam|) == 0 && Horner(F, st.b, x, |st.b|) == 0
  }

  lemma {:induction false} StepKeepsRoot(C: Code, s: seq<nat>, rho: nat, r: nat, st: Bm, x: nat)
    requires 1 <= r <= |s| && BmInv(C, s, rho, r - 1, st)
    requires 0 < x <= C.nn() && KeepsRoot(C.field, st, x)
    ensures KeepsRoot(C.field, BmStep(C, s, rho, r, st), x)
  {
    hide Mul, Xor, FullPeriod, Coef, AddScaled, Scale, InvOf, Horner;
    var F := C.field;
    var d := Discrepancy(C, s, st.lam, r);
    DropLastRoot(F, st.b, x);
    HornerShiftUp(F, st.b, x);
    HornerAddScaled(F, st.lam, d, ShiftUp(st.b), x);
    HornerScale(F, st.lam, Scale(F, InvOf(F, d), st.lam), InvOf(F, d), x, |st.lam|);
    MulZero(F, d);
    MulZero(F, InvOf(F, d));
    XorZero(0);
  }

  /** The erasure locator has constant term 1, degree n, and every erasure as a root. */
  lemma {:induction false} ErasureLocatorRoots(C: Code, eras: seq<nat>, n: nat)
    requires ValidCode(C) && Locations(C, eras) && n <= |eras| <= C.nroots
    ensures var p := ErasureLocator(C, eras, n);
            && Symbols(C.field, p) && p[0] == 1 && ZeroFrom(p, n + 1)
            && forall l :: 0 <= l < n ==> Horner(C.field, p, Locator(C, eras[l]), |p|) == 0
  {
    hide Mul, Xor, FullPeriod, AddScaled, Horner, Locator;
    var F := C.field;
    if n == 0 {
      NnPositive(F);
    } else {
      ErasureLocatorRoots(C, eras, n - 1);
      var p := ErasureLocator(C, eras, n - 1);
      var q := ErasureLocator(C, eras, n);
      var x := Locator(C, eras[n - 1]);
      AddScaledSymbols(F, p, x, ShiftUp(p));
      ShiftUpZero(p, n);
      AddScaledZero(F, p, x, ShiftUp(p), n + 1);
      MulZero(F, x);
      XorZero(1);
      forall l | 0 <= l < n
        ensures Horner(F, q, Locator(C, eras[l]), |q|) == 0
      {
        NextErasureRoot(C, p, x, Locator(C, eras[l]), eras[l]);
      }
    }
  }

  lemma NextErasureRoot(C: Code, p: seq<nat>, x: nat, y: nat, loc: nat)
    requires ValidCode(C) && loc < C.nn() && y == Locator(C, loc)
    requires |p| > 0 && Symbols(C.field, p) && p[|p| - 1] == 0
    requires y == x || Horner(C.field, p, y, |p|) == 0
    ensures Horner(C.field, AddScaled(C.field, p, x, ShiftUp(p)), y, |p|) == 0
  {
    hide Mul, Xor, FullPeriod, AddScaled, Locator;
    var F := C.field;
    var h := Horner(F, p, y, |p| - 1);
    LocatorNonzero(C, loc);
    HornerAddScaled(F, p, x, ShiftUp(p), y);
    HornerShiftUp(F, p, y);
    XorZero(Mul(F, y, h));
    assert Horner(F, p, y, |p|) == Mul(F, y, h);
    if y == x {
      XorSelf(Mul(F, y, h));
    } else {
      DropLastRoot(F, p, y);
      MulZero(F, x);
      MulZero(F, y);
      XorSelf(0);
    }
  }

  // ----- Whole runs

  lemma {:induction false} RunKeepsInv(C: Code, s: seq<nat>, rho: nat, lam0: seq<nat>, r: nat)
    requires rho <= r <= |s| == C.nroots && |lam0| == C.nroots + 1
    requires Symbols(C.field, lam0) && lam0[0] == 1 && ZeroFrom(lam0, rho + 1)
    ensures BmInv(C, s, rho, r, BmRun(C, s, rho, lam0, r))
  {
    hide BmInv, BmStep;
    if r == rho {
      InitialInv(C, s, rho, lam0);
    } else {
      RunKeepsInv(C, s, rho, lam0, r - 1);
      StepKeepsInv(C, s, rho, r, BmRun(C, s, rho, lam0, r - 1));
    }
  }

  lemma InitialInv(C: Code, s: seq<nat>, rho: nat, lam0: seq<nat>)
    requires rho <= |s| == C.nroots && |lam0| == C.nroots + 1
    requires Symbols(C.field, lam0) && lam0[0] == 1 && ZeroFrom(lam0, rho + 1)
    ensures BmInv(C, s, rho, rho, Bm(lam0, lam0, rho))
  {
  }

  lemma {:induction false} RunKeepsRoot(C: Code, s: seq<nat>, rho: nat, lam0: seq<nat>, r: nat, x: nat)
    requires rho <= r <= |s| == C.nroots && |lam0| == C.nroots + 1
    requires Symbols(C.field, lam0) && lam0[0] == 1 && ZeroFrom(lam0, rho + 1)
    requires 0 < x <= C.nn() && Horner(C.field, lam0, x, |lam0|) == 0
    ensures KeepsRoot(C.field, BmRun(C, s, rho, lam0, r), x)
  {
    hide BmInv, BmStep, Horner, Symbols;
    if r > rho {
      RunKeepsRoot(C, s, rho, lam0, r - 1, x);
      RunKeepsInv(C, s, rho, lam0, r - 1);
      StepKeepsRoot(C, s, rho, r, BmRun(C, s, rho, lam0, r - 1), x);
    }
  }

  // ----- Runs on the syndromes of a correctable pattern

  /**
   The syndromes of weights `ws` at locators `xs`, of which the first `rho`
   are erasures; the others carry real errors.
   */
  ghost predicate Pattern(C: Code, s: seq<nat>, ws: seq<nat>, xs: seq<nat>, rho: nat) {
    && |s| == C.nroots
    && |ws| == |xs| && rho <= |xs|
    && Symbols(C.field, ws) && Symbols(C.field, xs) && Distinct(xs)
    && (forall l :: 0 <= l < |xs| ==> xs[l] != 0)
    && (forall l :: rho <= l < |ws| ==> ws[l] != 0)
    && forall j :: 0 <= j < |s| ==> s[j] == PowerSum(C.field, ws, xs, j, |xs|)
  }

  /** Erasures plus twice the errors fit into the parity symbols. */
  predicate WithinRadius(C: Code, v: nat, rho: nat) {
    rho <= v && 2 * (v - rho) + rho <= C.nroots
  }

  /** Beyond its degree the product with a polynomial is a power sum over the locators. */
  lemma CoefAsPowerSum(C: Code, s: seq<nat>, ws: seq<nat>, xs: seq<nat>, rho: nat, lam: seq<nat>, el: nat, k: nat)
    requires Pattern(C, s, ws, xs, rho)
    requires Symbols(C.field, lam) && |lam| == C.nroots + 1
    requires el <= k < |s| && ZeroFrom(lam, el + 1)
    ensures Coef(C.field, lam, s, k) == PowerSum(C.field, Weighted(C.field, ws, lam, xs, el + 1), xs, k - el, |xs|)
  {
    hide Mul, Xor, FullPeriod, Weighted;
    var F := C.field;
    ConvPowerSums(F, lam, s, ws, xs, k, k + 1);
    WeightedTail(F, ws, lam, xs, el + 1, k + 1, |xs|);
  }

  lemma {:induction false} WeightedTail(F: Gf, ws: seq<nat>, lam: seq<nat>, xs: seq<nat>, m: nat, n: nat, v: nat)
    requires |ws| == |xs| && m <= n <= |lam| && v <= |xs| && Symbols(F, lam)
    requires forall i :: m <= i < n ==> lam[i] == 0
    ensures PowerSum(F, Weighted(F, ws, lam, xs, n), xs, 0, v)
            == PowerSum(F, Weighted(F, ws, lam, xs, m), xs, n - m, v)
  {
    hide Mul, Xor, FullPeriod, Weighted, Symbols;
    if v > 0 {
      WeightedTail(F, ws, lam, xs, m, n, v - 1);
      var w, x := ws[v - 1], xs[v - 1];
      HornerTrailingZeros(F, lam, x, m, n);
      MulOne(F, Mul(F, w, Horner(F, lam, x, n)));
      MulComm(F, Pow(F, x, n - m), Horner(F, lam, x, m));
      MulAssoc(F, w, Horner(F, lam, x, m), Pow(F, x, n - m));
    }
  }

  lemma {:induction false} PowerSumDrop(F: Gf, us: seq<nat>, xs: seq<nat>, rho: nat, j: nat, n: nat)
    requires rho <= n <= |us| == |xs|
    requires forall l :: 0 <= l < rho ==> us[l] == 0
    ensures PowerSum(F, us, xs, j, n) == PowerSum(F, us[rho..], xs[rho..], j, n - rho)
  {
    hide Mul, Xor, FullPeriod, Pow;
    if n == rho {
      PowerSumZero(F, us, xs, j, rho);
    } else {
      PowerSumDrop(F, us, xs, rho, j, n - 1);
    }
  }

  /** A root of the whole array is a root of its first m coefficients when the others are zero. */
  lemma RootOfPrefix(F: Gf, lam: seq<nat>, x: nat, m: nat, n: nat)
    requires m <= n <= |lam| && Symbols(F, lam) && 0 < x <= Nn(F)
    requires forall i :: m <= i < n ==> lam[i] == 0
    ensures Horner(F, lam, x, n) == 0 <==> Horner(F, lam, x, m) == 0
  {
    hide Mul, Xor, FullPeriod, Horner, Pow;
    HornerTrailingZeros(F, lam, x, m, n);
    PowNonzero(F, x, n - m);
    HornerRange(F, lam, x, m);
    MulNonzero(F, Pow(F, x, n - m), Horner(F, lam, x, m));
  }

  ghost predicate ErasureRoots(C: Code, lam: seq<nat>, xs: seq<nat>, rho: nat)
    requires rho <= |xs|
  {
    forall l :: 0 <= l < rho ==> Horner(C.field, lam, xs[l], |lam|) == 0
  }

  /**
   When as many coefficients in a row vanish as there are errors, every
   locator of the pattern is a root.
   */
  lemma AllLocatorsAreRoots(C: Code, s: seq<nat>, ws: seq<nat>, xs: seq<nat>, rho: nat, lam: seq<nat>, el: nat)
    requires Pattern(C, s, ws, xs, rho)
    requires Symbols(C.field, lam) && |lam| == C.nroots + 1 && ZeroFrom(lam, el + 1)
    requires ErasureRoots(C, lam, xs, rho)
    requires el + (|xs| - rho) <= C.nroots
    requires forall k :: el <= k < el + (|xs| - rho) ==> Coef(C.field, lam, s, k) == 0
    ensures forall l :: 0 <= l < |xs| ==> Horner(C.field, lam, xs[l], el + 1) == 0
  {
    hide Mul, Xor, FullPeriod, Horner, Pow, Coef, PowerSum, Weighted;
    var F, v := C.field, |xs|;
    var us := Weighted(F, ws, lam, xs, el + 1);
    forall l | 0 <= l < rho
      ensures Horner(F, lam, xs[l], el + 1) == 0 && us[l] == 0
    {
      RootOfPrefix(F, lam, xs[l], el + 1, |lam|);
      MulZero(F, ws[l]);
    }
    if rho < v {
      var vs, ys := us[rho..], xs[rho..];
      forall j | 0 <= j < |ys|
        ensures PowerSum(F, vs, ys, j, |ys|) == 0
      {
        assert Coef(F, lam, s, el + j) == 0;
        CoefAsPowerSum(C, s, ws, xs, rho, lam, el, el + j);
        PowerSumDrop(F, us, xs, rho, j, v);
      }
      TailSymbols(F, us, xs, rho);
      Vandermonde(F, vs, ys);
      forall l | rho <= l < v
        ensures Horner(F, lam, xs[l], el + 1) == 0
      {
        assert us[l] == vs[l - rho] == 0;
        HornerRange(F, lam, xs[l], el + 1);
        MulNonzero(F, ws[l], Horner(F, lam, xs[l], el + 1));
      }
    }
  }

  lemma TailSymbols(F: Lfsr, us: seq<nat>, xs: seq<nat>, rho: nat)
    requires rho <= |xs| == |us| && Symbols(F, us) && Symbols(F, xs) && Distinct(xs)
    ensures Symbols(F, us[rho..]) && Symbols(F, xs[rho..]) && Distinct(xs[rho..])
  {
  }

  /** Then no later coefficient is different from zero. */
  lemma NoDiscrepancy(C: Code, s: seq<nat>, ws: seq<nat>, xs: seq<nat>, rho: nat, lam: seq<nat>, el: nat, k: nat)
    requires Pattern(C, s, ws, xs, rho)
    requires Symbols(C.field, lam) && |lam| == C.nroots + 1 && ZeroFrom(lam, el + 1)
    requires el <= k < C.nroots
    requires forall l :: 0 <= l < |xs| ==> Horner(C.field, lam, xs[l], el + 1) == 0
    ensures Coef(C.field, lam, s, k) == 0
  {
    hide Mul, Xor, FullPeriod, Horner, Pow, Coef, PowerSum, Weighted;
    var us := Weighted(C.field, ws, lam, xs, el + 1);
    CoefAsPowerSum(C, s, ws, xs, rho, lam, el, k);
    forall l | 0 <= l < |us|
      ensures us[l] == 0
    {
      MulZero(C.field, ws[l]);
    }
    PowerSumZero(C.field, us, xs, k - el, |xs|);
  }

  ghost predicate RunInput(C: Code, s: seq<nat>, ws: seq<nat>, xs: seq<nat>, rho: nat, lam0: seq<nat>) {
    && Pattern(C, s, ws, xs, rho) && WithinRadius(C, |xs|, rho)
    && |lam0| == C.nroots + 1 && Symbols(C.field, lam0) && lam0[0] == 1 && ZeroFrom(lam0, rho + 1)
    && ErasureRoots(C, lam0, xs, rho)
  }

  lemma RunKeepsErasures(C: Code, s: seq<nat>, ws: seq<nat>, xs: seq<nat>, rho: nat, lam0: seq<nat>, r: nat)
    requires RunInput(C, s, ws, xs, rho, lam0) && rho <= r <= C.nroots
    ensures ErasureRoots(C, BmRun(C, s, rho, lam0, r).lam, xs, rho)
  {
    hide Horner, BmRun, FullPeriod;
    forall l | 0 <= l < rho
      ensures Horner(C.field, BmRun(C, s, rho, lam0, r).lam, xs[l], C.nroots + 1) == 0
    {
      RunKeepsRoot(C, s, rho, lam0, r, xs[l]);
    }
  }

  lemma StepBounded(C: Code, s: seq<nat>, ws: seq<nat>, xs: seq<nat>, rho: nat, r: nat, st: Bm)
    requires Pattern(C, s, ws, xs, rho) && WithinRadius(C, |xs|, rho)
    requires 1 <= r <= |s| && BmInv(C, s, rho, r - 1, st) && ErasureRoots(C, st.lam, xs, rho)
    requires st.el <= |xs|
    ensures BmStep(C, s, rho, r, st).el <= |xs|
  {
    hide Mul, Xor, FullPeriod, Horner, Pow, Coef, PowerSum, Pattern;
    if st.el + (|xs| - rho) <= r - 1 {
      AllLocatorsAreRoots(C, s, ws, xs, rho, st.lam, st.el);
      NoDiscrepancy(C, s, ws, xs, rho, st.lam, st.el, r - 1);
    }
  }

  /** The register never gets longer than the number of erasures and errors. */
  lemma {:induction false} RunBounded(C: Code, s: seq<nat>, ws: seq<nat>, xs: seq<nat>, rho: nat, lam0: seq<nat>, r: nat)
    requires RunInput(C, s, ws, xs, rho, lam0) && rho <= r <= C.nroots
    ensures BmRun(C, s, rho, lam0, r).el <= |xs|
  {
    hide FullPeriod, Horner, PowerSum, BmInv, BmStep;
    if r > rho {
      RunBounded(C, s, ws, xs, rho, lam0, r - 1);
      RunKeepsInv(C, s, rho, lam0, r - 1);
      RunKeepsErasures(C, s, ws, xs, rho, lam0, r - 1);
      StepBounded(C, s, ws, xs, rho, r, BmRun(C, s, rho, lam0, r - 1));
    }
  }

  /**
   Within the correction radius the run ends with a polynomial of degree
   exactly the number of erasures and errors, having all locators as roots.
   */
  lemma FinalRun(C: Code, s: seq<nat>, ws: seq<nat>, xs: seq<nat>, rho: nat, lam0: seq<nat>)
    requires RunInput(C, s, ws, xs, rho, lam0)
    ensures var lam := BmRun(C, s, rho, lam0, C.nroots).lam;
            && Symbols(C.field, lam) && lam[0] == 1 && Degree(lam) == |xs|
            && forall l :: 0 <= l < |xs| ==> Horner(C.field, lam, xs[l], |xs| + 1) == 0
  {
    hide FullPeriod, Horner, PowerSum, BmInv, BmRun;
    RunBounded(C, s, ws, xs, rho, lam0, C.nroots);
    RunKeepsInv(C, s, rho, lam0, C.nroots);
    RunKeepsErasures(C, s, ws, xs, rho, lam0, C.nroots);
    FinalState(C, s, ws, xs, rho, BmRun(C, s, rho, lam0, C.nroots));
  }

  lemma FinalState(C: Code, s: seq<nat>, ws: seq<nat>, xs: seq<nat>, rho: nat, st: Bm)
    requires Pattern(C, s, ws, xs, rho) && WithinRadius(C, |xs|, rho)
    requires BmInv(C, s, rho, C.nroots, st) && ErasureRoots(C, st.lam, xs, rho)
    requires st.el <= |xs|
    ensures && Symbols(C.field, st.lam) && st.lam[0] == 1 && Degree(st.lam) == |xs|
            && forall l :: 0 <= l < |xs| ==> Horner(C.field, st.lam, xs[l], |xs| + 1) == 0
  {
    hide Mul, Xor, FullPeriod, Horner, Pow, Coef, PowerSum;
    AllLocatorsAreRoots(C, s, ws, xs, rho, st.lam, st.el);
    var d := Degree(st.lam);
    assert d <= st.el;
    forall l | 0 <= l < |xs|
      ensures Horner(C.field, st.lam, xs[l], d + 1) == 0
    {
      RootOfPrefix(C.field, st.lam, xs[l], d + 1, st.el + 1);
    }
    if d < |xs| {
      TooManyRoots(C.field, st.lam, xs, d + 1);
    }
  }

  lemma TooManyRoots(F: Gf, lam: seq<nat>, xs: seq<nat>, n: nat)
    requires 1 <= n <= |lam| && n <= |xs| && Symbols(F, lam) && Symbols(F, xs) && Distinct(xs)
    requires forall l :: 0 <= l < n ==> Horner(F, lam, xs[l], n) == 0
    ensures lam[0] == 0
  {
    hide Horner, FullPeriod;
    assert Symbols(F, xs[..n]) && Distinct(xs[..n]);
    RootBound(F, lam, xs[..n], n);
  }

  /** With erasures only no discrepancy ever shows, and the erasure locator is kept to the end. */
  lemma {:induction false} ErasuresOnly(C: Code, s: seq<nat>, ws: seq<nat>, xs: seq<nat>, lam0: seq<nat>, r: nat)
    requires RunInput(C, s, ws, xs, |xs|, lam0) && |xs| <= r <= C.nroots
    ensures var st := BmRun(C, s, |xs|, lam0, r);
            st.lam == lam0 && st.el == |xs|
    ensures r > |xs| ==> Discrepancy(C, s, lam0, r) == 0
  {
    hide FullPeriod, Horner, PowerSum, BmInv, Coef, ShiftUp, Mul, Xor, Pow, AddScaled, Scale, InvOf, Pow2, Symbols, Distinct;
    if r > |xs| {
      ErasuresOnly(C, s, ws, xs, lam0, r - 1);
      AllLocatorsAreRoots(C, s, ws, xs, |xs|, lam0, |xs|);
      NoDiscrepancy(C, s, ws, xs, |xs|, lam0, |xs|, r - 1);
    }
  }
}
