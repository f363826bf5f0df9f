/** The decoder restores every codeword that is damaged within the correction radius. */
module RsDecoder {
  import opened Bits
  import opened GaloisField
  import opened RsAlgebra
  import opened RsCode
  import opened RsErrors
  import opened RsBerlekamp
  import opened RsForney

  // ----- The root search visits every location once

  /** alpha^(prim * (k + 1)) */
  ghost function LocationPower(C: Code, k: nat): nat {
    MulMono(0, C.prim, k + 1);
    Exp(C.field, C.prim * (k + 1))
  }

  lemma SumOfMultiples(p: nat, a: nat, b: nat)
    ensures p * a >= 0 && p * b >= 0 && p * a + p * b == p * (a + b) >= 0
  {
  }

  lemma LocationPowerAdd(C: Code, k: nat, d: nat)
    requires C.prim * d >= 0
    ensures LocationPower(C, k + d) == Mul(C.field, LocationPower(C, k), Exp(C.field, C.prim * d))
  {
    hide Exp, FullPeriod, Mul;
    SumOfMultiples(C.prim, k + 1, d);
    MulExp(C.field, C.prim * (k + 1), C.prim * d);
  }

  lemma LocationPowerPeriod(C: Code, k: nat)
    ensures LocationPower(C, k + C.nn()) == LocationPower(C, k)
  {
    hide Exp, FullPeriod, Mul, Pow2;
    SumOfMultiples(C.prim, k + 1, C.nn());
    ExpPeriods(C.field, C.prim * (k + 1), C.prim);
  }

  lemma PrimReturns(C: Code)
    requires ValidCode(C)
    ensures C.prim * C.iprim >= 0 && Exp(C.field, C.prim * C.iprim) == Exp(C.field, 1)
    ensures LocationPower(C, C.iprim - 1) == Exp(C.field, 1)
  {
    hide Exp, FullPeriod;
    MulMono(0, C.prim, C.iprim);
    PrimInverse(C, 1, C.prim * C.iprim);
  }

  lemma NextLocation(C: Code, i: nat)
    requires 1 <= i && 1 <= C.iprim <= C.nn()
    ensures LocOf(C, i + 1) == (LocOf(C, i) + C.iprim) % C.nn()
  {
    var loc := LocOf(C, i) + C.iprim;
    ModUnique(loc, C.nn(), if loc >= C.nn() then 1 else 0, LocOf(C, i + 1));
  }

  /** Exponent i and its location k satisfy alpha^(prim*(k+1)) == alpha^i. */
  lemma {:induction false} LocationExponent(C: Code, i: nat)
    requires ValidCode(C) && i >= 1
    ensures LocationPower(C, LocOf(C, i)) == Exp(C.field, i)
  {
    hide Exp, FullPeriod, Mul, LocationPower, InverseModulo, Pow2;
    PrimReturns(C);
    if i > 1 {
      var k := LocOf(C, i - 1);
      LocationExponent(C, i - 1);
      LocationPowerAdd(C, k, C.iprim);
      MulExp(C.field, i - 1, 1);
      if k + C.iprim >= C.nn() {
        LocationPowerPeriod(C, k + C.iprim - C.nn());
      }
    }
  }

  /** The exponent tested with a location is that of the reciprocal of its locator. */
  lemma LocationReciprocal(C: Code, i: nat)
    requires ValidCode(C) && i >= 1
    ensures Mul(C.field, Locator(C, LocOf(C, i)), Exp(C.field, i)) == 1
  {
    hide Exp, FullPeriod, Mul, LocOf, Pow2, LocationPower;
    LocationExponent(C, i);
    ExpComplement(C, LocOf(C, i));
  }

  lemma ExpComplement(C: Code, k: nat)
    requires k < C.nn()
    ensures Mul(C.field, Locator(C, k), LocationPower(C, k)) == 1
  {
    hide Exp, FullPeriod, Mul, Pow2;
    var a, b := C.prim * (C.nn() - 1 - k), C.prim * (k + 1);
    SumOfMultiples(C.prim, C.nn() - 1 - k, k + 1);
    assert a + b == 0 + C.prim * C.nn();
    MulExp(C.field, a, b);
    ExpPeriods(C.field, 0, C.prim);
    ExpZero(C.field);
  }

  lemma ExpInjectiveFromOne(F: Gf, i: nat, j: nat)
    requires 1 <= i <= Nn(F) && 1 <= j <= Nn(F) && Exp(F, i) == Exp(F, j)
    ensures i == j
  {
    if i < Nn(F) && j < Nn(F) {
      ExpInjective(F, i, j);
    }
  }

  lemma LocationInjective(C: Code, i: nat, j: nat)
    requires ValidCode(C) && 1 <= i <= C.nn() && 1 <= j <= C.nn() && LocOf(C, i) == LocOf(C, j)
    ensures i == j
  {
    hide Exp, FullPeriod, LocOf;
    LocationExponent(C, i);
    LocationExponent(C, j);
    ExpInjectiveFromOne(C.field, i, j);
  }

  /** The exponent that is tested together with a location. */
  ghost function RootOf(C: Code, loc: nat): (i: nat)
    requires ValidCode(C) && loc < C.nn()
    ensures 1 <= i <= C.nn()
  {
    LocatorNonzero(C, loc);
    MulInv(C.field, Locator(C, loc));
    var e := Log(C.field, Inv(C.field, Locator(C, loc)));
    if e == 0 then C.nn() else e
  }

  lemma LocationSurjective(C: Code, loc: nat)
    requires ValidCode(C) && loc < C.nn()
    ensures LocOf(C, RootOf(C, loc)) == loc
  {
    hide Exp, FullPeriod, Mul, LocOf, Inv;
    var F, x, i := C.field, Locator(C, loc), RootOf(C, loc);
    LocatorNonzero(C, loc);
    MulInv(F, x);
    ExpZero(F);
    assert Exp(F, i) == Inv(F, x);
    LocationReciprocal(C, i);
    var x' := Locator(C, LocOf(C, i));
    LocatorNonzero(C, LocOf(C, i));
    MulComm(F, x, Exp(F, i));
    MulComm(F, x', Exp(F, i));
    ExpNonzero(F, i);
    CancelFactor(F, Exp(F, i), x, x');
    LocatorInjective(C, loc, LocOf(C, i));
  }

  // ----- What the search finds

  predicate ContainsAll(a: seq<nat>, b: seq<nat>) {
    forall j :: 0 <= j < |a| ==> a[j] in b
  }

  function SeqSet(a: seq<nat>): (r: set<nat>)
    ensures forall x :: x in r <==> x in a
  {
    set x | x in a
  }

  lemma {:induction false} DistinctSize(a: seq<nat>)
    requires Distinct(a)
    ensures |SeqSet(a)| == |a|
  {
    if |a| > 0 {
      var b := a[..|a| - 1];
      DistinctSize(b);
      assert SeqSet(a) == SeqSet(b) + {a[|a| - 1]};
      assert a[|a| - 1] !in b;
    }
  }

  lemma {:induction false} SubsetSize<T>(a: set<T>, b: set<T>)
    requires a <= b
    ensures |a| <= |b|
  {
    if a != {} {
      var x :| x in a;
      SubsetSize(a - {x}, b - {x});
    }
  }

  lemma DistinctIncluded(a: seq<nat>, b: seq<nat>)
    requires Distinct(a) && Distinct(b) && ContainsAll(a, b)
    ensures |a| <= |b|
    ensures |a| == |b| ==> ContainsAll(b, a)
  {
    DistinctSize(a);
    DistinctSize(b);
    SubsetSize(SeqSet(a), SeqSet(b));
    if |a| == |b| {
      SubsetSameSize(SeqSet(a), SeqSet(b));
      forall j | 0 <= j < |b|
        ensures b[j] in a
      {
        assert b[j] in SeqSet(b);
      }
    }
  }

  /** `rs` lists exactly the roots of lam among the exponents 1..nn. */
  ghost predicate ListsRoots(C: Code, lam: seq<nat>, rs: seq<nat>) {
    && Distinct(rs) && Roots(C, rs)
    && forall i :: 1 <= i <= C.nn() ==> (IsRoot(C, lam, i) <==> i in rs)
  }

  ghost predicate FoundSoFar(C: Code, lam: seq<nat>, i: nat, acc: seq<nat>) {
    && Distinct(acc)
    && (forall j :: 0 <= j < |acc| ==> 1 <= acc[j] < i && acc[j] <= C.nn() && IsRoot(C, lam, acc[j]))
    && (forall j :: 1 <= j < i && j <= C.nn() && IsRoot(C, lam, j) ==> j in acc)
  }

  lemma {:induction false} ChienFindsAll(C: Code, lam: seq<nat>, rs: seq<nat>, i: nat, acc: seq<nat>)
    requires ListsRoots(C, lam, rs) && 1 <= i <= C.nn() + 1
    requires FoundSoFar(C, lam, i, acc) && |acc| < |rs|
    ensures var out := Chien(C, lam, |rs|, i, acc);
            Distinct(out) && |out| == |rs| && ContainsAll(out, rs)
    decreases C.nn() + 1 - i
  {
    hide IsRoot;
    if i > C.nn() {
      assert ContainsAll(rs, acc);
      DistinctIncluded(rs, acc);
    } else if !IsRoot(C, lam, i) {
      ChienFindsAll(C, lam, rs, i + 1, acc);
    } else if |acc| + 1 < |rs| {
      ChienFindsAll(C, lam, rs, i + 1, acc + [i]);
    }
  }

  /** Every location is tested together with one of the roots. */
  ghost predicate Reached(C: Code, roots: seq<nat>, locs: seq<nat>)
    requires Roots(C, roots) && 1 <= C.iprim <= C.nn()
  {
    forall x :: x in locs ==> exists j :: 0 <= j < |roots| && LocOf(C, roots[j]) == x
  }

  // ----- Corrections

  ghost predicate CorrectInput(C: Code, s: seq<nat>, lam: seq<nat>, deg: nat, roots: seq<nat>, n: nat, data: seq<nat>, c: seq<nat>) {
    && ValidCode(C) && deg <= |s| == C.nroots && |lam| == C.nroots + 1
    && |data| == |c| == C.nn() - C.pad
    && n <= |roots| && Roots(C, roots) && Distinct(roots)
  }

  /** The first n roots carry the values that turn data into c at their locations. */
  ghost predicate ValuesFix(C: Code, s: seq<nat>, lam: seq<nat>, deg: nat, roots: seq<nat>, n: nat, data: seq<nat>, c: seq<nat>)
    requires CorrectInput(C, s, lam, deg, roots, n, data, c)
  {
    forall j :: 0 <= j < n && C.pad <= LocOf(C, roots[j]) ==>
      Xor(data[LocOf(C, roots[j]) - C.pad], ErrorValue(C, s, lam, deg, roots[j])) == c[LocOf(C, roots[j]) - C.pad]
  }

  /** Everywhere else data agrees with c already. */
  ghost predicate OthersAgree(C: Code, roots: seq<nat>, n: nat, data: seq<nat>, c: seq<nat>)
    requires |data| == |c| && n <= |roots| && Roots(C, roots) && 1 <= C.iprim <= C.nn()
  {
    forall p :: 0 <= p < |c| && data[p] != c[p] ==> exists j :: 0 <= j < n && LocOf(C, roots[j]) == p + C.pad
  }

  lemma {:induction false} CorrectsAll(C: Code, s: seq<nat>, lam: seq<nat>, deg: nat, roots: seq<nat>, n: nat, data: seq<nat>, c: seq<nat>)
    requires CorrectInput(C, s, lam, deg, roots, n, data, c)
    requires ValuesFix(C, s, lam, deg, roots, n, data, c) && OthersAgree(C, roots, n, data, c)
    ensures Correct(C, s, lam, deg, roots, n, data) == c
    decreases n
  {
    hide Xor, ErrorValue, LocOf, FullPeriod;
    if n > 0 {
      var m := n - 1;
      var loc := LocOf(C, roots[m]);
      forall j | 0 <= j < m
        ensures LocOf(C, roots[j]) != loc
      {
        if LocOf(C, roots[j]) == loc {
          LocationInjective(C, roots[j], roots[m]);
        }
      }
      CorrectsAll(C, s, lam, deg, roots, m, CorrectOne(C, s, lam, deg, roots[m], data), c);
    }
  }

  // ----- Erasures and errors of a damaged codeword

  /** The locations below `n`, in order, that differ from c and are not marked. */
  function UnmarkedErrors(C: Code, c: seq<nat>, data: seq<nat>, eras: seq<nat>, n: nat): (r: seq<nat>)
    requires n <= |c| == |data|
    ensures forall x :: x in r <==>
              C.pad <= x < n + C.pad && data[x - C.pad] != c[x - C.pad] && x !in eras
  {
    if n == 0 then []
    else
      var r := UnmarkedErrors(C, c, data, eras, n - 1);
      if data[n - 1] != c[n - 1] && n - 1 + C.pad !in eras then r + [n - 1 + C.pad] else r
  }

  lemma {:induction false} UnmarkedDistinct(C: Code, c: seq<nat>, data: seq<nat>, eras: seq<nat>, n: nat)
    requires n <= |c| == |data|
    ensures Distinct(UnmarkedErrors(C, c, data, eras, n))
  {
    if n > 0 {
      UnmarkedDistinct(C, c, data, eras, n - 1);
      var r := UnmarkedErrors(C, c, data, eras, n - 1);
      assert n - 1 + C.pad !in r;
    }
  }

  /** All damaged or marked locations, the marked ones first. */
  function Damaged(C: Code, c: seq<nat>, data: seq<nat>, eras: seq<nat>): seq<nat>
    requires |c| == |data|
  {
    eras + UnmarkedErrors(C, c, data, eras, |c|)
  }

  /** Twice the unmarked errors plus the erasures fit into the parity symbols. */
  ghost predicate Correctable(C: Code, c: seq<nat>, data: seq<nat>, eras: seq<nat>) {
    && DecoderInput(C, data, eras) && IsCodeword(C, c) && Distinct(eras)
    && 2 * |UnmarkedErrors(C, c, data, eras, |c|)| + |eras| <= C.nroots
  }

  lemma DamagedLocations(C: Code, c: seq<nat>, data: seq<nat>, eras: seq<nat>)
    requires Correctable(C, c, data, eras)
    ensures var locs := Damaged(C, c, data, eras);
            && Locations(C, locs) && Distinct(locs) && |eras| <= |locs| && WithinRadius(C, |locs|, |eras|)
            && Covers(C, Difference(c, data), locs, |locs|)
  {
    hide FullPeriod, Xor, UnmarkedErrors, ValidCode, Symbols;
    var errs := UnmarkedErrors(C, c, data, eras, |c|);
    var locs := Damaged(C, c, data, eras);
    UnmarkedDistinct(C, c, data, eras, |c|);
    DifferenceProperties(C, c, data);
    forall l | 0 <= l < |locs|
      ensures locs[l] < C.nn()
    {
      if l >= |eras| {
        assert locs[l] == errs[l - |eras|];
        assert errs[l - |eras|] in errs;
      }
    }
    assert locs[..|locs|] == locs;
    forall p | 0 <= p < |c| && Difference(c, data)[p] != 0
      ensures p + C.pad in locs
    {
      if p + C.pad !in eras {
        assert p + C.pad in errs;
      }
    }
    forall i, j | 0 <= i < j < |locs|
      ensures locs[i] != locs[j]
    {
      if j >= |eras| {
        assert locs[j] == errs[j - |eras|] && errs[j - |eras|] in errs;
        if i >= |eras| {
          assert locs[i] == errs[i - |eras|];
        }
      }
    }
  }

  lemma DamagedWeights(C: Code, c: seq<nat>, data: seq<nat>, eras: seq<nat>, l: nat)
    requires Correctable(C, c, data, eras) && |eras| <= l < |Damaged(C, c, data, eras)|
    requires Locations(C, Damaged(C, c, data, eras))
    ensures Weights(C, Difference(c, data), Damaged(C, c, data, eras))[l] != 0
  {
    hide FullPeriod, Xor, Weights, Horner;
    var locs, err := Damaged(C, c, data, eras), Difference(c, data);
    var errs := UnmarkedErrors(C, c, data, eras, |c|);
    DifferenceProperties(C, c, data);
    assert locs[l] == errs[l - |eras|] && errs[l - |eras|] in errs;
    WeightNonzero(C, err, locs, l);
  }

  /** The syndromes of a correctable block form a pattern over its damaged locations. */
  lemma DamagedPattern(C: Code, c: seq<nat>, data: seq<nat>, eras: seq<nat>)
    requires Correctable(C, c, data, eras)
    ensures var locs := Damaged(C, c, data, eras);
            && Locations(C, locs)
            && Pattern(C, Syndromes(C, data), Weights(C, Difference(c, data), locs), Locators(C, locs), |eras|)
  {
    hide FullPeriod, Locator, Weights, Locators, Horner, UnmarkedErrors, Difference, Syndromes, PowerSum;
    var locs := Damaged(C, c, data, eras);
    DamagedLocations(C, c, data, eras);
    var xs := Locators(C, locs);
    LocatorsDistinct(C, locs);
    SyndromesOfErrors(C, c, data, locs);
    forall l | 0 <= l < |xs|
      ensures xs[l] != 0
    {
      LocatorNonzero(C, locs[l]);
    }
    forall l | |eras| <= l < |locs|
      ensures Weights(C, Difference(c, data), locs)[l] != 0
    {
      DamagedWeights(C, c, data, eras, l);
    }
  }

  lemma RunInputOfDamaged(C: Code, c: seq<nat>, data: seq<nat>, eras: seq<nat>)
    requires Correctable(C, c, data, eras)
    ensures var locs := Damaged(C, c, data, eras);
            && Locations(C, locs)
            && RunInput(C, Syndromes(C, data), Weights(C, Difference(c, data), locs), Locators(C, locs), |eras|,
                        ErasureLocator(C, eras, |eras|))
  {
    hide FullPeriod, Xor, Mul, Pow, Locator, Root, Weights, Locators, Horner, Pattern;
    var locs := Damaged(C, c, data, eras);
    DamagedLocations(C, c, data, eras);
    DamagedPattern(C, c, data, eras);
    ErasureLocatorRoots(C, eras, |eras|);
  }

  /** The locator polynomial found for a correctable block with damage. */
  lemma LocatorFound(C: Code, c: seq<nat>, data: seq<nat>, eras: seq<nat>)
    requires Correctable(C, c, data, eras) && Damaged(C, c, data, eras) != []
    ensures var locs, lam := Damaged(C, c, data, eras), FinalLocator(C, data, eras);
            Locations(C, locs) && Located(C, Locators(C, locs), lam) && Degree(lam) == |locs|
  {
    hide FullPeriod, Xor, Mul, Pow, Locator, Root, Weights, Locators, Horner, BmRun, PowerSum;
    var locs := Damaged(C, c, data, eras);
    RunInputOfDamaged(C, c, data, eras);
    FinalRun(C, Syndromes(C, data), Weights(C, Difference(c, data), locs), Locators(C, locs), |eras|,
             ErasureLocator(C, eras, |eras|));
  }

  lemma {:induction false} RootIffHorner(C: Code, lam: seq<nat>, i: nat)
    requires ValidCode(C) && i >= 1 && |lam| >= 1 && Symbols(C.field, lam)
    ensures IsRoot(C, lam, i) <==> Horner(C.field, lam, Locator(C, LocOf(C, i)), |lam|) == 0
  {
    hide FullPeriod, Xor, Mul, Pow, Locator, Horner, Exp, LocOf, Eval;
    var F, x, y := C.field, Locator(C, LocOf(C, i)), Exp(C.field, i);
    LocationReciprocal(C, i);
    LocatorNonzero(C, LocOf(C, i));
    HornerIsEval(F, lam, x, y, |lam|);
    PowNonzero(F, x, |lam| - 1);
    EvalRange(F, lam, y, |lam|);
    MulNonzero(F, Pow(F, x, |lam| - 1), Eval(F, lam, y, |lam|));
  }

  lemma {:induction false} EvalRange(F: Gf, p: seq<nat>, y: nat, n: nat)
    requires n <= |p|
    ensures Eval(F, p, y, n) <= Nn(F)
  {
    if n > 0 {
      EvalRange(F, p, y, n - 1);
      XorRange(F, Eval(F, p, y, n - 1), Mul(F, p[n - 1], Pow(F, y, n - 1)));
    }
  }

  ghost function RootsOf(C: Code, locs: seq<nat>): (rs: seq<nat>)
    requires ValidCode(C) && Locations(C, locs)
    ensures |rs| == |locs| && Roots(C, rs)
    ensures forall l :: 0 <= l < |locs| ==> rs[l] == RootOf(C, locs[l])
  {
    seq(|locs|, l requires 0 <= l < |locs| => RootOf(C, locs[l]))
  }

  /** No exponent but those of the locators is a root. */
  lemma RootAmongLocators(C: Code, locs: seq<nat>, lam: seq<nat>, i: nat)
    requires ValidCode(C) && Locations(C, locs) && Distinct(locs)
    requires Located(C, Locators(C, locs), lam) && 1 <= i <= C.nn()
    ensures IsRoot(C, lam, i) <==> LocOf(C, i) in locs
  {
    hide FullPeriod, Locator, Horner, LocOf, IsRoot;
    var k, xs := LocOf(C, i), Locators(C, locs);
    RootIffHorner(C, lam, i);
    LocatorNonzero(C, k);
    RootOfPrefix(C.field, lam, Locator(C, k), |xs| + 1, |lam|);
    if k in locs {
      var l :| 0 <= l < |locs| && locs[l] == k;
      assert xs[l] == Locator(C, k);
    } else if IsRoot(C, lam, i) {
      var ks := locs + [k];
      LocatorsDistinct(C, ks);
      var ys := Locators(C, ks);
      forall l | 0 <= l < |ys|
        ensures Horner(C.field, lam, ys[l], |ys|) == 0
      {
        if l < |xs| {
          assert ys[l] == xs[l];
        }
      }
      TooManyRoots(C.field, lam, ys, |ys|);
    }
  }

  lemma RootsListed(C: Code, locs: seq<nat>, lam: seq<nat>)
    requires ValidCode(C) && Locations(C, locs) && Distinct(locs) && Located(C, Locators(C, locs), lam)
    ensures ListsRoots(C, lam, RootsOf(C, locs))
  {
    hide FullPeriod, Locator, Locators, LocOf, IsRoot, RootOf, Located;
    var rs := RootsOf(C, locs);
    forall i, j | 0 <= i < j < |rs|
      ensures rs[i] != rs[j]
    {
      LocationSurjective(C, locs[i]);
      LocationSurjective(C, locs[j]);
    }
    forall i | 1 <= i <= C.nn()
      ensures IsRoot(C, lam, i) <==> i in rs
    {
      RootAmongLocators(C, locs, lam, i);
      if LocOf(C, i) in locs {
        var l :| 0 <= l < |locs| && locs[l] == LocOf(C, i);
        LocationSurjective(C, locs[l]);
        LocationInjective(C, i, rs[l]);
        assert rs[l] in rs;
      }
      if i in rs {
        var l :| 0 <= l < |rs| && rs[l] == i;
        LocationSurjective(C, locs[l]);
      }
    }
  }

  lemma SearchSucceeds(C: Code, locs: seq<nat>, lam: seq<nat>)
    requires ValidCode(C) && Locations(C, locs) && Distinct(locs) && Located(C, Locators(C, locs), lam)
    requires Degree(lam) == |locs|
    ensures var roots := FoundRoots(C, lam);
            && |roots| == |locs| && Distinct(roots)
            && (forall j :: 0 <= j < |roots| ==> LocOf(C, roots[j]) in locs)
            && Reached(C, roots, locs)
  {
    hide FullPeriod, Locator, Locators, LocOf, IsRoot, RootOf, Chien, Reached, ValidCode;
    CodeRanges(C);
    var rs, roots := RootsOf(C, locs), FoundRoots(C, lam);
    RootsListed(C, locs, lam);
    ChienFindsAll(C, lam, rs, 1, []);
    DistinctIncluded(roots, rs);
    forall j | 0 <= j < |roots|
      ensures LocOf(C, roots[j]) in locs
    {
      var l :| 0 <= l < |rs| && rs[l] == roots[j];
      LocationSurjective(C, locs[l]);
    }
    LocationsReached(C, locs, roots);
  }

  lemma CodeRanges(C: Code)
    requires ValidCode(C)
    ensures 1 <= C.iprim <= C.nn()
  {
  }

  lemma LocationsReached(C: Code, locs: seq<nat>, roots: seq<nat>)
    requires ValidCode(C) && Locations(C, locs) && Roots(C, roots) && ContainsAll(RootsOf(C, locs), roots)
    ensures Reached(C, roots, locs)
  {
    hide FullPeriod, LocOf, RootOf;
    forall x | x in locs
      ensures exists j :: 0 <= j < |roots| && LocOf(C, roots[j]) == x
    {
      var l :| 0 <= l < |locs| && locs[l] == x;
      LocationSurjective(C, x);
      assert RootsOf(C, locs)[l] in roots;
      var j :| 0 <= j < |roots| && roots[j] == RootOf(C, x);
    }
  }

  /** The value computed for a found root is the change made at its location. */
  lemma FoundValue(C: Code, c: seq<nat>, data: seq<nat>, eras: seq<nat>, root: nat)
    requires Correctable(C, c, data, eras) && Damaged(C, c, data, eras) != []
    requires 1 <= root <= C.nn() && LocOf(C, root) in Damaged(C, c, data, eras)
    ensures var lam := FinalLocator(C, data, eras);
            && Degree(lam) <= C.nroots
            && ErrorValue(C, Syndromes(C, data), lam, Degree(lam), root) == ErrAt(C, Difference(c, data), LocOf(C, root))
  {
    hide FullPeriod, Locator, Locators, LocOf, Weights, ErrorValue, Mul, Xor, Pow, Horner, Pattern, FinalLocator, Exp;
    var locs, err := Damaged(C, c, data, eras), Difference(c, data);
    LocatorFound(C, c, data, eras);
    DamagedPattern(C, c, data, eras);
    DifferenceProperties(C, c, data);
    LocationReciprocal(C, root);
    var m :| 0 <= m < |locs| && locs[m] == LocOf(C, root);
    ErrorValueIsExact(C, Syndromes(C, data), Weights(C, err, locs), Locators(C, locs), |eras|,
                      FinalLocator(C, data, eras), m, root, ErrAt(C, err, locs[m]));
  }

  lemma DamagedSymbol(C: Code, c: seq<nat>, data: seq<nat>, eras: seq<nat>, p: nat)
    requires Correctable(C, c, data, eras) && p < |c| && data[p] != c[p]
    ensures p + C.pad in Damaged(C, c, data, eras)
  {
    hide FullPeriod, Xor, Horner;
    var locs := Damaged(C, c, data, eras);
    DamagedLocations(C, c, data, eras);
    DifferenceProperties(C, c, data);
    assert locs[..|locs|] == locs;
  }

  lemma FoundCorrection(C: Code, c: seq<nat>, data: seq<nat>, eras: seq<nat>, root: nat)
    requires Correctable(C, c, data, eras) && Damaged(C, c, data, eras) != []
    requires 1 <= root <= C.nn() && C.pad <= LocOf(C, root) && LocOf(C, root) in Damaged(C, c, data, eras)
    ensures var p, lam := LocOf(C, root) - C.pad, FinalLocator(C, data, eras);
            && Degree(lam) <= C.nroots
            && Xor(data[p], ErrorValue(C, Syndromes(C, data), lam, Degree(lam), root)) == c[p]
  {
    hide FullPeriod, LocOf, ErrorValue, Xor, Horner, FinalLocator, Syndromes, Damaged, Difference, Degree;
    FoundValue(C, c, data, eras, root);
    DifferenceProperties(C, c, data);
  }

  lemma ReachedAt(C: Code, roots: seq<nat>, locs: seq<nat>, x: nat)
    requires Roots(C, roots) && 1 <= C.iprim <= C.nn() && Reached(C, roots, locs) && x in locs
    ensures exists j :: 0 <= j < |roots| && LocOf(C, roots[j]) == x
  {
  }

  /** The corrections for the found roots undo all changes. */
  lemma CorrectedData(C: Code, c: seq<nat>, data: seq<nat>, eras: seq<nat>, roots: seq<nat>)
    requires Correctable(C, c, data, eras) && Damaged(C, c, data, eras) != []
    requires Distinct(roots) && Roots(C, roots)
    requires forall j :: 0 <= j < |roots| ==> LocOf(C, roots[j]) in Damaged(C, c, data, eras)
    requires Reached(C, roots, Damaged(C, c, data, eras))
    ensures var lam := FinalLocator(C, data, eras);
            && Degree(lam) <= C.nroots
            && Correct(C, Syndromes(C, data), lam, Degree(lam), roots, |roots|, data) == c
  {
    hide FullPeriod, LocOf, ErrorValue, Xor, Horner, FinalLocator, Correct, Syndromes, Damaged, Degree, Reached, OthersAgree,
         Mul, Pow, Pow2, UnmarkedErrors, ValuesFix, ValidCode, IsCodeword, Symbols, Distinct, Nn;
    var s, lam := Syndromes(C, data), FinalLocator(C, data, eras);
    FoundCorrections(C, c, data, eras, roots);
    UndamagedAgrees(C, c, data, eras, roots);
    CorrectsAll(C, s, lam, Degree(lam), roots, |roots|, data, c);
  }

  lemma FoundCorrections(C: Code, c: seq<nat>, data: seq<nat>, eras: seq<nat>, roots: seq<nat>)
    requires Correctable(C, c, data, eras) && Damaged(C, c, data, eras) != [] && Roots(C, roots) && Distinct(roots)
    requires forall j :: 0 <= j < |roots| ==> LocOf(C, roots[j]) in Damaged(C, c, data, eras)
    ensures var s, lam := Syndromes(C, data), FinalLocator(C, data, eras);
            && Degree(lam) <= C.nroots
            && CorrectInput(C, s, lam, Degree(lam), roots, |roots|, data, c)
            && ValuesFix(C, s, lam, Degree(lam), roots, |roots|, data, c)
  {
    hide FullPeriod, LocOf, ErrorValue, Xor, Horner, FinalLocator, Syndromes, Damaged, Degree, Mul, Pow, Pow2, UnmarkedErrors;
    DegreeBound(FinalLocator(C, data, eras));
    forall j | 0 <= j < |roots| && C.pad <= LocOf(C, roots[j])
      ensures var lam := FinalLocator(C, data, eras);
              Xor(data[LocOf(C, roots[j]) - C.pad], ErrorValue(C, Syndromes(C, data), lam, Degree(lam), roots[j]))
              == c[LocOf(C, roots[j]) - C.pad]
    {
      FoundCorrection(C, c, data, eras, roots[j]);
    }
  }

  lemma UndamagedAgrees(C: Code, c: seq<nat>, data: seq<nat>, eras: seq<nat>, roots: seq<nat>)
    requires Correctable(C, c, data, eras) && Roots(C, roots) && Reached(C, roots, Damaged(C, c, data, eras))
    ensures OthersAgree(C, roots, |roots|, data, c)
  {
    hide FullPeriod, LocOf, Horner, Damaged, Reached;
    forall p | 0 <= p < |c| && data[p] != c[p]
      ensures exists j :: 0 <= j < |roots| && LocOf(C, roots[j]) == p + C.pad
    {
      DamagedSymbol(C, c, data, eras, p);
      ReachedAt(C, roots, Damaged(C, c, data, eras), p + C.pad);
    }
  }

  lemma DegreeBound(lam: seq<nat>)
    requires |lam| > 0
    ensures Degree(lam) < |lam|
  {
  }

  /** The found roots sit at the damaged locations, all of them and no others. */
  lemma FoundLocations(C: Code, c: seq<nat>, data: seq<nat>, eras: seq<nat>)
    requires Correctable(C, c, data, eras) && Damaged(C, c, data, eras) != []
    ensures var locs, lam := Damaged(C, c, data, eras), FinalLocator(C, data, eras);
            var roots := FoundRoots(C, lam);
            && |roots| == |locs| == Degree(lam) && Distinct(roots)
            && (forall j :: 0 <= j < |roots| ==> LocOf(C, roots[j]) in locs)
            && Reached(C, roots, locs)
  {
    hide FullPeriod, LocOf, FinalLocator, Degree, Locators, FoundRoots, Damaged;
    var locs, lam := Damaged(C, c, data, eras), FinalLocator(C, data, eras);
    var roots := FoundRoots(C, lam);
    LocatorFound(C, c, data, eras);
    DamagedLocations(C, c, data, eras);
    CorrectableInput(C, c, data, eras);
    SearchSucceeds(C, locs, lam);
  }

  lemma CorrectableInput(C: Code, c: seq<nat>, data: seq<nat>, eras: seq<nat>)
    requires Correctable(C, c, data, eras)
    ensures ValidCode(C)
  {
  }

  lemma DecodeDamaged(C: Code, c: seq<nat>, data: seq<nat>, eras: seq<nat>)
    requires Correctable(C, c, data, eras) && !AllZero(Syndromes(C, data)) && Damaged(C, c, data, eras) != []
    ensures var out, locs := Decode(C, data, eras), Damaged(C, c, data, eras);
            && out.data == c && out.count == |locs| && |out.locs| == |locs|
            && forall x :: x in out.locs <==> x in locs
  {
    hide FullPeriod, LocOf, FinalLocator, FoundRoots, Correct, Syndromes, Damaged, Reported, Degree, AllZero;
    var locs, lam := Damaged(C, c, data, eras), FinalLocator(C, data, eras);
    var roots := FoundRoots(C, lam);
    FoundLocations(C, c, data, eras);
    CorrectedData(C, c, data, eras, roots);
    var rep := Reported(C, roots);
    forall x | x in locs
      ensures x in rep
    {
      var j :| 0 <= j < |roots| && LocOf(C, roots[j]) == x;
      assert rep[j] == x;
    }
  }

  lemma PatternVanishes(C: Code, s: seq<nat>, ws: seq<nat>, xs: seq<nat>, rho: nat)
    requires Pattern(C, s, ws, xs, rho) && AllZero(s) && |xs| <= C.nroots
    ensures forall l :: 0 <= l < |ws| ==> ws[l] == 0
  {
    hide FullPeriod, PowerSum;
    Vandermonde(C.field, ws, xs);
  }

  /** A correctable block whose syndromes all vanish is the codeword itself. */
  lemma ZeroSyndromes(C: Code, c: seq<nat>, data: seq<nat>, eras: seq<nat>)
    requires Correctable(C, c, data, eras) && AllZero(Syndromes(C, data))
    ensures data == c
  {
    hide FullPeriod, Locators, Weights, Pattern, Difference, Damaged, Syndromes, Horner;
    var locs, err := Damaged(C, c, data, eras), Difference(c, data);
    DamagedLocations(C, c, data, eras);
    DamagedPattern(C, c, data, eras);
    DifferenceProperties(C, c, data);
    PatternVanishes(C, Syndromes(C, data), Weights(C, err, locs), Locators(C, locs), |eras|);
    forall p | 0 <= p < |c|
      ensures data[p] == c[p]
    {
      if data[p] != c[p] {
        DamagedSymbol(C, c, data, eras, p);
        ChangedWeight(C, c, data, locs, p);
      }
    }
  }

  lemma ChangedWeight(C: Code, c: seq<nat>, data: seq<nat>, locs: seq<nat>, p: nat)
    requires IsBlock(C, c) && IsBlock(C, data) && Locations(C, locs)
    requires p < |c| && data[p] != c[p] && p + C.pad in locs
    ensures exists l :: 0 <= l < |locs| && Weights(C, Difference(c, data), locs)[l] != 0
  {
    hide FullPeriod, Weights, Difference;
    DifferenceProperties(C, c, data);
    var l :| 0 <= l < |locs| && locs[l] == p + C.pad;
    WeightNonzero(C, Difference(c, data), locs, l);
  }

  /**
   The decoder's law: a codeword changed at e unmarked symbols, with f marked
   ones, comes back exactly whenever 2e + f is at most the number of parity
   symbols. The return value counts the damaged and marked locations, and they
   are the ones reported; for an undamaged block it is 0.
   */
  lemma DecodeRestores(C: Code, c: seq<nat>, data: seq<nat>, eras: seq<nat>)
    requires Correctable(C, c, data, eras)
    ensures var out, locs := Decode(C, data, eras), Damaged(C, c, data, eras);
            && out.data == c
            && out.count == (if data == c then 0 else |locs|)
            && (data != c ==> |out.locs| == |locs| && forall x :: x in out.locs <==> x in locs)
  {
    hide *;
    if AllZero(Syndromes(C, data)) {
      ZeroSyndromes(C, c, data, eras);
      UndamagedDecode(C, c, data, eras);
    } else {
      SomethingDamaged(C, c, data, eras);
      DecodeDamaged(C, c, data, eras);
    }
  }

  lemma UndamagedDecode(C: Code, c: seq<nat>, data: seq<nat>, eras: seq<nat>)
    requires Correctable(C, c, data, eras) && AllZero(Syndromes(C, data))
    ensures var out := Decode(C, data, eras); out.data == data && out.count == 0
  {
    hide FullPeriod, FinalLocator, FoundRoots, Syndromes;
  }

  /** Nonzero syndromes mean that some location is damaged. */
  lemma SomethingDamaged(C: Code, c: seq<nat>, data: seq<nat>, eras: seq<nat>)
    requires Correctable(C, c, data, eras) && !AllZero(Syndromes(C, data))
    ensures Damaged(C, c, data, eras) != [] && data != c
  {
    hide FullPeriod, Horner, Damaged, Syndromes;
    if data == c {
      CodewordSyndromes(C, c);
    }
    var p :| 0 <= p < |c| && data[p] != c[p];
    DamagedSymbol(C, c, data, eras, p);
  }

  lemma CodewordSyndromes(C: Code, c: seq<nat>)
    requires IsCodeword(C, c)
    ensures AllZero(Syndromes(C, c))
  {
  }

  /** Two different codewords differ in more than nroots symbols. */
  lemma MinimumDistance(C: Code, c: seq<nat>, d: seq<nat>)
    requires ValidCode(C) && IsCodeword(C, c) && IsCodeword(C, d) && c != d
    ensures |UnmarkedErrors(C, c, d, [], |c|)| > C.nroots
  {
    hide FullPeriod, Horner, Decode, Syndromes;
    var diff := UnmarkedErrors(C, c, d, [], |c|);
    if |diff| <= C.nroots {
      UnmarkedDistinct(C, c, d, [], |c|);
      forall l | 0 <= l < |diff|
        ensures diff[l] < C.nn()
      {
        assert diff[l] in diff;
      }
      NothingUnmarked(C, c, d, diff, |c|);
      CodewordSyndromes(C, d);
      ZeroSyndromes(C, c, d, diff);
    }
  }

  lemma {:induction false} NothingUnmarked(C: Code, c: seq<nat>, d: seq<nat>, eras: seq<nat>, n: nat)
    requires n <= |c| == |d|
    requires forall p :: 0 <= p < n && d[p] != c[p] ==> p + C.pad in eras
    ensures UnmarkedErrors(C, c, d, eras, n) == []
  {
    if n > 0 {
      NothingUnmarked(C, c, d, eras, n - 1);
    }
  }
}
