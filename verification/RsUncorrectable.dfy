/**
 What the decoder answers for any block: it succeeds exactly when its locator
 polynomial has as many roots as its degree says.
 */
module RsUncorrectable {
  import opened Bits
  import opened GaloisField
  import opened RsAlgebra
  import opened RsCode
  import opened RsErrors
  import opened RsBerlekamp
  import opened RsForney
  import opened RsDecoder

  /** The polynomial has as many different roots as its degree. */
  ghost predicate Splits(C: Code, lam: seq<nat>) {
    exists rs :: ListsRoots(C, lam, rs) && |rs| == Degree(lam)
  }

  /** A locator polynomial as the search gets it. */
  ghost predicate Searchable(C: Code, lam: seq<nat>) {
    ValidCode(C) && |lam| == C.nroots + 1 && Symbols(C.field, lam) && lam[0] == 1 && Degree(lam) <= C.nroots
  }

  // ----- The search, for any polynomial

  /** Roots found so far, fewer than wanted unless none is. */
  lemma {:induction false} ChienSound(C: Code, lam: seq<nat>, deg: nat, i: nat, acc: seq<nat>)
    requires 1 <= i <= C.nn() + 1 && FoundSoFar(C, lam, i, acc) && (deg > 0 ==> |acc| < deg)
    ensures var out := Chien(C, lam, deg, i, acc);
            && Distinct(out) && Roots(C, out)
            && (forall j :: 0 <= j < |out| ==> IsRoot(C, lam, out[j]))
            && (deg > 0 ==> |out| <= deg)
            && (deg == 0 || |out| < deg ==> ListsRoots(C, lam, out))
    decreases C.nn() + 1 - i
  {
    hide IsRoot, FullPeriod, Nn, Pow2;
    if i > C.nn() {
    } else if !IsRoot(C, lam, i) {
      ChienSound(C, lam, deg, i + 1, acc);
    } else if |acc| + 1 != deg {
      ChienSound(C, lam, deg, i + 1, acc + [i]);
    }
  }

  lemma {:induction false} ConstantValue(F: Gf, lam: seq<nat>, y: nat, n: nat)
    requires 1 <= n <= |lam| && lam[0] == 1 && forall i :: 1 <= i < n ==> lam[i] == 0
    ensures Eval(F, lam, y, n) == 1
  {
    hide Mul, Xor, FullPeriod, Pow;
    if n == 1 {
      OneAtZero(F, lam, y);
    } else {
      ConstantValue(F, lam, y, n - 1);
      MulZero(F, Pow(F, y, n - 1));
      XorZero(1);
    }
  }

  lemma OneIsLow(F: Gf)
    ensures Low(1, F.mm) == 1
  {
    assert Low(0, F.mm - 1) == 0;
  }

  lemma OneAtZero(F: Gf, lam: seq<nat>, y: nat)
    requires |lam| >= 1 && lam[0] == 1
    ensures Eval(F, lam, y, 1) == 1
  {
    hide Mul, Xor, FullPeriod;
    NnPositive(F);
    MulOne(F, 1);
    OneIsLow(F);
    XorZero(1);
    assert Pow(F, y, 0) == 1;
    assert Eval(F, lam, y, 0) == 0;
  }

  /** As many roots as the degree are all the roots. */
  lemma RootsComplete(C: Code, lam: seq<nat>, rs: seq<nat>)
    requires Searchable(C, lam) && Distinct(rs) && Roots(C, rs) && |rs| == Degree(lam)
    requires forall j :: 0 <= j < |rs| ==> IsRoot(C, lam, rs[j])
    ensures ListsRoots(C, lam, rs)
  {
    hide IsRoot, LocOf, FullPeriod, Locator, Horner, Symbols, Degree;
    if |rs| == 0 {
      forall i | 1 <= i <= C.nn()
        ensures !IsRoot(C, lam, i)
      {
        NoRoots(C, lam, i);
      }
    } else {
      var locs := Reported(C, rs);
      ReportedDistinct(C, rs);
      RootsLocated(C, lam, rs);
      forall i | 1 <= i <= C.nn() && IsRoot(C, lam, i)
        ensures i in rs
      {
        RootAmongLocators(C, locs, lam, i);
        var j :| 0 <= j < |locs| && locs[j] == LocOf(C, i);
        LocationInjective(C, i, rs[j]);
      }
    }
  }

  lemma NoRoots(C: Code, lam: seq<nat>, i: nat)
    requires Searchable(C, lam) && Degree(lam) == 0
    ensures !IsRoot(C, lam, i)
  {
    hide FullPeriod, Eval, Exp;
    ConstantValue(C.field, lam, Exp(C.field, i), |lam|);
  }

  lemma ReportedDistinct(C: Code, rs: seq<nat>)
    requires ValidCode(C) && Distinct(rs) && Roots(C, rs)
    ensures Distinct(Reported(C, rs)) && Locations(C, Reported(C, rs))
  {
    hide LocOf, FullPeriod;
    var locs := Reported(C, rs);
    forall i, j | 0 <= i < j < |locs|
      ensures locs[i] != locs[j]
    {
      if locs[i] == locs[j] {
        LocationInjective(C, rs[i], rs[j]);
      }
    }
  }

  lemma RootsLocated(C: Code, lam: seq<nat>, rs: seq<nat>)
    requires Searchable(C, lam) && Distinct(rs) && Roots(C, rs) && 0 < |rs| == Degree(lam)
    requires forall j :: 0 <= j < |rs| ==> IsRoot(C, lam, rs[j])
    requires Distinct(Reported(C, rs)) && Locations(C, Reported(C, rs))
    ensures Located(C, Locators(C, Reported(C, rs)), lam)
  {
    hide IsRoot, LocOf, FullPeriod, Locator, Horner;
    var locs := Reported(C, rs);
    var xs := Locators(C, locs);
    LocatorsDistinct(C, locs);
    forall l | 0 <= l < |xs|
      ensures Horner(C.field, lam, xs[l], |xs| + 1) == 0
    {
      RootIffHorner(C, lam, rs[l]);
      LocatorNonzero(C, locs[l]);
      RootOfPrefix(C.field, lam, xs[l], |xs| + 1, |lam|);
    }
  }

  /** The search finds as many roots as the degree says exactly when there are so many. */
  lemma SearchAnswer(C: Code, lam: seq<nat>)
    requires Searchable(C, lam)
    ensures |FoundRoots(C, lam)| == Degree(lam) <==> Splits(C, lam)
    ensures |FoundRoots(C, lam)| == Degree(lam) ==> ListsRoots(C, lam, FoundRoots(C, lam))
  {
    hide IsRoot, FullPeriod, Degree, Symbols, Chien;
    var deg, out := Degree(lam), FoundRoots(C, lam);
    ChienSound(C, lam, deg, 1, []);
    if |out| == deg {
      RootsComplete(C, lam, out);
    } else {
      forall rs | ListsRoots(C, lam, rs)
        ensures |rs| != deg
      {
        // Fewer roots were found than the degree says, so the search saw them all.
        assert ListsRoots(C, lam, out);
        SameRoots(C, lam, rs, out);
      }
    }
  }

  lemma SameRoots(C: Code, lam: seq<nat>, a: seq<nat>, b: seq<nat>)
    requires ListsRoots(C, lam, a) && ListsRoots(C, lam, b)
    ensures |a| == |b|
  {
    hide IsRoot, FullPeriod;
    assert ContainsAll(a, b) && ContainsAll(b, a);
    DistinctIncluded(a, b);
    DistinctIncluded(b, a);
  }

  // ----- The answer of the decoder

  /** The location is tested together with a root. */
  ghost predicate AtRoot(C: Code, lam: seq<nat>, loc: nat)
    requires 1 <= C.iprim <= C.nn()
  {
    exists i :: 1 <= i <= C.nn() && IsRoot(C, lam, i) && LocOf(C, i) == loc
  }

  /**
   The return value and the block after decoding: 0 for a block without nonzero
   syndromes; otherwise the degree of the locator polynomial if it has as many
   roots, with changes at their locations only, and -1 with no change if not.
   */
  ghost predicate Answered(C: Code, block: seq<nat>, eras: seq<nat>, count: int, after: seq<nat>)
    requires DecoderInput(C, block, eras)
  {
    && |after| == |block|
    && if AllZero(Syndromes(C, block)) then count == 0 && after == block
       else
         var lam := FinalLocator(C, block, eras);
         && count == (if Splits(C, lam) then Degree(lam) else -1)
         && (!Splits(C, lam) ==> after == block)
         && forall p :: 0 <= p < |block| && after[p] != block[p] ==> AtRoot(C, lam, p + C.pad)
  }

  /** The positions reported for a block that was corrected: those of all roots, each once. */
  ghost predicate ReportedRoots(C: Code, lam: seq<nat>, locs: seq<nat>)
    requires 1 <= C.iprim <= C.nn()
  {
    Distinct(locs) && forall x :: x in locs <==> AtRoot(C, lam, x)
  }

  lemma {:induction false} ChangesAtRoots(C: Code, s: seq<nat>, lam: seq<nat>, deg: nat, roots: seq<nat>, n: nat, data: seq<nat>, p: nat)
    requires deg <= |s| == C.nroots && |lam| == C.nroots + 1
    requires 1 <= C.iprim <= C.nn() && C.pad < C.nn() && |data| == C.nn() - C.pad
    requires n <= |roots| && Roots(C, roots) && p < |data|
    requires Correct(C, s, lam, deg, roots, n, data)[p] != data[p]
    ensures exists j :: 0 <= j < n && LocOf(C, roots[j]) == p + C.pad
    decreases n
  {
    hide ErrorValue, LocOf, FullPeriod, Xor;
    if n > 0 && LocOf(C, roots[n - 1]) != p + C.pad {
      var next := CorrectOne(C, s, lam, deg, roots[n - 1], data);
      assert next[p] == data[p];
      ChangesAtRoots(C, s, lam, deg, roots, n - 1, next, p);
    }
  }

  lemma ReportedAreRoots(C: Code, lam: seq<nat>, roots: seq<nat>)
    requires ValidCode(C) && ListsRoots(C, lam, roots)
    ensures ReportedRoots(C, lam, Reported(C, roots))
  {
    hide IsRoot, LocOf, FullPeriod;
    ReportedDistinct(C, roots);
    var locs := Reported(C, roots);
    forall x
      ensures x in locs <==> AtRoot(C, lam, x)
    {
      if x in locs {
        var j :| 0 <= j < |locs| && locs[j] == x;
        assert IsRoot(C, lam, roots[j]);
      }
      if AtRoot(C, lam, x) {
        var i :| 1 <= i <= C.nn() && IsRoot(C, lam, i) && LocOf(C, i) == x;
        var j :| 0 <= j < |roots| && roots[j] == i;
        assert locs[j] == x;
      }
    }
  }

  /** What the decoder computes is that answer, for every block. */
  lemma DecodeAnswer(C: Code, data: seq<nat>, eras: seq<nat>)
    requires DecoderInput(C, data, eras) && Searchable(C, FinalLocator(C, data, eras))
    ensures var out := Decode(C, data, eras);
            && Answered(C, data, eras, out.count, out.data)
            && (out.count >= 0 && !AllZero(Syndromes(C, data)) ==> ReportedRoots(C, FinalLocator(C, data, eras), out.locs))
            && (out.count == -1 || AllZero(Syndromes(C, data)) ==> out.locs == [])
  {
    hide IsRoot, LocOf, FullPeriod, Correct, Syndromes, FinalLocator, FoundRoots, Degree, Horner, Symbols, AllZero, ReportedRoots,
         Splits, ListsRoots;
    var s, lam := Syndromes(C, data), FinalLocator(C, data, eras);
    if !AllZero(s) {
      SearchAnswer(C, lam);
      var roots := FoundRoots(C, lam);
      if |roots| == Degree(lam) {
        ReportedAreRoots(C, lam, roots);
        ChangedAtRoots(C, s, lam, roots, data);
      }
    }
  }

  lemma ChangedAtRoots(C: Code, s: seq<nat>, lam: seq<nat>, roots: seq<nat>, data: seq<nat>)
    requires ValidCode(C) && |s| == C.nroots && |lam| == C.nroots + 1 && Degree(lam) <= C.nroots && |data| == C.nn() - C.pad
    requires ListsRoots(C, lam, roots)
    ensures var after := Correct(C, s, lam, Degree(lam), roots, |roots|, data);
            forall p :: 0 <= p < |data| && after[p] != data[p] ==> AtRoot(C, lam, p + C.pad)
  {
    hide IsRoot, LocOf, FullPeriod, Correct, Degree;
    var after := Correct(C, s, lam, Degree(lam), roots, |roots|, data);
    forall p | 0 <= p < |data| && after[p] != data[p]
      ensures AtRoot(C, lam, p + C.pad)
    {
      ChangesAtRoots(C, s, lam, Degree(lam), roots, |roots|, data, p);
      var j :| 0 <= j < |roots| && LocOf(C, roots[j]) == p + C.pad;
      assert IsRoot(C, lam, roots[j]);
    }
  }

  // ----- An uncorrectable block

  /** Symbol size 3 with polynomial 0xb: the walk 1, 2, 4, 3, 6, 7, 5. */
  lemma {:induction false} SmallWalk()
    ensures var F := Lfsr(3, 0xb);
            && Nn(F) == 7 && FullPeriod(F)
            && Exp(F, 0) == 1 && Exp(F, 1) == 2 && Exp(F, 2) == 4 && Exp(F, 3) == 3 && Exp(F, 4) == 6 && Exp(F, 5) == 7 && Exp(F, 6) == 5
  {
    hide Step;
    var F := Lfsr(3, 0xb);
    assert Pow2(3) == 8;
    SmallSteps();
    assert Exp(F, 0) == 1;
    assert Exp(F, 1) == 2;
    assert Exp(F, 2) == 4;
    assert Exp(F, 3) == 3;
    assert Exp(F, 4) == 6;
    assert Exp(F, 5) == 7;
    assert Exp(F, 6) == 5;
    assert Exp(F, 7) == 1;
  }

  lemma SmallSteps()
    ensures var F := Lfsr(3, 0xb);
            && Step(F, 1) == 2 && Step(F, 2) == 4 && Step(F, 4) == 3 && Step(F, 3) == 6
            && Step(F, 6) == 7 && Step(F, 7) == 5 && Step(F, 5) == 1
  {
    hide Step, Low, Bit, Xor;
    ShiftOnly(1);
    ShiftOnly(2);
    ShiftOnly(3);
    ShiftAndAdd(4, 3);
    ShiftAndAdd(6, 7);
    ShiftAndAdd(7, 5);
    ShiftAndAdd(5, 1);
  }

  lemma EightStates()
    ensures Pow2(3) == 8
  {
    assert Pow2(2) == 4;
  }

  lemma {:induction false} SmallLow(a: nat, m: nat)
    requires a < Pow2(m)
    ensures Low(a, m) == a
    decreases m
  {
    if m > 0 {
      SmallLow(a / 2, m - 1);
    }
  }

  lemma ShiftOnly(x: nat)
    requires 1 <= x <= 3
    ensures Step(Lfsr(3, 0xb), x) == 2 * x
  {
    hide Bit, Low, Pow2;
    EightStates();
    BitAbove(2 * x, 3, 3);
    SmallLow(2 * x, 3);
  }

  lemma ShiftAndAdd(x: nat, y: nat)
    requires (x == 4 && y == 3) || (x == 6 && y == 7) || (x == 7 && y == 5) || (x == 5 && y == 1)
    ensures Step(Lfsr(3, 0xb), x) == y
  {
    EightStates();
    BitIsDigit(2 * x, 3);
    SmallLow(y, 3);
    hide Bit, Low, Pow2;
    assert Xor(1, 1) == 0;
    assert Xor(x / 2, 2) == x / 2 - 2;
    assert Xor(x, 5) == 2 * (x / 2 - 2) + (if x % 2 == 1 then 0 else 1);
    assert Xor(2 * x, 11) == 2 * Xor(x, 5) + 1 == y;
  }

  ghost function SmallCode(): (C: Code)
    ensures C.nroots == 2 && C.fcr == 0 && C.prim == 1 && C.iprim == 1 && C.pad == 0
    ensures C.field == Lfsr(3, 0xb)
  {
    SmallWalk();
    Code(Lfsr(3, 0xb), 2, 0, 1, 1, 0)
  }

  lemma SmallCodeValid()
    ensures ValidCode(SmallCode()) && SmallCode().nn() == 7
  {
    SmallWalk();
    assert Times(1, 1) == Times(0, 7) + 1;
  }

  /** The zero codeword with its last two symbols set to 1. */
  const TWO_ERRORS: seq<nat> := [0, 0, 0, 0, 0, 1, 1]

  lemma SmallProduct(i: nat, j: nat)
    ensures Mul(SmallCode().field, Exp(SmallCode().field, i), Exp(SmallCode().field, j)) == Exp(SmallCode().field, i + j)
  {
    MulExp(SmallCode().field, i, j);
  }

  /** Products with a one on the left. */
  lemma OneTimes(a: nat)
    requires a <= 7
    ensures Mul(SmallCode().field, 1, a) == a && Mul(SmallCode().field, a, 1) == a
    ensures Mul(SmallCode().field, 0, a) == 0 && Mul(SmallCode().field, a, 0) == 0
  {
    hide Mul, FullPeriod, Exp;
    var F := SmallCode().field;
    MulOne(F, a);
    MulZero(F, a);
    assert Low(a, 3) == a by {
      assert Low(a / 2 / 2, 1) == a / 2 / 2;
    }
  }

  /** The syndromes of the damaged block are 0 and alpha + 1. */
  lemma TwoErrorSyndromes()
    ensures Syndromes(SmallCode(), TWO_ERRORS) == [0, 3]
  {
    hide Mul, FullPeriod, Exp, Xor;
    var C := SmallCode();
    SmallWalk();
    TwoErrorValue(1);
    TwoErrorValue(2);
    assert Root(C, 0) == Exp(C.field, 0) && Root(C, 1) == Exp(C.field, 1);
    assert Xor(1, 1) == 0 && Xor(1, 2) == 3 by {
      SmallSums();
    }
  }

  lemma SmallSums()
    ensures Xor(1, 1) == 0 && Xor(1, 2) == 3 && Xor(0, 1) == 1 && Xor(0, 3) == 3 && Xor(1, 0) == 1 && Xor(0, 0) == 0 && Xor(3, 0) == 3
  {
    assert Xor(0, 0) == 0 && Xor(0, 1) == 1;
  }

  lemma TwoErrorValue(x: nat)
    requires x <= 7
    ensures Horner(SmallCode().field, TWO_ERRORS, x, 7) == Xor(1, x)
  {
    hide Mul, FullPeriod, Exp, Xor;
    var F, p := SmallCode().field, TWO_ERRORS;
    OneTimes(x);
    SmallSums();
    assert Horner(F, p, x, 0) == 0;
    assert Horner(F, p, x, 1) == 0;
    assert Horner(F, p, x, 2) == 0;
    assert Horner(F, p, x, 3) == 0;
    assert Horner(F, p, x, 4) == 0;
    assert Horner(F, p, x, 5) == 0;
    assert Horner(F, p, x, 6) == 1;
  }

  /** Two steps of the algorithm on these syndromes give 1 + (alpha + 1) x^2. */
  lemma TwoErrorLocator()
    requires DecoderInput(SmallCode(), TWO_ERRORS, [])
    ensures FinalLocator(SmallCode(), TWO_ERRORS, []) == [1, 0, 3]
  {
    hide Mul, FullPeriod, Exp, Xor, Horner, Root, InvOf;
    var C, s := SmallCode(), Syndromes(SmallCode(), TWO_ERRORS);
    var F := C.field;
    TwoErrorSyndromes();
    SmallSums();
    OneTimes(0);
    OneTimes(3);
    OneTimes(1);
    var start := ErasureLocator(C, [], 0);
    assert start == [1, 0, 0];
    var st0 := BmRun(C, s, 0, start, 0);
    assert st0 == Bm([1, 0, 0], [1, 0, 0], 0);
    assert Conv(F, st0.lam, s, 0, 0) == 0 && Conv(F, st0.lam, s, 1, 0) == 0;
    assert Discrepancy(C, s, st0.lam, 1) == Coef(F, st0.lam, s, 0) == 0;
    var st1 := BmRun(C, s, 0, start, 1);
    assert st1 == Bm([1, 0, 0], [0, 1, 0], 0);
    assert Conv(F, st1.lam, s, 1, 1) == 3;
    assert Discrepancy(C, s, st1.lam, 2) == Coef(F, st1.lam, s, 1) == 3;
    var t := AddScaled(F, st1.lam, 3, ShiftUp(st1.b));
    assert ShiftUp(st1.b) == [0, 0, 1];
    assert t == [1, 0, 3];
    assert BmRun(C, s, 0, start, 2).lam == t;
  }

  /** Its value at alpha^i is 1 + alpha^(3 + 2i), which vanishes for i = 2 only. */
  lemma OneDoubleRoot(i: nat)
    requires 1 <= i <= 7
    ensures IsRoot(SmallCode(), [1, 0, 3], i) <==> i == 2
  {
    hide Mul, FullPeriod, Exp, Xor, Pow;
    var F, lam := SmallCode().field, [1, 0, 3];
    var y := Exp(F, i);
    SmallWalk();
    SmallSums();
    OneTimes(1);
    assert Pow(F, y, 0) == 1 && Pow(F, y, 2) == Exp(F, 2 * i) by {
      PowExp(F, i, 0);
      PowExp(F, i, 2);
    }
    SmallProduct(3, 2 * i);
    OneAtZero(F, lam, y);
    MulZero(F, Pow(F, y, 1));
    assert Eval(F, lam, y, 2) == Xor(1, 0) == 1;
    assert Eval(F, lam, y, 3) == Xor(1, Exp(F, 3 + 2 * i));
    XorEqualZero(1, Exp(F, 3 + 2 * i));
    ExpMod(F, 3 + 2 * i);
    var k := (3 + 2 * i) % 7;
    assert 0 <= k < 7 && (k == 0 <==> i == 2);
    assert Exp(F, k) == 1 <==> k == 0;
  }

  /**
   Two errors where one can be corrected: the locator polynomial has degree 2
   and a single root, so the decoder returns -1 and changes nothing.
   */
  lemma TwoErrorsUncorrectable()
    ensures var C := SmallCode();
            && DecoderInput(C, TWO_ERRORS, []) && !AllZero(Syndromes(C, TWO_ERRORS))
            && !Splits(C, FinalLocator(C, TWO_ERRORS, []))
            && forall count, after :: Answered(C, TWO_ERRORS, [], count, after) ==> count == -1 && after == TWO_ERRORS
  {
    hide Mul, FullPeriod, Exp, Horner, IsRoot, LocOf;
    var C := SmallCode();
    SmallCodeValid();
    assert DecoderInput(C, TWO_ERRORS, []);
    TwoErrorSyndromes();
    TwoErrorLocator();
    assert Syndromes(C, TWO_ERRORS)[1] == 3;
    var lam := [1, 0, 3];
    assert Degree(lam) == 2;
    forall rs | ListsRoots(C, lam, rs)
      ensures |rs| != 2
    {
      if |rs| == 2 {
        OneDoubleRoot(rs[0]);
        OneDoubleRoot(rs[1]);
      }
    }
  }
}
