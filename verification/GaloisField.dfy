/**
 The field that the shift register of the table generator walks through.
 Symbols are the numbers 0..nn; addition is `Xor`, and a product is formed as
 the tables form it, by adding exponents of the register's start value.
 */
module GaloisField {
  import opened Bits

  /** Symbol size in bits and field generator polynomial. */
  datatype Lfsr = Lfsr(mm: nat, gfpoly: nat)

  function Nn(F: Lfsr): nat {
    Pow2(F.mm) - 1
  }

  /** One clock of the shift register `sr`. */
  function Step(F: Lfsr, sr: nat): nat {
    var s := 2 * sr;
    Low(if Bit(s, F.mm) then Xor(s, F.gfpoly) else s, F.mm)
  }

  function Iter(F: Lfsr, i: nat, x: nat): nat {
    if i == 0 then x else Step(F, Iter(F, i - 1, x))
  }

  /** The register after `i` clocks from 1. */
  function Exp(F: Lfsr, i: nat): nat {
    Iter(F, i, 1)
  }

  lemma ExpStart(F: Lfsr)
    ensures Exp(F, 0) == 1
  {
  }

  /** The walk of the register first returns to 1 after exactly `nn` clocks. */
  ghost predicate FullPeriod(F: Lfsr) {
    && F.mm >= 1
    && Exp(F, Nn(F)) == 1
    && forall i :: 0 < i < Nn(F) ==> Exp(F, i) != 1
  }

  lemma {:induction false} SmallestField()
    ensures FullPeriod(Lfsr(1, 1))
  {
    var F := Lfsr(1, 1);
    assert Pow2(1) == 2 * Pow2(0) == 2;
    assert Xor(2, 1) == 2 * Xor(1, 0) + 1;
    XorZero(1);
    assert Exp(F, 1) == Step(F, Exp(F, 0)) == Step(F, 1);
  }

  type Gf = F: Lfsr | FullPeriod(F) ghost witness (SmallestField(); Lfsr(1, 1))

  // ----- The register is linear

  lemma StepBound(F: Lfsr, x: nat)
    ensures Step(F, x) <= Nn(F)
  {
  }

  /** A clock adds the low bits of the polynomial whenever a bit falls out at the top. */
  lemma StepAsSum(F: Lfsr, x: nat)
    ensures Step(F, x) == Xor(Low(2 * x, F.mm), if Bit(2 * x, F.mm) then Low(F.gfpoly, F.mm) else 0)
  {
    XorLow(2 * x, F.gfpoly, F.mm);
    XorZero(Low(2 * x, F.mm));
  }

  lemma StepLinear(F: Lfsr, x: nat, y: nat)
    ensures Step(F, Xor(x, y)) == Xor(Step(F, x), Step(F, y))
  {
    hide *;
    var g, s, t := Low(F.gfpoly, F.mm), 2 * x, 2 * y;
    StepAsSum(F, x);
    StepAsSum(F, y);
    StepAsSum(F, Xor(x, y));
    XorDouble(x, y);
    XorBit(s, t, F.mm);
    XorLow(s, t, F.mm);
    var cs := if Bit(s, F.mm) then g else 0;
    var ct := if Bit(t, F.mm) then g else 0;
    XorSelected(g, Bit(s, F.mm), Bit(t, F.mm));
    XorSwap(Low(s, F.mm), cs, Low(t, F.mm), ct);
  }

  lemma XorDouble(x: nat, y: nat)
    ensures 2 * Xor(x, y) == Xor(2 * x, 2 * y)
  {
    hide *;
    XorHalf(2 * x, 2 * y);
  }

  lemma XorSelected(g: nat, c: bool, d: bool)
    ensures (if c != d then g else 0) == Xor(if c then g else 0, if d then g else 0)
  {
    hide *;
    XorSelf(g);
    XorSelf(0);
    XorZero(g);
  }

  lemma {:induction false} IterLinear(F: Lfsr, i: nat, x: nat, y: nat)
    ensures Iter(F, i, Xor(x, y)) == Xor(Iter(F, i, x), Iter(F, i, y))
  {
    if i > 0 {
      IterLinear(F, i - 1, x, y);
      StepLinear(F, Iter(F, i - 1, x), Iter(F, i - 1, y));
    }
  }

  lemma {:induction false} IterZero(F: Lfsr, i: nat)
    ensures Iter(F, i, 0) == 0
  {
    if i > 0 {
      IterZero(F, i - 1);
      StepZero(F);
    }
  }

  lemma StepZero(F: Lfsr)
    ensures Step(F, 0) == 0
  {
    StepAsSum(F, 0);
    XorZero(0);
    ZeroBit(F.mm);
  }

  lemma {:induction false} IterAdd(F: Lfsr, i: nat, j: nat, x: nat)
    ensures Iter(F, i + j, x) == Iter(F, i, Iter(F, j, x))
  {
    if i > 0 {
      IterAdd(F, i - 1, j, x);
    }
  }

  lemma {:induction false} IterBound(F: Lfsr, i: nat, x: nat)
    requires x <= Nn(F)
    ensures Iter(F, i, x) <= Nn(F)
  {
    if i > 0 {
      StepBound(F, Iter(F, i - 1, x));
    }
  }

  // ----- Exponents

  lemma NnPositive(F: Gf)
    ensures Nn(F) >= 1
  {
    assert Pow2(F.mm) == 2 * Pow2(F.mm - 1);
  }

  lemma ExpPeriod(F: Gf, i: nat)
    ensures Exp(F, i + Nn(F)) == Exp(F, i)
  {
    IterAdd(F, i, Nn(F), 1);
  }

  /** Exponents only count modulo `nn`, which is what `modnn` relies on. */
  lemma {:induction false} ExpMod(F: Gf, i: nat)
    ensures Nn(F) > 0
    ensures Exp(F, i % Nn(F)) == Exp(F, i)
  {
    NnPositive(F);
    if i >= Nn(F) {
      ExpMod(F, i - Nn(F));
      ExpPeriod(F, i - Nn(F));
      ModPlus(i - Nn(F), Nn(F));
    } else {
      ModUnique(i, Nn(F), 0, i);
    }
  }

  lemma ExpNonzero(F: Gf, i: nat)
    ensures 0 < Exp(F, i) <= Nn(F)
  {
    NnPositive(F);
    IterBound(F, i, 1);
    if Exp(F, i) == 0 {
      ExpMod(F, i);
      var k := i % Nn(F);
      IterAdd(F, Nn(F) - k, k, 1);
      IterZero(F, Nn(F) - k);
      assert false;
    }
  }

  lemma ExpReturns(F: Gf, i: nat, j: nat)
    requires i < j < Nn(F) && Exp(F, i) == Exp(F, j)
    ensures Exp(F, Nn(F) - j + i) == 1
  {
    hide Iter, Nn;
    IterAdd(F, Nn(F) - j, i, 1);
    IterAdd(F, Nn(F) - j, j, 1);
  }

  lemma ExpInjective(F: Gf, i: nat, j: nat)
    requires i < Nn(F) && j < Nn(F) && Exp(F, i) == Exp(F, j)
    ensures i == j
  {
    if i < j {
      ExpReturns(F, i, j);
    } else if j < i {
      ExpReturns(F, j, i);
    }
  }

  ghost function Powers(F: Lfsr, n: nat): set<nat> {
    set i | 0 <= i < n :: Exp(F, i)
  }

  lemma {:induction false} PowersSize(F: Gf, n: nat)
    requires n <= Nn(F)
    ensures |Powers(F, n)| == n
  {
    hide Exp, FullPeriod;
    if n > 0 {
      PowersSize(F, n - 1);
      assert Powers(F, n) == Powers(F, n - 1) + {Exp(F, n - 1)};
      if Exp(F, n - 1) in Powers(F, n - 1) {
        var i :| 0 <= i < n - 1 && Exp(F, i) == Exp(F, n - 1);
        ExpInjective(F, i, n - 1);
      }
    }
  }

  ghost function Range(n: nat): (r: set<nat>)
    ensures forall i: nat :: i in r <==> 1 <= i <= n
  {
    if n == 0 then {} else Range(n - 1) + {n}
  }

  lemma {:induction false} RangeSize(n: nat)
    ensures |Range(n)| == n
  {
    if n > 0 {
      RangeSize(n - 1);
    }
  }

  lemma {:induction false} SubsetSameSize<T>(a: set<T>, b: set<T>)
    requires a <= b && |a| == |b|
    ensures a == b
  {
    if a != {} {
      var x :| x in a;
      SubsetSameSize(a - {x}, b - {x});
    }
  }

  /** Every nonzero symbol has a logarithm. */
  lemma LogExists(F: Gf, a: nat)
    requires 0 < a <= Nn(F)
    ensures exists i :: 0 <= i < Nn(F) && Exp(F, i) == a
  {
    PowersSize(F, Nn(F));
    RangeSize(Nn(F));
    forall x | x in Powers(F, Nn(F))
      ensures x in Range(Nn(F))
    {
      var i :| 0 <= i < Nn(F) && Exp(F, i) == x;
      ExpNonzero(F, i);
    }
    SubsetSameSize(Powers(F, Nn(F)), Range(Nn(F)));
    assert a in Powers(F, Nn(F));
  }

  ghost function Log(F: Gf, a: nat): (i: nat)
    requires 0 < a <= Nn(F)
    ensures i < Nn(F) && Exp(F, i) == a
  {
    LogExists(F, a);
    var i :| 0 <= i < Nn(F) && Exp(F, i) == a;
    i
  }

  lemma LogExp(F: Gf, i: nat)
    ensures 0 < Exp(F, i) <= Nn(F)
    ensures Nn(F) > 0 && Log(F, Exp(F, i)) == i % Nn(F)
  {
    ExpNonzero(F, i);
    ExpMod(F, i);
    ExpInjective(F, Log(F, Exp(F, i)), i % Nn(F));
  }

  // ----- Products

  /** Product of two symbols; only their low `mm` bits count, so the ring laws hold of all numbers. */
  ghost function Mul(F: Gf, a: nat, b: nat): (r: nat)
    ensures r <= Nn(F)
  {
    IterBound(F, if Low(a, F.mm) == 0 then 0 else Log(F, Low(a, F.mm)), Low(b, F.mm));
    if Low(a, F.mm) == 0 then 0 else Iter(F, Log(F, Low(a, F.mm)), Low(b, F.mm))
  }

  lemma MulLow(F: Gf, a: nat, b: nat)
    ensures Mul(F, a, b) == Mul(F, Low(a, F.mm), Low(b, F.mm))
  {
  }

  lemma MulZero(F: Gf, a: nat)
    ensures Mul(F, 0, a) == 0 && Mul(F, a, 0) == 0
  {
    if Low(a, F.mm) != 0 {
      IterZero(F, Log(F, Low(a, F.mm)));
    }
  }

  /** Adding exponents multiplies. */
  lemma MulExp(F: Gf, i: nat, j: nat)
    ensures Mul(F, Exp(F, i), Exp(F, j)) == Exp(F, i + j)
  {
    ExpNonzero(F, i);
    ExpNonzero(F, j);
    var k := Log(F, Exp(F, i));
    IterAdd(F, k, j, 1);
    IterAdd(F, j, k, 1);
    IterAdd(F, j, i, 1);
  }

  lemma MulOne(F: Gf, a: nat)
    ensures Mul(F, 1, a) == Low(a, F.mm) && Mul(F, a, 1) == Low(a, F.mm)
  {
    NnPositive(F);
    if Low(a, F.mm) == 0 {
      MulLow(F, a, 1);
      MulLow(F, 1, a);
      MulZero(F, 1);
    } else {
      var i := Log(F, Low(a, F.mm));
      MulLow(F, a, 1);
      MulLow(F, 1, a);
      MulExp(F, 0, i);
      MulExp(F, i, 0);
    }
  }

  lemma MulComm(F: Gf, a: nat, b: nat)
    ensures Mul(F, a, b) == Mul(F, b, a)
  {
    MulLow(F, a, b);
    MulLow(F, b, a);
    var a', b' := Low(a, F.mm), Low(b, F.mm);
    if a' == 0 || b' == 0 {
      MulZero(F, a');
      MulZero(F, b');
    } else {
      MulExp(F, Log(F, a'), Log(F, b'));
      MulExp(F, Log(F, b'), Log(F, a'));
    }
  }

  lemma MulAssoc(F: Gf, a: nat, b: nat, c: nat)
    ensures Mul(F, Mul(F, a, b), c) == Mul(F, a, Mul(F, b, c))
  {
    hide Mul, Log, Low, FullPeriod;
    var a', b', c' := Low(a, F.mm), Low(b, F.mm), Low(c, F.mm);
    MulLow(F, a, b);
    MulLow(F, b, c);
    MulLow(F, Mul(F, a, b), c);
    MulLow(F, a, Mul(F, b, c));
    MulLow(F, Mul(F, a', b'), c');
    MulLow(F, a', Mul(F, b', c'));
    if a' == 0 || b' == 0 || c' == 0 {
      MulZero(F, a');
      MulZero(F, b');
      MulZero(F, c');
      MulZero(F, Mul(F, a', b'));
      MulZero(F, Mul(F, b', c'));
    } else {
      MulAssocNonzero(F, a', b', c');
    }
  }

  lemma MulAssocNonzero(F: Gf, a: nat, b: nat, c: nat)
    requires 0 < a <= Nn(F) && 0 < b <= Nn(F) && 0 < c <= Nn(F)
    ensures Mul(F, Mul(F, a, b), c) == Mul(F, a, Mul(F, b, c))
  {
    hide *;
    var i, j, k := Log(F, a), Log(F, b), Log(F, c);
    MulExp(F, i, j);
    MulExp(F, j, k);
    MulExp(F, i + j, k);
    MulExp(F, i, j + k);
    assert i + j + k == i + (j + k);
  }

  lemma MulDist(F: Gf, a: nat, b: nat, c: nat)
    ensures Mul(F, a, Xor(b, c)) == Xor(Mul(F, a, b), Mul(F, a, c))
  {
    XorLow(b, c, F.mm);
    if Low(a, F.mm) == 0 {
      XorZero(0);
    } else {
      IterLinear(F, Log(F, Low(a, F.mm)), Low(b, F.mm), Low(c, F.mm));
    }
  }

  /** There are no zero divisors. */
  lemma MulNonzero(F: Gf, a: nat, b: nat)
    ensures Mul(F, a, b) == 0 <==> Low(a, F.mm) == 0 || Low(b, F.mm) == 0
  {
    hide Mul, Exp, Low, FullPeriod;
    var a', b' := Low(a, F.mm), Low(b, F.mm);
    MulLow(F, a, b);
    MulZero(F, a');
    MulZero(F, b');
    if a' != 0 && b' != 0 {
      var i, j := Log(F, a'), Log(F, b');
      MulExp(F, i, j);
      ExpNonzero(F, i + j);
    }
  }

  /** Reciprocal, formed as `nn` minus the logarithm. */
  ghost function Inv(F: Gf, a: nat): (r: nat)
    requires 0 < a <= Nn(F)
  {
    Exp(F, Nn(F) - Log(F, a))
  }

  lemma MulInv(F: Gf, a: nat)
    requires 0 < a <= Nn(F)
    ensures 0 < Inv(F, a) <= Nn(F)
    ensures Mul(F, a, Inv(F, a)) == 1
  {
    MulExp(F, Log(F, a), Nn(F) - Log(F, a));
    ExpNonzero(F, Nn(F) - Log(F, a));
  }
}
