/** Error patterns: how the symbols that were changed show up in the syndromes. */
module RsErrors {
  import opened Bits
  import opened GaloisField
  import opened RsAlgebra
  import opened RsCode

  // ----- Locators of different symbols differ

  lemma {:induction false} ExpPeriods(F: Gf, i: nat, q: nat)
    ensures q * Nn(F) >= 0
    ensures Exp(F, i + q * Nn(F)) == Exp(F, i)
  {
    hide Exp, FullPeriod;
    if q > 0 {
      ExpPeriods(F, i, q - 1);
      ExpPeriod(F, i + (q - 1) * Nn(F));
      assert i + (q - 1) * Nn(F) + Nn(F) == i + q * Nn(F);
    }
  }

  /** Raising to `prim` and then to `iprim` changes nothing. */
  lemma PrimInverse(C: Code, a: nat, e: nat)
    requires ValidCode(C) && e == a * (C.prim * C.iprim)
    ensures Exp(C.field, e) == Exp(C.field, a)
  {
    hide Exp, FullPeriod;
    var n, m := C.nn(), C.prim * C.iprim;
    TimesIsProduct(C.prim, C.iprim);
    var q: nat :| Times(C.prim, C.iprim) == Times(q, n) + 1;
    TimesIsProduct(q, n);
    assert e == a + (a * q) * n by {
      MulAddOne(a, q, n);
    }
    ExpPeriods(C.field, a, a * q);
  }

  lemma MulAddOne(a: nat, q: nat, n: nat)
    ensures a * (1 + q * n) == a + (a * q) * n
  {
  }

  lemma LocatorNonzero(C: Code, loc: nat)
    requires loc < C.nn()
    ensures 0 < Locator(C, loc) <= C.nn()
  {
    hide Exp, FullPeriod, Nn;
    MulMono(0, C.prim, C.nn() - 1 - loc);
    ExpNonzero(C.field, C.prim * (C.nn() - 1 - loc));
  }

  lemma LocatorPower(C: Code, loc: nat)
    requires ValidCode(C) && loc < C.nn()
    ensures Pow(C.field, Locator(C, loc), C.iprim) == Exp(C.field, C.nn() - 1 - loc)
  {
    hide Exp, FullPeriod, Pow;
    var a := C.nn() - 1 - loc;
    PowExp(C.field, C.prim * a, C.iprim);
    Reorder(C.prim, a, C.iprim);
    PrimInverse(C, a, C.prim * a * C.iprim);
  }

  lemma Reorder(p: nat, a: nat, q: nat)
    ensures p * a * q == a * (p * q)
  {
  }

  lemma LocatorInjective(C: Code, l: nat, m: nat)
    requires ValidCode(C) && l < C.nn() && m < C.nn()
    requires Locator(C, l) == Locator(C, m)
    ensures l == m
  {
    hide Exp, FullPeriod, Pow;
    LocatorPower(C, l);
    LocatorPower(C, m);
    ExpInjective(C.field, C.nn() - 1 - l, C.nn() - 1 - m);
  }

  lemma LocatorsDistinct(C: Code, locs: seq<nat>)
    requires ValidCode(C) && Locations(C, locs) && Distinct(locs)
    ensures Distinct(Locators(C, locs)) && Symbols(C.field, Locators(C, locs))
  {
    hide Locator, FullPeriod;
    var xs := Locators(C, locs);
    forall i, j | 0 <= i < j < |xs|
      ensures xs[i] != xs[j]
    {
      if xs[i] == xs[j] {
        LocatorInjective(C, locs[i], locs[j]);
      }
    }
    forall i | 0 <= i < |xs|
      ensures xs[i] <= Nn(C.field)
    {
      LocatorNonzero(C, locs[i]);
    }
  }

  /** A root at a location is a power of its locator. */
  lemma RootPower(C: Code, i: nat, loc: nat)
    requires loc < C.nn()
    ensures Pow(C.field, Root(C, i), C.nn() - 1 - loc)
            == Mul(C.field, Pow(C.field, Locator(C, loc), C.fcr), Pow(C.field, Locator(C, loc), i))
  {
    hide Exp, FullPeriod, Pow, Mul;
    var a := C.nn() - 1 - loc;
    PowExp(C.field, (C.fcr + i) * C.prim, a);
    PowExp(C.field, C.prim * a, C.fcr + i);
    assert (C.fcr + i) * C.prim * a == C.prim * a * (C.fcr + i);
    PowAdd(C.field, Locator(C, loc), C.fcr, i);
  }

  // ----- Sparse polynomials

  lemma {:induction false} HornerUpdate(F: Gf, p: seq<nat>, x: nat, k: nat, n: nat)
    requires k < n <= |p| && Symbols(F, p)
    ensures Horner(F, p, x, n) == Xor(Horner(F, p[k := 0], x, n), Mul(F, p[k], Pow(F, x, n - 1 - k)))
  {
    hide Mul, Xor, FullPeriod;
    var h := Mul(F, x, Horner(F, p[k := 0], x, n - 1));
    if k == n - 1 {
      HornerSame(F, p, p[k := 0], x, n - 1);
      MulOneXor(F, p[k], h);
    } else {
      HornerUpdate(F, p, x, k, n - 1);
      var t := Mul(F, p[k], Pow(F, x, n - 2 - k));
      MulDist(F, x, Horner(F, p[k := 0], x, n - 1), t);
      MulLeftComm(F, x, p[k], Pow(F, x, n - 2 - k));
      XorAssoc(p[n - 1], h, Mul(F, x, t));
    }
  }

  lemma MulOneXor(F: Gf, a: nat, h: nat)
    requires a <= Nn(F)
    ensures Xor(a, h) == Xor(Xor(0, h), Mul(F, a, 1))
  {
    hide Mul, Xor, FullPeriod;
    MulOne(F, a);
    XorZero(h);
    XorComm(a, h);
  }

  /** The change made to the symbol at `loc`; the pad is never changed. */
  function ErrAt(C: Code, err: seq<nat>, loc: nat): nat {
    if C.pad <= loc < C.pad + |err| then err[loc - C.pad] else 0
  }

  ghost function SparseSum(C: Code, err: seq<nat>, locs: seq<nat>, z: nat, n: nat): nat
    requires n <= |locs| && Locations(C, locs)
  {
    if n == 0 then 0
    else Xor(SparseSum(C, err, locs, z, n - 1),
             Mul(C.field, ErrAt(C, err, locs[n - 1]), Pow(C.field, z, C.nn() - 1 - locs[n - 1])))
  }

  /** Every changed symbol is among the first n locations. */
  predicate Covers(C: Code, err: seq<nat>, locs: seq<nat>, n: nat)
    requires n <= |locs|
  {
    forall p :: 0 <= p < |err| && err[p] != 0 ==> p + C.pad in locs[..n]
  }

  lemma {:induction false} SparseSame(C: Code, err: seq<nat>, p: nat, locs: seq<nat>, z: nat, n: nat)
    requires n <= |locs| && Locations(C, locs) && p < |err|
    requires p + C.pad !in locs[..n]
    ensures SparseSum(C, err[p := 0], locs, z, n) == SparseSum(C, err, locs, z, n)
  {
    hide Mul, Xor, FullPeriod, Pow;
    if n > 0 {
      assert locs[..n - 1] == locs[..n][..n - 1];
      SparseSame(C, err, p, locs, z, n - 1);
      assert locs[n - 1] == locs[..n][n - 1];
    }
  }

  /** A block that is zero off the given locations is the sum of its symbols there. */
  lemma {:induction false} SparseHorner(C: Code, err: seq<nat>, locs: seq<nat>, z: nat, n: nat)
    requires IsBlock(C, err) && Locations(C, locs) && Distinct(locs) && n <= |locs|
    requires Covers(C, err, locs, n)
    ensures Horner(C.field, err, z, |err|) == SparseSum(C, err, locs, z, n)
    decreases n
  {
    hide Mul, Xor, FullPeriod, Pow;
    if n == 0 {
      assert locs[..0] == [];
      HornerZero(C.field, err, z, |err|);
    } else {
      var loc := locs[n - 1];
      assert locs[..n] == locs[..n - 1] + [loc];
      if loc < C.pad {
        SparseHorner(C, err, locs, z, n - 1);
        MulZero(C.field, Pow(C.field, z, C.nn() - 1 - loc));
        XorZero(SparseSum(C, err, locs, z, n - 1));
      } else {
        var p := loc - C.pad;
        SparseHorner(C, err[p := 0], locs, z, n - 1);
        SparseSame(C, err, p, locs, z, n - 1);
        HornerUpdate(C.field, err, z, p, |err|);
      }
    }
  }

  /** Error weights: the change times a power of the locator. */
  ghost function Weights(C: Code, err: seq<nat>, locs: seq<nat>): (ws: seq<nat>)
    requires Locations(C, locs)
    ensures |ws| == |locs| && Symbols(C.field, ws)
    ensures forall l :: 0 <= l < |locs| ==>
              ws[l] == Mul(C.field, ErrAt(C, err, locs[l]), Pow(C.field, Locator(C, locs[l]), C.fcr))
  {
    seq(|locs|, l requires 0 <= l < |locs| =>
      Mul(C.field, ErrAt(C, err, locs[l]), Pow(C.field, Locator(C, locs[l]), C.fcr)))
  }

  lemma {:induction false} SparsePowerSum(C: Code, err: seq<nat>, locs: seq<nat>, i: nat, n: nat)
    requires Locations(C, locs) && n <= |locs|
    ensures SparseSum(C, err, locs, Root(C, i), n)
            == PowerSum(C.field, Weights(C, err, locs), Locators(C, locs), i, n)
  {
    hide Mul, Xor, FullPeriod, Pow, Root, Locator, Weights, Locators;
    if n > 0 {
      SparsePowerSum(C, err, locs, i, n - 1);
      var loc := locs[n - 1];
      var x := Locator(C, loc);
      RootPower(C, i, loc);
      MulAssoc(C.field, ErrAt(C, err, loc), Pow(C.field, x, C.fcr), Pow(C.field, x, i));
    }
  }

  /** The changes that turned c into data. */
  function Difference(c: seq<nat>, data: seq<nat>): (err: seq<nat>)
    requires |c| == |data|
    ensures |err| == |c|
    ensures forall p :: 0 <= p < |c| ==> err[p] == Xor(c[p], data[p])
  {
    seq(|c|, p requires 0 <= p < |c| => Xor(c[p], data[p]))
  }

  lemma DifferenceProperties(C: Code, c: seq<nat>, data: seq<nat>)
    requires IsBlock(C, c) && IsBlock(C, data)
    ensures IsBlock(C, Difference(c, data))
    ensures forall p :: 0 <= p < |c| ==> (Difference(c, data)[p] == 0 <==> c[p] == data[p])
    ensures forall p :: 0 <= p < |c| ==> data[p] == Xor(c[p], Difference(c, data)[p])
    ensures forall p :: 0 <= p < |c| ==> c[p] == Xor(data[p], Difference(c, data)[p])
  {
    hide Xor, FullPeriod;
    forall p | 0 <= p < |c|
      ensures Difference(c, data)[p] <= Nn(C.field)
      ensures Difference(c, data)[p] == 0 <==> c[p] == data[p]
      ensures data[p] == Xor(c[p], Difference(c, data)[p])
      ensures c[p] == Xor(data[p], Difference(c, data)[p])
    {
      XorRange(C.field, c[p], data[p]);
      XorEqualZero(c[p], data[p]);
      XorCancel(data[p], c[p]);
      XorCancel(c[p], data[p]);
      XorComm(c[p], data[p]);
    }
  }

  /** The syndromes of a damaged codeword are power sums over the damaged locations. */
  lemma SyndromesOfErrors(C: Code, c: seq<nat>, data: seq<nat>, locs: seq<nat>)
    requires ValidCode(C) && IsCodeword(C, c) && IsBlock(C, data)
    requires Locations(C, locs) && Distinct(locs)
    requires Covers(C, Difference(c, data), locs, |locs|)
    ensures var s := Syndromes(C, data);
            forall j :: 0 <= j < C.nroots ==>
              s[j] == PowerSum(C.field, Weights(C, Difference(c, data), locs), Locators(C, locs), j, |locs|)
  {
    hide Mul, Xor, FullPeriod, Pow, Root, Locator, Weights, Locators;
    var s, err := Syndromes(C, data), Difference(c, data);
    DifferenceProperties(C, c, data);
    forall j | 0 <= j < C.nroots
      ensures s[j] == PowerSum(C.field, Weights(C, err, locs), Locators(C, locs), j, |locs|)
    {
      HornerXor(C.field, c, err, data, Root(C, j), |data|);
      assert Horner(C.field, c, Root(C, j), |c|) == 0;
      XorZero(Horner(C.field, err, Root(C, j), |data|));
      SparseHorner(C, err, locs, Root(C, j), |locs|);
      SparsePowerSum(C, err, locs, j, |locs|);
    }
  }

  lemma WeightNonzero(C: Code, err: seq<nat>, locs: seq<nat>, l: nat)
    requires IsBlock(C, err) && Locations(C, locs) && l < |locs|
    ensures Weights(C, err, locs)[l] != 0 <==> ErrAt(C, err, locs[l]) != 0
  {
    hide Mul, FullPeriod, Pow, Locator;
    var x := Locator(C, locs[l]);
    LocatorNonzero(C, locs[l]);
    PowNonzero(C.field, x, C.fcr);
    MulNonzero(C.field, ErrAt(C, err, locs[l]), Pow(C.field, x, C.fcr));
  }
}
