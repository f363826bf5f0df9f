/**
 What the Reed-Solomon codec computes, stage by stage, over field elements
 instead of logarithms: syndromes, erasure locator, Berlekamp-Massey, root
 search, error evaluation.
 */
module RsCode {
  import opened Bits
  import opened GaloisField
  import opened RsAlgebra

  datatype Code = Code(field: Gf, nroots: nat, fcr: nat, prim: nat, iprim: nat, pad: nat)
  {
    function nn(): nat {
      Nn(field)
    }
  }

  /** a * b, by repeated addition */
  function Times(a: nat, b: nat): nat {
    if b == 0 then 0 else Times(a, b - 1) + a
  }

  lemma {:induction false} TimesIsProduct(a: nat, b: nat)
    ensures Times(a, b) == a * b
  {
    if b > 0 {
      TimesIsProduct(a, b - 1);
      assert a * b == a * (b - 1) + a;
    }
  }

  /** a * b leaves the remainder 1 when divided by n. */
  ghost predicate InverseModulo(a: nat, b: nat, n: nat) {
    exists q: nat :: Times(a, b) == Times(q, n) + 1
  }

  ghost predicate ValidCode(C: Code) {
    && C.nroots + C.pad < C.nn()
    && 1 <= C.iprim <= C.nn()
    && C.prim >= 1
    && InverseModulo(C.prim, C.iprim, C.nn())
  }

  /** The i-th root of the generator polynomial. */
  ghost function Root(C: Code, i: nat): nat {
    Exp(C.field, (C.fcr + i) * C.prim)
  }

  ghost predicate IsBlock(C: Code, data: seq<nat>) {
    C.pad < C.nn() && |data| == C.nn() - C.pad && Symbols(C.field, data)
  }

  /** A block is a codeword when it vanishes at every root of the generator polynomial. */
  ghost predicate IsCodeword(C: Code, data: seq<nat>) {
    && IsBlock(C, data)
    && forall i :: 0 <= i < C.nroots ==> Horner(C.field, data, Root(C, i), |data|) == 0
  }

  /** Locator of the symbol at `loc`, counted with the pad in front. */
  ghost function Locator(C: Code, loc: nat): nat
    requires loc < C.nn()
  {
    MulMono(0, C.prim, C.nn() - 1 - loc);
    Exp(C.field, C.prim * (C.nn() - 1 - loc))
  }

  ghost predicate Locations(C: Code, locs: seq<nat>) {
    forall l :: 0 <= l < |locs| ==> locs[l] < C.nn()
  }

  ghost function Locators(C: Code, locs: seq<nat>): (xs: seq<nat>)
    requires Locations(C, locs)
    ensures |xs| == |locs|
    ensures forall l :: 0 <= l < |locs| ==> xs[l] == Locator(C, locs[l])
  {
    seq(|locs|, l requires 0 <= l < |locs| => Locator(C, locs[l]))
  }

  // ----- Syndromes

  ghost function Syndromes(C: Code, data: seq<nat>): (s: seq<nat>)
    ensures |s| == C.nroots
    ensures forall i :: 0 <= i < C.nroots ==> s[i] == Horner(C.field, data, Root(C, i), |data|)
  {
    seq(C.nroots, i requires 0 <= i < C.nroots => Horner(C.field, data, Root(C, i), |data|))
  }

  ghost predicate AllZero(s: seq<nat>) {
    forall i :: 0 <= i < |s| ==> s[i] == 0
  }

  // ----- Erasure locator polynomial

  /** Multiplication by x, within the array. */
  function ShiftUp(p: seq<nat>): (q: seq<nat>)
    requires |p| > 0
    ensures |q| == |p| && q[0] == 0
    ensures forall i :: 0 <= i < |p| - 1 ==> q[i + 1] == p[i]
  {
    [0] + p[..|p| - 1]
  }

  /** p + c*q */
  ghost function AddScaled(F: Gf, p: seq<nat>, c: nat, q: seq<nat>): (r: seq<nat>)
    requires |p| == |q|
    ensures |r| == |p|
    ensures forall i :: 0 <= i < |p| ==> r[i] == Xor(p[i], Mul(F, c, q[i]))
  {
    seq(|p|, i requires 0 <= i < |p| => Xor(p[i], Mul(F, c, q[i])))
  }

  function One(n: nat): (r: seq<nat>)
    ensures |r| == n + 1 && r[0] == 1
    ensures forall i :: 1 <= i <= n ==> r[i] == 0
  {
    [1] + seq(n, _ => 0)
  }

  /** The product of 1 + X*x over the first n erasures. */
  ghost function ErasureLocator(C: Code, eras: seq<nat>, n: nat): (lam: seq<nat>)
    requires n <= |eras| && Locations(C, eras)
    ensures |lam| == C.nroots + 1
  {
    if n == 0 then One(C.nroots)
    else
      var p := ErasureLocator(C, eras, n - 1);
      AddScaled(C.field, p, Locator(C, eras[n - 1]), ShiftUp(p))
  }

  // ----- Berlekamp-Massey

  /** Locator polynomial, correction polynomial, register length. */
  datatype Bm = Bm(lam: seq<nat>, b: seq<nat>, el: int)

  ghost predicate Sized(C: Code, st: Bm) {
    |st.lam| == C.nroots + 1 && |st.b| == C.nroots + 1
  }

  ghost function Scale(F: Gf, c: nat, q: seq<nat>): (r: seq<nat>)
    ensures |r| == |q|
    ensures forall i :: 0 <= i < |q| ==> r[i] == Mul(F, c, q[i])
  {
    seq(|q|, i requires 0 <= i < |q| => Mul(F, c, q[i]))
  }

  ghost function Discrepancy(C: Code, s: seq<nat>, lam: seq<nat>, r: nat): nat
    requires 1 <= r <= |s| == C.nroots && |lam| == C.nroots + 1
  {
    Coef(C.field, lam, s, r - 1)
  }

  /** Reciprocal, for a discrepancy that is not zero. */
  ghost function InvOf(F: Gf, a: nat): nat {
    if 0 < a <= Nn(F) then Inv(F, a) else 0
  }

  /** Step number r of the algorithm, with `rho` erasures. */
  ghost function BmStep(C: Code, s: seq<nat>, rho: nat, r: nat, st: Bm): (st': Bm)
    requires 1 <= r <= |s| == C.nroots && Sized(C, st)
    ensures Sized(C, st')
  {
    var d := Discrepancy(C, s, st.lam, r);
    if d == 0 then Bm(st.lam, ShiftUp(st.b), st.el)
    else
      var t := AddScaled(C.field, st.lam, d, ShiftUp(st.b));
      if 2 * st.el <= r + rho - 1 then Bm(t, Scale(C.field, InvOf(C.field, d), st.lam), r + rho - st.el)
      else Bm(t, ShiftUp(st.b), st.el)
  }

  /** The state after step r. */
  ghost function BmRun(C: Code, s: seq<nat>, rho: nat, lam0: seq<nat>, r: nat): (st: Bm)
    requires rho <= r <= |s| == C.nroots && |lam0| == C.nroots + 1
    ensures Sized(C, st)
  {
    if r == rho then Bm(lam0, lam0, rho)
    else BmStep(C, s, rho, r, BmRun(C, s, rho, lam0, r - 1))
  }

  // ----- Root search

  function DegreeUpTo(lam: seq<nat>, n: nat): (d: nat)
    requires n <= |lam|
    ensures d == 0 || (d < n && lam[d] != 0)
    ensures forall i :: d < i < n ==> lam[i] == 0
  {
    if n == 0 then 0
    else if lam[n - 1] != 0 then n - 1
    else DegreeUpTo(lam, n - 1)
  }

  function Degree(lam: seq<nat>): (d: nat)
    ensures d == 0 || (d < |lam| && lam[d] != 0)
    ensures forall i :: d < i < |lam| ==> lam[i] == 0
  {
    DegreeUpTo(lam, |lam|)
  }

  ghost predicate IsRoot(C: Code, lam: seq<nat>, i: nat) {
    Eval(C.field, lam, Exp(C.field, i), |lam|) == 0
  }

  /** Search the exponents i..nn, having found `acc`, and stop once `deg` roots are found. */
  ghost function Chien(C: Code, lam: seq<nat>, deg: nat, i: nat, acc: seq<nat>): seq<nat>
    decreases C.nn() + 1 - i
  {
    if i > C.nn() then acc
    else if !IsRoot(C, lam, i) then Chien(C, lam, deg, i + 1, acc)
    else if |acc| + 1 == deg then acc + [i]
    else Chien(C, lam, deg, i + 1, acc + [i])
  }

  /** The location that the search tests together with exponent i. */
  function LocOf(C: Code, i: nat): (loc: nat)
    requires 1 <= i && 1 <= C.iprim <= C.nn()
    ensures loc < C.nn()
    decreases i
  {
    if i == 1 then C.iprim - 1
    else
      var next := LocOf(C, i - 1) + C.iprim;
      if next >= C.nn() then next - C.nn() else next
  }

  // ----- Error values

  ghost function Omega(C: Code, s: seq<nat>, lam: seq<nat>, deg: nat): (om: seq<nat>)
    requires deg <= |s| == C.nroots && |lam| == C.nroots + 1
    ensures |om| == deg
    ensures forall i :: 0 <= i < deg ==> om[i] == Coef(C.field, lam, s, i)
  {
    seq(deg, i requires 0 <= i < deg => Coef(C.field, lam, s, i))
  }

  /** The formal derivative of the first n terms: in characteristic 2 only odd exponents remain. */
  ghost function Derivative(F: Gf, lam: seq<nat>, y: nat, n: nat): nat
    requires n <= |lam|
  {
    if n == 0 then 0
    else if n % 2 == 1 then Derivative(F, lam, y, n - 1)
    else Xor(Derivative(F, lam, y, n - 1), Mul(F, lam[n - 1], Pow(F, y, n - 2)))
  }

  /** Difference of logarithms; the logarithm of 0 is `nn`, which acts as that of 1. */
  ghost function Quotient(F: Gf, a: nat, b: nat): nat {
    if b == 0 then a else Mul(F, a, InvOf(F, b))
  }

  ghost function ErrorValue(C: Code, s: seq<nat>, lam: seq<nat>, deg: nat, root: nat): nat
    requires deg <= |s| == C.nroots && |lam| == C.nroots + 1 && 1 <= root <= C.nn()
  {
    var y := Exp(C.field, root);
    var num1 := Eval(C.field, Omega(C, s, lam, deg), y, deg);
    var num2 := Exp(C.field, Num2Exponent(C, root));
    Quotient(C.field, Mul(C.field, num1, num2), Derivative(C.field, lam, y, |lam|))
  }

  /** root * (FCR - 1) + NN, which is never negative. */
  function Num2Exponent(C: Code, root: nat): nat
    requires root <= C.nn()
  {
    if C.fcr == 0 then C.nn() - root else root * (C.fcr - 1) + C.nn()
  }

  /** Corrects the symbol that belongs to one root. */
  ghost function CorrectOne(C: Code, s: seq<nat>, lam: seq<nat>, deg: nat, root: nat, data: seq<nat>): (r: seq<nat>)
    requires deg <= |s| == C.nroots && |lam| == C.nroots + 1 && 1 <= root <= C.nn()
    requires 1 <= C.iprim <= C.nn() && C.pad < C.nn() && |data| == C.nn() - C.pad
    ensures |r| == |data|
  {
    var loc := LocOf(C, root);
    if C.pad <= loc then
      data[loc - C.pad := Xor(data[loc - C.pad], ErrorValue(C, s, lam, deg, root))]
    else data
  }

  ghost predicate Roots(C: Code, roots: seq<nat>) {
    forall j :: 0 <= j < |roots| ==> 1 <= roots[j] <= C.nn()
  }

  /** Corrects for roots n-1 down to 0. */
  ghost function Correct(C: Code, s: seq<nat>, lam: seq<nat>, deg: nat, roots: seq<nat>, n: nat, data: seq<nat>): (r: seq<nat>)
    requires deg <= |s| == C.nroots && |lam| == C.nroots + 1
    requires 1 <= C.iprim <= C.nn() && C.pad < C.nn() && |data| == C.nn() - C.pad
    requires n <= |roots| && Roots(C, roots)
    ensures |r| == |data|
    decreases n
  {
    if n == 0 then data
    else Correct(C, s, lam, deg, roots, n - 1, CorrectOne(C, s, lam, deg, roots[n - 1], data))
  }

  // ----- The decoder

  /** Return value, corrected block, and the locations reported back. */
  datatype Decoded = Decoded(count: int, data: seq<nat>, locs: seq<nat>)

  ghost predicate DecoderInput(C: Code, data: seq<nat>, eras: seq<nat>) {
    ValidCode(C) && IsBlock(C, data) && |eras| <= C.nroots && Locations(C, eras)
  }

  ghost function FinalLocator(C: Code, data: seq<nat>, eras: seq<nat>): (lam: seq<nat>)
    requires DecoderInput(C, data, eras)
    ensures |lam| == C.nroots + 1
  {
    BmRun(C, Syndromes(C, data), |eras|, ErasureLocator(C, eras, |eras|), C.nroots).lam
  }

  lemma {:induction false} ChienInRange(C: Code, lam: seq<nat>, deg: nat, i: nat, acc: seq<nat>)
    requires 1 <= i && Roots(C, acc)
    ensures Roots(C, Chien(C, lam, deg, i, acc))
    decreases C.nn() + 1 - i
  {
    hide IsRoot, FullPeriod, Pow2;
    if i > C.nn() {
    } else if !IsRoot(C, lam, i) {
      ChienInRange(C, lam, deg, i + 1, acc);
    } else if |acc| + 1 != deg {
      ChienInRange(C, lam, deg, i + 1, acc + [i]);
    }
  }

  ghost function FoundRoots(C: Code, lam: seq<nat>): (roots: seq<nat>)
    ensures Roots(C, roots)
  {
    ChienInRange(C, lam, Degree(lam), 1, []);
    Chien(C, lam, Degree(lam), 1, [])
  }

  ghost function Reported(C: Code, roots: seq<nat>): (locs: seq<nat>)
    requires Roots(C, roots) && 1 <= C.iprim <= C.nn()
    ensures |locs| == |roots|
    ensures forall j :: 0 <= j < |roots| ==> locs[j] == LocOf(C, roots[j])
  {
    seq(|roots|, j requires 0 <= j < |roots| => LocOf(C, roots[j]))
  }

  ghost function Decode(C: Code, data: seq<nat>, eras: seq<nat>): Decoded
    requires DecoderInput(C, data, eras)
  {
    var s := Syndromes(C, data);
    if AllZero(s) then Decoded(0, data, [])
    else
      var lam := FinalLocator(C, data, eras);
      var roots := FoundRoots(C, lam);
      if |roots| != Degree(lam) then Decoded(-1, data, [])
      else Decoded(|roots|, Correct(C, s, lam, Degree(lam), roots, |roots|, data), Reported(C, roots))
  }
}
