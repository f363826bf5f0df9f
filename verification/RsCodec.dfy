/**
 The codec as it runs: a control block with logarithm tables, and encoding
 and decoding in place over arrays, in logarithmic form.
 */
module RsCodec {
  import opened Bits
  import opened GaloisField
  import opened RsAlgebra
  import opened RsCode
  import opened RsEncoder
  import opened RsInit

  /** Index form: the logarithm, with `nn` standing for that of 0. */
  ghost function LogForm(F: Gf, a: nat): (k: nat)
    ensures k <= Nn(F)
    ensures 0 < a <= Nn(F) ==> k < Nn(F) && Exp(F, k) == a
    ensures a == 0 ==> k == Nn(F)
  {
    if 0 < a <= Nn(F) then Log(F, a) else Nn(F)
  }

  ghost function LogForms(F: Gf, p: seq<nat>): (q: seq<nat>)
    ensures |q| == |p|
    ensures forall i :: 0 <= i < |p| ==> q[i] == LogForm(F, p[i])
  {
    seq(|p|, i requires 0 <= i < |p| => LogForm(F, p[i]))
  }

  /** Adding index forms multiplies. */
  lemma LogFormMul(F: Gf, a: nat, b: nat)
    requires 0 < a <= Nn(F) && 0 < b <= Nn(F)
    ensures Exp(F, LogForm(F, a) + LogForm(F, b)) == Mul(F, a, b)
  {
    hide Exp, Mul, FullPeriod, Log;
    MulExp(F, LogForm(F, a), LogForm(F, b));
  }

  lemma FullPeriodEnds(F: Lfsr)
    requires FullPeriod(F)
    ensures Exp(F, Nn(F)) == 1
  {
  }

  lemma LogFormExp(F: Gf, k: nat)
    requires k < Nn(F)
    ensures LogForm(F, Exp(F, k)) == k
  {
    hide Exp, FullPeriod;
    LogExp(F, k);
    ModUnique(k, Nn(F), 0, k);
  }

  class Rs {
    const mm: nat
    const nn: nat
    const nroots: nat
    const fcr: nat
    const prim: nat
    const pad: nat
    var iprim: nat
    const alphaTo: array<nat>
    const indexOf: array<nat>
    const genpoly: array<nat>
    ghost const gfpoly: nat

    /** Allocates the control block; table contents are arbitrary. */
    constructor(symsize: nat, poly: nat, fcr: nat, prim: nat, nroots: nat, pad: nat)
      requires symsize >= 1
      ensures Shape()
      ensures mm == symsize && gfpoly == poly && this.fcr == fcr && this.prim == prim
      ensures this.nroots == nroots && this.pad == pad
      ensures fresh(alphaTo) && fresh(indexOf) && fresh(genpoly)
    {
      mm := symsize;
      nn := Pow2(symsize) - 1;
      this.fcr, this.prim, this.nroots, this.pad := fcr, prim, nroots, pad;
      iprim := 0;
      alphaTo := new nat[Pow2(symsize)];
      indexOf := new nat[Pow2(symsize)];
      genpoly := new nat[nroots + 1];
      gfpoly := poly;
    }

    ghost function Register(): Lfsr {
      Lfsr(mm, gfpoly)
    }

    ghost predicate Shape() {
      && mm >= 1 && nn == Pow2(mm) - 1
      && alphaTo.Length == nn + 1 && indexOf.Length == nn + 1 && genpoly.Length == nroots + 1
      && alphaTo != indexOf && alphaTo != genpoly && indexOf != genpoly
    }

    /** The tables are those of the field. */
    ghost predicate Tables()
      reads alphaTo, indexOf
      ensures Tables() ==> Shape() && FullPeriod(Register())
    {
      && Shape() && FullPeriod(Register())
      && (forall i :: 0 <= i < nn ==> alphaTo[i] == Exp(Register(), i))
      && alphaTo[nn] == 0
      && forall a :: 0 <= a <= nn ==> indexOf[a] == LogForm(Register(), a)
    }

    ghost function TheCode(): Code
      requires FullPeriod(Register())
      reads this
    {
      Code(Register(), nroots, fcr, prim, iprim, pad)
    }

    ghost predicate Valid()
      reads this, alphaTo, indexOf, genpoly
      ensures Valid() ==> Tables() && Shape() && FullPeriod(Register()) && ValidCode(TheCode())
    {
      && Tables() && ValidCode(TheCode())
      && genpoly[..] == LogForms(Register(), GenPoly(TheCode(), nroots))
    }

    /** Reduction modulo nn by folding the high bits onto the low ones. */
    method ModNN(x: nat) returns (r: nat)
      requires Shape()
      ensures nn >= 1 && r == x % nn
    {
      hide Shr, Low;
      r := x;
      assert Pow2(mm) == 2 * Pow2(mm - 1);
      while r >= nn
        invariant r % nn == x % nn
      {
        r := r - nn;
        ModPlus(r, nn);
        ghost var y := r;
        ShrLow(r, mm);
        r := Shr(r, mm) + Low(r, mm);
        FoldMod(y, Shr(y, mm), Low(y, mm), nn);
      }
      ModUnique(r, nn, 0, r);
    }

    /** ALPHA_TO[MODNN(e)] */
    method Antilog(e: nat) returns (a: nat)
      requires Tables()
      ensures a == Exp(Register(), e)
    {
      var k := ModNN(e);
      ExpMod(Register(), e);
      a := alphaTo[k];
    }

    /** INDEX_OF[v] */
    method IndexOf(v: nat) returns (k: nat)
      requires Tables() && v <= nn
      ensures k == LogForm(Register(), v)
    {
      k := indexOf[v];
    }

    /** ALPHA_TO[k] of a reduced index */
    method AlphaTo(k: nat) returns (a: nat)
      requires Tables() && k < nn
      ensures a == Exp(Register(), k)
    {
      a := alphaTo[k];
    }

    /** ALPHA_TO[MODNN(j + k)] for the index forms of two nonzero symbols */
    method Product(j: nat, k: nat, ghost a: nat, ghost b: nat) returns (c: nat)
      requires Tables() && 0 < a <= nn && 0 < b <= nn
      requires j == LogForm(Register(), a) && k == LogForm(Register(), b)
      ensures c == Mul(Register(), a, b)
    {
      hide Exp, Mul, FullPeriod;
      c := Antilog(j + k);
      LogFormMul(Register(), a, b);
    }

    /** ALPHA_TO[MODNN(INDEX_OF[v] + e)] for a nonzero symbol v */
    method TimesPower(v: nat, e: nat) returns (a: nat)
      requires Tables() && 0 < v <= nn
      ensures a == Mul(Register(), v, Exp(Register(), e))
    {
      hide Exp, Mul, FullPeriod;
      a := Antilog(indexOf[v] + e);
      LogFormTimesExp(Register(), v, e);
    }

    /** Fills the tables by walking the shift register; reports whether the walk ends at 1. */
    method GenerateTables(poly: nat) returns (ok: bool)
      requires Shape() && poly == gfpoly
      modifies alphaTo, indexOf
      ensures ok <==> Exp(Register(), nn) == 1
      ensures forall i :: 0 <= i < nn ==> alphaTo[i] == Exp(Register(), i) && alphaTo[i] <= nn
      ensures alphaTo[nn] == 0
      ensures forall i :: 0 <= i < nn ==> i <= indexOf[alphaTo[i]] < nn && alphaTo[indexOf[alphaTo[i]]] == alphaTo[i]
      ensures FullPeriod(Register()) ==> ok && Tables()
    {
      hide Exp, FullPeriod, Tables;
      var sr := Walk(poly);
      ok := sr == 1;
      if FullPeriod(Register()) {
        TablesFilled();
        FullPeriodEnds(Register());
      }
    }

    /** The loop over all clocks; the result is the register after the last one. */
    method Walk(poly: nat) returns (sr: nat)
      requires Shape() && poly == gfpoly
      modifies alphaTo, indexOf
      ensures sr == Exp(Register(), nn) && Entered(nn)
      ensures forall i :: 0 <= i < nn ==> alphaTo[i] == Exp(Register(), i)
    {
      hide Exp, FullPeriod, Step, Entered, Pow2, Nn;
      EnterZero();
      sr := 1;
      ExpStart(Register());
      for i := 0 to nn
        invariant sr == Exp(Register(), i) && sr <= nn
        invariant forall k :: 0 <= k < i ==> alphaTo[k] == Exp(Register(), k)
        invariant Entered(i)
      {
        Enter(i, sr);
        ExpStep(Register(), i);
        sr := NextRegister(sr, poly);
      }
    }

    /** After i clocks `index_of` gives the last place of every symbol that was visited. */
    ghost predicate Entered(i: nat)
      requires Shape() && i <= nn
      reads alphaTo, indexOf
    {
      && alphaTo[nn] == 0 && (forall k :: 0 <= k < i ==> alphaTo[k] <= nn)
      && ((forall k :: 0 <= k < i ==> alphaTo[k] != 0) ==> indexOf[0] == nn)
      && forall k :: 0 <= k < i ==> k <= indexOf[alphaTo[k]] < i && alphaTo[indexOf[alphaTo[k]]] == alphaTo[k]
    }

    /** The logarithm of 0, as both tables have it. */
    method EnterZero()
      requires Shape()
      modifies alphaTo, indexOf
      ensures Entered(0) && nn >= 1
    {
      assert Pow2(mm) == 2 * Pow2(mm - 1);
      indexOf[0] := nn;
      alphaTo[nn] := 0;
    }

    method Enter(i: nat, sr: nat)
      requires Shape() && i < nn && sr <= nn && Entered(i)
      modifies alphaTo, indexOf
      ensures Entered(i + 1) && alphaTo[i] == sr && forall k :: 0 <= k < i ==> alphaTo[k] == old(alphaTo[k])
    {
      indexOf[sr] := i;
      alphaTo[i] := sr;
      assert forall k :: 0 <= k < i ==> alphaTo[k] == old(alphaTo[k]);
      if forall k :: 0 <= k < i + 1 ==> alphaTo[k] != 0 {
        assert alphaTo[i] != 0;
        assert forall k :: 0 <= k < i ==> alphaTo[k] != 0;
      }
    }

    /** One clock of the register. */
    method NextRegister(sr: nat, poly: nat) returns (next: nat)
      requires Shape() && poly == gfpoly
      ensures next == Step(Register(), sr) && next <= nn
    {
      hide Low, Bit, Xor;
      StepBound(Register(), sr);
      next := 2 * sr;
      if Bit(next, mm) {
        next := Xor(next, poly);
      }
      next := Low(next, mm);
    }

    /** Under full period no entry is overwritten and none is left out. */
    lemma TablesFilled()
      requires Shape() && FullPeriod(Register()) && Entered(nn)
      requires forall i :: 0 <= i < nn ==> alphaTo[i] == Exp(Register(), i)
      ensures Tables()
    {
      hide Exp, FullPeriod;
      ghost var F := Register();
      forall i | 0 <= i < nn
        ensures alphaTo[i] != 0 && indexOf[alphaTo[i]] == i
      {
        ExpNonzero(F, i);
        if indexOf[alphaTo[i]] != i {
          ExpInjective(F, i, indexOf[alphaTo[i]]);
        }
      }
      forall a | 0 <= a <= nn
        ensures indexOf[a] == LogForm(F, a)
      {
        if a > 0 {
          assert alphaTo[LogForm(F, a)] == a;
        }
      }
    }

    /** Searches for the inverse of prim among the multiples of nn plus one. */
    method FindIprim()
      requires Shape() && prim >= 1 && Gcd(prim, nn) == 1
      modifies this`iprim
      ensures 1 <= iprim <= nn && InverseModulo(prim, iprim, nn)
    {
      hide Gcd;
      assert nn >= 1 by {
        assert Pow2(mm) == 2 * Pow2(mm - 1);
      }
      IprimSearchEnds(prim, nn);
      ghost var last :| 0 <= last < prim && Candidate(nn, last) % prim == 0;
      var ip := 1;
      ghost var k := 0;
      while ip % prim != 0
        invariant ip == Candidate(nn, k) && 0 <= k <= last
        decreases last - k
      {
        ip := ip + nn;
        k := k + 1;
        assert ip == Candidate(nn, k) by {
          NextCandidate(nn, k - 1);
        }
      }
      iprim := ip / prim;
      InverseFound(prim, nn, k, ip);
    }

    /** Multiplies out the generator polynomial and converts it to index form. */
    method BuildGenerator()
      requires Tables() && ValidCode(TheCode())
      modifies genpoly
      ensures Valid()
    {
      hide Exp, FullPeriod, Mul, Xor, ValidCode, Symbols;
      ghost var F, C := Register(), TheCode();
      genpoly[0] := 1;
      var root := fcr * prim;
      for i := 0 to nroots
        invariant root == (fcr + i) * prim
        invariant genpoly[..i + 1] == GenPoly(C, i)
      {
        MultiplyIn(i, root);
        root := root + prim;
        assert root == (fcr + i + 1) * prim;
      }
      ghost var g := GenPoly(C, nroots);
      assert genpoly[..] == g;
      GenPolyMonic(C, nroots);
      for i := 0 to nroots + 1
        invariant forall k :: 0 <= k < i ==> genpoly[k] == LogForm(F, g[k])
        invariant forall k :: i <= k <= nroots ==> genpoly[k] == g[k]
      {
        SymbolAt(F, g, i);
        genpoly[i] := indexOf[genpoly[i]];
      }
      assert genpoly[..] == LogForms(F, g);
    }

    /** One factor of the generator polynomial, multiplied in place from the top. */
    method MultiplyIn(i: nat, root: nat)
      requires Tables() && i < nroots && root == (fcr + i) * prim
      requires genpoly[..i + 1] == GenPoly(TheCode(), i)
      modifies genpoly
      ensures genpoly[..i + 2] == GenPoly(TheCode(), i + 1)
    {
      hide Exp, FullPeriod, Mul, Xor, GenPoly, Symbols, Tables;
      ghost var F, C := Register(), TheCode();
      ghost var p, z := GenPoly(C, i), Root(C, i);
      GenPolyMonic(C, i);
      GenPolyConstant(C, i);
      assert forall k :: 0 <= k <= i ==> genpoly[k] == genpoly[..i + 1][k];
      genpoly[i + 1] := 1;
      for j := i + 1 downto 1
        invariant forall k :: 0 <= k < j ==> genpoly[k] == p[k]
        invariant forall k :: j <= k <= i + 1 ==> genpoly[k] == NextCoefficient(F, p, z, k)
      {
        SymbolAt(F, p, j);
        if genpoly[j] != 0 {
          var a := TimesPower(genpoly[j], root);
          genpoly[j] := Xor(genpoly[j - 1], a);
        } else {
          MulZero(F, z);
          XorZero(p[j - 1]);
          genpoly[j] := genpoly[j - 1];
        }
      }
      SymbolAt(F, p, 0);
      var a := TimesPower(genpoly[0], root);
      genpoly[0] := a;
      GenPolyNext(C, i);
      ghost var g := GenPoly(C, i + 1);
      assert genpoly[0] == NextCoefficient(F, p, z, 0);
      assert forall k :: 0 <= k <= i + 1 ==> genpoly[k] == g[k];
      assert genpoly[..i + 2] == g;
    }

    /** One clock of the encoder's shift register, with the feedback symbol in index form. */
    method Clock(parity: array<nat>, feedback: nat, ghost fb: nat)
      requires Valid() && nroots >= 1 && fb <= nn && feedback == LogForm(Register(), fb)
      requires parity.Length == nroots
      requires parity != alphaTo && parity != indexOf && parity != genpoly
      modifies parity
      ensures parity[..] == Shifted(Register(), GenPoly(TheCode(), nroots), old(parity[..]), fb)
    {
      hide Mul, Xor, FullPeriod, GenPoly, Exp, Shifted, ValidCode, LogForm, Pow2;
      ghost var F, C, p := Register(), TheCode(), parity[..];
      ghost var g := GenPoly(C, nroots);
      assert genpoly[..] == LogForms(F, g);
      if feedback != nn {
        for j := 1 to nroots
          invariant forall k :: 1 <= k < j ==> parity[k] == Xor(p[k], Mul(F, fb, g[nroots - k]))
          invariant forall k :: j <= k < nroots ==> parity[k] == p[k]
          invariant parity[0] == p[0]
        {
          GeneratorTerm(F, C, fb, nroots - j);
          assert genpoly[nroots - j] == genpoly[..][nroots - j] == LogForm(F, g[nroots - j]);
          var a := Antilog(feedback + genpoly[nroots - j]);
          parity[j] := Xor(parity[j], a);
        }
      }
      label Shifting:
      forall j | 0 <= j < nroots - 1 {
        parity[j] := parity[j + 1];
      }
      if feedback != nn {
        GeneratorTerm(F, C, fb, 0);
        assert genpoly[0] == genpoly[..][0] == LogForm(F, g[0]);
        var a := Antilog(feedback + genpoly[0]);
        parity[nroots - 1] := a;
      } else {
        parity[nroots - 1] := 0;
      }
      ghost var q := Shifted(F, g, p, fb);
      forall j | 0 <= j < nroots
        ensures parity[j] == q[j]
      {
        if feedback == nn {
          NoFeedback(F, g, p, j);
        }
      }
      assert parity[..] == q;
    }

    /** Takes one data symbol into the shift register. */
    method ClockIn(parity: array<nat>, d: nat)
      requires Valid() && nroots >= 1 && d <= nn
      requires parity.Length == nroots && Symbols(Register(), parity[..])
      requires parity != alphaTo && parity != indexOf && parity != genpoly
      modifies parity
      ensures parity[..] == Shifted(Register(), GenPoly(TheCode(), nroots), old(parity[..]), Feedback(d, old(parity[..])))
    {
      hide Mul, Xor, FullPeriod, GenPoly, Exp, Shifted, ValidCode;
      assert parity[..][0] == parity[0];
      XorRange(Register(), d, parity[0]);
      var feedback := indexOf[Xor(d, parity[0])];
      Clock(parity, feedback, Xor(d, parity[0]));
    }

    method ClearParity(parity: array<nat>)
      modifies parity
      ensures forall i :: 0 <= i < parity.Length ==> parity[i] == 0
    {
      forall i | 0 <= i < parity.Length {
        parity[i] := 0;
      }
    }

    /** Computes the parity of a block of data. */
    method Encode(data: array<nat>, parity: array<nat>)
      requires Valid() && EncoderInput(TheCode(), data[..])
      requires parity.Length == nroots
      requires parity != data && parity != alphaTo && parity != indexOf && parity != genpoly
      modifies parity
      ensures parity[..] == RsEncoder.Encode(TheCode(), data[..])
      ensures IsCodeword(TheCode(), data[..] + parity[..])
    {
      hide FullPeriod, ValidCode, IsCodeword, Valid, Tables, EncoderInput, RsEncoder.Register, RsEncoder.Encode, Shape, Nn, Pow2;
      ghost var C, D := TheCode(), data[..];
      EncodeGivesCodeword(C, D);
      InputParts(C, D);
      ClearParity(parity);
      StartRegister(C, D, parity[..]);
      for i := 0 to data.Length
        invariant Valid() && TheCode() == C && data[..] == D
        invariant parity[..] == RsEncoder.Register(C, D, i)
      {
        EncodeSymbol(C, D, i, data[i], parity);
      }
      assert data[..] == D;
    }

    /** Clocks the i-th symbol of a block in. */
    method EncodeSymbol(ghost C: Code, ghost D: seq<nat>, ghost i: nat, d: nat, parity: array<nat>)
      requires Valid() && C == TheCode() && EncoderInput(C, D) && i < |D| && d == D[i]
      requires parity.Length == nroots && parity != alphaTo && parity != indexOf && parity != genpoly
      requires parity[..] == RsEncoder.Register(C, D, i)
      modifies parity
      ensures parity[..] == RsEncoder.Register(C, D, i + 1)
    {
      hide Mul, Xor, FullPeriod, GenPoly, Exp, Shifted, ValidCode, LogForm, Symbols, Valid, Tables;
      RegisterSymbols(C, D, i);
      SymbolAt(Register(), D, i);
      ClockIn(parity, d);
    }
  }

  lemma InputParts(C: Code, data: seq<nat>)
    requires EncoderInput(C, data)
    ensures C.nroots >= 1 && RsEncoder.Encode(C, data) == RsEncoder.Register(C, data, |data|)
  {
  }

  lemma StartRegister(C: Code, data: seq<nat>, p: seq<nat>)
    requires C.nroots >= 1 && |p| == C.nroots && forall i :: 0 <= i < |p| ==> p[i] == 0
    ensures p == RsEncoder.Register(C, data, 0)
  {
  }

  /** The generator's coefficients have logarithms, so they can be added unseen. */
  lemma GeneratorTerm(F: Gf, C: Code, fb: nat, k: nat)
    requires F == C.field && ValidCode(C) && k <= C.nroots && 0 < fb <= Nn(F)
    ensures Exp(F, LogForm(F, fb) + LogForm(F, GenPoly(C, C.nroots)[k])) == Mul(F, fb, GenPoly(C, C.nroots)[k])
  {
    hide Mul, FullPeriod, GenPoly, Exp, ValidCode, LogForm;
    GenPolyNonzero(C, k);
    GenPolyMonic(C, C.nroots);
    LogFormMul(F, fb, GenPoly(C, C.nroots)[k]);
  }

  lemma NoFeedback(F: Gf, g: seq<nat>, p: seq<nat>, j: nat)
    requires |g| == |p| + 1 && j < |p|
    ensures ShiftedAt(F, g, p, 0, j) == if j < |p| - 1 then p[j + 1] else 0
  {
    hide Mul, Xor, FullPeriod;
    MulZero(F, g[0]);
    if j < |p| - 1 {
      MulZero(F, g[|p| - 1 - j]);
      XorZero(p[j + 1]);
    }
  }

  lemma ExpStep(F: Lfsr, i: nat)
    ensures Exp(F, i + 1) == Step(F, Exp(F, i))
  {
  }

  lemma NextCandidate(nn: nat, k: nat)
    ensures Candidate(nn, k + 1) == Candidate(nn, k) + nn
  {
    assert (k + 1) * nn == k * nn + nn;
  }

  lemma InverseFound(prim: nat, nn: nat, k: nat, ip: nat)
    requires prim >= 1 && nn >= 1 && k < prim && ip == Candidate(nn, k) && ip % prim == 0
    ensures 1 <= ip / prim <= nn && InverseModulo(prim, ip / prim, nn)
  {
    ExactDivision(ip, prim);
    var q := ip / prim;
    assert prim * q == q * prim == 1 + k * nn;
    MulMono(k, prim - 1, nn);
    assert (prim - 1) * nn == prim * nn - nn;
    CancelMul(q, nn, prim);
    TimesIsProduct(prim, q);
    TimesIsProduct(k, nn);
    assert Times(prim, q) == Times(k, nn) + 1;
  }

  lemma CancelMul(q: nat, n: nat, p: nat)
    requires p >= 1 && q * p <= n * p
    ensures q <= n
  {
    if q > n {
      MulMono(n + 1, q, p);
    }
  }

  lemma LogFormTimesExp(F: Gf, a: nat, e: nat)
    requires 0 < a <= Nn(F)
    ensures Exp(F, LogForm(F, a) + e) == Mul(F, a, Exp(F, e))
  {
    hide Exp, Mul, FullPeriod, Log;
    MulExp(F, LogForm(F, a), e);
  }

  lemma {:induction false} GenPolyConstant(C: Code, n: nat)
    ensures 0 < GenPoly(C, n)[0] <= C.nn()
  {
    hide Exp, Mul, FullPeriod, Root;
    NnPositive(C.field);
    if n > 0 {
      GenPolyConstant(C, n - 1);
      RootRange(C, n - 1);
      MulNonzero(C.field, GenPoly(C, n - 1)[0], Root(C, n - 1));
    }
  }

  lemma GenPolyNext(C: Code, i: nat)
    ensures forall k :: 0 <= k <= i + 1 ==>
              GenPoly(C, i + 1)[k] == NextCoefficient(C.field, GenPoly(C, i), Root(C, i), k)
  {
  }

  lemma SymbolAt(F: Lfsr, p: seq<nat>, i: nat)
    requires Symbols(F, p) && i < |p|
    ensures p[i] <= Nn(F)
  {
  }

  lemma FoldMod(y: nat, h: nat, l: nat, nn: nat)
    requires nn >= 1 && y == h * (nn + 1) + l
    ensures (h + l) % nn == y % nn && h + l <= y
  {
    assert y == h * nn + (h + l);
    var q := (h + l) / nn;
    assert h + l == q * nn + (h + l) % nn;
    assert h * nn + q * nn == (h + q) * nn;
    ModUnique(y, nn, h + q, (h + l) % nn);
  }

  /** The ranges that the initialisation accepts; `symbolBits` is the width of the symbol type. */
  predicate ParametersAccepted(symbolBits: nat, symsize: int, fcr: int, prim: int, nroots: int, pad: int) {
    && 0 <= symsize <= symbolBits
    && 0 <= fcr < Pow2(symsize)
    && 0 < prim < Pow2(symsize)
    && 0 <= nroots < Pow2(symsize)
    && 0 <= pad < Pow2(symsize) - 1 - nroots
  }

  /** What the initialisation relies on without checking it. */
  ghost predicate CallerPromises(symsize: nat, gfpoly: nat, prim: nat) {
    var F := Lfsr(symsize, gfpoly);
    && (Exp(F, Nn(F)) == 1 ==> FullPeriod(F))
    && Gcd(prim, Nn(F)) == 1
  }

  /** Sets up a control block, or returns null for parameters or a polynomial that fail the checks. */
  method InitRs(symbolBits: nat, symsize: int, gfpoly: nat, fcr: int, prim: int, nroots: int, pad: int) returns (rs: Rs?)
    requires ParametersAccepted(symbolBits, symsize, fcr, prim, nroots, pad) ==> CallerPromises(symsize, gfpoly, prim)
    ensures rs != null <==>
              && ParametersAccepted(symbolBits, symsize, fcr, prim, nroots, pad)
              && Exp(Lfsr(symsize, gfpoly), Pow2(symsize) - 1) == 1
    ensures rs != null ==> fresh(rs) && fresh(rs.alphaTo) && fresh(rs.indexOf) && fresh(rs.genpoly)
    ensures rs != null ==> rs.Valid() && rs.Register() == Lfsr(symsize, gfpoly)
    ensures rs != null ==> rs.fcr == fcr && rs.prim == prim && rs.nroots == nroots && rs.pad == pad
  {
    hide Exp, FullPeriod, Gcd;
    rs := null;
    if symsize < 0 || symsize > symbolBits {
      return;
    }
    if fcr < 0 || fcr >= Pow2(symsize) {
      return;
    }
    if prim <= 0 || prim >= Pow2(symsize) {
      return;
    }
    if nroots < 0 || nroots >= Pow2(symsize) {
      return;
    }
    if pad < 0 || pad >= Pow2(symsize) - 1 - nroots {
      return;
    }
    assert symsize >= 1;
    var block := new Rs(symsize, gfpoly, fcr, prim, nroots, pad);
    var ok := block.GenerateTables(gfpoly);
    if !ok {
      return;
    }
    block.FindIprim();
    block.BuildGenerator();
    rs := block;
  }
}
