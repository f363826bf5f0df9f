/** The decoder as it runs, stage by stage over its work arrays. */
module RsDecodeBlock {
  import opened Bits
  import opened GaloisField
  import opened RsAlgebra
  import opened RsCode
  import opened RsErrors
  import opened RsBerlekamp
  import opened RsForney
  import opened RsDecoder
  import opened RsUncorrectable
  import opened RsCodec

  /** A work array of the decoder or of its caller, none of the codec's tables. */
  predicate Apart(rs: Rs, a: array<nat>) {
    a != rs.alphaTo && a != rs.indexOf && a != rs.genpoly
  }

  // ----- Index arithmetic

  /** Index of the locator of a position. */
  method LocatorIndex(rs: Rs, loc: nat) returns (u: nat)
    requires rs.Valid() && loc < rs.nn
    ensures u < rs.nn && Exp(rs.Register(), u) == Locator(rs.TheCode(), loc)
  {
    hide Exp, FullPeriod, Rs.Valid, Rs.Tables, ValidCode;
    MulMono(0, rs.prim, rs.nn - 1 - loc);
    ExpMod(rs.Register(), rs.prim * (rs.nn - 1 - loc));
    u := rs.ModNN(rs.prim * (rs.nn - 1 - loc));
  }

  lemma TimesIndex(F: Gf, u: nat, a: nat)
    requires 0 < a <= Nn(F)
    ensures Exp(F, u + LogForm(F, a)) == Mul(F, Exp(F, u), a)
  {
    hide Mul, Exp, FullPeriod, Log;
    MulExp(F, u, LogForm(F, a));
  }

  /** A coefficient in index form times a power of a root. */
  method TermAt(rs: Rs, w: nat, i: nat, root: nat, ghost c: nat) returns (a: nat)
    requires rs.Valid() && 0 < c <= rs.nn && w == LogForm(rs.Register(), c)
    ensures a == Mul(rs.Register(), c, Pow(rs.Register(), Exp(rs.Register(), root), i))
  {
    hide Mul, Pow, Exp, FullPeriod, LogForm, Rs.Valid, Rs.Tables, ValidCode;
    MulMono(0, i, root);
    TermValue(rs.Register(), c, root, i, i * root);
    a := rs.Antilog(w + i * root);
  }

  /** A nonzero value times the i-th root of the generator polynomial. */
  method TimesRoot(rs: Rs, v: nat, i: nat) returns (a: nat)
    requires rs.Valid() && 0 < v <= rs.nn
    ensures a == Mul(rs.Register(), v, Root(rs.TheCode(), i))
  {
    hide Mul, Exp, FullPeriod, Rs.Valid, Rs.Tables, ValidCode;
    MulMono(0, rs.fcr + i, rs.prim);
    a := rs.TimesPower(v, (rs.fcr + i) * rs.prim);
  }

  // ----- Syndromes

  /** Evaluates the block at every root at once. */
  method FormSyndromes(rs: Rs, data: array<nat>, s: array<nat>)
    requires rs.Valid() && IsBlock(rs.TheCode(), data[..]) && s.Length == rs.nroots
    requires Apart(rs, s) && s != data
    modifies s
    ensures s[..] == Syndromes(rs.TheCode(), data[..])
  {
    hide Mul, Xor, Exp, FullPeriod, Rs.Valid, Rs.Tables, ValidCode, Root, Horner;
    ghost var C, F, D := rs.TheCode(), rs.Register(), data[..];
    for i := 0 to rs.nroots
      invariant forall k :: 0 <= k < i ==> s[k] == Horner(F, D, Root(C, k), 1)
    {
      s[i] := data[0];
      HornerStart(F, D, Root(C, i));
    }
    for j := 1 to data.Length
      invariant forall k :: 0 <= k < rs.nroots ==> s[k] == Horner(F, D, Root(C, k), j)
    {
      for i := 0 to rs.nroots
        invariant forall k :: 0 <= k < i ==> s[k] == Horner(F, D, Root(C, k), j + 1)
        invariant forall k :: i <= k < rs.nroots ==> s[k] == Horner(F, D, Root(C, k), j)
      {
        HornerNext(F, D, Root(C, i), j);
        if s[i] == 0 {
          s[i] := data[j];
          MulZero(F, Root(C, i));
          XorZero(D[j]);
        } else {
          MulComm(F, s[i], Root(C, i));
          var a := TimesRoot(rs, s[i], i);
          s[i] := Xor(data[j], a);
        }
      }
    }
    assert data[..] == D;
    assert s[..] == Syndromes(C, D);
  }

  lemma HornerStart(F: Gf, p: seq<nat>, x: nat)
    requires |p| >= 1
    ensures Horner(F, p, x, 1) == p[0]
  {
    hide Mul, Xor, FullPeriod;
    MulZero(F, x);
    XorZero(p[0]);
  }

  lemma HornerNext(F: Gf, p: seq<nat>, x: nat, j: nat)
    requires j < |p| && Symbols(F, p)
    ensures Horner(F, p, x, j) <= Nn(F)
    ensures Horner(F, p, x, j + 1) == Xor(p[j], Mul(F, x, Horner(F, p, x, j)))
  {
    HornerRange(F, p, x, j);
  }

  /** Converts symbols to index form; the result is 0 exactly when all of them were. */
  method ToIndexForm(rs: Rs, s: array<nat>) returns (synError: nat)
    requires rs.Valid() && Apart(rs, s) && Symbols(rs.Register(), s[..])
    modifies s
    ensures s[..] == LogForms(rs.Register(), old(s[..]))
    ensures synError == 0 <==> AllZero(old(s[..]))
  {
    hide FullPeriod, Rs.Valid, Rs.Tables, ValidCode;
    ghost var F, p := rs.Register(), s[..];
    synError := 0;
    for i := 0 to s.Length
      invariant forall k :: 0 <= k < i ==> s[k] == LogForm(F, p[k])
      invariant forall k :: i <= k < s.Length ==> s[k] == p[k]
      invariant synError == 0 <==> forall k :: 0 <= k < i ==> p[k] == 0
    {
      OrZero(synError, s[i]);
      synError := Or(synError, s[i]);
      assert s[i] == p[i] <= Nn(F);
      var k := rs.IndexOf(s[i]);
      s[i] := k;
    }
    assert s[..] == LogForms(F, p);
  }

  // ----- Erasure locator

  /** One more erasure, multiplied into the locator polynomial from the top. */
  method MultiplyErasure(rs: Rs, lambda: array<nat>, i: nat, loc: nat, ghost eras: seq<nat>)
    requires rs.Valid() && Apart(rs, lambda) && lambda.Length == rs.nroots + 1
    requires 1 <= i < |eras| <= rs.nroots && Locations(rs.TheCode(), eras) && eras[i] == loc
    requires lambda[..] == ErasureLocator(rs.TheCode(), eras, i)
    modifies lambda
    ensures lambda[..] == ErasureLocator(rs.TheCode(), eras, i + 1)
  {
    hide Mul, Xor, Exp, FullPeriod, Rs.Valid, Rs.Tables, ValidCode, ErasureLocator, Symbols, AddScaled, ShiftUp, Locator,
         LogForm, Pow2;
    ghost var C, F := rs.TheCode(), rs.Register();
    ghost var p, x := lambda[..], Locator(C, loc);
    ErasureLocatorRoots(C, eras, i);
    assert lambda[..] == p;
    var u := LocatorIndex(rs, loc);
    for j := i + 2 downto 1
      invariant forall k :: 0 <= k < j ==> lambda[k] == p[k]
      invariant forall k :: j <= k <= i + 1 ==> lambda[k] == Xor(p[k], Mul(F, x, p[k - 1]))
      invariant forall k :: i + 1 < k < lambda.Length ==> lambda[k] == p[k]
    {
      SymbolAt(F, p, j - 1);
      var tmp := rs.IndexOf(lambda[j - 1]);
      if tmp != rs.nn {
        var a := rs.Antilog(u + tmp);
        TimesIndex(F, u, p[j - 1]);
        lambda[j] := Xor(lambda[j], a);
      } else {
        MulZero(F, x);
        XorZero(p[j]);
      }
    }
    WholeProduct(F, p, x, i, lambda[..]);
    ErasureLocatorNext(C, eras, i);
  }

  lemma WholeProduct(F: Gf, p: seq<nat>, x: nat, i: nat, q: seq<nat>)
    requires |p| == |q| > 0 && i + 1 < |p| && ZeroFrom(p, i + 1) && q[0] == p[0]
    requires forall k :: 1 <= k <= i + 1 ==> q[k] == Xor(p[k], Mul(F, x, p[k - 1]))
    requires forall k :: i + 1 < k < |q| ==> q[k] == p[k]
    ensures q == AddScaled(F, p, x, ShiftUp(p))
  {
    hide Mul, Xor, FullPeriod, AddScaled, ShiftUp;
    var r, u := AddScaled(F, p, x, ShiftUp(p)), ShiftUp(p);
    forall k | 0 <= k < |p|
      ensures q[k] == r[k]
    {
      MulZero(F, x);
      XorZero(p[k]);
      if k > 0 {
        assert u[(k - 1) + 1] == p[k - 1];
      }
    }
  }

  lemma ErasureLocatorNext(C: Code, eras: seq<nat>, i: nat)
    requires i < |eras| && Locations(C, eras)
    ensures var p := ErasureLocator(C, eras, i);
            ErasureLocator(C, eras, i + 1) == AddScaled(C.field, p, Locator(C, eras[i]), ShiftUp(p))
  {
  }

  method FormErasureLocator(rs: Rs, erasPos: array?<nat>, noEras: nat, lambda: array<nat>)
    requires rs.Valid() && Apart(rs, lambda) && lambda.Length == rs.nroots + 1
    requires noEras <= rs.nroots && (noEras > 0 ==> erasPos != null && noEras <= erasPos.Length && erasPos != lambda)
    requires noEras > 0 ==> Locations(rs.TheCode(), erasPos[..noEras])
    modifies lambda
    ensures lambda[..] == ErasureLocator(rs.TheCode(), if noEras > 0 then erasPos[..noEras] else [], noEras)
  {
    hide Mul, Xor, Exp, FullPeriod, Rs.Valid, Rs.Tables, ValidCode, ErasureLocator, Locator, One, Pow2;
    ghost var C, F := rs.TheCode(), rs.Register();
    ghost var eras := if noEras > 0 then erasPos[..noEras] else [];
    forall i | 1 <= i < lambda.Length {
      lambda[i] := 0;
    }
    lambda[0] := 1;
    assert lambda[..] == One(rs.nroots);
    if noEras > 0 {
      var u := LocatorIndex(rs, erasPos[0]);
      var a := rs.AlphaTo(u);
      FirstErasure(C, eras, lambda[..]);
      lambda[1] := a;
      assert lambda[..] == ErasureLocator(C, eras, 1);
      for i := 1 to noEras
        invariant erasPos[..noEras] == eras
        invariant lambda[..] == ErasureLocator(C, eras, i)
      {
        MultiplyErasure(rs, lambda, i, erasPos[i], eras);
      }
    } else {
      NoErasure(C, eras);
    }
  }

  lemma NoErasure(C: Code, eras: seq<nat>)
    requires Locations(C, eras)
    ensures ErasureLocator(C, eras, 0) == One(C.nroots)
  {
  }

  lemma FirstErasure(C: Code, eras: seq<nat>, p: seq<nat>)
    requires ValidCode(C) && 1 <= |eras| <= C.nroots && Locations(C, eras) && p == One(C.nroots)
    ensures ErasureLocator(C, eras, 1) == p[1 := Locator(C, eras[0])]
  {
    hide Mul, Xor, FullPeriod, Exp, ShiftUp, AddScaled, One, Locator, ErasureLocator;
    var x := Locator(C, eras[0]);
    NoErasure(C, eras);
    ErasureLocatorNext(C, eras, 0);
    LocatorNonzero(C, eras[0]);
    MulOne(C.field, x);
    XorZero(x);
    WholeProduct(C.field, p, x, 0, p[1 := x]);
  }

  // ----- Berlekamp-Massey

  /** The discrepancy at step r, in index form. */
  method FormDiscrepancy(rs: Rs, s: array<nat>, lambda: array<nat>, r: nat, ghost S: seq<nat>) returns (discr: nat)
    requires rs.Valid() && 1 <= r <= |S| == rs.nroots == s.Length && lambda.Length == rs.nroots + 1
    requires s[..] == LogForms(rs.Register(), S) && Symbols(rs.Register(), S)
    requires Symbols(rs.Register(), lambda[..])
    ensures discr == LogForm(rs.Register(), Discrepancy(rs.TheCode(), S, lambda[..], r))
  {
    hide Mul, Xor, Exp, FullPeriod, Rs.Valid, Rs.Tables, ValidCode;
    ghost var F, lam := rs.Register(), lambda[..];
    var sum := 0;
    for i := 0 to r
      invariant sum == Conv(F, lam, S, r - 1, i)
    {
      assert s[r - i - 1] == s[..][r - i - 1] == LogForm(F, S[r - i - 1]);
      assert lambda[i] == lam[i] <= rs.nn && S[r - i - 1] <= rs.nn;
      if lambda[i] != 0 && s[r - i - 1] != rs.nn {
        var k := rs.IndexOf(lambda[i]);
        var a := rs.Product(k, s[r - i - 1], lam[i], S[r - i - 1]);
        sum := Xor(sum, a);
      } else {
        MulZero(F, lam[i]);
        MulZero(F, S[r - i - 1]);
        XorZero(sum);
      }
    }
    ConvRange(F, lam, S, r - 1, r);
    discr := rs.IndexOf(sum);
  }

  /** t := lambda - discr * x * b */
  method FormUpdate(rs: Rs, lambda: array<nat>, b: array<nat>, t: array<nat>, discr: nat, ghost st: Bm, ghost d: nat)
    requires rs.Valid() && Sized(rs.TheCode(), st) && 0 < d <= rs.nn && discr == LogForm(rs.Register(), d)
    requires Symbols(rs.Register(), st.lam) && Symbols(rs.Register(), st.b)
    requires lambda[..] == st.lam && b[..] == LogForms(rs.Register(), st.b) && t.Length == rs.nroots + 1
    requires Apart(rs, t) && t != lambda && t != b
    modifies t
    ensures t[..] == AddScaled(rs.Register(), st.lam, d, ShiftUp(st.b))
  {
    hide Mul, Xor, Exp, FullPeriod, Rs.Valid, Rs.Tables, ValidCode, ShiftUp, AddScaled;
    ghost var F, q := rs.Register(), ShiftUp(st.b);
    assert lambda[0] == lambda[..][0];
    t[0] := lambda[0];
    MulZero(F, d);
    XorZero(st.lam[0]);
    for i := 0 to rs.nroots
      invariant forall k :: 0 <= k <= i ==> t[k] == Xor(st.lam[k], Mul(F, d, q[k]))
    {
      assert b[i] == b[..][i] == LogForm(F, st.b[i]);
      assert lambda[i + 1] == lambda[..][i + 1];
      if b[i] != rs.nn {
        var a := rs.Product(discr, b[i], d, st.b[i]);
        t[i + 1] := Xor(lambda[i + 1], a);
      } else {
        XorZero(st.lam[i + 1]);
        t[i + 1] := lambda[i + 1];
      }
    }
    assert t[..] == AddScaled(F, st.lam, d, q);
  }

  /** b := x * b; the last entry is dropped. */
  method ShiftCorrection(rs: Rs, b: array<nat>, ghost p: seq<nat>)
    requires rs.Valid() && b.Length == |p| == rs.nroots + 1 && b[..] == LogForms(rs.Register(), p)
    modifies b
    ensures b[..] == LogForms(rs.Register(), ShiftUp(p))
  {
    hide FullPeriod, Rs.Valid, Rs.Tables, ValidCode, ShiftUp, LogForm;
    ghost var F, q := rs.Register(), ShiftUp(p);
    assert forall i :: 0 <= i < b.Length ==> b[i] == b[..][i];
    forall i | 0 <= i < rs.nroots {
      b[i + 1] := b[i];
    }
    b[0] := rs.nn;
    forall i | 0 <= i < b.Length
      ensures b[i] == LogForm(F, q[i])
    {
      if i > 0 {
        assert q[(i - 1) + 1] == p[i - 1];
      }
    }
    assert b[..] == LogForms(F, q);
  }

  lemma LogFormQuotient(F: Gf, a: nat, d: nat)
    requires 0 < a <= Nn(F) && 0 < d <= Nn(F)
    ensures Nn(F) > 0 && LogForm(F, a) + Nn(F) >= LogForm(F, d)
    ensures LogForm(F, Mul(F, InvOf(F, d), a)) == (LogForm(F, a) - LogForm(F, d) + Nn(F)) % Nn(F)
  {
    hide Mul, Exp, FullPeriod;
    var k := LogForm(F, a) - LogForm(F, d) + Nn(F);
    MulExp(F, Nn(F) - LogForm(F, d), LogForm(F, a));
    ExpMod(F, k);
    LogFormExp(F, k % Nn(F));
  }

  /** b := lambda / discr */
  method ScaleCorrection(rs: Rs, lambda: array<nat>, b: array<nat>, discr: nat, ghost d: nat)
    requires rs.Valid() && 0 < d <= rs.nn && discr == LogForm(rs.Register(), d)
    requires lambda.Length == b.Length == rs.nroots + 1 && Symbols(rs.Register(), lambda[..])
    requires Apart(rs, b) && b != lambda
    modifies b
    ensures b[..] == LogForms(rs.Register(), Scale(rs.Register(), InvOf(rs.Register(), d), lambda[..]))
  {
    hide Mul, Exp, FullPeriod, Rs.Valid, Rs.Tables, ValidCode, InvOf, Scale;
    ghost var F, lam, c := rs.Register(), lambda[..], InvOf(rs.Register(), d);
    ghost var q := Scale(F, c, lam);
    for i := 0 to rs.nroots + 1
      invariant forall k :: 0 <= k < i ==> b[k] == LogForm(F, q[k])
    {
      assert lambda[i] == lam[i] <= rs.nn;
      if lambda[i] == 0 {
        MulZero(F, c);
        b[i] := rs.nn;
      } else {
        var k := rs.IndexOf(lambda[i]);
        LogFormQuotient(F, lam[i], d);
        var m := rs.ModNN(k - discr + rs.nn);
        b[i] := m;
      }
    }
    assert lambda[..] == lam;
    assert b[..] == LogForms(F, q);
  }

  /** The arrays hold a state of the algorithm, the correction polynomial in index form. */
  ghost predicate Holds(rs: Rs, lambda: array<nat>, b: array<nat>, st: Bm)
    requires FullPeriod(rs.Register())
    reads lambda, b
  {
    lambda[..] == st.lam && b[..] == LogForms(rs.Register(), st.b)
  }

  predicate WorkArrays(rs: Rs, s: array<nat>, lambda: array<nat>, b: array<nat>, t: array<nat>) {
    && s.Length == rs.nroots && lambda.Length == b.Length == t.Length == rs.nroots + 1
    && Apart(rs, s) && Apart(rs, lambda) && Apart(rs, b) && Apart(rs, t)
    && s != lambda && s != b && s != t && lambda != b && lambda != t && b != t
  }

  /** Step number r. */
  method BerlekampStep(rs: Rs, s: array<nat>, lambda: array<nat>, b: array<nat>, t: array<nat>,
                       noEras: nat, r: nat, el: int, ghost S: seq<nat>, ghost st: Bm) returns (el': int)
    requires rs.Valid() && WorkArrays(rs, s, lambda, b, t) && 1 <= r <= |S| == rs.nroots
    requires s[..] == LogForms(rs.Register(), S) && Symbols(rs.Register(), S)
    requires Sized(rs.TheCode(), st) && Symbols(rs.Register(), st.lam) && Symbols(rs.Register(), st.b)
    requires Holds(rs, lambda, b, st) && el == st.el
    modifies lambda, b, t
    ensures var st' := BmStep(rs.TheCode(), S, noEras, r, st);
            Holds(rs, lambda, b, st') && el' == st'.el
  {
    hide Mul, Xor, Exp, FullPeriod, Rs.Valid, Rs.Tables, ValidCode, ShiftUp, AddScaled, Scale, InvOf, LogForms, Coef, Symbols;
    ghost var C, d := rs.TheCode(), Discrepancy(rs.TheCode(), S, st.lam, r);
    DiscrepancyRange(C, S, st.lam, r);
    var discr := FormDiscrepancy(rs, s, lambda, r, S);
    el' := el;
    if discr == rs.nn {
      ShiftCorrection(rs, b, st.b);
    } else {
      FormUpdate(rs, lambda, b, t, discr, st, d);
      if 2 * el <= r + noEras - 1 {
        el' := r + noEras - el;
        ScaleCorrection(rs, lambda, b, discr, d);
      } else {
        ShiftCorrection(rs, b, st.b);
      }
      CopyInto(lambda, t);
    }
  }

  method CopyInto(a: array<nat>, t: array<nat>)
    requires a.Length == t.Length && a != t
    modifies a
    ensures a[..] == t[..]
  {
    forall i | 0 <= i < a.Length {
      a[i] := t[i];
    }
  }

  method BerlekampMassey(rs: Rs, s: array<nat>, lambda: array<nat>, b: array<nat>, t: array<nat>,
                         noEras: nat, ghost S: seq<nat>, ghost lam0: seq<nat>)
    requires rs.Valid() && WorkArrays(rs, s, lambda, b, t) && noEras <= |S| == rs.nroots
    requires s[..] == LogForms(rs.Register(), S) && Symbols(rs.Register(), S)
    requires |lam0| == rs.nroots + 1 && Symbols(rs.Register(), lam0) && lam0[0] == 1 && ZeroFrom(lam0, noEras + 1)
    requires Holds(rs, lambda, b, Bm(lam0, lam0, noEras))
    modifies lambda, b, t
    ensures lambda[..] == BmRun(rs.TheCode(), S, noEras, lam0, rs.nroots).lam
  {
    hide FullPeriod, Rs.Valid, Rs.Tables, ValidCode, BmStep, LogForms;
    ghost var C := rs.TheCode();
    var r, el: int := noEras, noEras;
    while r < rs.nroots
      invariant noEras <= r <= rs.nroots
      invariant s[..] == LogForms(rs.Register(), S)
      invariant Holds(rs, lambda, b, BmRun(C, S, noEras, lam0, r)) && el == BmRun(C, S, noEras, lam0, r).el
    {
      RunKeepsInv(C, S, noEras, lam0, r);
      r := r + 1;
      el := BerlekampStep(rs, s, lambda, b, t, noEras, r, el, S, BmRun(C, S, noEras, lam0, r - 1));
    }
  }

  // ----- Root search

  /** Converts the locator polynomial to index form and returns its degree. */
  method LocatorToIndexForm(rs: Rs, lambda: array<nat>) returns (deg: nat)
    requires rs.Valid() && Apart(rs, lambda) && lambda.Length == rs.nroots + 1
    requires Symbols(rs.Register(), lambda[..])
    modifies lambda
    ensures lambda[..] == LogForms(rs.Register(), old(lambda[..])) && deg == Degree(old(lambda[..]))
  {
    hide FullPeriod, Rs.Valid, Rs.Tables, ValidCode;
    ghost var F, lam := rs.Register(), lambda[..];
    deg := 0;
    for i := 0 to rs.nroots + 1
      invariant deg == DegreeUpTo(lam, i)
      invariant forall k :: 0 <= k < i ==> lambda[k] == LogForm(F, lam[k])
      invariant forall k :: i <= k < lambda.Length ==> lambda[k] == lam[k]
    {
      assert lambda[i] == lam[i] <= rs.nn;
      var k := rs.IndexOf(lambda[i]);
      lambda[i] := k;
      if lambda[i] != rs.nn {
        deg := i;
      }
    }
    assert lambda[..] == LogForms(F, lam);
  }

  /** Index form of coefficient c times the i-th power of alpha^j, or nn. */
  ghost function Rotated(F: Gf, c: nat, j: nat, i: nat): nat {
    LogForm(F, Mul(F, c, Pow(F, Exp(F, i), j)))
  }

  lemma RotatedStart(F: Gf, c: nat, j: nat)
    requires c <= Nn(F)
    ensures Rotated(F, c, j, 0) == LogForm(F, c)
  {
    hide Mul, Pow, FullPeriod, LogForm;
    ExpZero(F);
    PowOne(F, j);
    MulOne(F, c);
  }

  lemma RotatedStep(F: Gf, c: nat, j: nat, i: nat)
    requires c <= Nn(F)
    ensures Rotated(F, c, j, i) == Nn(F) <==> c == 0
    ensures c == 0 ==> Rotated(F, c, j, i + 1) == Nn(F)
    ensures c != 0 ==> Nn(F) > 0 && Rotated(F, c, j, i + 1) == (Rotated(F, c, j, i) + j) % Nn(F)
  {
    hide Mul, Pow, FullPeriod, Exp, LogForm;
    ExpNonzero(F, i);
    PowNonzero(F, Exp(F, i), j);
    MulNonzero(F, c, Pow(F, Exp(F, i), j));
    if c == 0 {
      MulZero(F, Pow(F, Exp(F, i), j));
      MulZero(F, Pow(F, Exp(F, i + 1), j));
    } else {
      var v := Mul(F, c, Pow(F, Exp(F, i), j));
      PowerStep(F, j, i);
      MulAssoc(F, c, Pow(F, Exp(F, i), j), Exp(F, j));
      LogFormTimesExp(F, v, j);
      ExpMod(F, LogForm(F, v) + j);
      LogFormExp(F, (LogForm(F, v) + j) % Nn(F));
    }
  }

  lemma PowerStep(F: Gf, j: nat, i: nat)
    ensures Pow(F, Exp(F, i + 1), j) == Mul(F, Pow(F, Exp(F, i), j), Exp(F, j))
  {
    hide Mul, Pow, FullPeriod, Exp;
    PowExp(F, i + 1, j);
    PowExp(F, i, j);
    assert (i + 1) * j == i * j + j;
    MulExp(F, i * j, j);
  }

  /** Evaluates the locator polynomial at the next power of alpha, by rotating every term. */
  method EvaluateNext(rs: Rs, reg: array<nat>, deg: nat, i: nat, ghost lam: seq<nat>) returns (q: nat)
    requires rs.Valid() && Apart(rs, reg) && reg.Length == rs.nroots + 1 == |lam|
    requires Symbols(rs.Register(), lam) && lam[0] == 1 && deg == Degree(lam)
    requires forall j :: 1 <= j <= deg ==> reg[j] == Rotated(rs.Register(), lam[j], j, i)
    modifies reg
    ensures forall j :: 1 <= j <= deg ==> reg[j] == Rotated(rs.Register(), lam[j], j, i + 1)
    ensures q == Eval(rs.Register(), lam, Exp(rs.Register(), i + 1), |lam|)
  {
    hide FullPeriod, Rs.Valid, Rs.Tables, ValidCode, Exp, Mul, Xor, Rotated;
    ghost var F, y := rs.Register(), Exp(rs.Register(), i + 1);
    q := 1;
    for j := deg + 1 downto 1
      invariant forall k :: 1 <= k < j && k <= deg ==> reg[k] == Rotated(F, lam[k], k, i)
      invariant forall k :: j <= k <= deg ==> reg[k] == Rotated(F, lam[k], k, i + 1)
      invariant Xor(q, Eval(F, lam, y, j)) == Xor(1, Eval(F, lam, y, deg + 1))
    {
      ghost var e := Eval(F, lam, y, j);
      ghost var term := Mul(F, lam[j], Pow(F, y, j));
      assert Eval(F, lam, y, j + 1) == Xor(e, term);
      RotatedStep(F, lam[j], j, i);
      if reg[j] != rs.nn {
        var k := rs.ModNN(reg[j] + j);
        reg[j] := k;
        var a := rs.AlphaTo(reg[j]);
        RotatedValue(F, lam[j], j, i + 1);
        XorComm(e, term);
        XorAssoc(q, term, e);
        q := Xor(q, a);
      } else {
        MulZero(F, Pow(F, y, j));
        XorZero(e);
      }
    }
    EvalConstant(F, lam, y, q, Eval(F, lam, y, deg + 1));
    EvalOfPrefix(F, lam, y, deg + 1, |lam|);
  }

  lemma RotatedValue(F: Gf, c: nat, j: nat, i: nat)
    requires 0 < c <= Nn(F)
    ensures Rotated(F, c, j, i) < Nn(F)
    ensures Exp(F, Rotated(F, c, j, i)) == Mul(F, c, Pow(F, Exp(F, i), j))
  {
    hide Mul, Pow, FullPeriod, Exp;
    ExpNonzero(F, i);
    PowNonzero(F, Exp(F, i), j);
    MulNonzero(F, c, Pow(F, Exp(F, i), j));
  }

  lemma EvalConstant(F: Gf, lam: seq<nat>, y: nat, q: nat, e: nat)
    requires |lam| >= 1 && lam[0] == 1 && Xor(q, Eval(F, lam, y, 1)) == Xor(1, e)
    ensures q == e
  {
    hide FullPeriod, Mul, Xor;
    NnPositive(F);
    MulOne(F, 1);
    XorZero(1);
    XorCancel(q, 1);
    XorComm(1, e);
    XorCancel(e, 1);
  }

  lemma {:induction false} EvalOfPrefix(F: Gf, p: seq<nat>, y: nat, m: nat, n: nat)
    requires m <= n <= |p|
    requires forall i :: m <= i < n ==> p[i] == 0
    ensures Eval(F, p, y, n) == Eval(F, p, y, m)
  {
    hide Mul, Xor, FullPeriod;
    if m < n {
      EvalOfPrefix(F, p, y, m, n - 1);
      MulZero(F, Pow(F, y, n - 1));
      XorZero(Eval(F, p, y, n - 1));
    }
  }

  /** Searches alpha^1 ... alpha^nn for roots, with their locations. */
  method ChienSearch(rs: Rs, lambda: array<nat>, reg: array<nat>, root: array<nat>, loc: array<nat>, deg: nat,
                     ghost lam: seq<nat>) returns (count: nat)
    requires rs.Valid() && lambda.Length == reg.Length == |lam| == rs.nroots + 1
    requires root.Length == loc.Length == rs.nroots
    requires Apart(rs, reg) && Apart(rs, root) && Apart(rs, loc)
    requires lambda != reg && reg != root && reg != loc && root != loc && lambda != root && lambda != loc
    requires Symbols(rs.Register(), lam) && lam[0] == 1 && deg == Degree(lam)
    requires lambda[..] == LogForms(rs.Register(), lam)
    modifies reg, root, loc
    ensures count <= rs.nroots && root[..count] == FoundRoots(rs.TheCode(), lam)
    ensures loc[..count] == Reported(rs.TheCode(), root[..count])
  {
    hide FullPeriod, Rs.Valid, Rs.Tables, Exp, Mul, Xor, Rotated, LogForm, Symbols, Eval, LocOf, IsRoot;
    ghost var C, F := rs.TheCode(), rs.Register();
    forall j | 1 <= j < reg.Length {
      reg[j] := lambda[j];
    }
    forall j | 1 <= j <= deg
      ensures reg[j] == Rotated(F, lam[j], j, 0)
    {
      assert reg[j] == lambda[j] == lambda[..][j];
      SymbolAt(F, lam, j);
      RotatedStart(F, lam[j], j);
    }
    count := 0;
    var i, k := 1, rs.iprim - 1;
    FirstLocation(C);
    while i <= rs.nn
      invariant 1 <= i <= rs.nn + 1 && count <= rs.nroots && k == LocOf(C, i)
      invariant count < deg || (count == 0 && deg == 0)
      invariant forall j :: 1 <= j <= deg ==> reg[j] == Rotated(F, lam[j], j, i - 1)
      invariant Roots(C, root[..count]) && loc[..count] == Reported(C, root[..count])
      invariant Chien(C, lam, deg, i, root[..count]) == FoundRoots(C, lam)
    {
      var q := EvaluateNext(rs, reg, deg, i - 1, lam);
      RootTest(C, lam, i, q);
      if q == 0 {
        if deg == 0 {
          ConstantHasNoRoot(C, lam, i);
        }
        root[count] := i;
        loc[count] := k;
        count := count + 1;
        ghost var found := root[..count - 1];
        assert root[..count] == found + [i];
        assert loc[..count] == Reported(C, root[..count]);
        if count == deg {
          break;
        }
      }
      NextLocation(C, i);
      k := rs.ModNN(k + rs.iprim);
      i := i + 1;
    }
  }

  lemma FirstLocation(C: Code)
    requires 1 <= C.iprim <= C.nn()
    ensures LocOf(C, 1) == C.iprim - 1
  {
  }

  lemma RootTest(C: Code, lam: seq<nat>, i: nat, q: nat)
    requires q == Eval(C.field, lam, Exp(C.field, i), |lam|)
    ensures IsRoot(C, lam, i) <==> q == 0
  {
  }

  lemma ConstantHasNoRoot(C: Code, lam: seq<nat>, i: nat)
    requires |lam| >= 1 && lam[0] == 1 && Degree(lam) == 0
    ensures !IsRoot(C, lam, i)
  {
    hide FullPeriod, Exp, Mul, Xor;
    var F, y := C.field, Exp(C.field, i);
    EvalOfPrefix(F, lam, y, 1, |lam|);
    NnPositive(F);
    MulOne(F, 1);
    XorZero(1);
  }

  // ----- Error values

  /** One coefficient of the error evaluator, in index form, summed from the top. */
  method FormOmegaTerm(rs: Rs, s: array<nat>, lambda: array<nat>, i: nat, ghost S: seq<nat>, ghost lam: seq<nat>) returns (om: nat)
    requires rs.Valid() && i < |S| == s.Length == rs.nroots && |lam| == lambda.Length == rs.nroots + 1
    requires s[..] == LogForms(rs.Register(), S) && Symbols(rs.Register(), S)
    requires lambda[..] == LogForms(rs.Register(), lam) && Symbols(rs.Register(), lam)
    ensures om == LogForm(rs.Register(), Coef(rs.Register(), lam, S, i))
  {
    hide FullPeriod, Rs.Valid, Rs.Tables, ValidCode, Exp, Mul, Xor, Symbols;
    ghost var F := rs.Register();
    var tmp := 0;
    XorZero(Conv(F, lam, S, i, i + 1));
    for j := i + 1 downto 0
      invariant Xor(tmp, Conv(F, lam, S, i, j)) == Conv(F, lam, S, i, i + 1)
    {
      ghost var e, term := Conv(F, lam, S, i, j), Mul(F, lam[j], S[i - j]);
      assert Conv(F, lam, S, i, j + 1) == Xor(e, term);
      assert s[i - j] == s[..][i - j] && lambda[j] == lambda[..][j];
      SymbolAt(F, S, i - j);
      SymbolAt(F, lam, j);
      if s[i - j] != rs.nn && lambda[j] != rs.nn {
        MulComm(F, lam[j], S[i - j]);
        var a := rs.Product(s[i - j], lambda[j], S[i - j], lam[j]);
        XorComm(e, term);
        XorAssoc(tmp, term, e);
        tmp := Xor(tmp, a);
      } else {
        MulZero(F, lam[j]);
        MulZero(F, S[i - j]);
        XorZero(e);
      }
    }
    XorZero(tmp);
    ConvRange(F, lam, S, i, i + 1);
    om := rs.IndexOf(tmp);
  }

  method FormOmega(rs: Rs, s: array<nat>, lambda: array<nat>, omega: array<nat>, deg: nat, ghost S: seq<nat>, ghost lam: seq<nat>)
    requires rs.Valid() && |S| == s.Length == rs.nroots && |lam| == lambda.Length == omega.Length == rs.nroots + 1
    requires deg <= rs.nroots && Apart(rs, omega) && omega != s && omega != lambda
    requires s[..] == LogForms(rs.Register(), S) && Symbols(rs.Register(), S)
    requires lambda[..] == LogForms(rs.Register(), lam) && Symbols(rs.Register(), lam)
    modifies omega
    ensures omega[..deg] == LogForms(rs.Register(), Omega(rs.TheCode(), S, lam, deg))
  {
    hide FullPeriod, Rs.Valid, Rs.Tables, ValidCode, Coef, LogForm, Symbols;
    ghost var F, om := rs.Register(), Omega(rs.TheCode(), S, lam, deg);
    for i := 0 to deg
      invariant s[..] == LogForms(F, S) && lambda[..] == LogForms(F, lam)
      invariant forall k :: 0 <= k < i ==> omega[k] == LogForm(F, om[k])
    {
      var w := FormOmegaTerm(rs, s, lambda, i, S, lam);
      omega[i] := w;
    }
    assert omega[..deg] == LogForms(F, om);
  }

  /** The evaluator at a root, summed from the top. */
  method FormNumerator(rs: Rs, omega: array<nat>, deg: nat, root: nat, ghost om: seq<nat>) returns (num: nat)
    requires rs.Valid() && deg == |om| <= omega.Length && Symbols(rs.Register(), om)
    requires omega[..deg] == LogForms(rs.Register(), om)
    ensures num == Eval(rs.Register(), om, Exp(rs.Register(), root), deg)
  {
    hide FullPeriod, Rs.Valid, Rs.Tables, ValidCode, Exp, Mul, Xor, Pow, Symbols, LogForm, Pow2;
    ghost var F, y := rs.Register(), Exp(rs.Register(), root);
    num := 0;
    XorZero(Eval(F, om, y, deg));
    for i := deg downto 0
      invariant Xor(num, Eval(F, om, y, i)) == Eval(F, om, y, deg)
    {
      ghost var e, term := Eval(F, om, y, i), Mul(F, om[i], Pow(F, y, i));
      assert Eval(F, om, y, i + 1) == Xor(e, term);
      assert omega[i] == omega[..deg][i] == LogForm(F, om[i]);
      SymbolAt(F, om, i);
      if omega[i] != rs.nn {
        var a := TermAt(rs, omega[i], i, root, om[i]);
        XorComm(e, term);
        XorAssoc(num, term, e);
        num := Xor(num, a);
      } else {
        MulZero(F, Pow(F, y, i));
        XorZero(e);
      }
    }
    XorZero(num);
  }

  lemma TermValue(F: Gf, c: nat, root: nat, i: nat, e: nat)
    requires 0 < c <= Nn(F) && e == i * root
    ensures Exp(F, LogForm(F, c) + e) == Mul(F, c, Pow(F, Exp(F, root), i))
  {
    hide Mul, Pow, FullPeriod, Exp, LogForm, Nn;
    PowExp(F, root, i);
    assert e == root * i;
    LogFormTimesExp(F, c, e);
  }

  /** The formal derivative at a root: every second coefficient, from the top. */
  method FormDenominator(rs: Rs, lambda: array<nat>, deg: nat, root: nat, ghost lam: seq<nat>) returns (den: nat)
    requires rs.Valid() && |lam| == lambda.Length == rs.nroots + 1 && Symbols(rs.Register(), lam) && rs.nroots >= 1
    requires lambda[..] == LogForms(rs.Register(), lam) && deg == Degree(lam)
    ensures den == Derivative(rs.Register(), lam, Exp(rs.Register(), root), |lam|)
  {
    hide FullPeriod, Rs.Valid, Rs.Tables, ValidCode, Exp, Mul, Xor, Pow, Symbols, LogForm, Pow2, Derivative, Degree;
    ghost var F, y := rs.Register(), Exp(rs.Register(), root);
    den := 0;
    var top := if deg < rs.nroots - 1 then deg else rs.nroots - 1;
    var i: int := top - top % 2;
    DerivativeTop(F, lam, y, deg, i);
    XorZero(Derivative(F, lam, y, i + 2));
    while i >= 0
      invariant -2 <= i <= top && i % 2 == 0
      invariant Xor(den, Derivative(F, lam, y, i + 2)) == Derivative(F, lam, y, |lam|)
    {
      ghost var e, term := Derivative(F, lam, y, i), Mul(F, lam[i + 1], Pow(F, y, i));
      DerivativePair(F, lam, y, i);
      assert lambda[i + 1] == lambda[..][i + 1];
      SymbolAt(F, lam, i + 1);
      if lambda[i + 1] != rs.nn {
        var a := TermAt(rs, lambda[i + 1], i, root, lam[i + 1]);
        XorComm(e, term);
        XorAssoc(den, term, e);
        den := Xor(den, a);
      } else {
        MulZero(F, Pow(F, y, i));
        XorZero(e);
      }
      i := i - 2;
    }
    NoDerivative(F, lam, y);
    XorZero(den);
  }

  lemma NoDerivative(F: Gf, lam: seq<nat>, y: nat)
    ensures Derivative(F, lam, y, 0) == 0
  {
  }

  lemma DerivativeTop(F: Gf, lam: seq<nat>, y: nat, deg: nat, i: int)
    requires |lam| >= 2 && deg == Degree(lam)
    requires var top := if deg < |lam| - 2 then deg else |lam| - 2; i == top - top % 2
    ensures 0 <= i && i + 2 <= |lam|
    ensures Derivative(F, lam, y, |lam|) == Derivative(F, lam, y, i + 2)
  {
    hide Mul, Xor, FullPeriod, Pow, Degree, Nn;
    if i + 2 == |lam| - 1 {
    } else if i + 2 < |lam| {
      DerivativeOfPrefix(F, lam, y, i + 2, |lam|);
    }
  }

  lemma DerivativePair(F: Gf, lam: seq<nat>, y: nat, i: nat)
    requires i % 2 == 0 && i + 2 <= |lam|
    ensures Derivative(F, lam, y, i + 2) == Xor(Derivative(F, lam, y, i), Mul(F, lam[i + 1], Pow(F, y, i)))
  {
    hide Mul, Xor, FullPeriod, Pow;
  }

  lemma QuotientExponent(F: Gf, a: nat, b: nat, den: nat)
    requires 0 < a <= Nn(F) && 0 < b <= Nn(F) && den <= Nn(F)
    ensures LogForm(F, a) + LogForm(F, b) + Nn(F) - LogForm(F, den) >= 0
    ensures Exp(F, LogForm(F, a) + LogForm(F, b) + Nn(F) - LogForm(F, den)) == Quotient(F, Mul(F, a, b), den)
  {
    hide Mul, Exp, FullPeriod;
    LogFormMul(F, a, b);
    if den != 0 {
      MulExp(F, LogForm(F, a) + LogForm(F, b), Nn(F) - LogForm(F, den));
    }
  }

  /** Computes the error value for one root and applies it. */
  method CorrectAt(rs: Rs, data: array<nat>, omega: array<nat>, lambda: array<nat>, deg: nat, root: nat, loc: nat,
                   ghost S: seq<nat>, ghost lam: seq<nat>)
    requires rs.Valid() && rs.nroots >= 1 && data.Length == rs.nn - rs.pad && Apart(rs, data)
    requires |S| == rs.nroots && |lam| == lambda.Length == omega.Length == rs.nroots + 1
    requires Symbols(rs.Register(), lam) && deg == Degree(lam)
    requires lambda[..] == LogForms(rs.Register(), lam)
    requires omega[..deg] == LogForms(rs.Register(), Omega(rs.TheCode(), S, lam, deg))
    requires 1 <= root <= rs.nn && loc == LocOf(rs.TheCode(), root)
    modifies data
    ensures data[..] == CorrectOne(rs.TheCode(), S, lam, deg, root, old(data[..]))
  {
    hide FullPeriod, Rs.Valid, Rs.Tables, Exp, Mul, Xor, Pow, Symbols, Omega, LocOf, Quotient, LogForm, LogForms;
    ghost var C, F := rs.TheCode(), rs.Register();
    OmegaSymbols(C, S, lam, deg);
    var num1 := FormNumerator(rs, omega, deg, root, Omega(C, S, lam, deg));
    ExponentNonnegative(C, root);
    var num2 := rs.Antilog(root * (rs.fcr - 1) + rs.nn);
    var den := FormDenominator(rs, lambda, deg, root, lam);
    ExpNonzero(F, Num2Exponent(C, root));
    EvalRange(F, Omega(C, S, lam, deg), Exp(F, root), deg);
    DerivativeRange(F, lam, Exp(F, root), |lam|);
    if num1 != 0 && loc >= rs.pad {
      var i1 := rs.IndexOf(num1);
      var i2 := rs.IndexOf(num2);
      var id := rs.IndexOf(den);
      QuotientExponent(F, num1, num2, den);
      var v := rs.Antilog(i1 + i2 + rs.nn - id);
      data[loc - rs.pad] := Xor(data[loc - rs.pad], v);
    } else {
      ZeroValue(F, num2, den);
      if loc >= rs.pad {
        XorZero(data[loc - rs.pad]);
      }
    }
  }

  lemma ExponentNonnegative(C: Code, root: nat)
    requires root <= C.nn()
    ensures root * (C.fcr - 1) + C.nn() == Num2Exponent(C, root) >= 0
  {
  }

  lemma ZeroValue(F: Gf, b: nat, den: nat)
    ensures Quotient(F, Mul(F, 0, b), den) == 0
  {
    hide Mul, FullPeriod;
    MulZero(F, b);
    MulZero(F, InvOf(F, den));
  }

  /** Corrects all found locations, the last one first. */
  method CorrectAll(rs: Rs, data: array<nat>, omega: array<nat>, lambda: array<nat>, deg: nat,
                    root: array<nat>, loc: array<nat>, count: nat, ghost S: seq<nat>, ghost lam: seq<nat>)
    requires rs.Valid() && rs.nroots >= 1 && data.Length == rs.nn - rs.pad && Apart(rs, data)
    requires data != omega && data != lambda && data != root && data != loc
    requires |S| == rs.nroots && |lam| == lambda.Length == omega.Length == rs.nroots + 1
    requires Symbols(rs.Register(), lam) && deg == Degree(lam)
    requires lambda[..] == LogForms(rs.Register(), lam)
    requires omega[..deg] == LogForms(rs.Register(), Omega(rs.TheCode(), S, lam, deg))
    requires count <= root.Length && count <= loc.Length && Roots(rs.TheCode(), root[..count])
    requires loc[..count] == Reported(rs.TheCode(), root[..count])
    modifies data
    ensures data[..] == Correct(rs.TheCode(), S, lam, deg, root[..count], count, old(data[..]))
  {
    hide FullPeriod, Rs.Valid, Rs.Tables, Exp, Symbols, Omega, LocOf, LogForms, CorrectOne, Degree;
    ghost var C, D := rs.TheCode(), data[..];
    ghost var roots := root[..count];
    for j := count downto 0
      invariant lambda[..] == LogForms(rs.Register(), lam)
      invariant omega[..deg] == LogForms(rs.Register(), Omega(C, S, lam, deg))
      invariant root[..count] == roots && loc[..count] == Reported(C, roots)
      invariant Correct(C, S, lam, deg, roots, j, data[..]) == Correct(C, S, lam, deg, roots, count, D)
    {
      assert root[j] == roots[j] && loc[j] == loc[..count][j] == LocOf(C, roots[j]);
      CorrectAt(rs, data, omega, lambda, deg, root[j], loc[j], S, lam);
    }
  }

  // ----- The decoder

  ghost function Marked(erasPos: array?<nat>, noEras: nat): seq<nat>
    requires noEras > 0 ==> erasPos != null && noEras <= erasPos.Length
    reads if erasPos == null then {} else {erasPos}
  {
    if noEras > 0 then erasPos[..noEras] else []
  }

  /** What the caller has to supply. */
  ghost predicate DecodeArguments(rs: Rs, data: array<nat>, erasPos: array?<nat>, noEras: nat)
    reads rs, rs.alphaTo, rs.indexOf, rs.genpoly, data, if erasPos == null then {} else {erasPos}
  {
    && rs.Valid() && IsBlock(rs.TheCode(), data[..]) && Apart(rs, data)
    && noEras <= rs.nroots
    && (noEras > 0 ==> erasPos != null)
    && (erasPos != null ==> Apart(rs, erasPos) && erasPos != data && erasPos.Length >= rs.nroots)
    && Locations(rs.TheCode(), Marked(erasPos, noEras))
  }

  /** Finds the locator polynomial for nonzero syndromes; s is in index form already. */
  method FindLocator(rs: Rs, erasPos: array?<nat>, noEras: nat, s: array<nat>, lambda: array<nat>,
                     ghost D: seq<nat>, ghost eras: seq<nat>)
    requires rs.Valid() && noEras <= rs.nroots && s.Length == rs.nroots && lambda.Length == rs.nroots + 1
    requires Apart(rs, s) && Apart(rs, lambda) && s != lambda && erasPos != lambda
    requires noEras > 0 ==> erasPos != null && noEras <= erasPos.Length
    requires eras == Marked(erasPos, noEras) && DecoderInput(rs.TheCode(), D, eras)
    requires s[..] == LogForms(rs.Register(), Syndromes(rs.TheCode(), D))
    modifies lambda
    ensures lambda[..] == FinalLocator(rs.TheCode(), D, eras)
  {
    hide FullPeriod, Rs.Valid, Rs.Tables, Exp, BmRun, LogForm, LogForms, ErasureLocator, Syndromes;
    ghost var C, S := rs.TheCode(), Syndromes(rs.TheCode(), D);
    FormErasureLocator(rs, erasPos, noEras, lambda);
    ghost var lam0 := ErasureLocator(C, eras, noEras);
    ErasureLocatorRoots(C, eras, noEras);
    SyndromeSymbols(C, D);
    var b, t := new nat[rs.nroots + 1], new nat[rs.nroots + 1];
    for i := 0 to rs.nroots + 1
      invariant lambda[..] == lam0
      invariant forall k :: 0 <= k < i ==> b[k] == LogForm(rs.Register(), lam0[k])
    {
      assert lambda[i] == lam0[i] <= rs.nn;
      var k := rs.IndexOf(lambda[i]);
      b[i] := k;
    }
    assert b[..] == LogForms(rs.Register(), lam0);
    BerlekampMassey(rs, s, lambda, b, t, noEras, S, lam0);
  }

  lemma SyndromeSymbols(C: Code, D: seq<nat>)
    requires IsBlock(C, D)
    ensures Symbols(C.field, Syndromes(C, D))
  {
    hide FullPeriod, Horner, Root, Syndromes;
    var s := Syndromes(C, D);
    forall i | 0 <= i < |s|
      ensures s[i] <= Nn(C.field)
    {
      HornerRange(C.field, D, Root(C, i), |D|);
    }
  }

  lemma FinalLocatorShape(C: Code, D: seq<nat>, eras: seq<nat>)
    requires DecoderInput(C, D, eras)
    ensures var lam := FinalLocator(C, D, eras);
            Symbols(C.field, lam) && lam[0] == 1 && Degree(lam) <= C.nroots
  {
    hide FullPeriod, BmRun, ErasureLocator, Syndromes, Horner;
    ErasureLocatorRoots(C, eras, |eras|);
    RunKeepsInv(C, Syndromes(C, D), |eras|, ErasureLocator(C, eras, |eras|), C.nroots);
  }

  /** Finds and applies all corrections; -1 when roots are missing. */
  method FindAndCorrect(rs: Rs, data: array<nat>, s: array<nat>, lambda: array<nat>, loc: array<nat>,
                        ghost S: seq<nat>, ghost lam: seq<nat>) returns (count: int)
    requires rs.Valid() && rs.nroots >= 1 && data.Length == rs.nn - rs.pad
    requires |S| == s.Length == loc.Length == rs.nroots && |lam| == lambda.Length == rs.nroots + 1
    requires Apart(rs, data) && Apart(rs, s) && Apart(rs, lambda) && Apart(rs, loc)
    requires data != s && data != lambda && data != loc && s != lambda && s != loc && lambda != loc
    requires s[..] == LogForms(rs.Register(), S) && Symbols(rs.Register(), S)
    requires lambda[..] == lam && Symbols(rs.Register(), lam) && lam[0] == 1 && Degree(lam) <= rs.nroots
    modifies data, lambda, loc
    ensures var C := rs.TheCode();
            var roots := FoundRoots(C, lam);
            if |roots| != Degree(lam) then count == -1 && data[..] == old(data[..])
            else count == |roots| && data[..] == Correct(C, S, lam, Degree(lam), roots, |roots|, old(data[..]))
                 && loc[..|roots|] == Reported(C, roots)
  {
    hide FullPeriod, Rs.Valid, Rs.Tables, Exp, LogForm, LogForms, FoundRoots, Correct, Omega, Reported, Degree, Symbols;
    var deg := LocatorToIndexForm(rs, lambda);
    var reg, root, omega := new nat[rs.nroots + 1], new nat[rs.nroots], new nat[rs.nroots + 1];
    var found := ChienSearch(rs, lambda, reg, root, loc, deg, lam);
    if deg != found {
      return -1;
    }
    FormOmega(rs, s, lambda, omega, deg, S, lam);
    CorrectAll(rs, data, omega, lambda, deg, root, loc, found, S, lam);
    count := found;
  }

  /**
   Corrects a block in place, given the positions of erasures, and reports the
   corrected positions in the same array.
   */
  method DecodeRs(rs: Rs, data: array<nat>, erasPos: array?<nat>, noEras: nat) returns (count: int)
    requires DecodeArguments(rs, data, erasPos, noEras)
    modifies data, if erasPos == null then {} else {erasPos}
    ensures var out := Decode(rs.TheCode(), old(data[..]), old(Marked(erasPos, noEras)));
            && count == out.count && data[..] == out.data
            && (erasPos != null && count >= 0 ==>
                  |out.locs| == count <= rs.nroots
                  && erasPos[..] == out.locs + old(erasPos[..])[count..])
            && (erasPos != null && count < 0 ==> erasPos[..] == old(erasPos[..]))
    ensures Answered(rs.TheCode(), old(data[..]), old(Marked(erasPos, noEras)), count, data[..])
    ensures erasPos != null ==>
              if count > 0 then
                && count <= erasPos.Length && erasPos[count..] == old(erasPos[count..])
                && ReportedRoots(rs.TheCode(), FinalLocator(rs.TheCode(), old(data[..]), old(Marked(erasPos, noEras))), erasPos[..count])
              else erasPos[..] == old(erasPos[..])
    ensures forall c :: Correctable(rs.TheCode(), c, old(data[..]), old(Marked(erasPos, noEras))) ==>
              && data[..] == c
              && count == if old(data[..]) == c then 0 else |Damaged(rs.TheCode(), c, old(data[..]), old(Marked(erasPos, noEras)))|
  {
    hide FullPeriod, Rs.Valid, Rs.Tables, Exp, LogForm, LogForms, FoundRoots, Correct, Reported, Degree, Symbols,
         FinalLocator, Syndromes, ValidCode, AllZero, Correctable, Damaged, Answered, ReportedRoots;
    ghost var C, F, D, eras := rs.TheCode(), rs.Register(), data[..], Marked(erasPos, noEras);
    ghost var S, lam := Syndromes(C, D), FinalLocator(C, D, eras);
    var s, lambda, loc := new nat[rs.nroots], new nat[rs.nroots + 1], new nat[rs.nroots];
    FormSyndromes(rs, data, s);
    SyndromeSymbols(C, D);
    var synError := ToIndexForm(rs, s);
    if synError == 0 {
      count := 0;
    } else {
      SomeSyndrome(S);
      FindLocator(rs, erasPos, noEras, s, lambda, D, eras);
      FinalLocatorShape(C, D, eras);
      count := FindAndCorrect(rs, data, s, lambda, loc, S, lam);
    }
    if erasPos != null && count > 0 {
      StorePositions(erasPos, loc, count);
    }
    CorrectablesRestored(C, D, eras);
    FinalLocatorShape(C, D, eras);
    LocatorSearchable(C, lam);
    DecodeAnswer(C, D, eras);
  }

  /** Reports the positions of the corrections. */
  method StorePositions(erasPos: array<nat>, loc: array<nat>, count: nat)
    requires count <= loc.Length && count <= erasPos.Length && erasPos != loc
    modifies erasPos
    ensures erasPos[..] == loc[..count] + old(erasPos[count..])
  {
    for i := 0 to count
      invariant erasPos[..i] == loc[..i] && erasPos[count..] == old(erasPos[count..])
    {
      erasPos[i] := loc[i];
    }
    assert erasPos[..] == erasPos[..count] + erasPos[count..];
  }

  lemma LocatorSearchable(C: Code, lam: seq<nat>)
    requires ValidCode(C) && |lam| == C.nroots + 1 && Symbols(C.field, lam) && lam[0] == 1 && Degree(lam) <= C.nroots
    ensures Searchable(C, lam)
  {
  }

  lemma CorrectablesRestored(C: Code, data: seq<nat>, eras: seq<nat>)
    requires DecoderInput(C, data, eras)
    ensures forall c :: Correctable(C, c, data, eras) ==>
              var out := Decode(C, data, eras);
              out.data == c && out.count == if data == c then 0 else |Damaged(C, c, data, eras)|
  {
    hide FullPeriod, Decode, Damaged, Symbols, ValidCode, UnmarkedErrors, Syndromes, AllZero, Horner;
    forall c | Correctable(C, c, data, eras)
      ensures var out := Decode(C, data, eras);
              out.data == c && out.count == if data == c then 0 else |Damaged(C, c, data, eras)|
    {
      DecodeRestores(C, c, data, eras);
    }
  }

  lemma SomeSyndrome(s: seq<nat>)
    requires !AllZero(s)
    ensures |s| >= 1
  {
  }
}
