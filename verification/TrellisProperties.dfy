/** How far metrics can drift apart, and what decoding does to a clean transmission. */
module TrellisProperties {
  import opened Bits
  import opened Trellis

  // ----- Metric spread

  lemma {:induction false} ShrPlusPower(a: nat, b: nat, m: nat, h: nat)
    requires a < Pow2(h) && b < Pow2(h) && Shr(a, m) == Shr(b, m)
    ensures Shr(a + Pow2(h), m) == Shr(b + Pow2(h), m)
    decreases m
  {
    if m > 0 && h > 0 {
      ShrPlusPower(a / 2, b / 2, m - 1, h - 1);
      assert (a + Pow2(h)) / 2 == a / 2 + Pow2(h - 1);
      assert (b + Pow2(h)) / 2 == b / 2 + Pow2(h - 1);
    }
  }

  /** One half of the spread bound, through the survivor of s'. */
  lemma SpreadStep(c: ConvCode, start: nat, groups: seq<seq<nat>>, t: nat, s: nat, s': nat, p: nat, bound: nat)
    requires ValidRun(c, start, groups) && 1 <= t <= |groups| && s < States(c) && s' < States(c)
    requires var p' := Predecessor(c, start, groups, t - 1, s');
             && p == SameBranch(c, s, s', p') < States(c)
             && Metric(c, start, groups, t - 1, p) <= Metric(c, start, groups, t - 1, p') + bound
    ensures Metric(c, start, groups, t, s) <= Metric(c, start, groups, t, s') + bound + MaxCost(c)
  {
    hide Cost, ValidCode, Pow2, MaxCost;
    var p' := Predecessor(c, start, groups, t - 1, s');
    MetricThroughPredecessor(c, start, groups, t, s');
    MetricStep(c, start, groups, t, s);
    CostBound(c, 2 * p + s % 2, groups[t - 1]);
  }

  lemma {:induction false} CostBound(c: ConvCode, sr: nat, group: seq<nat>)
    requires IsGroup(c, group)
    ensures Cost(c, sr, group) <= MaxCost(c)
  {
    CostUpToBound(c, sr, group, Rate(c));
  }

  lemma {:induction false} CostUpToBound(c: ConvCode, sr: nat, group: seq<nat>, n: nat)
    requires IsGroup(c, group) && n <= Rate(c)
    ensures CostUpTo(c, sr, group, n) <= 255 * n
  {
    if n > 0 {
      CostUpToBound(c, sr, group, n - 1);
      XorByte(group[n - 1]);
    }
  }

  /** States that agree above bit j have metrics within j branch costs of each other. */
  lemma {:induction false} SpreadBound(c: ConvCode, start: nat, groups: seq<seq<nat>>, t: nat, s: nat, s': nat, j: nat)
    requires ValidRun(c, start, groups) && t <= |groups| && s < States(c) && s' < States(c)
    requires Shr(s, j) == Shr(s', j)
    ensures Metric(c, start, groups, t, s) <= Metric(c, start, groups, t, s') + j * MaxCost(c)
    decreases t
  {
    hide Cost, ValidCode, MaxCost, Metric, Predecessor, Shr, Pow2, Half, InitialMetric, SameBranch, IsGroup, States;
    if j > 0 {
      var m := MaxCost(c);
      OneMore(j, m);
      if t == 0 {
        StartSpread(c, start, groups, s, s');
      } else {
        var p' := Predecessor(c, start, groups, t - 1, s');
        var p := SameBranch(c, s, s', p');
        PredecessorsAgree(c, start, groups, t, s, s', j);
        SpreadBound(c, start, groups, t - 1, p, p', j - 1);
        SpreadStep(c, start, groups, t, s, s', p, (j - 1) * m);
      }
    } else {
      SameAtZero(s, s');
    }
  }

  lemma StartSpread(c: ConvCode, start: nat, groups: seq<seq<nat>>, s: nat, s': nat)
    requires ValidRun(c, start, groups) && s < States(c) && s' < States(c)
    ensures Metric(c, start, groups, 0, s) <= Metric(c, start, groups, 0, s') + MaxCost(c)
  {
    hide ValidCode, MaxCost, Metric, InitialMetric;
    InitialSpread(c, start, s, s');
    StartMetric(c, start, groups, s);
    StartMetric(c, start, groups, s');
  }

  lemma OneMore(j: nat, m: nat)
    requires j > 0
    ensures 0 <= (j - 1) * m && (j - 1) * m + m == j * m
  {
  }

  lemma SameAtZero(s: nat, s': nat)
    requires Shr(s, 0) == Shr(s', 0)
    ensures s == s'
  {
  }

  lemma StartMetric(c: ConvCode, start: nat, groups: seq<seq<nat>>, s: nat)
    requires ValidRun(c, start, groups) && s < States(c)
    ensures Metric(c, start, groups, 0, s) == InitialMetric(c, start, s)
  {
  }

  /** The predecessor of s on the same side as p' is of s'. */
  function SameBranch(c: ConvCode, s: nat, s': nat, p': nat): nat
    requires c.k >= 2
  {
    if p' == s' / 2 then s / 2 else s / 2 + Half(c)
  }

  lemma PredecessorsAgree(c: ConvCode, start: nat, groups: seq<seq<nat>>, t: nat, s: nat, s': nat, j: nat)
    requires ValidRun(c, start, groups) && 1 <= t <= |groups| && s < States(c) && s' < States(c)
    requires j >= 1 && Shr(s, j) == Shr(s', j)
    ensures var p' := Predecessor(c, start, groups, t - 1, s');
            var p := SameBranch(c, s, s', p');
            p < States(c) && Shr(p, j - 1) == Shr(p', j - 1)
  {
    hide ValidCode, TakesUpper;
    ShrPlusPower(s / 2, s' / 2, j - 1, c.k - 2);
  }

  lemma InitialSpread(c: ConvCode, start: nat, s: nat, s': nat)
    requires ValidCode(c)
    ensures InitialMetric(c, start, s) <= InitialMetric(c, start, s') + MaxCost(c)
  {
  }

  lemma {:induction false} ShrToZero(s: nat, m: nat)
    requires s < Pow2(m)
    ensures Shr(s, m) == 0
    decreases m
  {
    if m > 0 {
      ShrToZero(s / 2, m - 1);
    }
  }

  /** All metrics of one time stay within k - 1 branch costs. */
  lemma FullSpread(c: ConvCode, start: nat, groups: seq<seq<nat>>, t: nat, s: nat, s': nat)
    requires ValidRun(c, start, groups) && t <= |groups| && s < States(c) && s' < States(c)
    ensures Metric(c, start, groups, t, s) <= Metric(c, start, groups, t, s') + (c.k - 1) * MaxCost(c)
  {
    assert States(c) == Pow2(c.k - 1);
    ShrToZero(s, c.k - 1);
    ShrToZero(s', c.k - 1);
    SpreadBound(c, start, groups, t, s, s', c.k - 1);
  }

  // ----- Wrapped metrics

  /** The value that a machine word of w bits holds. */
  function Wrap(w: nat, x: int): (r: nat)
    ensures r < Pow2(w)
  {
    x % Pow2(w)
  }

  /** A word read as a signed number. */
  function Signed(w: nat, x: nat): int
    requires w >= 1
  {
    if x >= Pow2(w - 1) then x - Pow2(w) else x
  }

  lemma WrapAdd(w: nat, a: int, b: int)
    ensures Wrap(w, Wrap(w, a) + b) == Wrap(w, a + b)
  {
    var m := Pow2(w);
    var q, r := a / m, a % m;
    var q2, r2 := (r + b) / m, (r + b) % m;
    assert a == q * m + r && r + b == q2 * m + r2;
    assert a + b == (q + q2) * m + r2;
    ModUnique(a + b, m, q + q2, r2);
  }

  lemma WrapSub(w: nat, a: int, b: int)
    ensures Wrap(w, Wrap(w, a) - Wrap(w, b)) == Wrap(w, a - b)
  {
    hide *;
    var y: int := Wrap(w, b);
    WrapAdd(w, a, 0 - y);
    WrapAdd(w, b, a - b - y);
  }

  /** The signed difference of two wrapped numbers is their difference when they are close. */
  lemma SignedDifference(w: nat, a: int, b: int)
    requires w >= 1 && 0 - Pow2(w - 1) <= a - b < Pow2(w - 1)
    ensures Signed(w, Wrap(w, Wrap(w, a) - Wrap(w, b))) == a - b
  {
    WrapSub(w, a, b);
    assert Pow2(w) == 2 * Pow2(w - 1);
    if a - b >= 0 {
      ModUnique(a - b, Pow2(w), 0, a - b);
    } else {
      ModUnique(a - b, Pow2(w), -1, a - b + Pow2(w));
    }
  }

  /**
   On every run, however long, comparing the two wrapped candidates for a state
   by their signed difference gives the comparison of the unbounded metrics.
   */
  lemma WrappedComparison(c: ConvCode, start: nat, groups: seq<seq<nat>>, t: nat, s: nat)
    requires ValidRun(c, start, groups) && t < |groups| && s < States(c)
    ensures var lo, up := Lower(c, start, groups, t, s), Upper(c, start, groups, t, s);
            Signed(c.wordBits, Wrap(c.wordBits, Wrap(c.wordBits, lo) - Wrap(c.wordBits, up))) == lo - up
  {
    hide *;
    CandidatesClose(c, start, groups, t, s);
    MetricRoom(c);
    SignedDifference(c.wordBits, Lower(c, start, groups, t, s), Upper(c, start, groups, t, s));
  }

  lemma CandidatesClose(c: ConvCode, start: nat, groups: seq<seq<nat>>, t: nat, s: nat)
    requires ValidRun(c, start, groups) && t < |groups| && s < States(c)
    ensures ValidCode(c)
    ensures var d := Lower(c, start, groups, t, s) - Upper(c, start, groups, t, s);
            0 - (c.k - 1) * MaxCost(c) - MaxCost(c) <= d <= (c.k - 1) * MaxCost(c) + MaxCost(c)
  {
    hide Cost, Metric, MaxCost;
    var h := Half(c);
    var p, q := s / 2, s / 2 + h;
    FullSpread(c, start, groups, t, p, q);
    FullSpread(c, start, groups, t, q, p);
    CostBound(c, 2 * p + s % 2, groups[t]);
    CostBound(c, 2 * q + s % 2, groups[t]);
  }

  lemma MetricRoom(c: ConvCode)
    requires ValidCode(c)
    ensures c.wordBits >= 2 && (c.k - 1) * MaxCost(c) + MaxCost(c) < Pow2(c.wordBits - 1)
  {
    hide MaxCost, Pow2;
    TwoFewer(c.k, MaxCost(c));
  }

  lemma TwoFewer(k: nat, m: nat)
    requires k >= 1
    ensures (k - 1) * m + m <= (k + 1) * m
  {
  }

  // ----- Clean transmissions

  /** The symbols that the encoder sends for register contents sr. */
  function SentGroup(c: ConvCode, sr: nat): (g: seq<nat>)
    ensures |g| == Rate(c)
    ensures forall j :: 0 <= j < Rate(c) ==> g[j] == Expected(c.polys[j], sr)
  {
    seq(Rate(c), j requires 0 <= j < Rate(c) => Expected(c.polys[j], sr))
  }

  /** The groups are what the encoder sends for inputs u, starting in state s. */
  ghost predicate Clean(c: ConvCode, s: nat, u: seq<nat>, groups: seq<seq<nat>>)
    requires ValidCode(c) && s < States(c) && BitString(u)
  {
    && |groups| == |u|
    && forall t :: 0 <= t < |u| ==> groups[t] == SentGroup(c, 2 * StateAfter(c, s, u[..t]) + u[t])
  }

  lemma CleanIsValid(c: ConvCode, s: nat, u: seq<nat>, groups: seq<seq<nat>>)
    requires ValidCode(c) && s < States(c) && BitString(u) && Clean(c, s, u, groups)
    ensures ValidRun(c, s, groups)
  {
  }

  lemma {:induction false} SentCostsNothing(c: ConvCode, sr: nat, n: nat)
    requires n <= Rate(c)
    ensures CostUpTo(c, sr, SentGroup(c, sr), n) == 0
  {
    if n > 0 {
      SentCostsNothing(c, sr, n - 1);
      XorSelf(Expected(c.polys[n - 1], sr));
    }
  }

  lemma {:induction false} TruePathIsFree(c: ConvCode, s: nat, u: seq<nat>, groups: seq<seq<nat>>, t: nat)
    requires ValidCode(c) && s < States(c) && BitString(u) && Clean(c, s, u, groups) && t <= |u|
    ensures PathCost(c, s, groups, s, u[..t]) == 0
  {
    hide Cost, ValidCode, Half;
    if t > 0 {
      TruePathIsFree(c, s, u, groups, t - 1);
      assert u[..t][..t - 1] == u[..t - 1];
      SentCosts(c, 2 * StateAfter(c, s, u[..t - 1]) + u[t - 1]);
    }
  }

  lemma SentCosts(c: ConvCode, sr: nat)
    ensures Cost(c, sr, SentGroup(c, sr)) == 0
  {
    SentCostsNothing(c, sr, Rate(c));
  }

  /** From the same state the other input bit sends the opposite symbols. */
  lemma OtherBitCosts(c: ConvCode, p: nat, b: nat, b': nat)
    requires ValidCode(c) && b < 2 && b' < 2 && b != b'
    ensures Cost(c, 2 * p + b', SentGroup(c, 2 * p + b)) > 0
  {
    SentCosts(c, 2 * p + b);
    FlipLow(c, 2 * p, SentGroup(c, 2 * p + b));
  }

  /** The transmitted path is the only one that costs nothing. */
  lemma {:induction false} FreePathIsUnique(c: ConvCode, s: nat, u: seq<nat>, groups: seq<seq<nat>>, s': nat, u': seq<nat>)
    requires ValidCode(c) && s < States(c) && BitString(u) && Clean(c, s, u, groups)
    requires s' < States(c) && BitString(u') && |u'| <= |u|
    requires PathCost(c, s, groups, s', u') == 0
    ensures s' == s && u' == u[..|u'|]
    decreases |u'|
  {
    hide Cost, Half, SentGroup, ValidCode, PathCost, StateAfter, Clean;
    CleanIsValid(c, s, u, groups);
    CleanLength(c, s, u, groups);
    if u' == [] {
      EmptyPathCost(c, s, groups, s');
      FreeStart(c, s, s');
    } else {
      var t := |u'| - 1;
      PathExtend(c, s, groups, s', u');
      FreePathIsUnique(c, s, u, groups, s', u'[..t]);
      LastBitUnique(c, s, u, groups, u'[t], t);
      assert u' == u'[..t] + [u'[t]];
      assert u[..t + 1] == u[..t] + [u[t]];
    }
  }

  lemma EmptyPathCost(c: ConvCode, start: nat, groups: seq<seq<nat>>, s: nat)
    requires ValidRun(c, start, groups) && s < States(c)
    ensures PathCost(c, start, groups, s, []) == InitialMetric(c, start, s)
  {
  }

  lemma LastBitUnique(c: ConvCode, s: nat, u: seq<nat>, groups: seq<seq<nat>>, b: nat, t: nat)
    requires ValidCode(c) && s < States(c) && BitString(u) && Clean(c, s, u, groups)
    requires b < 2 && t < |u| && Cost(c, 2 * StateAfter(c, s, u[..t]) + b, groups[t]) == 0
    ensures b == u[t]
  {
    hide Cost, Half, SentGroup, ValidCode, StateAfter;
    if b != u[t] {
      OtherBitCosts(c, StateAfter(c, s, u[..t]), u[t], b);
    }
  }

  lemma FreeStart(c: ConvCode, s: nat, s': nat)
    requires ValidCode(c) && InitialMetric(c, s, s') == 0
    ensures s == s'
  {
  }

  /** Without noise the survivor of the true end state is the transmitted path. */
  lemma CleanSurvivor(c: ConvCode, s: nat, u: seq<nat>, groups: seq<seq<nat>>)
    requires ValidCode(c) && s < States(c) && BitString(u) && Clean(c, s, u, groups)
    ensures ValidRun(c, s, groups)
    ensures SurvivorInputs(c, s, groups, |u|, StateAfter(c, s, u)) == u
  {
    hide Cost, Half, SentGroup, Metric, Survivor, SurvivorInputs, Clean, PathCost;
    CleanIsValid(c, s, u, groups);
    CleanLength(c, s, u, groups);
    var e := StateAfter(c, s, u);
    assert u[..|u|] == u;
    TruePathIsFree(c, s, u, groups, |u|);
    MetricIsLowerBound(c, s, groups, s, u);
    SurvivorAttains(c, s, groups, |u|, e);
    FreePathIsUnique(c, s, u, groups, Survivor(c, s, groups, |u|, e, 0), SurvivorInputs(c, s, groups, |u|, e));
  }

  lemma CleanLength(c: ConvCode, s: nat, u: seq<nat>, groups: seq<seq<nat>>)
    requires ValidCode(c) && s < States(c) && BitString(u) && Clean(c, s, u, groups)
    ensures |groups| == |u|
  {
  }

  lemma {:induction false} LowMinusPower(a: nat, m: nat, h: nat)
    requires m <= h && a >= Pow2(h)
    ensures Low(a - Pow2(h), m) == Low(a, m)
    decreases m
  {
    hide Low;
    if m == 0 {
      LowNone(a);
      LowNone(a - Pow2(h));
    } else {
      assert (a - Pow2(h)) / 2 == a / 2 - Pow2(h - 1) && (a - Pow2(h)) % 2 == a % 2;
      LowMinusPower(a / 2, m - 1, h - 1);
      LowHalf(a, m);
      LowHalf(a - Pow2(h), m);
      HalvesEqual(Low(a - Pow2(h), m), Low(a, m));
    }
  }

  lemma {:induction false} TailClearsBits(c: ConvCode, s: nat, u: seq<nat>, m: nat)
    requires c.k >= 2 && s < States(c) && BitString(u) && m <= |u| && m <= c.k - 1
    requires forall i :: |u| - m <= i < |u| ==> u[i] == 0
    ensures Low(StateAfter(c, s, u), m) == 0
  {
    hide Low, Pow2;
    if m == 0 {
      LowNone(StateAfter(c, s, u));
    } else {
      var v := u[..|u| - 1];
      TailClearsBits(c, s, v, m - 1);
      ZeroShiftedIn(c, StateAfter(c, s, v), m);
    }
  }

  lemma ZeroShiftedIn(c: ConvCode, p: nat, m: nat)
    requires c.k >= 2 && p < States(c) && 1 <= m <= c.k - 1 && Low(p, m - 1) == 0
    ensures Low(Next(c, p, 0), m) == 0
  {
    hide Low;
    LowHalf(Next(c, p, 0), m);
    if p >= Half(c) {
      LowMinusPower(p, m - 1, c.k - 2);
    }
  }

  /** A tail of k - 1 zeros brings the encoder back to state 0. */
  lemma TailEndsAtZero(c: ConvCode, s: nat, u: seq<nat>)
    requires c.k >= 2 && s < States(c) && BitString(u) && c.k - 1 <= |u|
    requires forall i :: |u| - (c.k - 1) <= i < |u| ==> u[i] == 0
    ensures StateAfter(c, s, u) == 0
  {
    TailClearsBits(c, s, u, c.k - 1);
    assert States(c) == Pow2(c.k - 1);
  }

  // ----- Surviving states and their inputs

  /** The bits of a surviving state are the inputs that led to it, the latest lowest. */
  lemma {:induction false} SurvivorBits(c: ConvCode, start: nat, groups: seq<seq<nat>>, T: nat, s: nat, t: nat, m: nat)
    requires ValidRun(c, start, groups) && t <= T <= |groups| && s < States(c)
    requires m < c.k - 1 && m < t
    ensures Bit(Survivor(c, start, groups, T, s, t), m) == (SurvivorInputs(c, start, groups, T, s)[t - 1 - m] == 1)
    decreases m
  {
    hide ValidCode, TakesUpper;
    if m > 0 {
      var x := Survivor(c, start, groups, T, s, t);
      var p := Survivor(c, start, groups, T, s, t - 1);
      assert p == Predecessor(c, start, groups, t - 1, x);
      SurvivorBits(c, start, groups, T, s, t - 1, m - 1);
      BitPlusPower(x / 2, c.k - 2, m - 1);
    }
  }

  /** The decision taken for a surviving state is the input of k - 1 groups before. */
  lemma DecisionIsInput(c: ConvCode, start: nat, groups: seq<seq<nat>>, T: nat, s: nat, t: nat)
    requires ValidRun(c, start, groups) && c.k - 1 <= t < T <= |groups| && s < States(c)
    ensures TakesUpper(c, start, groups, t, Survivor(c, start, groups, T, s, t + 1))
            == (SurvivorInputs(c, start, groups, T, s)[t - (c.k - 1)] == 1)
  {
    hide ValidCode, TakesUpper, SurvivorInputs;
    var x := Survivor(c, start, groups, T, s, t + 1);
    SurvivorBits(c, start, groups, T, s, t, c.k - 2);
    assert Survivor(c, start, groups, T, s, t) == Predecessor(c, start, groups, t, x);
    BitPlusPower(x / 2, c.k - 2, c.k - 2);
    BitAbove(x / 2, c.k - 2, c.k - 2);
  }
}
