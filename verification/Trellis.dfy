/**
 Convolutional codes and their trellis: branch costs, path costs, and the
 metric recursion of the Viterbi decoders with its survivors.
 */
module Trellis {
  import opened Bits

  /**
   Constraint length, generator polynomials (negative for an inverted symbol),
   cost of starting in a state other than the given one, which predecessor
   wins a tie, the word size of the metrics, and whether decisions are packed
   into bytes rather than words.
   */
  datatype ConvCode = ConvCode(k: nat, polys: seq<int>, initCost: nat, upperWinsTies: bool, wordBits: nat, bytePacked: bool)

  function Half(c: ConvCode): (h: nat)
    requires c.k >= 2
    ensures h >= 1
  {
    Pow2(c.k - 2)
  }

  function States(c: ConvCode): nat
    requires c.k >= 2
  {
    2 * Half(c)
  }

  function Rate(c: ConvCode): nat {
    |c.polys|
  }

  /** The largest cost of one branch. */
  function MaxCost(c: ConvCode): nat {
    255 * Rate(c)
  }

  function Abs(x: int): nat {
    if x < 0 then -x else x
  }

  /** Both end taps are set in every polynomial, and the metrics have room for the spread. */
  ghost predicate ValidCode(c: ConvCode)
    ensures ValidCode(c) ==> c.k >= 2 && Rate(c) >= 1 && c.wordBits >= 2
  {
    && c.k >= 2
    && Rate(c) >= 1
    && (forall j :: 0 <= j < Rate(c) ==> Abs(c.polys[j]) % 2 == 1 && Bit(Abs(c.polys[j]), c.k - 1))
    && 0 < c.initCost <= MaxCost(c)
    && c.wordBits >= 2
    && (c.k + 1) * MaxCost(c) < Pow2(c.wordBits - 1)
  }

  // ----- Parity and expected symbols

  /** `a & b` */
  function And(a: nat, b: nat): nat {
    if a == 0 then 0
    else 2 * And(a / 2, b / 2) + (if a % 2 == 1 && b % 2 == 1 then 1 else 0)
  }

  /** Whether the number of ones in x is odd. */
  predicate Odd(x: nat) {
    if x == 0 then false else (x % 2 == 1) != Odd(x / 2)
  }

  lemma {:induction false} OddAndLow(a: nat, p: nat)
    requires a % 2 == 0
    ensures Odd(And(a + 1, p)) == (Odd(And(a, p)) != (p % 2 == 1))
  {
    OddHalf(And(a + 1, p));
    OddHalf(And(a, p));
    AndHalf(a, p);
    AndHalf(a + 1, p);
  }

  lemma OddHalf(x: nat)
    ensures Odd(x) == ((x % 2 == 1) != Odd(x / 2))
  {
    if x == 0 {
      assert !Odd(0);
    }
  }

  lemma AndHalf(a: nat, b: nat)
    ensures And(a, b) / 2 == And(a / 2, b / 2)
    ensures And(a, b) % 2 == if a % 2 == 1 && b % 2 == 1 then 1 else 0
  {
    if a == 0 {
      assert And(0, b / 2) == 0;
    }
  }

  lemma {:induction false} OddAndHigh(a: nat, p: nat, m: nat)
    requires a < Pow2(m)
    ensures Odd(And(a + Pow2(m), p)) == (Odd(And(a, p)) != Bit(p, m))
    decreases m
  {
    OddHalf(And(a + Pow2(m), p));
    OddHalf(And(a, p));
    AndHalf(a, p);
    AndHalf(a + Pow2(m), p);
    if m == 0 {
      assert And(0, p) == 0 && And(0, p / 2) == 0;
    } else {
      OddAndHigh(a / 2, p / 2, m - 1);
    }
  }

  /** The symbol that the encoder sends for register contents sr. */
  function Expected(poly: int, sr: nat): (e: nat)
    ensures e == 0 || e == 255
  {
    if (poly < 0) != Odd(And(sr, Abs(poly))) then 255 else 0
  }

  /** Distance between expected and received symbol. */
  function SymbolCost(poly: int, sr: nat, sym: nat): nat {
    Xor(Expected(poly, sr), sym)
  }

  predicate Bytes(g: seq<nat>) {
    forall j :: 0 <= j < |g| ==> g[j] < 256
  }

  lemma XorByte(s: nat)
    requires s < 256
    ensures Xor(255, s) == 255 - s && Xor(0, s) == s
  {
    XorZero(s);
    XorOnes(s, 8);
    assert Pow2(8) == 2 * Pow2(7) && Pow2(7) == 2 * Pow2(6) && Pow2(6) == 2 * Pow2(5) && Pow2(5) == 2 * Pow2(4);
  }

  lemma {:induction false} XorOnes(s: nat, m: nat)
    requires s < Pow2(m)
    ensures Xor(Pow2(m) - 1, s) == Pow2(m) - 1 - s
    decreases m
  {
    hide Xor;
    if m == 0 {
      XorZero(0);
    } else {
      hide Pow2;
      var ones := Pow2(m) - 1;
      PowerStep(m);
      OnesHalf(Pow2(m - 1), s);
      XorHalf(ones, s);
      XorOnes(s / 2, m - 1);
      HalvesEqual(Xor(ones, s), ones - s);
    }
  }

  lemma PowerStep(m: nat)
    requires m > 0
    ensures Pow2(m) == 2 * Pow2(m - 1)
  {
  }

  lemma OnesHalf(p: nat, s: nat)
    requires s < 2 * p
    ensures var ones := 2 * p - 1;
            && s / 2 < p && ones / 2 == p - 1 && ones % 2 == 1
            && (ones - s) / 2 == p - 1 - s / 2 && (ones - s) % 2 == 1 - s % 2
  {
  }

  /** Cost of the first n symbols of a group. */
  function CostUpTo(c: ConvCode, sr: nat, group: seq<nat>, n: nat): nat
    requires n <= Rate(c) && n <= |group|
  {
    if n == 0 then 0 else CostUpTo(c, sr, group, n - 1) + SymbolCost(c.polys[n - 1], sr, group[n - 1])
  }

  function Cost(c: ConvCode, sr: nat, group: seq<nat>): nat
    requires |group| == Rate(c)
  {
    CostUpTo(c, sr, group, Rate(c))
  }

  ghost predicate IsGroup(c: ConvCode, group: seq<nat>) {
    |group| == Rate(c) && Bytes(group)
  }

  /** Registers whose symbols are all opposite have complementary costs. */
  lemma {:induction false} OppositeCosts(c: ConvCode, sr: nat, sr': nat, group: seq<nat>, n: nat)
    requires IsGroup(c, group) && n <= Rate(c)
    requires forall j :: 0 <= j < n ==> Expected(c.polys[j], sr) + Expected(c.polys[j], sr') == 255
    ensures CostUpTo(c, sr, group, n) + CostUpTo(c, sr', group, n) == 255 * n
  {
    if n > 0 {
      OppositeCosts(c, sr, sr', group, n - 1);
      XorByte(group[n - 1]);
    }
  }

  lemma FlipLow(c: ConvCode, i: nat, group: seq<nat>)
    requires ValidCode(c) && IsGroup(c, group) && i % 2 == 0
    ensures Cost(c, i, group) + Cost(c, i + 1, group) == MaxCost(c)
  {
    forall j | 0 <= j < Rate(c)
      ensures Expected(c.polys[j], i) + Expected(c.polys[j], i + 1) == 255
    {
      OddAndLow(i, Abs(c.polys[j]));
    }
    OppositeCosts(c, i, i + 1, group, Rate(c));
  }

  lemma FlipHigh(c: ConvCode, i: nat, group: seq<nat>)
    requires ValidCode(c) && IsGroup(c, group) && i < States(c)
    ensures Cost(c, i, group) + Cost(c, i + States(c), group) == MaxCost(c)
  {
    assert States(c) == Pow2(c.k - 1);
    forall j | 0 <= j < Rate(c)
      ensures Expected(c.polys[j], i) + Expected(c.polys[j], i + States(c)) == 255
    {
      OddAndHigh(i, Abs(c.polys[j]), c.k - 1);
    }
    OppositeCosts(c, i, i + States(c), group, Rate(c));
  }

  lemma StatesAreDouble(c: ConvCode)
    requires ValidCode(c)
    ensures States(c) == 2 * Half(c)
  {
  }

  /** The four branches of a butterfly share one cost and its complement. */
  lemma ButterflyCosts(c: ConvCode, i: nat, group: seq<nat>)
    requires ValidCode(c) && IsGroup(c, group) && i < Half(c)
    ensures Cost(c, 2 * i, group) <= MaxCost(c)
    ensures Cost(c, 2 * (i + Half(c)), group) == MaxCost(c) - Cost(c, 2 * i, group)
    ensures Cost(c, 2 * i + 1, group) == MaxCost(c) - Cost(c, 2 * i, group)
    ensures Cost(c, 2 * (i + Half(c)) + 1, group) == Cost(c, 2 * i, group)
  {
    hide Cost, ValidCode, MaxCost, Pow2, Half;
    StatesAreDouble(c);
    FlipLow(c, 2 * i, group);
    FlipHigh(c, 2 * i, group);
    FlipLow(c, 2 * i + States(c), group);
  }

  // ----- Paths

  ghost predicate ValidRun(c: ConvCode, start: nat, groups: seq<seq<nat>>) {
    && ValidCode(c) && start < States(c)
    && forall t :: 0 <= t < |groups| ==> IsGroup(c, groups[t])
  }

  function InitialMetric(c: ConvCode, start: nat, s: nat): nat {
    if s == start then 0 else c.initCost
  }

  /** The encoder's next state. */
  function Next(c: ConvCode, s: nat, b: nat): (s': nat)
    requires c.k >= 2 && s < States(c) && b < 2
    ensures s' < States(c)
  {
    if s < Half(c) then 2 * s + b else 2 * (s - Half(c)) + b
  }

  predicate BitString(u: seq<nat>) {
    forall i :: 0 <= i < |u| ==> u[i] < 2
  }

  /** The state after the inputs u. */
  function StateAfter(c: ConvCode, s: nat, u: seq<nat>): (s': nat)
    requires c.k >= 2 && s < States(c) && BitString(u)
    ensures s' < States(c)
  {
    if u == [] then s else Next(c, StateAfter(c, s, u[..|u| - 1]), u[|u| - 1])
  }

  /** Cost of a path: that of its first state plus those of its branches. */
  function PathCost(c: ConvCode, start: nat, groups: seq<seq<nat>>, s: nat, u: seq<nat>): nat
    requires c.k >= 2 && s < States(c) && BitString(u) && |u| <= |groups|
    requires forall t :: 0 <= t < |groups| ==> |groups[t]| == Rate(c)
  {
    if u == [] then InitialMetric(c, start, s)
    else
      var v := u[..|u| - 1];
      PathCost(c, start, groups, s, v) + Cost(c, 2 * StateAfter(c, s, v) + u[|u| - 1], groups[|v|])
  }

  // ----- The metric recursion

  /** The metric of state s after t groups. */
  ghost function Metric(c: ConvCode, start: nat, groups: seq<seq<nat>>, t: nat, s: nat): nat
    requires ValidRun(c, start, groups) && t <= |groups| && s < States(c)
    decreases t, 0
  {
    if t == 0 then InitialMetric(c, start, s)
    else if TakesUpper(c, start, groups, t - 1, s) then Upper(c, start, groups, t - 1, s)
    else Lower(c, start, groups, t - 1, s)
  }

  /** The metric of s through its lower predecessor. */
  ghost function Lower(c: ConvCode, start: nat, groups: seq<seq<nat>>, t: nat, s: nat): nat
    requires ValidRun(c, start, groups) && t < |groups| && s < States(c)
    decreases t, 1
  {
    Metric(c, start, groups, t, s / 2) + Cost(c, 2 * (s / 2) + s % 2, groups[t])
  }

  ghost function Upper(c: ConvCode, start: nat, groups: seq<seq<nat>>, t: nat, s: nat): nat
    requires ValidRun(c, start, groups) && t < |groups| && s < States(c)
    decreases t, 1
  {
    Metric(c, start, groups, t, s / 2 + Half(c)) + Cost(c, 2 * (s / 2 + Half(c)) + s % 2, groups[t])
  }

  /** The decision for state s at group t: whether its upper predecessor survives. */
  ghost predicate TakesUpper(c: ConvCode, start: nat, groups: seq<seq<nat>>, t: nat, s: nat)
    requires ValidRun(c, start, groups) && t < |groups| && s < States(c)
    decreases t, 2
  {
    if c.upperWinsTies then Lower(c, start, groups, t, s) >= Upper(c, start, groups, t, s)
    else Lower(c, start, groups, t, s) > Upper(c, start, groups, t, s)
  }

  /** The upper predecessor survives when its candidate is smaller, and on a tie if the code says so. */
  lemma TieBreak(c: ConvCode, start: nat, groups: seq<seq<nat>>, t: nat, s: nat)
    requires ValidRun(c, start, groups) && t < |groups| && s < States(c)
    ensures var p, q := s / 2, s / 2 + Half(c);
            var lo := Metric(c, start, groups, t, p) + Cost(c, 2 * p + s % 2, groups[t]);
            var up := Metric(c, start, groups, t, q) + Cost(c, 2 * q + s % 2, groups[t]);
            && (TakesUpper(c, start, groups, t, s) <==> up < lo || (up == lo && c.upperWinsTies))
            && Metric(c, start, groups, t + 1, s) == if lo <= up then lo else up
  {
    hide ValidCode, Cost;
  }

  ghost function Predecessor(c: ConvCode, start: nat, groups: seq<seq<nat>>, t: nat, s: nat): (p: nat)
    requires ValidRun(c, start, groups) && t < |groups| && s < States(c)
    ensures p < States(c) && Next(c, p, s % 2) == s
  {
    if TakesUpper(c, start, groups, t, s) then s / 2 + Half(c) else s / 2
  }

  /** The state at time t of the path that survives in state s at time T. */
  ghost function Survivor(c: ConvCode, start: nat, groups: seq<seq<nat>>, T: nat, s: nat, t: nat): (p: nat)
    requires ValidRun(c, start, groups) && t <= T <= |groups| && s < States(c)
    ensures p < States(c)
    decreases T - t
  {
    if t == T then s
    else Predecessor(c, start, groups, t, Survivor(c, start, groups, T, s, t + 1))
  }

  /** The inputs of the surviving path. */
  ghost function SurvivorInputs(c: ConvCode, start: nat, groups: seq<seq<nat>>, T: nat, s: nat): (u: seq<nat>)
    requires ValidRun(c, start, groups) && T <= |groups| && s < States(c)
    ensures |u| == T && BitString(u)
    ensures forall i :: 0 <= i < T ==> u[i] == Survivor(c, start, groups, T, s, i + 1) % 2
  {
    seq(T, i requires 0 <= i < T => Survivor(c, start, groups, T, s, i + 1) % 2)
  }

  // ----- Optimality

  lemma MetricStep(c: ConvCode, start: nat, groups: seq<seq<nat>>, t: nat, s: nat)
    requires ValidRun(c, start, groups) && 1 <= t <= |groups| && s < States(c)
    ensures Metric(c, start, groups, t, s) <= Lower(c, start, groups, t - 1, s)
    ensures Metric(c, start, groups, t, s) <= Upper(c, start, groups, t - 1, s)
  {
    hide Cost, ValidCode;
  }

  /** No path to a state is cheaper than the state's metric. */
  lemma {:induction false} MetricIsLowerBound(c: ConvCode, start: nat, groups: seq<seq<nat>>, s: nat, u: seq<nat>)
    requires ValidRun(c, start, groups) && |u| <= |groups| && s < States(c) && BitString(u)
    ensures Metric(c, start, groups, |u|, StateAfter(c, s, u)) <= PathCost(c, start, groups, s, u)
    decreases |u|
  {
    hide Cost, ValidCode, Pow2;
    if u != [] {
      var v, b := u[..|u| - 1], u[|u| - 1];
      MetricIsLowerBound(c, start, groups, s, v);
      MetricStep(c, start, groups, |u|, StateAfter(c, s, u));
      var p := StateAfter(c, s, v);
      assert StateAfter(c, s, u) == Next(c, p, b);
    }
  }

  /** The surviving path ends in its state and costs exactly the state's metric. */
  lemma {:induction false} SurvivorAttains(c: ConvCode, start: nat, groups: seq<seq<nat>>, T: nat, s: nat)
    requires ValidRun(c, start, groups) && T <= |groups| && s < States(c)
    ensures var s0, u := Survivor(c, start, groups, T, s, 0), SurvivorInputs(c, start, groups, T, s);
            StateAfter(c, s0, u) == s && PathCost(c, start, groups, s0, u) == Metric(c, start, groups, T, s)
    decreases T
  {
    hide Cost, ValidCode, Pow2, Predecessor, Survivor, SurvivorInputs, PathCost, StateAfter, Metric;
    if T == 0 {
      SurvivorBase(c, start, groups, s);
    } else {
      var p := Predecessor(c, start, groups, T - 1, s);
      SurvivorAttains(c, start, groups, T - 1, p);
      SurvivorSplit(c, start, groups, T, s);
      MetricThroughPredecessor(c, start, groups, T, s);
      PathExtend(c, start, groups, Survivor(c, start, groups, T, s, 0), SurvivorInputs(c, start, groups, T, s));
    }
  }

  lemma PathExtend(c: ConvCode, start: nat, groups: seq<seq<nat>>, s0: nat, u: seq<nat>)
    requires ValidRun(c, start, groups) && s0 < States(c) && BitString(u) && 1 <= |u| <= |groups|
    ensures var v, b := u[..|u| - 1], u[|u| - 1];
            && StateAfter(c, s0, u) == Next(c, StateAfter(c, s0, v), b)
            && PathCost(c, start, groups, s0, u)
               == PathCost(c, start, groups, s0, v) + Cost(c, 2 * StateAfter(c, s0, v) + b, groups[|v|])
  {
    hide Cost, ValidCode, Pow2;
  }

  lemma MetricThroughPredecessor(c: ConvCode, start: nat, groups: seq<seq<nat>>, T: nat, s: nat)
    requires ValidRun(c, start, groups) && 1 <= T <= |groups| && s < States(c)
    ensures var p := Predecessor(c, start, groups, T - 1, s);
            Metric(c, start, groups, T, s) == Metric(c, start, groups, T - 1, p) + Cost(c, 2 * p + s % 2, groups[T - 1])
  {
    hide Cost, ValidCode, Pow2;
  }

  lemma SurvivorBase(c: ConvCode, start: nat, groups: seq<seq<nat>>, s: nat)
    requires ValidRun(c, start, groups) && s < States(c)
    ensures Survivor(c, start, groups, 0, s, 0) == s && SurvivorInputs(c, start, groups, 0, s) == []
    ensures StateAfter(c, s, []) == s && PathCost(c, start, groups, s, []) == Metric(c, start, groups, 0, s)
  {
  }

  /** The surviving path is that of the predecessor, extended by one branch. */
  lemma SurvivorSplit(c: ConvCode, start: nat, groups: seq<seq<nat>>, T: nat, s: nat)
    requires ValidRun(c, start, groups) && 1 <= T <= |groups| && s < States(c)
    ensures var p, u := Predecessor(c, start, groups, T - 1, s), SurvivorInputs(c, start, groups, T, s);
            && u[..T - 1] == SurvivorInputs(c, start, groups, T - 1, p) && u[T - 1] == s % 2
            && Survivor(c, start, groups, T, s, 0) == Survivor(c, start, groups, T - 1, p, 0)
  {
    hide Cost, ValidCode, Pow2, Predecessor, TakesUpper;
    var p, u := Predecessor(c, start, groups, T - 1, s), SurvivorInputs(c, start, groups, T, s);
    var v := SurvivorInputs(c, start, groups, T - 1, p);
    SurvivorPrefix(c, start, groups, T, s, 0);
    forall i | 0 <= i < T - 1
      ensures u[i] == v[i]
    {
      SurvivorPrefix(c, start, groups, T, s, i + 1);
    }
    assert u[..T - 1] == v;
    assert Survivor(c, start, groups, T, s, T) == s;
  }

  lemma {:induction false} SurvivorPrefix(c: ConvCode, start: nat, groups: seq<seq<nat>>, T: nat, s: nat, t: nat)
    requires ValidRun(c, start, groups) && t < T <= |groups| && s < States(c)
    ensures Survivor(c, start, groups, T, s, t)
            == Survivor(c, start, groups, T - 1, Predecessor(c, start, groups, T - 1, s), t)
    decreases T - t
  {
    hide Predecessor, ValidCode, Pow2;
    if t < T - 1 {
      SurvivorPrefix(c, start, groups, T, s, t + 1);
    } else {
      assert Survivor(c, start, groups, T, s, T) == s;
    }
  }

  // ----- Longer runs

  /** Later groups do not change earlier metrics and decisions. */
  lemma {:induction false} MetricOfLongerRun(c: ConvCode, start: nat, groups: seq<seq<nat>>, more: seq<seq<nat>>, t: nat, s: nat)
    requires ValidRun(c, start, groups) && ValidRun(c, start, groups + more) && t <= |groups| && s < States(c)
    ensures Metric(c, start, groups + more, t, s) == Metric(c, start, groups, t, s)
    decreases t, 0
  {
    hide Cost, ValidCode, Pow2;
    if t > 0 {
      DecisionOfLongerRun(c, start, groups, more, t - 1, s);
    }
  }

  lemma {:induction false} DecisionOfLongerRun(c: ConvCode, start: nat, groups: seq<seq<nat>>, more: seq<seq<nat>>, t: nat, s: nat)
    requires ValidRun(c, start, groups) && ValidRun(c, start, groups + more) && t < |groups| && s < States(c)
    ensures Lower(c, start, groups + more, t, s) == Lower(c, start, groups, t, s)
    ensures Upper(c, start, groups + more, t, s) == Upper(c, start, groups, t, s)
    ensures TakesUpper(c, start, groups + more, t, s) == TakesUpper(c, start, groups, t, s)
    decreases t, 1
  {
    hide Cost, ValidCode, Pow2, Metric;
    MetricOfLongerRun(c, start, groups, more, t, s / 2);
    MetricOfLongerRun(c, start, groups, more, t, s / 2 + Half(c));
  }
}
