/** The codes of the library, and what a whole frame of decoding achieves. */
module ViterbiFrames {
  import opened Bits
  import opened Trellis
  import opened TrellisProperties
  import opened TapCounts
  import opened ViterbiDecoder

  // ----- The four decoders

  const V27: ConvCode := ConvCode(7, [0x6d, 0x4f], 63, false, 32, false)
  const V29: ConvCode := ConvCode(9, [0x1af, 0x11d], 63, false, 32, false)
  const V39: ConvCode := ConvCode(9, [0x1ed, 0x19b, 0x127], 63, false, 32, false)
  const V615: ConvCode := ConvCode(15, [0x4599, 0x4ea5, 0x5d47, 0x76f3, 0x7eb7, 0x695f], 1000, true, 32, true)

  lemma {:induction false} Pow2Grows(m: nat, n: nat)
    requires m <= n
    ensures Pow2(m) <= Pow2(n)
    decreases n
  {
    if m < n {
      Pow2Grows(m, n - 1);
    }
  }

  lemma {:induction false} Pow2Of15()
    ensures Pow2(15) == 32768
  {
    assert Pow2(5) == 32;
    assert Pow2(10) == 1024 by {
      assert Pow2(10) == 2 * Pow2(9) && Pow2(9) == 2 * Pow2(8) && Pow2(8) == 2 * Pow2(7) && Pow2(7) == 2 * Pow2(6);
    }
    assert Pow2(15) == 2 * Pow2(14) && Pow2(14) == 2 * Pow2(13) && Pow2(13) == 2 * Pow2(12) && Pow2(12) == 2 * Pow2(11);
  }

  /** The standard polynomials have both end taps, and a 32-bit metric is wide enough for each of the four codes, a 64-bit one as well for the last. */
  lemma StandardCodes()
    ensures ValidCode(V27) && ValidCode(V29) && ValidCode(V39) && ValidCode(V615)
    ensures ValidCode(V615.(wordBits := 64))
  {
    hide Bit, Pow2;
    Pow2Of15();
    Pow2Grows(15, 31);
    Pow2Grows(15, 63);
    TapsOfShortCodes();
    TapsOfLongCode();
  }

  lemma TapsOfShortCodes()
    ensures Bit(0x6d, 6) && Bit(0x4f, 6)
    ensures Bit(0x1af, 8) && Bit(0x11d, 8)
    ensures Bit(0x1ed, 8) && Bit(0x19b, 8) && Bit(0x127, 8)
  {
  }

  lemma TapsOfLongCode()
    ensures Bit(0x4599, 14) && Bit(0x4ea5, 14) && Bit(0x5d47, 14) && Bit(0x76f3, 14) && Bit(0x7eb7, 14) && Bit(0x695f, 14)
  {
  }

  // ----- The encoder, by the inputs under its taps

  /** Whether input t is a one; those before the first are in the start state, the latest lowest. */
  predicate InputBit(start: nat, u: seq<nat>, t: int)
    requires t < |u|
  {
    if t >= 0 then u[t] == 1 else Bit(start, -1 - t)
  }

  /** The taps that meet a one at time t: tap i sees the input of i groups before. */
  function TapInputs(poly: nat, k: nat, start: nat, u: seq<nat>, t: nat): set<nat>
    requires t < |u|
  {
    set i | 0 <= i < k && InputBit(start, u, t - i) && Bit(poly, i)
  }

  /** The symbol of polynomial j at time t. */
  function SentSymbol(c: ConvCode, start: nat, u: seq<nat>, t: nat, j: nat): nat
    requires t < |u| && j < Rate(c)
  {
    SymbolFor(c.polys[j], |TapInputs(Abs(c.polys[j]), c.k, start, u, t)|)
  }

  /** The groups are what an encoder sends for the inputs u without noise. */
  predicate SentFor(c: ConvCode, start: nat, u: seq<nat>, groups: seq<seq<nat>>) {
    |groups| == |u| && forall t :: 0 <= t < |u| ==>
      |groups[t]| == Rate(c) && forall j :: 0 <= j < Rate(c) ==> groups[t][j] == SentSymbol(c, start, u, t, j)
  }

  /** The encoder's register holds the latest inputs, the newest lowest. */
  lemma {:induction false} RegisterBits(c: ConvCode, s: nat, u: seq<nat>, t: nat, i: nat)
    requires c.k >= 2 && s < States(c) && BitString(u) && t < |u| && i < c.k
    ensures Bit(2 * StateAfter(c, s, u[..t]) + u[t], i) == InputBit(s, u, t - i)
    decreases i
  {
    hide Half, Pow2, StateAfter;
    var x := StateAfter(c, s, u[..t]);
    if i > 0 {
      assert Bit(2 * x + u[t], i) == Bit(x, i - 1);
      if t == 0 {
        EmptyPath(c, s, u);
      } else {
        RegisterBits(c, s, u, t - 1, i - 1);
        StateStep(c, s, u, t, i - 1);
      }
    }
  }

  lemma EmptyPath(c: ConvCode, s: nat, u: seq<nat>)
    requires c.k >= 2 && s < States(c) && BitString(u)
    ensures StateAfter(c, s, u[..0]) == s
  {
  }

  /** The state is the register before without its highest bit. */
  lemma StateStep(c: ConvCode, s: nat, u: seq<nat>, t: nat, i: nat)
    requires c.k >= 2 && s < States(c) && BitString(u) && 0 < t <= |u| && i < c.k - 1
    ensures Bit(StateAfter(c, s, u[..t]), i) == Bit(2 * StateAfter(c, s, u[..t - 1]) + u[t - 1], i)
  {
    assert u[..t][..t - 1] == u[..t - 1];
    hide Bit, Pow2;
    var p, x := StateAfter(c, s, u[..t - 1]), StateAfter(c, s, u[..t]);
    StatesArePower(c);
    if p >= Half(c) {
      assert 2 * p + u[t - 1] == x + Pow2(c.k - 1);
      BitPlusPower(x, c.k - 1, i);
    }
  }

  lemma RegisterSymbol(c: ConvCode, s: nat, u: seq<nat>, t: nat, j: nat)
    requires c.k >= 2 && s < States(c) && BitString(u) && t < |u| && j < Rate(c)
    ensures Expected(c.polys[j], 2 * StateAfter(c, s, u[..t]) + u[t]) == SentSymbol(c, s, u, t, j)
  {
    hide Bit, Half, Pow2, StateAfter, Expected, SymbolFor, InputBit;
    var sr, poly := 2 * StateAfter(c, s, u[..t]) + u[t], Abs(c.polys[j]);
    RegisterRange(c, s, u, t);
    ExpectedByCount(c.polys[j], sr, c.k);
    forall i | 0 <= i < c.k
      ensures Bit(sr, i) == InputBit(s, u, t - i)
    {
      RegisterBits(c, s, u, t, i);
    }
    assert Taps(poly, sr, c.k) == TapInputs(poly, c.k, s, u, t);
  }

  lemma RegisterRange(c: ConvCode, s: nat, u: seq<nat>, t: nat)
    requires c.k >= 2 && s < States(c) && BitString(u) && t < |u|
    ensures 2 * StateAfter(c, s, u[..t]) + u[t] < Pow2(c.k)
  {
    hide StateAfter;
    StatesArePower(c);
    assert Pow2(c.k) == 2 * Pow2(c.k - 1);
  }

  /** The register's encoder is that one. */
  lemma SentIsClean(c: ConvCode, s: nat, u: seq<nat>, groups: seq<seq<nat>>)
    requires ValidCode(c) && s < States(c) && BitString(u)
    ensures SentFor(c, s, u, groups) <==> Clean(c, s, u, groups)
  {
    hide ValidCode, Expected, SentSymbol, StateAfter, Half;
    if |groups| == |u| {
      forall t | 0 <= t < |u|
        ensures groups[t] == SentGroup(c, 2 * StateAfter(c, s, u[..t]) + u[t])
                <==> |groups[t]| == Rate(c) && forall j :: 0 <= j < Rate(c) ==> groups[t][j] == SentSymbol(c, s, u, t, j)
      {
        forall j | 0 <= j < Rate(c)
          ensures Expected(c.polys[j], 2 * StateAfter(c, s, u[..t]) + u[t]) == SentSymbol(c, s, u, t, j)
        {
          RegisterSymbol(c, s, u, t, j);
        }
      }
    }
  }

  // ----- Distance between a path and what was received

  function AbsDifference(a: nat, b: nat): nat {
    if a >= b then a - b else b - a
  }

  /** Distance of the first n symbols at time t. */
  function GroupDistance(c: ConvCode, s: nat, u: seq<nat>, t: nat, group: seq<nat>, n: nat): nat
    requires t < |u| && n <= Rate(c) == |group|
  {
    if n == 0 then 0
    else GroupDistance(c, s, u, t, group, n - 1) + AbsDifference(SentSymbol(c, s, u, t, n - 1), group[n - 1])
  }

  /** Distance of the first t groups, with the penalty for a start state other than the given one. */
  function PathDistance(c: ConvCode, start: nat, groups: seq<seq<nat>>, s: nat, u: seq<nat>, t: nat): nat
    requires t <= |u| <= |groups| && forall i :: 0 <= i < |groups| ==> |groups[i]| == Rate(c)
  {
    if t == 0 then (if s == start then 0 else c.initCost)
    else PathDistance(c, start, groups, s, u, t - 1) + GroupDistance(c, s, u, t - 1, groups[t - 1], Rate(c))
  }

  lemma {:induction false} CostIsDistance(c: ConvCode, s: nat, u: seq<nat>, t: nat, group: seq<nat>, n: nat)
    requires c.k >= 2 && s < States(c) && BitString(u) && t < |u| && IsGroup(c, group) && n <= Rate(c)
    ensures CostUpTo(c, 2 * StateAfter(c, s, u[..t]) + u[t], group, n) == GroupDistance(c, s, u, t, group, n)
  {
    hide StateAfter, Expected, SentSymbol, SymbolCost, Half;
    if n > 0 {
      CostIsDistance(c, s, u, t, group, n - 1);
      RegisterSymbol(c, s, u, t, n - 1);
      SymbolDistance(c.polys[n - 1], 2 * StateAfter(c, s, u[..t]) + u[t], group[n - 1]);
    }
  }

  /** The cost of a path is the distance between what it sends and what was received. */
  lemma {:induction false} PathCostIsDistance(c: ConvCode, start: nat, groups: seq<seq<nat>>, s: nat, u: seq<nat>, t: nat)
    requires ValidRun(c, start, groups) && s < States(c) && BitString(u) && t <= |u| <= |groups|
    ensures PathCost(c, start, groups, s, u[..t]) == PathDistance(c, start, groups, s, u, t)
  {
    hide ValidCode, StateAfter, CostUpTo, GroupDistance, Half;
    if t == 0 {
      assert u[..0] == [];
    } else {
      PathCostIsDistance(c, start, groups, s, u, t - 1);
      assert u[..t][..t - 1] == u[..t - 1];
      CostIsDistance(c, s, u, t - 1, groups[t - 1], Rate(c));
    }
  }

  // ----- Decoded frames

  /**
   Maximum likelihood: the traced path ends in the given state, and no path
   from any start state to that state sends symbols closer to those received.
   */
  lemma SurvivorIsOptimal(c: ConvCode, start: nat, groups: seq<seq<nat>>, T: nat, e: nat, s: nat, u: seq<nat>)
    requires ValidRun(c, start, groups) && T <= |groups| && e < States(c)
    requires s < States(c) && BitString(u) && |u| == T && StateAfter(c, s, u) == e
    ensures var s0, v := Survivor(c, start, groups, T, e, 0), SurvivorInputs(c, start, groups, T, e);
            && StateAfter(c, s0, v) == e
            && PathDistance(c, start, groups, s0, v, T) <= PathDistance(c, start, groups, s, u, T)
  {
    hide ValidCode, PathCost, Survivor, SurvivorInputs, StateAfter, Metric, PathDistance;
    SurvivorAttains(c, start, groups, T, e);
    MetricIsLowerBound(c, start, groups, s, u);
    var s0, v := Survivor(c, start, groups, T, e, 0), SurvivorInputs(c, start, groups, T, e);
    PathCostIsDistance(c, start, groups, s0, v, T);
    PathCostIsDistance(c, start, groups, s, u, T);
    assert v[..T] == v && u[..T] == u;
  }

  /** The message followed by k - 1 zeros that clear the encoder. */
  function WithTail(c: ConvCode, message: seq<nat>): (u: seq<nat>)
    requires c.k >= 1
    ensures |u| == |message| + c.k - 1
    ensures forall i :: 0 <= i < |message| ==> u[i] == message[i]
    ensures forall i :: |message| <= i < |u| ==> u[i] == 0
  {
    message + seq(c.k - 1, _ => 0)
  }

  /** Without noise, tracing back from state 0 gives the message. */
  lemma CleanFrame(c: ConvCode, start: nat, message: seq<nat>, groups: seq<seq<nat>>)
    requires ValidCode(c) && start < States(c) && BitString(message)
    requires SentFor(c, start, WithTail(c, message), groups)
    ensures ValidRun(c, start, groups)
    ensures SurvivorInputs(c, start, groups, |message| + c.k - 1, 0)[..|message|] == message
  {
    hide ValidCode, Clean, SentFor, SurvivorInputs;
    var u := WithTail(c, message);
    SentIsClean(c, start, u, groups);
    TailEndsAtZero(c, start, u);
    CleanSurvivor(c, start, u, groups);
    assert u[..|message|] == message;
  }

  /** A frame from start to end: the decoder is prepared, fed and traced back. */
  method DecodeFrame(v: Viterbi, start: nat, syms: array<nat>, nbits: nat, data: array<nat>, ghost message: seq<nat>)
    requires v.TablesReady() && start < States(v.c)
    requires nbits + v.c.k - 1 <= v.decisions.Length0
    requires (nbits + v.c.k - 1) * Rate(v.c) <= syms.Length && Bytes(syms[..])
    requires nbits <= 8 * data.Length && data != syms
    requires syms != v.metrics1 && syms != v.metrics2 && data != v.metrics1 && data != v.metrics2
    requires |message| == nbits && BitString(message)
    requires SentFor(v.c, start, WithTail(v.c, message), Grouped(v.c, syms[..], nbits + v.c.k - 1))
    modifies v, v.metrics1, v.metrics2, v.decisions, data
    ensures forall i :: 0 <= i < nbits ==> TopBit(data[i / 8], 8, i % 8) == (message[i] == 1)
  {
    hide ValidCode, TopBit, SentFor, Half, SurvivorInputs, Low, Pow2, Viterbi.Valid, Viterbi.TablesReady;
    StatesArePower(v.c);
    LowOfSmall(start, v.c.k - 1);
    LowOfSmall(0, v.c.k - 1);
    ghost var groups := Grouped(v.c, syms[..], nbits + v.c.k - 1);
    CleanFrame(v.c, start, message, groups);
    ghost var received := syms[..];
    v.Init(start);
    assert syms[..] == received;
    v.Update(syms, nbits + v.c.k - 1);
    assert v.groups == [] + groups == groups;
    v.Chainback(data, nbits, 0);
    ghost var u := SurvivorInputs(v.c, start, groups, nbits + v.c.k - 1, 0);
    assert forall i :: 0 <= i < nbits ==> u[i] == u[..nbits][i];
  }

  lemma LowOfSmall(a: nat, m: nat)
    requires a < Pow2(m)
    ensures Low(a, m) == a
  {
  }
}
