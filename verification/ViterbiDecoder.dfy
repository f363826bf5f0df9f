/** The portable Viterbi decoders: metric buffers, packed decisions, traceback. */
module ViterbiDecoder {
  import opened Bits
  import opened Trellis
  import opened TrellisProperties
  import opened TapCounts
  import opened Parity

  // ----- Packed decisions

  /** Index of the byte or word that holds the decision of state s. */
  function WordOf(c: ConvCode, s: nat): nat {
    if c.bytePacked then s / 8 else s / 32
  }

  function BitOf(c: ConvCode, s: nat): nat {
    if c.bytePacked then s % 8 else s % 32
  }

  /** Bytes or words for the decisions of one group. */
  function Words(c: ConvCode): nat
    requires c.k >= 2
  {
    WordOf(c, States(c) - 1) + 1
  }

  function Flag(d: bool): (f: nat)
    ensures f < 2
  {
    if d then 1 else 0
  }

  /** Or-ing a flag into a word sets just its bit. */
  lemma MarkBit(w: nat, d: bool, k: nat, m: nat)
    ensures Bit(Or(w, Shl(Flag(d), k)), m) == (Bit(w, m) || (m == k && d))
  {
    hide Or, Shl;
    BitOr(w, Shl(Flag(d), k), m);
    BitShl(Flag(d), k, m);
    if m > k {
      assert Pow2(1) == 2 * Pow2(0);
      BitAbove(Flag(d), 1, m - k);
    }
  }

  /** Or-ing two flags into adjacent bits. */
  lemma MarkTwoBits(w: nat, d: bool, e: bool, k: nat, m: nat)
    ensures Bit(Or(w, Shl(Or(Flag(d), Shl(Flag(e), 1)), k)), m) == (Bit(w, m) || (m == k && d) || (m == k + 1 && e))
  {
    hide Or, Shl, Flag, Bit;
    var v := Or(Flag(d), Shl(Flag(e), 1));
    BitOr(w, Shl(v, k), m);
    BitShl(v, k, m);
    if m >= k {
      ZeroBit(m - k);
      MarkBit(Flag(d), e, 1, m - k);
      FlagBit(d, m - k);
    }
  }

  lemma FlagBit(d: bool, m: nat)
    ensures Bit(Flag(d), m) == (m == 0 && d)
  {
    if m > 0 {
      assert Pow2(1) == 2 * Pow2(0);
      BitAbove(Flag(d), 1, m);
    }
  }

  class Viterbi {
    const c: ConvCode
    const branchtab: array2<nat>
    const metrics1: array<nat>
    const metrics2: array<nat>
    var oldMetrics: array<nat>
    var newMetrics: array<nat>
    const decisions: array2<nat>
    var dp: nat
    ghost var start: nat
    ghost var groups: seq<seq<nat>>

    /** Allocates a decoder for `len` data bits. */
    constructor (code: ConvCode, len: nat)
      requires ValidCode(code)
      ensures Layout() && c == code && decisions.Length0 == len + code.k - 1
      ensures fresh(branchtab) && fresh(metrics1) && fresh(metrics2) && fresh(decisions)
    {
      c := code;
      branchtab := new nat[Rate(code), Half(code)];
      metrics1 := new nat[States(code)];
      metrics2 := new nat[States(code)];
      decisions := new nat[len + code.k - 1, Words(code)];
      new;
      oldMetrics, newMetrics := metrics1, metrics2;
      dp := 0;
    }

    ghost predicate Layout()
      reads this
      ensures Layout() ==> ValidCode(c)
    {
      && ValidCode(c)
      && branchtab.Length0 == Rate(c) && branchtab.Length1 == Half(c)
      && metrics1.Length == metrics2.Length == States(c)
      && metrics1 != metrics2 && branchtab != decisions
      && decisions.Length1 == Words(c)
      && oldMetrics.Length == newMetrics.Length == States(c) && oldMetrics != newMetrics
      && (oldMetrics == metrics1 || oldMetrics == metrics2) && (newMetrics == metrics1 || newMetrics == metrics2)
    }

    /** The branch tables hold the expected symbols of the even registers. */
    ghost predicate TablesReady()
      reads this, branchtab
      ensures TablesReady() ==> Layout()
    {
      Layout() && forall j, i :: 0 <= j < Rate(c) && 0 <= i < Half(c) ==> branchtab[j, i] == Expected(c.polys[j], 2 * i)
    }

    /** The decision recorded for state s at group t. */
    ghost predicate Recorded(t: nat, s: nat)
      requires Layout() && t < decisions.Length0 && s < States(c)
      reads this, decisions
    {
      Bit(decisions[t, WordOf(c, s)], BitOf(c, s))
    }

    ghost predicate Valid()
      reads this, branchtab, metrics1, metrics2, decisions
      ensures Valid() ==> TablesReady() && Layout() && ValidRun(c, start, groups) && dp == |groups| <= decisions.Length0
    {
      && TablesReady()
      && ValidRun(c, start, groups)
      && dp == |groups| <= decisions.Length0
      && (forall s :: 0 <= s < States(c) ==> oldMetrics[s] == Wrap(c.wordBits, Metric(c, start, groups, dp, s)))
      && forall t, s :: 0 <= t < dp && 0 <= s < States(c) ==> Recorded(t, s) == TakesUpper(c, start, groups, t, s)
    }

    /** Computes the branch tables from the code polynomials. */
    method SetPolynomials(pt: ParityTable)
      requires Layout() && pt.Valid()
      requires forall j :: 0 <= j < Rate(c) ==> Abs(c.polys[j]) < Pow2(31)
      requires 2 * Half(c) < Pow2(31)
      modifies branchtab, pt, pt.partab
      ensures TablesReady()
      ensures forall j, i :: 0 <= j < Rate(c) && 0 <= i < Half(c) ==>
                branchtab[j, i] == SymbolFor(c.polys[j], |Taps(Abs(c.polys[j]), 2 * i, c.k)|)
    {
      hide ValidCode, Odd, And, Half, Pow2, Expected, SymbolFor;
      for state := 0 to Half(c)
        invariant Layout() && pt.Valid()
        invariant forall j, i :: 0 <= j < Rate(c) && 0 <= i < state ==> branchtab[j, i] == Expected(c.polys[j], 2 * i)
      {
        for n := 0 to Rate(c)
          invariant Layout() && pt.Valid()
          invariant forall j, i :: 0 <= j < Rate(c) && 0 <= i < state ==> branchtab[j, i] == Expected(c.polys[j], 2 * i)
          invariant forall j :: 0 <= j < n ==> branchtab[j, state] == Expected(c.polys[j], 2 * state)
        {
          MaskedIsSmall(2 * state, Abs(c.polys[n]));
          var p := pt.Parity(And(2 * state, Abs(c.polys[n])));
          branchtab[n, state] := if (c.polys[n] < 0) != (p == 1) then 255 else 0;
          ExpectedIs(c.polys[n], 2 * state);
        }
      }
      TablesByCount(c);
    }

    /** Prepares for a new frame that starts in the given state. */
    method Init(startingState: nat)
      requires TablesReady()
      modifies this, metrics1
      ensures Valid() && groups == [] && start == Low(startingState, c.k - 1)
    {
      hide Half, Pow2, Bit, Expected;
      assert States(c) == Pow2(c.k - 1) by {
        StatesArePower(c);
      }
      for i := 0 to States(c)
        invariant TablesReady()
        invariant forall k :: 0 <= k < i ==> metrics1[k] == c.initCost
      {
        metrics1[i] := c.initCost;
      }
      oldMetrics, newMetrics, dp := metrics1, metrics2, 0;
      oldMetrics[Low(startingState, c.k - 1)] := 0;
      start, groups := Low(startingState, c.k - 1), [];
      forall s | 0 <= s < States(c)
        ensures oldMetrics[s] == Wrap(c.wordBits, Metric(c, start, groups, 0, s))
      {
        InitialFits(c, start, s);
      }
    }

    /** Branch cost of butterfly i: table entries against received symbols. */
    method BranchMetric(i: nat, group: seq<nat>) returns (metric: nat)
      requires TablesReady() && i < Half(c) && IsGroup(c, group)
      ensures metric == Cost(c, 2 * i, group)
    {
      hide ValidCode, Half, Pow2, Expected, Xor;
      metric := 0;
      for j := 0 to Rate(c)
        invariant metric == CostUpTo(c, 2 * i, group, j)
      {
        metric := metric + Xor(branchtab[j, i], group[j]);
      }
    }

    /** The decisions of all states but the two of butterfly i are as before. */
    twostate predicate OnlyMarked(row: nat, i: nat)
      requires Layout() && old(Layout()) && row < decisions.Length0 && i < Half(c)
      reads this, decisions
    {
      && (forall t, w :: 0 <= t < decisions.Length0 && t != row && 0 <= w < decisions.Length1 ==>
            decisions[t, w] == old(decisions[t, w]))
      && forall s :: 0 <= s < States(c) && s / 2 != i ==> Recorded(row, s) == old(Recorded(row, s))
    }

    /** Ors one decision flag into its word. */
    method Mark(row: nat, s: nat, d: bool)
      requires Layout() && row < decisions.Length0 && s < States(c)
      modifies decisions
      ensures forall t, w :: 0 <= t < decisions.Length0 && t != row && 0 <= w < decisions.Length1 ==>
                decisions[t, w] == old(decisions[t, w])
      ensures forall x :: 0 <= x < States(c) ==> Recorded(row, x) == (old(Recorded(row, x)) || (x == s && d))
    {
      hide ValidCode, Half, Bit, Or, Shl;
      var w, k := WordOf(c, s), BitOf(c, s);
      ghost var before := decisions[row, w];
      decisions[row, w] := Or(decisions[row, w], Shl(Flag(d), k));
      forall x | 0 <= x < States(c)
        ensures Recorded(row, x) == (old(Recorded(row, x)) || (x == s && d))
      {
        MarkBit(before, d, k, BitOf(c, x));
      }
    }

    /** Ors the two flags of a butterfly into their words one after the other. */
    method MarkEach(row: nat, i: nat, d: bool, e: bool)
      requires Layout() && row < decisions.Length0 && i < Half(c)
      modifies decisions
      ensures forall t, w :: 0 <= t < decisions.Length0 && t != row && 0 <= w < decisions.Length1 ==>
                decisions[t, w] == old(decisions[t, w])
      ensures forall x :: 0 <= x < States(c) ==>
                Recorded(row, x) == (old(Recorded(row, x)) || (x == 2 * i && d) || (x == 2 * i + 1 && e))
    {
      hide ValidCode, Half, Recorded;
      Mark(row, 2 * i, d);
      Mark(row, 2 * i + 1, e);
    }

    /** Ors the two flags of a butterfly into their byte at once. */
    method MarkPair(row: nat, i: nat, d: bool, e: bool)
      requires Layout() && row < decisions.Length0 && i < Half(c)
      modifies decisions
      ensures forall t, w :: 0 <= t < decisions.Length0 && t != row && 0 <= w < decisions.Length1 ==>
                decisions[t, w] == old(decisions[t, w])
      ensures forall x :: 0 <= x < States(c) ==>
                Recorded(row, x) == (old(Recorded(row, x)) || (x == 2 * i && d) || (x == 2 * i + 1 && e))
    {
      hide ValidCode, Half, Bit, Or, Shl;
      var w, k := WordOf(c, 2 * i), BitOf(c, 2 * i);
      ghost var before := decisions[row, w];
      decisions[row, w] := Or(decisions[row, w], Shl(Or(Flag(d), Shl(Flag(e), 1)), k));
      forall x | 0 <= x < States(c)
        ensures Recorded(row, x) == (old(Recorded(row, x)) || (x == 2 * i && d) || (x == 2 * i + 1 && e))
      {
        MarkTwoBits(before, d, e, k, BitOf(c, x));
      }
    }

    /** What a butterfly needs: old metrics of the run so far, one more group, its own decisions still clear. */
    ghost predicate ButterflyInput(i: nat, group: seq<nat>)
      reads this, branchtab, metrics1, metrics2, decisions
    {
      && TablesReady() && ValidRun(c, start, groups) && IsGroup(c, group)
      && dp == |groups| < decisions.Length0 && i < Half(c)
      && (forall s :: 0 <= s < States(c) ==> oldMetrics[s] == Wrap(c.wordBits, Metric(c, start, groups, dp, s)))
      && !Recorded(dp, 2 * i) && !Recorded(dp, 2 * i + 1)
    }

    /** A butterfly sets the new metrics and decisions of its two states. */
    twostate predicate ButterflyOutput(i: nat, group: seq<nat>)
      requires old(ButterflyInput(i, group)) && Layout() && dp < decisions.Length0
      requires ValidRun(c, start, groups + [group])
      requires start == old(start) && groups == old(groups) && dp == old(dp) && newMetrics == old(newMetrics)
      reads this, metrics1, metrics2, decisions
    {
      var more := groups + [group];
      && newMetrics[2 * i] == Wrap(c.wordBits, Metric(c, start, more, dp + 1, 2 * i))
      && newMetrics[2 * i + 1] == Wrap(c.wordBits, Metric(c, start, more, dp + 1, 2 * i + 1))
      && (forall s :: 0 <= s < States(c) && s / 2 != i ==> newMetrics[s] == old(newMetrics[s]))
      && Recorded(dp, 2 * i) == TakesUpper(c, start, more, dp, 2 * i)
      && Recorded(dp, 2 * i + 1) == TakesUpper(c, start, more, dp, 2 * i + 1)
      && OnlyMarked(dp, i)
    }

    /** The butterfly of the decoders of constraint length 7 and 9: one pair of sums, adjusted for the odd state. */
    method Butterfly(i: nat, group: seq<nat>)
      requires ButterflyInput(i, group) && !c.upperWinsTies
      modifies newMetrics, decisions
      ensures ValidRun(c, start, groups + [group]) && ButterflyOutput(i, group)
    {
      hide ValidCode, Half, Pow2, Expected, Metric, Cost, Recorded, Wrap, Signed, TablesReady, Lower, Upper, TakesUpper;
      var w := c.wordBits;
      ghost var more := groups + [group];
      LongerRun(c, start, groups, group);
      var metric := BranchMetric(i, group);
      WrappedCandidates(c, start, groups, group, i, oldMetrics[i], oldMetrics[i + Half(c)]);
      var m0: int := Wrap(w, oldMetrics[i] + metric);
      var m1: int := Wrap(w, oldMetrics[i + Half(c)] + (MaxCost(c) - metric));
      WrappedDecision(c, start, more, dp, 2 * i, m0, m1);
      var decision := Signed(w, Wrap(w, m0 - m1)) > 0;
      newMetrics[2 * i] := if decision then m1 else m0;
      var even := decision;
      var adjust := Wrap(w, metric + metric - MaxCost(c));
      AdjustSum(w, oldMetrics[i], metric, MaxCost(c));
      AdjustDifference(w, oldMetrics[i + Half(c)], metric, MaxCost(c));
      m0 := Wrap(w, m0 - adjust);
      m1 := Wrap(w, m1 + adjust);
      WrappedDecision(c, start, more, dp, 2 * i + 1, m0, m1);
      decision := Signed(w, Wrap(w, m0 - m1)) > 0;
      newMetrics[2 * i + 1] := if decision then m1 else m0;
      MarkEach(dp, i, even, decision);
    }

    /** The butterfly of the decoder of constraint length 15: two pairs of sums, and ties go the other way. */
    method WideButterfly(i: nat, group: seq<nat>)
      requires ButterflyInput(i, group) && c.upperWinsTies
      modifies newMetrics, decisions
      ensures ValidRun(c, start, groups + [group]) && ButterflyOutput(i, group)
    {
      hide ValidCode, Half, Pow2, Expected, Metric, Cost, Recorded, Wrap, Signed, TablesReady, Lower, Upper, TakesUpper;
      var w := c.wordBits;
      ghost var more := groups + [group];
      LongerRun(c, start, groups, group);
      var metric := BranchMetric(i, group);
      WrappedCandidates(c, start, groups, group, i, oldMetrics[i], oldMetrics[i + Half(c)]);
      var m0: int := Wrap(w, oldMetrics[i] + metric);
      var m1: int := Wrap(w, oldMetrics[i + Half(c)] + (MaxCost(c) - metric));
      var m2: int := Wrap(w, oldMetrics[i] + (MaxCost(c) - metric));
      var m3: int := Wrap(w, oldMetrics[i + Half(c)] + metric);
      WrappedDecision(c, start, more, dp, 2 * i, m0, m1);
      WrappedDecision(c, start, more, dp, 2 * i + 1, m2, m3);
      var decision0 := Signed(w, Wrap(w, m0 - m1)) >= 0;
      var decision1 := Signed(w, Wrap(w, m2 - m3)) >= 0;
      newMetrics[2 * i] := if decision0 then m1 else m0;
      newMetrics[2 * i + 1] := if decision1 then m3 else m2;
      MarkPair(dp, i, decision0, decision1);
    }

    /** Clears the decisions of one group. */
    method ClearRow(row: nat)
      requires Layout() && row < decisions.Length0
      modifies decisions
      ensures forall t, w :: 0 <= t < decisions.Length0 && t != row && 0 <= w < decisions.Length1 ==>
                decisions[t, w] == old(decisions[t, w])
      ensures forall s :: 0 <= s < States(c) ==> !Recorded(row, s)
    {
      hide ValidCode, Half, Bit;
      for w := 0 to decisions.Length1
        invariant forall t, v :: 0 <= t < decisions.Length0 && t != row && 0 <= v < decisions.Length1 ==>
                    decisions[t, v] == old(decisions[t, v])
        invariant forall v :: 0 <= v < w ==> decisions[row, v] == 0
      {
        decisions[row, w] := 0;
      }
      forall s | 0 <= s < States(c)
        ensures !Recorded(row, s)
      {
        ZeroBit(BitOf(c, s));
      }
    }

    /** The first n states of the next group are done. */
    ghost predicate DoneUpTo(n: nat, more: seq<seq<nat>>)
      requires Layout() && ValidRun(c, start, more) && dp < |more| && dp < decisions.Length0
      reads this, metrics1, metrics2, decisions
    {
      forall s :: 0 <= s < n && s < States(c) ==>
        && newMetrics[s] == Wrap(c.wordBits, Metric(c, start, more, dp + 1, s))
        && Recorded(dp, s) == TakesUpper(c, start, more, dp, s)
    }

    ghost predicate ClearFrom(n: nat)
      requires Layout() && dp < decisions.Length0
      reads this, decisions
    {
      forall s :: n <= s < States(c) ==> !Recorded(dp, s)
    }

    /** All butterflies of one group. */
    method AllButterflies(group: seq<nat>)
      requires Valid() && IsGroup(c, group) && dp < decisions.Length0
      modifies newMetrics, decisions
      ensures ValidRun(c, start, groups + [group]) && DoneUpTo(States(c), groups + [group])
      ensures forall t, w :: 0 <= t < dp && 0 <= w < decisions.Length1 ==> decisions[t, w] == old(decisions[t, w])
      ensures TablesReady()
    {
      hide ValidCode, Half, Pow2, Expected, Metric, Recorded, Wrap, TakesUpper, TablesReady;
      ghost var more := groups + [group];
      LongerRun(c, start, groups, group);
      ClearRow(dp);
      for i := 0 to Half(c)
        invariant TablesReady()
        invariant forall s :: 0 <= s < States(c) ==> oldMetrics[s] == Wrap(c.wordBits, Metric(c, start, groups, dp, s))
        invariant DoneUpTo(2 * i, more) && ClearFrom(2 * i)
        invariant forall t, w :: 0 <= t < dp && 0 <= w < decisions.Length1 ==> decisions[t, w] == old(decisions[t, w])
      {
        if c.upperWinsTies {
          WideButterfly(i, group);
        } else {
          Butterfly(i, group);
        }
      }
    }

    /** Takes one group of received symbols. */
    method UpdateOne(group: seq<nat>)
      requires Valid() && IsGroup(c, group) && dp < decisions.Length0
      modifies this`oldMetrics, this`newMetrics, this`dp, this`groups, metrics1, metrics2, decisions
      ensures Valid() && groups == old(groups) + [group]
    {
      hide ValidCode, Half, Pow2, Expected, Metric, Wrap, TakesUpper, Bit;
      ghost var before := groups;
      AllButterflies(group);
      label Done:
      dp := dp + 1;
      oldMetrics, newMetrics := newMetrics, oldMetrics;
      groups := groups + [group];
      forall t, s | 0 <= t < dp && 0 <= s < States(c)
        ensures Recorded(t, s) == TakesUpper(c, start, groups, t, s)
      {
        if t < dp - 1 {
          DecisionOfLongerRun(c, start, before, [group], t, s);
          assert old(Recorded(t, s)) == TakesUpper(c, start, before, t, s);
        } else {
          assert old@Done(Recorded(dp, s)) == TakesUpper(c, start, groups, t, s);
        }
      }
    }

    /** Takes nbits groups of received symbols. */
    method Update(syms: array<nat>, nbits: nat)
      requires Valid() && dp + nbits <= decisions.Length0
      requires nbits * Rate(c) <= syms.Length && Bytes(syms[..])
      requires syms != metrics1 && syms != metrics2
      modifies this`oldMetrics, this`newMetrics, this`dp, this`groups, metrics1, metrics2, decisions
      ensures Valid() && groups == old(groups) + Grouped(c, old(syms[..]), nbits)
    {
      hide ValidCode, Half, Valid, ValidRun;
      ghost var all, received := groups, syms[..];
      var pos := 0;
      for n := 0 to nbits
        invariant Valid() && syms[..] == received && pos == n * Rate(c)
        invariant n * Rate(c) <= |received|
        invariant groups == all + Grouped(c, received, n)
      {
        NextGroupFits(n, nbits, Rate(c), |received|);
        var group := syms[pos..pos + Rate(c)];
        assert group == received[n * Rate(c)..n * Rate(c) + Rate(c)];
        UpdateOne(group);
        assert all + Grouped(c, received, n) + [group] == all + (Grouped(c, received, n) + [group]);
        pos := pos + Rate(c);
      }
    }

    /** Spare low bits of the traceback register, which is at least a byte wide. */
    function AddShift(): nat {
      if c.k < 9 then 9 - c.k else 0
    }

    /** Width of the traceback register. */
    function RegisterBits(): nat {
      c.k - 1 + AddShift()
    }

    /**
     Traces the survivor of an end state back and writes its first nbits
     inputs, the first one in the highest bit of the first byte.
     */
    method Chainback(data: array<nat>, nbits: nat, endstate: nat)
      requires Valid() && nbits + c.k - 1 <= dp
      requires nbits <= 8 * data.Length && data != metrics1 && data != metrics2
      modifies data
      ensures forall i :: 0 <= i < nbits ==>
                TopBit(data[i / 8], 8, i % 8)
                == (SurvivorInputs(c, start, groups, nbits + c.k - 1, Low(endstate, c.k - 1))[i] == 1)
      ensures forall i :: 0 <= i < data.Length && nbits <= 8 * i ==> data[i] == old(data[i])
      ensures forall i :: 0 <= i < data.Length && 8 * i < nbits ==> data[i] < 256
    {
      hide ValidCode, Half, Valid, ValidRun, Bit, TakesUpper, SurvivorInputs, Survivor, Or, Shl, Shr, Low, Pow2, TopBit, Traced;
      var e := Low(endstate, c.k - 1);
      StatesArePower(c);
      ghost var T := nbits + c.k - 1;
      ghost var u := SurvivorInputs(c, start, groups, T, e);
      var add, bits := AddShift(), RegisterBits();
      var reg: nat := Shl(e, add);
      ShrShl(e, add);
      ShlBound(e, c.k - 1, add);
      SurvivorEnd(c, start, groups, T, e);
      NoneTraced(data[..], u, nbits);
      var n := nbits;
      while n != 0
        invariant 0 <= n <= nbits && reg < Pow2(bits)
        invariant Shr(reg, add) == Survivor(c, start, groups, T, e, n + c.k - 1)
        invariant forall j :: 0 <= j < 8 && n + j < nbits ==> TopBit(reg, bits, j) == (u[n + j] == 1)
        invariant Traced(data[..], u, n, nbits)
        invariant forall i :: 0 <= i < data.Length && nbits <= 8 * i ==> data[i] == old(data[i])
        invariant forall i :: 0 <= i < data.Length && 8 * i < nbits && n <= 8 * i + 7 && n < nbits ==> data[i] < 256
      {
        n := n - 1;
        var state := Shr(reg, add);
        var k := ReadDecision(n + c.k - 1, state);
        RegisterStep(c, start, groups, T, e, n, reg, add, bits, k);
        RegisterBitsStep(reg, k, bits);
        reg := Or(Shr(reg, 1), Shl(k, bits - 1));
        OutputByte(reg, bits);
        ghost var before := data[..];
        data[n / 8] := Shr(reg, bits - 8);
        assert data[..] == before[n / 8 := Shr(reg, bits - 8)];
        TracedByte(before, u, n, nbits, reg, bits);
      }
      TracedAll(data[..], u, nbits);
    }

    /** (d[t] >> state) & 1 */
    method ReadDecision(t: nat, state: nat) returns (k: nat)
      requires Valid() && t < dp && state < States(c)
      ensures k == Flag(TakesUpper(c, start, groups, t, state))
    {
      hide ValidCode, Half, Bit, TakesUpper, Metric;
      k := if Bit(decisions[t, WordOf(c, state)], BitOf(c, state)) then 1 else 0;
      assert Recorded(t, state) == TakesUpper(c, start, groups, t, state);
    }
  }

  lemma ExpectedIs(poly: int, sr: nat)
    ensures Expected(poly, sr) == if (poly < 0) != Odd(And(sr, Abs(poly))) then 255 else 0
  {
  }

  /** Counting the taps that even registers meet. */
  lemma TablesByCount(c: ConvCode)
    requires c.k >= 2
    ensures forall j, i :: 0 <= j < Rate(c) && 0 <= i < Half(c) ==>
              Expected(c.polys[j], 2 * i) == SymbolFor(c.polys[j], |Taps(Abs(c.polys[j]), 2 * i, c.k)|)
  {
    hide Expected, SymbolFor, Taps;
    forall j, i | 0 <= j < Rate(c) && 0 <= i < Half(c)
      ensures Expected(c.polys[j], 2 * i) == SymbolFor(c.polys[j], |Taps(Abs(c.polys[j]), 2 * i, c.k)|)
    {
      assert Pow2(c.k) == 2 * Pow2(c.k - 1) && Pow2(c.k - 1) == 2 * Half(c);
      ExpectedByCount(c.polys[j], 2 * i, c.k);
    }
  }

  /** All whole bytes from position n on hold their inputs, the first in the highest bit. */
  ghost predicate Traced(data: seq<nat>, u: seq<nat>, n: nat, nbits: nat)
    requires nbits <= 8 * |data| && nbits <= |u|
  {
    forall i :: n <= i < nbits && n <= i / 8 * 8 ==> TopBit(data[i / 8], 8, i % 8) == (u[i] == 1)
  }

  lemma NoneTraced(data: seq<nat>, u: seq<nat>, nbits: nat)
    requires nbits <= 8 * |data| && nbits <= |u|
    ensures Traced(data, u, nbits, nbits)
  {
  }

  lemma TracedByte(data: seq<nat>, u: seq<nat>, n: nat, nbits: nat, reg: nat, bits: nat)
    requires nbits <= 8 * |data| && nbits <= |u| && n < nbits && Traced(data, u, n + 1, nbits)
    requires bits >= 8 && reg < Pow2(bits)
    requires forall j :: 0 <= j < 8 && n + j < nbits ==> TopBit(reg, bits, j) == (u[n + j] == 1)
    ensures Traced(data[n / 8 := Shr(reg, bits - 8)], u, n, nbits)
  {
    hide TopBit, Shr, Pow2;
    OutputByte(reg, bits);
    var byte := Shr(reg, bits - 8);
    forall i | n <= i < nbits && n <= i / 8 * 8
      ensures TopBit(data[n / 8 := byte][i / 8], 8, i % 8) == (u[i] == 1)
    {
      if i / 8 == n / 8 {
        assert i == n + i % 8;
        assert TopBit(reg, bits, i % 8) == (u[n + i % 8] == 1);
        assert TopBit(byte, 8, i % 8) == TopBit(reg, bits, i % 8);
      }
    }
  }

  lemma TracedAll(data: seq<nat>, u: seq<nat>, nbits: nat)
    requires nbits <= 8 * |data| && nbits <= |u| && Traced(data, u, 0, nbits)
    ensures forall i :: 0 <= i < nbits ==> TopBit(data[i / 8], 8, i % 8) == (u[i] == 1)
  {
  }

  /** The received symbols, cut into groups. */
  function Grouped(c: ConvCode, syms: seq<nat>, n: nat): (g: seq<seq<nat>>)
    requires n * Rate(c) <= |syms|
    ensures |g| == n
  {
    if n == 0 then []
    else
      NextGroupFits(n - 1, n, Rate(c), |syms|);
      Grouped(c, syms, n - 1) + [syms[(n - 1) * Rate(c)..(n - 1) * Rate(c) + Rate(c)]]
  }

  /** Group t is the t-th run of as many symbols as there are polynomials. */
  lemma {:induction false} GroupedAt(c: ConvCode, syms: seq<nat>, n: nat, t: nat)
    requires n * Rate(c) <= |syms| && t < n
    ensures t * Rate(c) >= 0 && t * Rate(c) + Rate(c) <= |syms|
    ensures Grouped(c, syms, n)[t] == syms[t * Rate(c)..t * Rate(c) + Rate(c)]
    decreases n
  {
    NextGroupFits(n - 1, n, Rate(c), |syms|);
    if t < n - 1 {
      GroupedAt(c, syms, n - 1, t);
    }
  }

  lemma NextGroupFits(n: nat, nbits: nat, rate: nat, len: nat)
    requires n < nbits && nbits * rate <= len
    ensures n * rate + rate == (n + 1) * rate <= len && 0 <= n * rate
  {
    MulMono(n + 1, nbits, rate);
  }

  lemma SurvivorEnd(c: ConvCode, start: nat, groups: seq<seq<nat>>, T: nat, e: nat)
    requires ValidRun(c, start, groups) && T <= |groups| && e < States(c)
    ensures Survivor(c, start, groups, T, e, T) == e
  {
  }

  lemma ShrOne(x: nat)
    ensures Shr(x, 1) == x / 2
  {
    assert Shr(x / 2, 0) == x / 2;
  }

  lemma HalfBelow(x: nat, m: nat)
    requires m >= 1 && x < Pow2(m)
    ensures x / 2 < Pow2(m - 1) && Pow2(m) == 2 * Pow2(m - 1)
  {
  }

  /** The register's state part moves one step back along the survivor. */
  lemma RegisterStep(c: ConvCode, start: nat, groups: seq<seq<nat>>, T: nat, e: nat, n: nat, reg: nat, add: nat, bits: nat, k: nat)
    requires ValidRun(c, start, groups) && n + c.k <= T <= |groups| && e < States(c)
    requires bits == c.k - 1 + add && reg < Pow2(bits)
    requires Shr(reg, add) == Survivor(c, start, groups, T, e, n + c.k)
    requires k == Flag(TakesUpper(c, start, groups, n + c.k - 1, Shr(reg, add)))
    ensures Shr(Or(Shr(reg, 1), Shl(k, bits - 1)), add) == Survivor(c, start, groups, T, e, n + c.k - 1)
    ensures Or(Shr(reg, 1), Shl(k, bits - 1)) < Pow2(bits)
    ensures (k == 1) == (SurvivorInputs(c, start, groups, T, e)[n] == 1)
  {
    hide ValidCode, TakesUpper, SurvivorInputs, Or, Shl, Shr, Pow2;
    DecisionIsInput(c, start, groups, T, e, n + c.k - 1);
    ShrOne(reg);
    HalfBelow(reg, bits);
    OrTopBit(reg / 2, k, bits - 1);
    ShrHalf(reg, add);
    ShrPlusTop(reg / 2, bits - 1, add);
  }

  /** Bit j of a register of the given width, counted from the top. */
  predicate TopBit(reg: nat, bits: nat, j: nat)
    requires j < bits
  {
    Bit(reg, bits - 1 - j)
  }

  lemma RegisterBitsStep(reg: nat, k: nat, bits: nat)
    requires bits >= 1 && reg < Pow2(bits) && k < 2
    ensures var reg' := Or(Shr(reg, 1), Shl(k, bits - 1));
            forall j :: 0 <= j < bits ==> TopBit(reg', bits, j) == if j == 0 then k == 1 else TopBit(reg, bits, j - 1)
  {
    hide Or, Shl, Shr, Bit, Pow2;
    var reg' := Or(Shr(reg, 1), Shl(k, bits - 1));
    forall j | 0 <= j < bits
      ensures TopBit(reg', bits, j) == if j == 0 then k == 1 else TopBit(reg, bits, j - 1)
    {
      var m := bits - 1 - j;
      assert k == Flag(k == 1);
      MarkBit(Shr(reg, 1), k == 1, bits - 1, m);
      BitShr(reg, 1, m);
      if j == 0 {
        BitAbove(reg, bits, bits);
      }
    }
  }

  lemma OutputByte(reg: nat, bits: nat)
    requires bits >= 8 && reg < Pow2(bits)
    ensures Shr(reg, bits - 8) < 256
    ensures forall j :: 0 <= j < 8 ==> TopBit(Shr(reg, bits - 8), 8, j) == TopBit(reg, bits, j)
  {
    hide Shr, Bit;
    ShrBelow(reg, bits - 8, 8);
    PowerOfEight();
    forall j | 0 <= j < 8
      ensures TopBit(Shr(reg, bits - 8), 8, j) == TopBit(reg, bits, j)
    {
      BitShr(reg, bits - 8, 7 - j);
    }
  }

  lemma LongerRun(c: ConvCode, start: nat, groups: seq<seq<nat>>, group: seq<nat>)
    requires ValidRun(c, start, groups) && IsGroup(c, group)
    ensures ValidRun(c, start, groups + [group])
  {
  }

  /** The candidates of a butterfly, in terms of the two old metrics and one branch cost. */
  lemma ButterflyCandidates(c: ConvCode, start: nat, groups: seq<seq<nat>>, group: seq<nat>, i: nat)
    requires ValidRun(c, start, groups) && IsGroup(c, group) && i < Half(c)
    requires ValidRun(c, start, groups + [group])
    ensures var more, t, h, metric := groups + [group], |groups|, Half(c), Cost(c, 2 * i, group);
            var a, b := Metric(c, start, groups, t, i), Metric(c, start, groups, t, i + h);
            && metric <= MaxCost(c)
            && Lower(c, start, more, t, 2 * i) == a + metric
            && Upper(c, start, more, t, 2 * i) == b + (MaxCost(c) - metric)
            && Lower(c, start, more, t, 2 * i + 1) == a + (MaxCost(c) - metric)
            && Upper(c, start, more, t, 2 * i + 1) == b + metric
  {
    hide ValidCode, Half, Pow2, Cost, Metric;
    ButterflyCosts(c, i, group);
    MetricOfLongerRun(c, start, groups, [group], |groups|, i);
    MetricOfLongerRun(c, start, groups, [group], |groups|, i + Half(c));
    assert (groups + [group])[|groups|] == group;
  }

  /** Sums of wrapped metrics are the wrapped candidates. */
  lemma WrappedCandidates(c: ConvCode, start: nat, groups: seq<seq<nat>>, group: seq<nat>, i: nat, o0: nat, o1: nat)
    requires ValidRun(c, start, groups) && IsGroup(c, group) && i < Half(c)
    requires ValidRun(c, start, groups + [group])
    requires o0 == Wrap(c.wordBits, Metric(c, start, groups, |groups|, i))
    requires o1 == Wrap(c.wordBits, Metric(c, start, groups, |groups|, i + Half(c)))
    ensures var more, t, metric, w := groups + [group], |groups|, Cost(c, 2 * i, group), c.wordBits;
            && metric <= MaxCost(c)
            && Wrap(w, o0 + metric) == Wrap(w, Lower(c, start, more, t, 2 * i))
            && Wrap(w, o1 + (MaxCost(c) - metric)) == Wrap(w, Upper(c, start, more, t, 2 * i))
            && Wrap(w, o0 + (MaxCost(c) - metric)) == Wrap(w, Lower(c, start, more, t, 2 * i + 1))
            && Wrap(w, o1 + metric) == Wrap(w, Upper(c, start, more, t, 2 * i + 1))
  {
    hide ValidCode, Half, Pow2, Cost, Metric, Wrap, Lower, Upper;
    var metric, w := Cost(c, 2 * i, group), c.wordBits;
    var a, b := Metric(c, start, groups, |groups|, i), Metric(c, start, groups, |groups|, i + Half(c));
    ButterflyCandidates(c, start, groups, group, i);
    WrapAdd(w, a, metric);
    WrapAdd(w, b, MaxCost(c) - metric);
    WrapAdd(w, a, MaxCost(c) - metric);
    WrapAdd(w, b, metric);
  }

  /** The signed test on wrapped candidates is the decision, and it selects the wrapped metric. */
  lemma WrappedDecision(c: ConvCode, start: nat, groups: seq<seq<nat>>, t: nat, s: nat, lo: int, up: int)
    requires ValidRun(c, start, groups) && t < |groups| && s < States(c)
    requires lo == Wrap(c.wordBits, Lower(c, start, groups, t, s)) && up == Wrap(c.wordBits, Upper(c, start, groups, t, s))
    ensures var d := Signed(c.wordBits, Wrap(c.wordBits, lo - up));
            TakesUpper(c, start, groups, t, s) == if c.upperWinsTies then d >= 0 else d > 0
    ensures Wrap(c.wordBits, Metric(c, start, groups, t + 1, s)) == if TakesUpper(c, start, groups, t, s) then up else lo
  {
    hide Cost, ValidCode, Wrap, Signed, Lower, Upper;
    WrappedComparison(c, start, groups, t, s);
  }

  /** m0 -= metric + metric - max */
  lemma AdjustSum(w: nat, a: nat, metric: nat, max: nat)
    ensures Wrap(w, Wrap(w, a + metric) - Wrap(w, metric + metric - max)) == Wrap(w, a + (max - metric))
  {
    hide Wrap, Pow2;
    WrapSub(w, a + metric, metric + metric - max);
    assert a + metric - (metric + metric - max) == a + (max - metric);
  }

  /** m1 += metric + metric - max */
  lemma AdjustDifference(w: nat, b: nat, metric: nat, max: nat)
    ensures Wrap(w, Wrap(w, b + (max - metric)) + Wrap(w, metric + metric - max)) == Wrap(w, b + metric)
  {
    hide Wrap, Pow2;
    WrapAdd(w, b + (max - metric), Wrap(w, metric + metric - max));
    WrapAdd(w, metric + metric - max, b + (max - metric));
    assert metric + metric - max + (b + (max - metric)) == b + metric;
  }

  lemma StatesArePower(c: ConvCode)
    requires c.k >= 2
    ensures States(c) == Pow2(c.k - 1)
  {
  }

  lemma InitialFits(c: ConvCode, start: nat, s: nat)
    requires ValidCode(c)
    ensures Wrap(c.wordBits, InitialMetric(c, start, s)) == InitialMetric(c, start, s)
  {
    var m, x := MaxCost(c), InitialMetric(c, start, s);
    assert Pow2(c.wordBits) == 2 * Pow2(c.wordBits - 1);
    MulMono(1, c.k + 1, m);
    ModUnique(x, Pow2(c.wordBits), 0, x);
  }

  lemma {:induction false} MaskedIsSmall(a: nat, b: nat)
    requires a < Pow2(31)
    ensures And(a, b) < Pow2(32)
  {
    AndAtMost(a, b);
    assert Pow2(32) == 2 * Pow2(31);
  }

  lemma {:induction false} AndAtMost(a: nat, b: nat)
    ensures And(a, b) <= a
  {
    if a > 0 {
      AndAtMost(a / 2, b / 2);
    }
  }
}
