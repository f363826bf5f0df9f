/** The symbols of a convolutional code by counting: which register bits meet which taps. */
module TapCounts {
  import opened Bits
  import opened Trellis

  /** The positions below n where both the register and the polynomial have a one. */
  function Taps(poly: nat, sr: nat, n: nat): set<nat> {
    set i | 0 <= i < n && Bit(sr, i) && Bit(poly, i)
  }

  /** The symbol for a number of ones under the taps: 255 for an odd one, turned round by a negative polynomial. */
  function SymbolFor(poly: int, ones: nat): nat {
    if (poly < 0) != (ones % 2 == 1) then 255 else 0
  }

  /** Parity of the masked register is the parity of the number of taps it meets. */
  lemma {:induction false} OddIsTapCount(sr: nat, p: nat, n: nat)
    requires sr < Pow2(n)
    ensures Odd(And(sr, p)) == (|Taps(p, sr, n)| % 2 == 1)
    decreases n
  {
    if n == 0 {
      assert And(0, p) == 0 && !Odd(0);
      assert Taps(p, sr, 0) == {};
    } else {
      var m := n - 1;
      var a := if sr >= Pow2(m) then sr - Pow2(m) else sr;
      OddIsTapCount(a, p, m);
      if sr >= Pow2(m) {
        OddAndHigh(a, p, m);
        TopTap(a, p, m);
      } else {
        BitAbove(sr, m, m);
        assert Taps(p, sr, n) == Taps(p, sr, m);
      }
    }
  }

  lemma TopTap(a: nat, p: nat, m: nat)
    requires a < Pow2(m)
    ensures |Taps(p, a + Pow2(m), m + 1)| == |Taps(p, a, m)| + if Bit(p, m) then 1 else 0
  {
    hide Bit, Pow2;
    var sum := a + Pow2(m);
    var more: set<int> := if Bit(p, m) then {m} else {};
    forall i
      ensures i in Taps(p, sum, m + 1) <==> i in Taps(p, a, m) + more
    {
      if 0 <= i <= m {
        BitPlusPower(a, m, i);
      }
    }
    assert Taps(p, sum, m + 1) == Taps(p, a, m) + more;
  }

  /** The symbol for register contents is that for the number of taps they meet. */
  lemma ExpectedByCount(poly: int, sr: nat, n: nat)
    requires sr < Pow2(n)
    ensures Expected(poly, sr) == SymbolFor(poly, |Taps(Abs(poly), sr, n)|)
  {
    hide Odd, And;
    OddIsTapCount(sr, Abs(poly), n);
  }

  /** The cost of a symbol is its distance from the expected one. */
  lemma SymbolDistance(poly: int, sr: nat, sym: nat)
    requires sym < 256
    ensures SymbolCost(poly, sr, sym) == if Expected(poly, sr) >= sym then Expected(poly, sr) - sym else sym - Expected(poly, sr)
  {
    hide Odd, And;
    XorByte(sym);
  }
}
