/** The parity table and the folding that reduces a word to one table lookup. */
module Parity {
  import opened Bits
  import opened Trellis

  lemma {:induction false} OddXor(a: nat, b: nat)
    ensures Odd(Xor(a, b)) == (Odd(a) != Odd(b))
    decreases a + b
  {
    OddHalf(a);
    OddHalf(b);
    OddHalf(Xor(a, b));
    XorHalf(a, b);
    if a != 0 || b != 0 {
      OddXor(a / 2, b / 2);
    }
  }

  lemma {:induction false} OddSplit(a: nat, k: nat)
    ensures Odd(a) == (Odd(Shr(a, k)) != Odd(Low(a, k)))
    decreases k
  {
    if k == 0 {
      assert !Odd(0);
    } else {
      OddHalf(a);
      OddHalf(Low(a, k));
      LowHalf(a, k);
      OddSplit(a / 2, k - 1);
    }
  }

  lemma {:induction false} ShrXor(a: nat, b: nat, k: nat)
    ensures Shr(Xor(a, b), k) == Xor(Shr(a, k), Shr(b, k))
    decreases k
  {
    if k > 0 {
      XorHalf(a, b);
      ShrXor(a / 2, b / 2, k - 1);
    }
  }

  lemma {:induction false} ShrBelow(a: nat, k: nat, m: nat)
    requires a < Pow2(k + m)
    ensures Shr(a, k) < Pow2(m)
    decreases k
  {
    if k > 0 {
      ShrBelow(a / 2, k - 1, m);
    }
  }

  /** Low bits of low bits. */
  lemma {:induction false} LowOfLow(a: nat, k: nat, m: nat)
    requires k <= m
    ensures Low(Low(a, m), k) == Low(a, k)
    decreases k
  {
    hide *;
    var b := Low(a, m);
    if k == 0 {
      LowNone(a);
      LowNone(b);
    } else {
      LowHalf(a, m);
      LowHalf(a, k);
      LowHalf(b, k);
      LowOfLow(a / 2, k - 1, m - 1);
      HalvesEqual(Low(b, k), Low(a, k));
    }
  }

  lemma {:induction false} ShrOfLow(a: nat, k: nat, m: nat)
    ensures Shr(Low(a, k + m), k) == Low(Shr(a, k), m)
    decreases k
  {
    if k > 0 {
      LowHalf(a, k + m);
      ShrOfLow(a / 2, k - 1, m);
    }
  }

  /** Folding the upper half of 2m bits onto the lower half keeps the parity in the lower half. */
  lemma FoldKeepsParity(x: nat, m: nat)
    ensures Odd(Low(Xor(x, Shr(x, m)), m)) == (Odd(Low(x, m)) != Odd(Low(Shr(x, m), m)))
  {
    XorLow(x, Shr(x, m), m);
    OddXor(Low(x, m), Low(Shr(x, m), m));
  }

  /** Two folds bring the parity of a 32-bit word into its low byte. */
  lemma ParityInLowByte(x: nat)
    requires x < Pow2(32)
    ensures var y := Xor(x, Shr(x, 16));
            Odd(Low(Xor(y, Shr(y, 8)), 8)) == Odd(x)
  {
    hide *;
    var y := Xor(x, Shr(x, 16));
    // The low half of y has the parity of x.
    FoldKeepsParity(x, 16);
    OddSplit(x, 16);
    ShrBelow(x, 16, 16);
    // The low byte of the second fold has the parity of the low half of y.
    FoldKeepsParity(y, 8);
    OddSplit(Low(y, 16), 8);
    ShrOfLow(y, 8, 8);
    LowOfLow(y, 8, 16);
  }

  function Ones(odd: bool): nat {
    if odd then 1 else 0
  }

  class ParityTable {
    const partab: array<nat>
    var pInit: bool

    constructor ()
      ensures Valid() && fresh(partab)
    {
      partab := new nat[256];
      pInit := false;
    }

    ghost predicate Valid()
      reads this, partab
    {
      partab.Length == 256 && (pInit ==> forall i :: 0 <= i < 256 ==> partab[i] == Ones(Odd(i)))
    }

    /** Counts the ones of every byte. */
    method PartabInit()
      requires Valid()
      modifies this, partab
      ensures Valid() && pInit
    {
      hide Odd;
      for i := 0 to 256
        invariant forall k :: 0 <= k < i ==> partab[k] == Ones(Odd(k))
      {
        var cnt: nat, ti: nat := 0, i;
        while ti != 0
          invariant forall k :: 0 <= k < i ==> partab[k] == Ones(Odd(k))
          invariant Odd(i) == ((cnt % 2 == 1) != Odd(ti))
        {
          OddHalf(ti);
          if ti % 2 == 1 {
            cnt := cnt + 1;
          }
          ti := ti / 2;
        }
        OddZero();
        assert Ones(Odd(i)) == cnt % 2;
        partab[i] := cnt % 2;
      }
      pInit := true;
    }

    method Parityb(x: nat) returns (p: nat)
      requires Valid() && x < 256
      modifies this, partab
      ensures Valid() && p == Ones(Odd(x))
    {
      if !pInit {
        PartabInit();
      }
      p := partab[x];
    }

    /** Parity of a 32-bit word. */
    method Parity(x: nat) returns (p: nat)
      requires Valid() && x < Pow2(32)
      modifies this, partab
      ensures Valid() && p == Ones(Odd(x))
    {
      hide Odd, Xor, Low, Shr;
      ParityInLowByte(x);
      var y := Xor(x, Shr(x, 16));
      y := Xor(y, Shr(y, 8));
      assert Pow2(8) == 256 by {
        PowerOfEight();
      }
      p := Parityb(Low(y, 8));
    }
  }

  lemma OddZero()
    ensures !Odd(0)
  {
  }

  lemma PowerOfEight()
    ensures Pow2(8) == 256
  {
    assert Pow2(8) == 2 * Pow2(7) && Pow2(7) == 2 * Pow2(6) && Pow2(6) == 2 * Pow2(5) && Pow2(5) == 2 * Pow2(4);
  }
}
