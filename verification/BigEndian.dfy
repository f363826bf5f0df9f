/** 32- and 64-bit words with the highest byte first. */
module BigEndian {
  import opened CText

  const WORD := 0x1_0000_0000

  /** A 32-bit word, the highest byte first. */
  function Cell(v: nat): (b: seq<Byte>)
    ensures |b| == 4
  {
    [v / 0x100_0000 % 256, v / 0x1_0000 % 256, v / 0x100 % 256, v % 256]
  }

  function CellValue(b: seq<Byte>): (v: nat)
    requires |b| == 4
    ensures v < WORD
  {
    (b[0] as nat) * 0x100_0000 + (b[1] as nat) * 0x1_0000 + (b[2] as nat) * 0x100 + b[3]
  }

  lemma CellRoundTrip(v: nat)
    requires v < WORD
    ensures CellValue(Cell(v)) == v
  {
    var v1 := v / 0x100;
    var v2 := v1 / 0x100;
    var v3 := v2 / 0x100;
    assert v / 0x1_0000 == v2 && v / 0x100_0000 == v3;
    FourDigits(v, v1, v2, v3, Cell(v));
  }

  lemma FourDigits(v: nat, v1: nat, v2: nat, v3: nat, b: seq<Byte>)
    requires |b| == 4 && v == 0x100 * v1 + b[3] && v1 == 0x100 * v2 + b[2] && v2 == 0x100 * v3 + b[1] && v3 == b[0]
    ensures CellValue(b) == v
  {
  }

  /** Two words, the high one first. */
  function Cell64(v: nat): (b: seq<Byte>)
    ensures |b| == 8
  {
    Cell(v / WORD) + Cell(v % WORD)
  }

  function Cell64Value(b: seq<Byte>): (v: nat)
    requires |b| == 8
  {
    CellValue(b[..4]) * WORD + CellValue(b[4..])
  }

  lemma Cell64RoundTrip(v: nat)
    requires v < WORD * WORD
    ensures Cell64Value(Cell64(v)) == v
  {
    CellRoundTrip(v / WORD);
    CellRoundTrip(v % WORD);
    assert Cell64(v)[..4] == Cell(v / WORD) && Cell64(v)[4..] == Cell(v % WORD);
  }

  // ----- Digits

  function Pow256(n: nat): (p: nat)
    ensures p >= 1
  {
    if n == 0 then 1 else 256 * Pow256(n - 1)
  }

  /** Digit k of a number to the base 256, the lowest being digit 0. */
  function Digit(v: nat, k: nat): Byte {
    v / Pow256(k) % 256
  }

  /** The n bytes from a position on are the lowest n digits of a number, the highest first. */
  predicate DigitsAt(b: seq<Byte>, pos: nat, n: nat, v: nat) {
    pos + n <= |b| && forall i :: pos <= i < pos + n ==> b[i] == Digit(v, pos + n - 1 - i)
  }

  lemma SmallPowers()
    ensures Pow256(0) == 1 && Pow256(1) == 0x100 && Pow256(2) == 0x1_0000 && Pow256(3) == 0x100_0000
    ensures Pow256(4) == WORD && Pow256(5) == WORD * 0x100 && Pow256(6) == WORD * 0x1_0000 && Pow256(7) == WORD * 0x100_0000
  {
    assert Pow256(1) == 256 * Pow256(0);
    assert Pow256(2) == 256 * Pow256(1);
    assert Pow256(3) == 256 * Pow256(2);
    assert Pow256(4) == 256 * Pow256(3);
    assert Pow256(5) == 256 * Pow256(4);
    assert Pow256(6) == 256 * Pow256(5);
    assert Pow256(7) == 256 * Pow256(6);
  }

  lemma CellDigits(v: nat)
    ensures DigitsAt(Cell(v), 0, 4, v)
  {
    SmallPowers();
  }

  /** A 64-bit number is written digit by digit, the highest first. */
  lemma Cell64Digits(v: nat)
    ensures DigitsAt(Cell64(v), 0, 8, v)
  {
    hide Cell, Digit;
    var hi, lo := v / WORD, v % WORD;
    CellDigits(hi);
    CellDigits(lo);
    forall i | 0 <= i < 8
      ensures Cell64(v)[i] == Digit(v, 7 - i)
    {
      if i < 4 {
        HighDigit(v, 3 - i);
      } else {
        LowDigit(v, 7 - i);
      }
    }
  }

  lemma HighDigit(v: nat, k: nat)
    requires k < 4
    ensures Digit(v / WORD, k) == Digit(v, k + 4)
  {
    SmallPowers();
    if k == 0 {
    } else if k == 1 {
      assert v / WORD / 0x100 == v / (WORD * 0x100);
    } else if k == 2 {
      assert v / WORD / 0x1_0000 == v / (WORD * 0x1_0000);
    } else {
      assert v / WORD / 0x100_0000 == v / (WORD * 0x100_0000);
    }
  }

  lemma LowDigit(v: nat, k: nat)
    requires k < 4
    ensures Digit(v % WORD, k) == Digit(v, k)
  {
    SmallPowers();
    var q, r := v / WORD, v % WORD;
    assert v == WORD * q + r;
    if k == 0 {
      DropHigh(0x100_0000 * q, r);
    } else if k == 1 {
      assert v / 0x100 == 256 * (0x1_0000 * q) + r / 0x100;
      DropHigh(0x1_0000 * q, r / 0x100);
    } else if k == 2 {
      assert v / 0x1_0000 == 256 * (0x100 * q) + r / 0x1_0000;
      DropHigh(0x100 * q, r / 0x1_0000);
    } else {
      assert v / 0x100_0000 == 256 * q + r / 0x100_0000;
      DropHigh(q, r / 0x100_0000);
    }
  }

  lemma DropHigh(a: nat, x: nat)
    ensures (256 * a + x) % 256 == x % 256
  {
  }

  /** What eight bytes are read as. */
  lemma Cell64Sum(b: seq<Byte>)
    requires |b| == 8
    ensures Cell64Value(b)
            == (b[0] as nat) * 0x100_0000_0000_0000 + (b[1] as nat) * 0x1_0000_0000_0000 + (b[2] as nat) * 0x100_0000_0000 + (b[3] as nat) * 0x1_0000_0000
               + (b[4] as nat) * 0x100_0000 + (b[5] as nat) * 0x1_0000 + (b[6] as nat) * 0x100 + b[7]
  {
  }

  lemma CellSum(b: seq<Byte>)
    requires |b| == 4
    ensures CellValue(b) == (b[0] as nat) * 0x100_0000 + (b[1] as nat) * 0x1_0000 + (b[2] as nat) * 0x100 + b[3]
  {
  }

  // ----- Reading digits

  lemma CellValueDigits(b: seq<Byte>)
    requires |b| == 4
    ensures DigitsAt(b, 0, 4, CellValue(b))
  {
    SmallPowers();
    var v := CellValue(b);
    var v3 := b[0] as nat;
    var v2 := v3 * 256 + b[1];
    var v1 := v2 * 256 + b[2];
    assert v == v1 * 256 + b[3];
    DropDigit(v1, b[3]);
    DropDigit(v2, b[2]);
    DropDigit(v3, b[1]);
    assert v / 0x1_0000 == v / 0x100 / 0x100 && v / 0x100_0000 == v / 0x1_0000 / 0x100;
  }

  lemma DropDigit(a: nat, x: Byte)
    ensures (a * 256 + x) / 256 == a && (a * 256 + x) % 256 == x
  {
  }

  /** The number read from eight bytes is the one with these digits. */
  lemma Cell64ValueDigits(b: seq<Byte>)
    requires |b| == 8
    ensures DigitsAt(b, 0, 8, Cell64Value(b)) && Cell64Value(b) < WORD * WORD
  {
    hide CellValue, Digit;
    var hi, lo, v := CellValue(b[..4]), CellValue(b[4..]), Cell64Value(b);
    assert v / WORD == hi && v % WORD == lo;
    CellValueDigits(b[..4]);
    CellValueDigits(b[4..]);
    forall i | 0 <= i < 8
      ensures b[i] == Digit(v, 7 - i)
    {
      if i < 4 {
        assert b[i] == b[..4][i];
        HighDigit(v, 3 - i);
      } else {
        assert b[i] == b[4..][i - 4];
        LowDigit(v, 7 - i);
      }
    }
  }

  /** Eight bytes are read as v exactly when they are the digits of v. */
  lemma Cell64ValueIs(b: seq<Byte>, v: nat)
    requires |b| == 8 && v < WORD * WORD
    ensures Cell64Value(b) == v <==> DigitsAt(b, 0, 8, v)
  {
    hide Cell64, Cell64Value, Digit;
    Cell64ValueDigits(b);
    if DigitsAt(b, 0, 8, v) {
      Cell64Digits(v);
      assert Cell64(v) == b;
      Cell64RoundTrip(v);
    }
  }

  lemma CellValueIs(b: seq<Byte>, v: nat)
    requires |b| == 4 && v < WORD
    ensures CellValue(b) == v <==> DigitsAt(b, 0, 4, v)
  {
    hide Cell, CellValue, Digit;
    CellValueDigits(b);
    if DigitsAt(b, 0, 4, v) {
      CellDigits(v);
      assert Cell(v) == b;
      CellRoundTrip(v);
    }
  }
}
