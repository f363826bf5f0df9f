/** The growing byte buffer of the compiler. */
module DtData {
  import opened BigEndian
  import opened CText
  import opened DtFormat

  class Data {
    var val: array<Byte>
    var len: nat

    ghost predicate Valid()
      reads this
    {
      len <= val.Length
    }

    ghost function Contents(): (s: seq<Byte>)
      requires Valid()
      reads this, val
      ensures |s| == len
    {
      val[..len]
    }

    constructor ()
      ensures Valid() && Contents() == [] && fresh(val)
    {
      val, len := new Byte[0], 0;
    }

    /** Makes room for `xlen` more bytes. */
    method GrowFor(xlen: nat)
      requires Valid()
      modifies this`val
      ensures Valid() && len + xlen <= val.Length && Contents() == old(Contents())
      ensures val == old(val) || fresh(val)
    {
      if xlen == 0 {
        return;
      }
      var newsize := xlen;
      while len + xlen > newsize
        invariant newsize >= 1 && val == old(val)
        decreases len + xlen - newsize
      {
        newsize := newsize * 2;
      }
      var grown := new Byte[newsize](_ => 0);
      for i := 0 to len
        invariant val == old(val) && val[..] == old(val[..])
        invariant forall j :: 0 <= j < i ==> grown[j] == val[j]
      {
        grown[i] := val[i];
      }
      val := grown;
    }

    method AppendData(p: seq<Byte>)
      requires Valid()
      modifies this, val
      ensures Valid() && Contents() == old(Contents()) + p
      ensures val == old(val) || fresh(val)
    {
      ghost var s := Contents();
      GrowFor(|p|);
      ghost var buffer := val;
      for i := 0 to |p|
        invariant val == buffer && len == |s| && len + |p| <= val.Length
        invariant val[..len] == s && val[len..len + i] == p[..i]
      {
        val[len + i] := p[i];
        assert val[len..len + (i + 1)] == val[len..len + i] + [p[i]];
      }
      len := len + |p|;
      assert val[..len] == s + p;
    }

    method AppendCell(word: nat)
      requires Valid()
      modifies this, val
      ensures Valid() && Contents() == EmitCell(old(Contents()), word)
      ensures val == old(val) || fresh(val)
    {
      AppendData(Cell(word));
    }

    method AppendZeroes(n: nat)
      requires Valid()
      modifies this, val
      ensures Valid() && Contents() == old(Contents()) + Zeros(n)
      ensures val == old(val) || fresh(val)
    {
      AppendData(Zeros(n));
    }

    /** Fills up to a multiple of 4 or, when `wide`, of 8. */
    method AppendAlign(wide: bool)
      requires Valid()
      modifies this, val
      ensures Valid() && Contents() == if wide then EmitAlign8(old(Contents())) else EmitAlign4(old(Contents()))
      ensures val == old(val) || fresh(val)
    {
      var newlen := if wide then Align8(len) else Align4(len);
      AppendZeroes(newlen - len);
    }

    /** Appends the contents of another buffer. */
    method Merge(other: Data)
      requires Valid() && other.Valid()
      modifies this, val
      ensures Valid() && Contents() == old(Contents()) + old(other.Contents())
      ensures val == old(val) || fresh(val)
    {
      AppendData(other.val[..other.len]);
    }

    method ToBytes() returns (s: seq<Byte>)
      requires Valid()
      ensures s == Contents()
    {
      s := val[..len];
    }

    /** The text, or its first bytes, with a terminator. */
    method EmitText(s: CString, n: nat)
      requires Valid() && n <= |s|
      modifies this, val
      ensures Valid() && Contents() == EmitString(old(Contents()), s, n)
      ensures val == old(val) || fresh(val)
    {
      AppendData(if n == 0 then s else s[..n]);
      AppendData([0]);
    }
  }
}
