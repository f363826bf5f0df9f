/**
 The dm-verity hash tree: every level is the digests of the blocks of the one
 below, and all levels are built inside one buffer with the top level first.
 The hash function, salt included, is a parameter of fixed digest length.
 */
module HashTree {
  import opened Bits
  import opened CText

  type Hash = seq<Byte> -> seq<Byte>

  /** Block size, digest length and digest padding of a tree. */
  datatype Params = Params(h: Hash, block: nat, digest: nat, padding: nat)
  {
    /** Bytes per entry of a level. */
    function entry(): nat {
      digest + padding
    }
  }

  /** Digests have a fixed length, and two padded ones fit into a block. */
  ghost predicate ValidParams(p: Params)
    ensures ValidParams(p) ==> p.block >= 1 && p.entry() >= 1 && 2 * p.entry() <= p.block
  {
    FixedLength(p) && 2 * p.entry() <= p.block
  }

  ghost predicate FixedLength(p: Params) {
    && p.block >= 1 && p.entry() >= 1
    && forall x: seq<Byte> :: |p.h(x)| == p.digest
  }

  // ----- Sizes

  function RoundToMultiple(number: nat, size: nat): (r: nat)
    requires size >= 1
    ensures r % size == 0 && number <= r < number + size
  {
    var remainder := number % size;
    if remainder == 0 then number
    else
      RoundedUp(number, size);
      number + size - remainder
  }

  lemma RoundedUp(number: nat, size: nat)
    requires size >= 1 && number % size != 0
    ensures (number + size - number % size) % size == 0
  {
    var q, r := number / size, number % size;
    assert number == q * size + r;
    assert number + size - r == (q + 1) * size;
    ModUnique(number + size - r, size, q + 1, 0);
  }

  function NumBlocks(size: nat, block: nat): nat
    requires block >= 1
  {
    (size + block - 1) / block
  }

  /** The size of the level above data of the given size. */
  function NextSize(size: nat, block: nat, entry: nat): nat
    requires block >= 1
  {
    RoundToMultiple(NumBlocks(size, block) * entry, block)
  }

  /** Levels shrink, so their computation ends. */
  lemma LevelsShrink(size: nat, block: nat, entry: nat)
    requires block >= 1 && 2 * entry <= block && size > block
    ensures NextSize(size, block, entry) < size
  {
    var n := NumBlocks(size, block);
    BlockCount(size, block);
    // n >= 2 and (n - 1) * block < size
    assert n >= 2 by {
      if n <= 1 {
        MulMono(n, 1, block);
      }
    }
    HalfOfBlocks(n, block, entry);
    RoundsBelow(n * entry, (n - 1) * block, n - 1, block);
  }

  lemma BlockCount(size: nat, block: nat)
    requires block >= 1
    ensures var n := NumBlocks(size, block);
            size <= n * block && (n >= 1 ==> (n - 1) * block < size)
  {
    var n := NumBlocks(size, block);
    var r := (size + block - 1) % block;
    assert size + block - 1 == n * block + r;
    if n >= 1 {
      assert (n - 1) * block == n * block - block;
    }
  }

  lemma HalfOfBlocks(n: nat, block: nat, entry: nat)
    requires n >= 2 && 2 * entry <= block
    ensures n * entry <= (n - 1) * block
  {
    assert n * entry <= 2 * (n - 1) * entry by {
      MulMono(n, 2 * (n - 1), entry);
    }
    assert 2 * (n - 1) * entry == (2 * entry) * (n - 1);
    MulMono(2 * entry, block, n - 1);
    assert block * (n - 1) == (n - 1) * block;
  }

  /** Rounding does not pass a multiple. */
  lemma RoundsBelow(x: nat, m: nat, k: nat, block: nat)
    requires block >= 1 && m == k * block && x <= m
    ensures RoundToMultiple(x, block) <= m
  {
    var r := RoundToMultiple(x, block);
    var q := r / block;
    assert r == q * block && (k + 1) * block == m + block;
    if q <= k {
      MulMono(q, k, block);
    } else {
      MulMono(k + 1, q, block);
    }
  }

  /** When two padded digests do not fit into a block, every level is again longer than a block. */
  lemma LargeDigestsLoop(size: nat, block: nat, entry: nat)
    requires block >= 1 && 2 * entry > block && size > block
    ensures NextSize(size, block, entry) >= 2 * block
  {
    var n := NumBlocks(size, block);
    BlockCount(size, block);
    if n <= 1 {
      MulMono(n, 1, block);
    }
    MulMono(2, n, entry);
    var r := RoundToMultiple(n * entry, block);
    var q := r / block;
    assert r == q * block;
    if q <= 1 {
      MulMono(q, 1, block);
    } else {
      MulMono(2, q, block);
    }
  }

  /** The size that the loop over the levels has reached after n rounds without ending. */
  function SizeAfter(size: nat, block: nat, entry: nat, n: nat): nat
    requires block >= 1
  {
    if n == 0 then size else NextSize(SizeAfter(size, block, entry, n - 1), block, entry)
  }

  lemma {:induction false} NeverSmall(size: nat, block: nat, entry: nat, n: nat)
    requires block >= 1 && 2 * entry > block && size > block
    ensures SizeAfter(size, block, entry, n) > block
  {
    hide NextSize;
    if n > 0 {
      NeverSmall(size, block, entry, n - 1);
      LargeDigestsLoop(SizeAfter(size, block, entry, n - 1), block, entry);
    }
  }

  lemma {:induction false} SmallAfter(size: nat, block: nat, entry: nat) returns (n: nat)
    requires block >= 1 && 2 * entry <= block
    ensures SizeAfter(size, block, entry, n) <= block
    decreases size
  {
    hide NextSize;
    if size <= block {
      n := 0;
    } else {
      LevelsShrink(size, block, entry);
      var m := SmallAfter(NextSize(size, block, entry), block, entry);
      FirstRound(size, block, entry, m);
      n := m + 1;
    }
  }

  lemma {:induction false} FirstRound(size: nat, block: nat, entry: nat, n: nat)
    requires block >= 1
    ensures SizeAfter(size, block, entry, n + 1) == SizeAfter(NextSize(size, block, entry), block, entry, n)
  {
    hide NextSize;
    if n > 0 {
      FirstRound(size, block, entry, n - 1);
    }
  }

  /** The computation of the levels of a file ends exactly for these parameters. */
  predicate LevelsEnd(size: nat, block: nat, entry: nat) {
    size <= block || 2 * entry <= block
  }

  /** Otherwise every round leaves more than a block, for this very file. */
  lemma TerminationCondition(size: nat, block: nat, entry: nat)
    requires block >= 1
    ensures LevelsEnd(size, block, entry) <==> exists n: nat :: SizeAfter(size, block, entry, n) <= block
  {
    if size <= block {
      assert SizeAfter(size, block, entry, 0) <= block;
    } else if 2 * entry <= block {
      var n := SmallAfter(size, block, entry);
    } else {
      forall n: nat
        ensures SizeAfter(size, block, entry, n) > block
      {
        NeverSmall(size, block, entry, n);
      }
    }
  }

  /** Sizes of all levels, the lowest first. */
  function LevelSizes(size: nat, block: nat, entry: nat): (sizes: seq<nat>)
    requires block >= 1 && LevelsEnd(size, block, entry)
    decreases size
  {
    if size <= block then []
    else
      LevelsShrink(size, block, entry);
      var next := NextSize(size, block, entry);
      [next] + LevelSizes(next, block, entry)
  }

  function Sum(s: seq<nat>): nat {
    if s == [] then 0 else s[0] + Sum(s[1..])
  }

  /** The offset of each level: the total size of all levels above it. */
  function LevelOffsets(sizes: seq<nat>): (offsets: seq<nat>)
    ensures |offsets| == |sizes|
    ensures forall n :: 0 <= n < |sizes| ==> offsets[n] == Sum(sizes[n + 1..])
  {
    seq(|sizes|, n requires 0 <= n < |sizes| => Sum(sizes[n + 1..]))
  }

  /**
   The levels partition the tree: the top level starts at 0, each level ends
   where the one below it starts, and the lowest ends at the tree size.
   */
  lemma LevelsPartition(sizes: seq<nat>)
    ensures var offsets := LevelOffsets(sizes);
            && (sizes != [] ==> offsets[|sizes| - 1] == 0 && offsets[0] + sizes[0] == Sum(sizes))
            && forall n :: 0 <= n < |sizes| - 1 ==> offsets[n + 1] + sizes[n + 1] == offsets[n]
  {
    var offsets := LevelOffsets(sizes);
    forall n | 0 <= n < |sizes| - 1
      ensures offsets[n + 1] + sizes[n + 1] == offsets[n]
    {
      assert sizes[n + 1..][1..] == sizes[n + 2..];
    }
    if sizes != [] {
      assert sizes[|sizes|..] == [];
    }
  }

  lemma {:induction false} SumAppend(s: seq<nat>, x: nat)
    ensures Sum(s + [x]) == Sum(s) + x
  {
    if s == [] {
      assert s + [x] == [x] && [x][1..] == [];
    } else {
      assert (s + [x])[1..] == s[1..] + [x];
      SumAppend(s[1..], x);
    }
  }

  method CalcHashLevelOffsets(imageSize: nat, block: nat, entry: nat) returns (offsets: seq<nat>, treeSize: nat)
    requires block >= 1 && LevelsEnd(imageSize, block, entry)
    ensures offsets == LevelOffsets(LevelSizes(imageSize, block, entry))
    ensures treeSize == Sum(LevelSizes(imageSize, block, entry))
  {
    hide RoundToMultiple, LevelSizes, Sum;
    var levelSizes: seq<nat> := [];
    treeSize := 0;
    EmptySum();
    var size: nat := imageSize;
    assert levelSizes + LevelSizes(size, block, entry) == LevelSizes(imageSize, block, entry);
    while size > block
      invariant LevelsEnd(size, block, entry) && treeSize == Sum(levelSizes)
      invariant levelSizes + LevelSizes(size, block, entry) == LevelSizes(imageSize, block, entry)
    {
      NextLevelSizes(size, block, entry);
      var numBlocks := (size + block - 1) / block;
      var levelSize := RoundToMultiple(numBlocks * entry, block);
      SumAppend(levelSizes, levelSize);
      assert levelSizes + ([levelSize] + LevelSizes(levelSize, block, entry))
          == (levelSizes + [levelSize]) + LevelSizes(levelSize, block, entry);
      levelSizes := levelSizes + [levelSize];
      treeSize := treeSize + levelSize;
      size := levelSize;
    }
    NextLevelSizes(size, block, entry);
    assert levelSizes + [] == levelSizes;
    offsets := FormOffsets(levelSizes);
  }

  /** The offset of every level, by summing the sizes above it. */
  method FormOffsets(levelSizes: seq<nat>) returns (offsets: seq<nat>)
    ensures offsets == LevelOffsets(levelSizes)
  {
    hide Sum;
    var numLevels := |levelSizes|;
    offsets := [];
    EmptySum();
    for n := 0 to numLevels
      invariant |offsets| == n
      invariant forall k :: 0 <= k < n ==> offsets[k] == Sum(levelSizes[k + 1..])
    {
      var offset := 0;
      assert levelSizes[n + 1..n + 1] == [];
      for m := n + 1 to numLevels
        invariant offset == Sum(levelSizes[n + 1..m])
      {
        SumAppend(levelSizes[n + 1..m], levelSizes[m]);
        assert levelSizes[n + 1..m + 1] == levelSizes[n + 1..m] + [levelSizes[m]];
        offset := offset + levelSizes[m];
      }
      assert levelSizes[n + 1..numLevels] == levelSizes[n + 1..];
      offsets := offsets + [offset];
    }
  }

  lemma EmptySum()
    ensures Sum([]) == 0
  {
  }

  lemma NextLevelSizes(size: nat, block: nat, entry: nat)
    requires block >= 1 && LevelsEnd(size, block, entry)
    ensures var next := NextSize(size, block, entry);
            if size <= block then LevelSizes(size, block, entry) == []
            else next < size && LevelSizes(size, block, entry) == [next] + LevelSizes(next, block, entry)
  {
    if size > block {
      LevelsShrink(size, block, entry);
    }
  }

  // ----- Contents

  function PadTo(data: seq<Byte>, n: nat): (r: seq<Byte>)
    requires |data| <= n
    ensures |r| == n
  {
    data + Zeros(n - |data|)
  }

  /** The padded digest of one block. */
  function Entry(p: Params, block: seq<Byte>): seq<Byte> {
    p.h(block) + Zeros(p.padding)
  }

  /** The entries of all blocks; a short last block is filled up with zeros. */
  function Digests(p: Params, data: seq<Byte>): seq<Byte>
    requires p.block >= 1
  {
    if data == [] then []
    else if |data| <= p.block then Entry(p, PadTo(data, p.block))
    else Entry(p, data[..p.block]) + Digests(p, data[p.block..])
  }

  function LevelOf(p: Params, data: seq<Byte>): seq<Byte>
    requires p.block >= 1
  {
    var d := Digests(p, data);
    PadTo(d, RoundToMultiple(|d|, p.block))
  }

  lemma {:induction false} DigestsSize(p: Params, data: seq<Byte>)
    requires FixedLength(p)
    ensures |Digests(p, data)| == NumBlocks(|data|, p.block) * p.entry()
    decreases |data|
  {
    var b := p.block;
    if data == [] {
      ModUnique(b - 1, b, 0, b - 1);
    } else if |data| <= b {
      ModUnique(|data| + b - 1, b, 1, |data| - 1);
    } else {
      DigestsSize(p, data[b..]);
      OneBlockMore(|data|, b, p.entry());
    }
  }

  lemma OneBlockMore(size: nat, block: nat, entry: nat)
    requires block >= 1 && size > block
    ensures NumBlocks(size, block) * entry == entry + NumBlocks(size - block, block) * entry
  {
    ModPlus(size - block + block - 1, block);
    var n := NumBlocks(size - block, block);
    assert (n + 1) * entry == n * entry + entry;
  }

  lemma LevelOfSize(p: Params, data: seq<Byte>)
    requires ValidParams(p)
    ensures |LevelOf(p, data)| == NextSize(|data|, p.block, p.entry())
  {
    DigestsSize(p, data);
  }

  lemma LevelOfShrinks(p: Params, data: seq<Byte>)
    requires ValidParams(p) && |data| > p.block
    ensures p.block <= |LevelOf(p, data)| < |data|
  {
    LevelOfSize(p, data);
    LevelsShrink(|data|, p.block, p.entry());
    LevelNotEmpty(|data|, p.block, p.entry());
  }

  lemma LevelNotEmpty(size: nat, block: nat, entry: nat)
    requires block >= 1 && entry >= 1 && size >= 1
    ensures NextSize(size, block, entry) >= block
  {
    var n := NumBlocks(size, block);
    BlockCount(size, block);
    if n <= 0 {
      MulMono(n, 0, block);
    }
    MulMono(1, n, entry);
    AtLeastOnce(RoundToMultiple(n * entry, block), block);
  }

  lemma AtLeastOnce(r: nat, block: nat)
    requires block >= 1 && r >= 1 && r % block == 0
    ensures r >= block
  {
    var q := r / block;
    assert r == q * block;
    if q <= 0 {
      MulMono(q, 0, block);
    } else {
      MulMono(1, q, block);
    }
  }

  /** All levels, the lowest first. */
  function Levels(p: Params, data: seq<Byte>): (ls: seq<seq<Byte>>)
    requires ValidParams(p)
    decreases |data|
  {
    if |data| <= p.block then []
    else
      LevelOfShrinks(p, data);
      [LevelOf(p, data)] + Levels(p, LevelOf(p, data))
  }

  /** The root digest: the digest of the top level, or of a single block itself. */
  function Root(p: Params, data: seq<Byte>): seq<Byte>
    requires ValidParams(p)
    decreases |data|
  {
    if |data| <= p.block then p.h(data)
    else
      LevelOfShrinks(p, data);
      Root(p, LevelOf(p, data))
  }

  /** The levels in file order: the last one first. */
  function Stacked(ls: seq<seq<Byte>>): seq<Byte> {
    if ls == [] then [] else Stacked(ls[1..]) + ls[0]
  }

  function Tree(p: Params, data: seq<Byte>): seq<Byte>
    requires ValidParams(p)
  {
    Stacked(Levels(p, data))
  }

  // ----- Construction

  /** A result, or the failure of the original on an image smaller than a block. */
  datatype Outcome = Built(root: seq<Byte>, tree: seq<Byte>) | NoLevels

  lemma NextLevels(p: Params, data: seq<Byte>)
    requires ValidParams(p)
    ensures |data| <= p.block ==> Levels(p, data) == [] && Root(p, data) == p.h(data)
    ensures |data| > p.block ==>
              && Levels(p, data) == [LevelOf(p, data)] + Levels(p, LevelOf(p, data))
              && Root(p, data) == Root(p, LevelOf(p, data))
  {
    if |data| > p.block {
      LevelOfShrinks(p, data);
    }
  }

  /** The levels have the sizes that the layout reserves for them. */
  lemma {:induction false} LevelsFitLayout(p: Params, data: seq<Byte>)
    requires ValidParams(p)
    ensures var ls, sizes := Levels(p, data), LevelSizes(|data|, p.block, p.entry());
            |ls| == |sizes| && forall n :: 0 <= n < |ls| ==> |ls[n]| == sizes[n]
    decreases |data|
  {
    hide LevelOf, RoundToMultiple, NumBlocks, Levels, LevelSizes, NextSize;
    NextLevels(p, data);
    NextLevelSizes(|data|, p.block, p.entry());
    if |data| > p.block {
      LevelOfSize(p, data);
      LevelOfShrinks(p, data);
      LevelsFitLayout(p, LevelOf(p, data));
    }
  }

  /** One level: hashes all blocks of the source and fills the level up to whole blocks. */
  method HashLevel(p: Params, source: seq<Byte>) returns (output: seq<Byte>)
    requires ValidParams(p)
    ensures output == LevelOf(p, source)
    ensures HoldsDigests(p, source, output)
  {
    hide RoundToMultiple, ValidParams, Digests, HoldsDigests;
    FixedParams(p);
    LevelHoldsDigests(p, source);
    output := [];
    var remaining := |source|;
    assert source[0..] == source;
    while remaining > 0
      invariant 0 <= remaining <= |source|
      invariant output + Digests(p, source[|source| - remaining..]) == Digests(p, source)
    {
      ghost var rest := source[|source| - remaining..];
      var start := |source| - remaining;
      var data := source[start..start + Min(remaining, p.block)];
      var block := data;
      if |data| < p.block {
        block := block + Zeros(p.block - |data|);
      }
      FirstBlock(p, rest, data, block);
      assert source[start + |data|..] == rest[|data|..];
      remaining := remaining - |data|;
      AppendEntry(output, p.h(block), p.padding, Digests(p, rest[|data|..]));
      output := output + p.h(block);
      if p.padding > 0 {
        output := output + Zeros(p.padding);
      }
    }
    assert source[|source|..] == [];
    NoDigests(p);
    assert output + [] == output;
    var paddingNeeded := RoundToMultiple(|output|, p.block) - |output|;
    output := output + Zeros(paddingNeeded);
  }

  lemma FixedParams(p: Params)
    requires ValidParams(p)
    ensures FixedLength(p)
  {
  }

  lemma NoDigests(p: Params)
    requires p.block >= 1
    ensures Digests(p, []) == []
  {
  }

  lemma AppendEntry(output: seq<Byte>, digest: seq<Byte>, padding: nat, rest: seq<Byte>)
    ensures output + (digest + Zeros(padding) + rest) == output + digest + Zeros(padding) + rest
    ensures padding == 0 ==> output + digest + Zeros(padding) == output + digest
  {
  }

  function Min(a: nat, b: nat): nat {
    if a <= b then a else b
  }

  lemma FirstBlock(p: Params, rest: seq<Byte>, data: seq<Byte>, block: seq<Byte>)
    requires ValidParams(p) && |rest| > 0 && data == rest[..Min(|rest|, p.block)]
    requires |block| == p.block && block == (if |data| < p.block then data + Zeros(p.block - |data|) else data)
    ensures Digests(p, rest) == p.h(block) + Zeros(p.padding) + Digests(p, rest[|data|..])
  {
    if |rest| <= p.block {
      assert data == rest && rest[|data|..] == [];
      if |data| == p.block {
        assert PadTo(data, p.block) == data;
      }
      assert Entry(p, block) + [] == Entry(p, block);
    }
  }

  /** The buffer holds the levels built so far at its end, the last one first. */
  ghost predicate Holds(buffer: array<Byte>, offset: nat, ls: seq<seq<Byte>>)
    reads buffer
  {
    offset <= buffer.Length && buffer[offset..] == Stacked(ls)
  }

  /** Copies a level to its place in the tree, in front of the levels below it. */
  method PlaceLevel(buffer: array<Byte>, offset: nat, level: seq<Byte>, ghost below: nat, ghost ls: seq<seq<Byte>>)
    requires offset + |level| == below && Holds(buffer, below, ls)
    modifies buffer
    ensures Holds(buffer, offset, ls + [level])
  {
    ghost var stacked := buffer[below..];
    for i := 0 to |level|
      invariant forall k :: 0 <= k < i ==> buffer[offset + k] == level[k]
      invariant buffer[below..] == stacked
    {
      buffer[offset + i] := level[i];
    }
    StackedAppend(ls, level);
    assert buffer[offset..below] == level;
    assert buffer[offset..] == buffer[offset..below] + buffer[below..];
  }

  lemma {:induction false} StackedAppend(ls: seq<seq<Byte>>, level: seq<Byte>)
    ensures Stacked(ls + [level]) == level + Stacked(ls)
  {
    if ls == [] {
      assert ls + [level] == [level] && [level][1..] == [];
      assert [] + level == level + [];
    } else {
      assert (ls + [level])[1..] == ls[1..] + [level];
      StackedAppend(ls[1..], level);
      assert (level + Stacked(ls[1..])) + ls[0] == level + (Stacked(ls[1..]) + ls[0]);
    }
  }

  /**
   Builds all levels in one buffer. The result is the root digest and the tree
   of the level-by-level definition; the root of a single block is its digest,
   and an image smaller than a block has neither.
   */
  method GenerateHashTree(p: Params, image: seq<Byte>, offsets: seq<nat>, treeSize: nat) returns (r: Outcome)
    requires FixedLength(p) && LevelsEnd(|image|, p.block, p.entry())
    requires var sizes := LevelSizes(|image|, p.block, p.entry());
             offsets == LevelOffsets(sizes) && treeSize == Sum(sizes)
    ensures |image| < p.block ==> r == NoLevels
    ensures |image| == p.block ==> r == Built(p.h(image), [])
    ensures |image| > p.block ==> ValidParams(p) && r == Built(Root(p, image), Tree(p, image))
    ensures |image| > p.block ==> r.Built? && |r.tree| == treeSize && IsHashTree(p, image, offsets, r.tree, r.root)
  {
    hide LevelSizes, Sum, IsHashTree;
    NextLevelSizes(|image|, p.block, p.entry());
    EmptySum();
    if |image| <= p.block {
      var hashRet := new Byte[treeSize](_ => 0);
      assert hashRet[..] == [];
      // Below a block the original fails after its loop: there is no level to hash.
      r := if |image| == p.block then Built(p.h(image), hashRet[..]) else NoLevels;
    } else {
      r := BuildLevels(p, image, offsets, treeSize);
      TreeIsHashTree(p, image);
      TreeSize(p, image);
    }
  }

  /** The loop over the levels of an image of more than a block. */
  method BuildLevels(p: Params, image: seq<Byte>, offsets: seq<nat>, treeSize: nat) returns (r: Outcome)
    requires ValidParams(p) && |image| > p.block
    requires var sizes := LevelSizes(|image|, p.block, p.entry());
             offsets == LevelOffsets(sizes) && treeSize == Sum(sizes)
    ensures r == Built(Root(p, image), Tree(p, image))
  {
    hide RoundToMultiple, ValidParams, LevelSizes, Levels, Root, LevelOf, Stacked, Sum;
    ghost var ls, sizes := Levels(p, image), LevelSizes(|image|, p.block, p.entry());
    LevelsFitLayout(p, image);
    LevelsPartition(sizes);
    NextLevels(p, image);
    var hashRet := new Byte[treeSize](_ => 0);
    var source, levelNum := image, 0;
    ghost var below := treeSize;
    EmptyStack();
    assert ls[..0] == [] && hashRet[treeSize..] == [];
    while |source| > p.block
      invariant 0 <= levelNum <= |ls| && Levels(p, source) == ls[levelNum..] && Root(p, source) == Root(p, image)
      invariant Holds(hashRet, below, ls[..levelNum])
      invariant below == if levelNum == 0 then treeSize else offsets[levelNum - 1]
      invariant levelNum == 0 ==> source == image
      invariant levelNum > 0 ==> source == ls[levelNum - 1]
      decreases |source|
    {
      NextLevels(p, source);
      LevelOfShrinks(p, source);
      assert ls[levelNum..][0] == ls[levelNum] && ls[levelNum..][1..] == ls[levelNum + 1..];
      if levelNum > 0 {
        LevelIsInBuffer(hashRet, below, ls, levelNum);
      }
      // Level 0 hashes the image, later levels hash the one just placed in the buffer.
      var input := if levelNum == 0 then image else hashRet[offsets[levelNum - 1]..offsets[levelNum - 1] + |source|];
      var output := HashLevel(p, input);
      PlaceLevel(hashRet, offsets[levelNum], output, below, ls[..levelNum]);
      below := offsets[levelNum];
      assert ls[..levelNum] + [output] == ls[..levelNum + 1];
      source := output;
      levelNum := levelNum + 1;
    }
    NextLevels(p, source);
    assert ls[levelNum..] == [];
    assert ls[..levelNum] == ls;
    assert hashRet[0..] == hashRet[..];
    r := Built(p.h(source), hashRet[..]);
  }

  lemma EmptyStack()
    ensures Stacked([]) == []
  {
  }

  /** The level placed last can be read back from the buffer. */
  lemma LevelIsInBuffer(buffer: array<Byte>, offset: nat, ls: seq<seq<Byte>>, n: nat)
    requires 1 <= n <= |ls| && Holds(buffer, offset, ls[..n])
    ensures offset + |ls[n - 1]| <= buffer.Length
    ensures buffer[offset..offset + |ls[n - 1]|] == ls[n - 1]
  {
    assert ls[..n] == ls[..n - 1] + [ls[n - 1]];
    StackedAppend(ls[..n - 1], ls[n - 1]);
    assert buffer[offset..][..|ls[n - 1]|] == ls[n - 1];
  }

  // ----- Digests by position

  /** Block k of the data, the last one filled up with zeros. */
  function BlockAt(p: Params, data: seq<Byte>, k: nat): (b: seq<Byte>)
    requires p.block >= 1 && k * p.block < |data|
    ensures |b| == p.block
  {
    BlockFrom(p, data, k * p.block)
  }

  function BlockFrom(p: Params, data: seq<Byte>, pos: nat): (b: seq<Byte>)
    requires p.block >= 1 && pos < |data|
    ensures |b| == p.block
  {
    if pos + p.block > |data| then data[pos..] + Zeros(p.block - (|data| - pos)) else data[pos..pos + p.block]
  }

  /**
   Entry k of a level is the digest of block k of its source and the padding;
   behind the entries there are zeros up to the next whole block.
   */
  ghost predicate HoldsDigests(p: Params, source: seq<Byte>, level: seq<Byte>)
    requires p.block >= 1
  {
    var n := NumBlocks(|source|, p.block);
    && n * p.entry() <= |level| < n * p.entry() + p.block && |level| % p.block == 0
    && (forall k :: 0 <= k < n ==> EntryAt(p, source, level, k))
    && forall i :: n * p.entry() <= i < |level| ==> level[i] == 0
  }

  predicate EntryAt(p: Params, source: seq<Byte>, level: seq<Byte>, k: nat)
    requires p.block >= 1
  {
    var start := k * p.entry();
    && k * p.block < |source| && start + p.entry() <= |level|
    && level[start..start + p.entry()] == p.h(BlockAt(p, source, k)) + Zeros(p.padding)
  }

  lemma BlockExists(size: nat, block: nat, k: nat)
    requires block >= 1 && k < NumBlocks(size, block)
    ensures k * block < size
  {
    BlockCount(size, block);
    MulMono(k, NumBlocks(size, block) - 1, block);
  }

  lemma {:induction false} DigestStands(p: Params, data: seq<Byte>, k: nat)
    requires FixedLength(p) && k < NumBlocks(|data|, p.block)
    ensures EntryAt(p, data, Digests(p, data), k)
    decreases |data|
  {
    hide FixedLength, NumBlocks, EntryAt;
    DigestLength(p);
    BlockExists(|data|, p.block, k);
    if k == 0 {
      FirstDigest(p, data);
    } else {
      MulMono(1, k, p.block);
      FewerBlocks(|data|, p.block, k);
      DigestStands(p, data[p.block..], k - 1);
      NextDigest(p, data, k);
    }
  }

  lemma DigestLength(p: Params)
    requires FixedLength(p)
    ensures p.block >= 1 && forall x :: |p.h(x)| == p.digest
  {
  }

  lemma FewerBlocks(size: nat, block: nat, k: nat)
    requires block >= 1 && size > block && k < NumBlocks(size, block) && k >= 1
    ensures k - 1 < NumBlocks(size - block, block)
  {
    ModPlus(size - block + block - 1, block);
  }

  lemma FirstDigest(p: Params, data: seq<Byte>)
    requires p.block >= 1 && data != [] && forall x :: |p.h(x)| == p.digest
    ensures EntryAt(p, data, Digests(p, data), 0)
  {
    assert 0 * p.block == 0 && 0 * p.entry() == 0;
    assert data[0..] == data;
    if |data| == p.block {
      assert PadTo(data, p.block) == data == data[..p.block];
    }
    var e := Entry(p, BlockAt(p, data, 0));
    assert Digests(p, data)[0..p.entry()] == e;
  }

  lemma NextDigest(p: Params, data: seq<Byte>, k: nat)
    requires p.block >= 1 && |data| > p.block && k >= 1 && k * p.block < |data| && forall x :: |p.h(x)| == p.digest
    requires EntryAt(p, data[p.block..], Digests(p, data[p.block..]), k - 1)
    ensures EntryAt(p, data, Digests(p, data), k)
  {
    hide *;
    OneLess(k, p.block);
    OneLess(k, p.entry());
    EntryParts(p, data[p.block..], Digests(p, data[p.block..]), k - 1, (k - 1) * p.block, (k - 1) * p.entry());
    LaterDigest(p, data, (k - 1) * p.block, (k - 1) * p.entry());
    EntryParts(p, data, Digests(p, data), k, k * p.block, k * p.entry());
  }

  lemma EntryParts(p: Params, source: seq<Byte>, level: seq<Byte>, k: nat, pos: nat, start: nat)
    requires p.block >= 1 && pos == k * p.block && start == k * p.entry()
    ensures EntryAt(p, source, level, k) <==>
              && pos < |source| && start + p.entry() <= |level|
              && level[start..start + p.entry()] == p.h(BlockFrom(p, source, pos)) + Zeros(p.padding)
  {
    hide BlockFrom;
  }

  lemma OneLess(k: nat, n: nat)
    requires k >= 1
    ensures (k - 1) * n + n == k * n && (k - 1) * n >= 0
  {
    MulMono(0, k - 1, n);
  }

  lemma LaterDigest(p: Params, data: seq<Byte>, pos: nat, start: nat)
    requires p.block >= 1 && |data| > p.block && pos + p.block < |data| && forall x :: |p.h(x)| == p.digest
    requires var d := Digests(p, data[p.block..]);
             start + p.entry() <= |d| && d[start..start + p.entry()] == p.h(BlockFrom(p, data[p.block..], pos)) + Zeros(p.padding)
    ensures var d, s := Digests(p, data), start + p.entry();
            s + p.entry() <= |d| && d[s..s + p.entry()] == p.h(BlockFrom(p, data, pos + p.block)) + Zeros(p.padding)
  {
    hide Digests, BlockFrom, Zeros;
    var first, d := Entry(p, data[..p.block]), Digests(p, data[p.block..]);
    MoreDigests(p, data);
    SameBlock(p, data, pos);
    ShiftedSlice(first, d, start, start + p.entry());
  }

  lemma MoreDigests(p: Params, data: seq<Byte>)
    requires p.block >= 1 && |data| > p.block
    ensures Digests(p, data) == Entry(p, data[..p.block]) + Digests(p, data[p.block..])
  {
  }

  lemma SameBlock(p: Params, data: seq<Byte>, pos: nat)
    requires p.block >= 1 && |data| > p.block && pos + p.block < |data|
    ensures BlockFrom(p, data[p.block..], pos) == BlockFrom(p, data, pos + p.block)
  {
    var rest := data[p.block..];
    assert rest[pos..] == data[pos + p.block..];
    if pos + p.block <= |rest| {
      assert rest[pos..pos + p.block] == data[pos + p.block..pos + p.block + p.block];
    }
  }

  lemma ShiftedSlice(a: seq<Byte>, b: seq<Byte>, i: nat, j: nat)
    requires i <= j <= |b|
    ensures (a + b)[|a| + i..|a| + j] == b[i..j]
  {
  }

  /** A level of the definition is filled so. */
  lemma LevelHoldsDigests(p: Params, data: seq<Byte>)
    requires FixedLength(p)
    ensures HoldsDigests(p, data, LevelOf(p, data))
  {
    hide FixedLength, NumBlocks, EntryAt, RoundToMultiple, Digests;
    DigestLength(p);
    var d, level, n := Digests(p, data), LevelOf(p, data), NumBlocks(|data|, p.block);
    DigestsSize(p, data);
    forall k | 0 <= k < n
      ensures EntryAt(p, data, level, k)
    {
      DigestStands(p, data, k);
      EntryStays(p, data, d, level, k);
    }
    assert forall i :: |d| <= i < |level| ==> level[i] == Zeros(|level| - |d|)[i - |d|] == 0;
  }

  lemma EntryStays(p: Params, data: seq<Byte>, d: seq<Byte>, level: seq<Byte>, k: nat)
    requires p.block >= 1 && d <= level && EntryAt(p, data, d, k)
    ensures EntryAt(p, data, level, k)
  {
    var start := k * p.entry();
    assert level[start..start + p.entry()] == d[start..start + p.entry()];
  }

  /** The bytes of level n in a tree: up to the level below it, or to the end. */
  function LevelAt(tree: seq<Byte>, offsets: seq<nat>, n: nat): seq<Byte>
    requires n < |offsets|
  {
    var end := if n == 0 then |tree| else offsets[n - 1];
    if offsets[n] <= end <= |tree| then tree[offsets[n]..end] else []
  }

  /** What the digests of level n are taken of. */
  function SourceOf(image: seq<Byte>, tree: seq<Byte>, offsets: seq<nat>, n: nat): seq<Byte>
    requires n < |offsets|
  {
    if n == 0 then image else LevelAt(tree, offsets, n - 1)
  }

  /**
   Level 0 holds the digests of the image, every other level those of the one
   below; the last level is at the front and one block long, and the root is
   its digest.
   */
  ghost predicate IsHashTree(p: Params, image: seq<Byte>, offsets: seq<nat>, tree: seq<Byte>, root: seq<Byte>)
    requires p.block >= 1
  {
    && |offsets| >= 1 && offsets[|offsets| - 1] == 0
    && (forall n :: 0 <= n < |offsets| ==>
          HoldsDigests(p, SourceOf(image, tree, offsets, n), LevelAt(tree, offsets, n)))
    && |LevelAt(tree, offsets, |offsets| - 1)| == p.block
    && root == p.h(LevelAt(tree, offsets, |offsets| - 1))
  }

  /** The levels of the definition are a chain of such fillings that ends with one block. */
  lemma {:induction false} LevelChain(p: Params, image: seq<Byte>)
    requires ValidParams(p) && |image| > p.block
    ensures var ls := Levels(p, image);
            && |ls| >= 1 && ls[0] == LevelOf(p, image)
            && (forall n :: 1 <= n < |ls| ==> ls[n] == LevelOf(p, ls[n - 1]))
            && |ls[|ls| - 1]| == p.block && Root(p, image) == p.h(ls[|ls| - 1])
    decreases |image|
  {
    hide LevelOf;
    NextLevels(p, image);
    LevelOfShrinks(p, image);
    var next := LevelOf(p, image);
    NextLevels(p, next);
    if |next| > p.block {
      LevelChain(p, next);
      var ls, rest := Levels(p, image), Levels(p, next);
      forall n | 1 <= n < |ls|
        ensures ls[n] == LevelOf(p, ls[n - 1])
      {
        assert ls[n] == rest[n - 1];
        if n > 1 {
          assert ls[n - 1] == rest[n - 2];
        }
      }
    }
  }

  lemma {:induction false} StackedLevel(ls: seq<seq<Byte>>, sizes: seq<nat>, n: nat)
    requires |ls| == |sizes| && (forall i :: 0 <= i < |ls| ==> |ls[i]| == sizes[i]) && n < |ls|
    ensures |Stacked(ls)| == Sum(sizes)
    ensures Sum(sizes[n + 1..]) + sizes[n] == Sum(sizes[n..]) <= Sum(sizes)
    ensures Stacked(ls)[Sum(sizes[n + 1..])..Sum(sizes[n..])] == ls[n]
  {
    StackedSize(ls, sizes);
    assert sizes[n..][0] == sizes[n] && sizes[n..][1..] == sizes[n + 1..];
    if n == 0 {
      assert sizes[0..] == sizes;
      StackedSize(ls[1..], sizes[1..]);
    } else {
      assert sizes[1..][n - 1..] == sizes[n..] && sizes[1..][n..] == sizes[n + 1..];
      StackedLevel(ls[1..], sizes[1..], n - 1);
      var s := Stacked(ls[1..]);
      assert (s + ls[0])[Sum(sizes[n + 1..])..Sum(sizes[n..])] == s[Sum(sizes[n + 1..])..Sum(sizes[n..])];
    }
  }

  lemma {:induction false} StackedSize(ls: seq<seq<Byte>>, sizes: seq<nat>)
    requires |ls| == |sizes| && forall i :: 0 <= i < |ls| ==> |ls[i]| == sizes[i]
    ensures |Stacked(ls)| == Sum(sizes)
  {
    if ls != [] {
      StackedSize(ls[1..], sizes[1..]);
    }
  }

  lemma LevelInTree(p: Params, image: seq<Byte>, n: nat)
    requires ValidParams(p) && n < |Levels(p, image)|
    ensures var offsets := LevelOffsets(LevelSizes(|image|, p.block, p.entry()));
            |offsets| == |Levels(p, image)| && LevelAt(Tree(p, image), offsets, n) == Levels(p, image)[n]
  {
    hide Levels, LevelSizes, ValidParams, Stacked, Sum;
    var ls, sizes := Levels(p, image), LevelSizes(|image|, p.block, p.entry());
    LevelsFitLayout(p, image);
    StackedLevel(ls, sizes, n);
    if n == 0 {
      assert sizes[0..] == sizes;
    }
  }

  lemma TreeSize(p: Params, image: seq<Byte>)
    requires ValidParams(p)
    ensures |Tree(p, image)| == Sum(LevelSizes(|image|, p.block, p.entry()))
  {
    hide Levels, LevelSizes, ValidParams, Stacked, Sum;
    LevelsFitLayout(p, image);
    StackedSize(Levels(p, image), LevelSizes(|image|, p.block, p.entry()));
  }

  /** The tree and root of the definition, seen from their bytes. */
  lemma TreeIsHashTree(p: Params, image: seq<Byte>)
    requires ValidParams(p) && |image| > p.block
    ensures IsHashTree(p, image, LevelOffsets(LevelSizes(|image|, p.block, p.entry())), Tree(p, image), Root(p, image))
  {
    hide Levels, LevelSizes, LevelOf, LevelAt, HoldsDigests, Tree, Root, NumBlocks, Sum;
    var ls, offsets := Levels(p, image), LevelOffsets(LevelSizes(|image|, p.block, p.entry()));
    LevelChain(p, image);
    LevelsPartition(LevelSizes(|image|, p.block, p.entry()));
    LevelInTree(p, image, |ls| - 1);
    assert |offsets| == |ls| && offsets[|offsets| - 1] == 0;
    forall n | 0 <= n < |offsets|
      ensures HoldsDigests(p, SourceOf(image, Tree(p, image), offsets, n), LevelAt(Tree(p, image), offsets, n))
    {
      LevelInTree(p, image, n);
      if n == 0 {
        LevelHoldsDigests(p, image);
      } else {
        LevelInTree(p, image, n - 1);
        LevelHoldsDigests(p, ls[n - 1]);
      }
    }
  }

  // ----- Binding

  /** The blocks that are hashed for one level, short ones filled up. */
  function BlockInputs(p: Params, data: seq<Byte>): set<seq<Byte>>
    requires p.block >= 1
  {
    if data == [] then {}
    else if |data| <= p.block then {PadTo(data, p.block)}
    else {data[..p.block]} + BlockInputs(p, data[p.block..])
  }

  /** All inputs that are hashed for a file: its own blocks and those of every level. */
  function HashInputs(p: Params, data: seq<Byte>): set<seq<Byte>>
    requires ValidParams(p)
    decreases |data|
  {
    if |data| <= p.block then {data}
    else
      LevelOfShrinks(p, data);
      BlockInputs(p, data) + HashInputs(p, LevelOf(p, data))
  }

  /** Two different inputs, each of its own file, with the same digest. */
  ghost predicate Collision(p: Params, x: seq<Byte>, y: seq<Byte>) {
    x != y && p.h(x) == p.h(y)
  }

  lemma ConcatParts(a: seq<Byte>, b: seq<Byte>, c: seq<Byte>, d: seq<Byte>)
    requires |a| == |c| && a + b == c + d
    ensures a == c && b == d
  {
    assert a == (a + b)[..|a|] && c == (c + d)[..|c|];
    assert b == (a + b)[|a|..] && d == (c + d)[|c|..];
  }

  lemma EntryDigest(p: Params, x: seq<Byte>, y: seq<Byte>)
    requires ValidParams(p) && Entry(p, x) == Entry(p, y)
    ensures p.h(x) == p.h(y)
  {
    ConcatParts(p.h(x), Zeros(p.padding), p.h(y), Zeros(p.padding));
  }

  lemma PadInjective(a: seq<Byte>, b: seq<Byte>, n: nat)
    requires |a| == |b| <= n && PadTo(a, n) == PadTo(b, n)
    ensures a == b
  {
    ConcatParts(a, Zeros(n - |a|), b, Zeros(n - |b|));
  }

  /** Equal digests of different data of the same size reveal two blocks with one digest. */
  lemma {:induction false} DigestsBind(p: Params, a: seq<Byte>, b: seq<Byte>) returns (x: seq<Byte>, y: seq<Byte>)
    requires ValidParams(p) && |a| == |b| && Digests(p, a) == Digests(p, b) && a != b
    ensures Collision(p, x, y) && x in BlockInputs(p, a) && y in BlockInputs(p, b)
    decreases |a|
  {
    var n := p.block;
    if |a| <= n {
      x, y := PadTo(a, n), PadTo(b, n);
      EntryDigest(p, x, y);
      if x == y {
        PadInjective(a, b, n);
      }
    } else {
      ConcatParts(Entry(p, a[..n]), Digests(p, a[n..]), Entry(p, b[..n]), Digests(p, b[n..]));
      EntryDigest(p, a[..n], b[..n]);
      if a[..n] != b[..n] {
        x, y := a[..n], b[..n];
      } else {
        assert a == a[..n] + a[n..] && b == b[..n] + b[n..];
        x, y := DigestsBind(p, a[n..], b[n..]);
      }
    }
  }

  /**
   The root digest binds the image: different images of the same size with the
   same root digest yield two different hash inputs with the same digest.
   */
  lemma {:induction false} RootBinds(p: Params, a: seq<Byte>, b: seq<Byte>) returns (x: seq<Byte>, y: seq<Byte>)
    requires ValidParams(p) && |a| == |b| && a != b && Root(p, a) == Root(p, b)
    ensures Collision(p, x, y) && x in HashInputs(p, a) && y in HashInputs(p, b)
    decreases |a|
  {
    if |a| <= p.block {
      x, y := a, b;
    } else {
      LevelOfShrinks(p, a);
      LevelOfShrinks(p, b);
      LevelOfSize(p, a);
      LevelOfSize(p, b);
      var la, lb := LevelOf(p, a), LevelOf(p, b);
      if la == lb {
        DigestsSize(p, a);
        DigestsSize(p, b);
        PadInjective(Digests(p, a), Digests(p, b), |la|);
        x, y := DigestsBind(p, a, b);
      } else {
        x, y := RootBinds(p, la, lb);
      }
    }
  }

  // ----- Growing the image to whole blocks

  /**
   The layout may be computed before a file is grown to whole blocks: the
   growth changes no level.
   */
  lemma GrowingKeepsLayout(size: nat, block: nat, entry: nat)
    requires block >= 1 && LevelsEnd(size, block, entry)
    ensures LevelsEnd(RoundToMultiple(size, block), block, entry)
    ensures LevelSizes(RoundToMultiple(size, block), block, entry) == LevelSizes(size, block, entry)
  {
    hide LevelSizes;
    var grown := RoundToMultiple(size, block);
    if size <= block {
      RoundsBelow(size, block, 1, block);
    }
    NextLevelSizes(size, block, entry);
    NextLevelSizes(grown, block, entry);
    SameBlockCount(size, block);
  }

  lemma SameBlockCount(size: nat, block: nat)
    requires block >= 1
    ensures NumBlocks(RoundToMultiple(size, block), block) == NumBlocks(size, block)
  {
    var grown := RoundToMultiple(size, block);
    var q := grown / block;
    assert grown == q * block;
    ModUnique(grown + block - 1, block, q, block - 1);
    ModUnique(size + block - 1, block, q, size + block - 1 - q * block);
  }
}
