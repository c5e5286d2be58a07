/**
 * Swarm hashes: data is cut into chunks of 4096 bytes, 128 of which make up a
 * chunk of the level above.
 */
module SwarmHash {
  import opened Util
  import opened Rationals

  type Hash = h: seq<byte> | |h| == 32 witness seq(32, _ => 0)

  type Keccak = seq<byte> -> Hash

  const CHUNK: nat := 0x1000
  const BRANCHES: nat := 128  // 0x1000 / 32
  const WRAP: nat := 0x1_0000_0000_0000_0000

  function ToLittleEndian(size: nat, n: nat := 8): seq<byte> {
    if n == 0 then [] else [size % 256] + ToLittleEndian(size / 256, n - 1)
  }

  function FromLittleEndian(bytes: seq<byte>): nat {
    if bytes == [] then 0 else bytes[0] + 256 * FromLittleEndian(bytes[1..])
  }

  lemma {:induction false} LittleEndianReadBack(size: nat, n: nat)
    requires size < Pow(256, n)
    ensures |ToLittleEndian(size, n)| == n && FromLittleEndian(ToLittleEndian(size, n)) == size
  {
    if n > 0 {
      LittleEndianReadBack(size / 256, n - 1);
      var bytes := ToLittleEndian(size, n);
      assert bytes[1..] == ToLittleEndian(size / 256, n - 1);
    }
  }

  /** The eight bytes in front of a chunk hold its size. */
  lemma SizeBytes(size: nat)
    requires size < 0x1_0000_0000_0000_0000
    ensures |ToLittleEndian(size)| == 8 && FromLittleEndian(ToLittleEndian(size)) == size
  {
    assert Pow(256, 8) == 0x1_0000_0000_0000_0000;
    LittleEndianReadBack(size, 8);
  }

  // --------------------------------------------------- the binary Merkle tree

  function BmtHash(keccak: Keccak, data: seq<byte>): Hash
    decreases |data|
  {
    if |data| <= 64 then keccak(data) else
      var midPoint := |data| / 2;
      keccak(Join(BmtHash(keccak, data[..midPoint]), BmtHash(keccak, data[midPoint..])))
  }

  function Join(a: Hash, b: Hash): seq<byte> {
    var first: seq<byte> := a;
    first + b
  }

  /** The hashes of the 64-byte segments. */
  function SegmentHashes(keccak: Keccak, data: seq<byte>): (hs: seq<Hash>)
    requires |data| % 64 == 0
    ensures |hs| == |data| / 64
    decreases |data|
  {
    if data == [] then [] else [keccak(data[..64])] + SegmentHashes(keccak, data[64..])
  }

  /** One level up: neighbours are hashed together. */
  function PairUp(keccak: Keccak, hs: seq<Hash>): (up: seq<Hash>)
    requires |hs| % 2 == 0
    ensures |up| == |hs| / 2
    decreases |hs|
  {
    if hs == [] then []
    else
      var left: seq<byte> := hs[0];
      [keccak(left + hs[1])] + PairUp(keccak, hs[2..])
  }

  function Reduce(keccak: Keccak, levels: nat, hs: seq<Hash>): Hash
    requires |hs| == Power2(levels)
  {
    if levels == 0 then hs[0] else Reduce(keccak, levels - 1, PairUp(keccak, hs))
  }

  lemma {:induction false} PairUpSplits(keccak: Keccak, a: seq<Hash>, b: seq<Hash>)
    requires |a| % 2 == 0 && |b| % 2 == 0
    ensures PairUp(keccak, a + b) == PairUp(keccak, a) + PairUp(keccak, b)
    decreases |a|
  {
    if a == [] {
      assert a + b == b;
    } else {
      assert (a + b)[2..] == a[2..] + b;
      PairUpSplits(keccak, a[2..], b);
    }
  }

  lemma {:induction false} ReduceSplits(keccak: Keccak, levels: nat, a: seq<Hash>, b: seq<Hash>)
    requires |a| == |b| == Power2(levels)
    ensures Reduce(keccak, levels + 1, a + b) == keccak(Join(Reduce(keccak, levels, a), Reduce(keccak, levels, b)))
  {
    assert Power2(levels + 1) == 2 * Power2(levels);
    if levels == 0 {
      assert (a + b)[2..] == [] && PairUp(keccak, a + b) == [keccak(Join(a[0], b[0]))] + [];
    } else {
      assert Power2(levels) == 2 * Power2(levels - 1);
      PairUpSplits(keccak, a, b);
      ReduceSplits(keccak, levels - 1, PairUp(keccak, a), PairUp(keccak, b));
    }
  }

  lemma {:induction false} SegmentsSplit(keccak: Keccak, a: seq<byte>, b: seq<byte>)
    requires |a| % 64 == 0 && |b| % 64 == 0
    ensures SegmentHashes(keccak, a + b) == SegmentHashes(keccak, a) + SegmentHashes(keccak, b)
    decreases |a|
  {
    if a == [] {
      assert a + b == b;
    } else {
      assert (a + b)[..64] == a[..64] && (a + b)[64..] == a[64..] + b;
      SegmentsSplit(keccak, a[64..], b);
    }
  }

  lemma BmtStep(keccak: Keccak, a: seq<byte>, b: seq<byte>)
    requires |a| == |b| > 32
    ensures BmtHash(keccak, a + b) == keccak(Join(BmtHash(keccak, a), BmtHash(keccak, b)))
  {
    hide Join;
    assert (a + b)[..|a|] == a && (a + b)[|a|..] == b;
  }

  lemma BmtLeaf(keccak: Keccak, data: seq<byte>)
    requires |data| == 64
    ensures BmtHash(keccak, data) == Reduce(keccak, 0, SegmentHashes(keccak, data))
  {
    assert data[..64] == data && data[64..] == [];
  }

  /** Halving from the top gives the same root as pairing segments from the bottom. */
  lemma {:induction false} BmtIsMerkleRoot(keccak: Keccak, levels: nat, data: seq<byte>)
    requires |data| == 64 * Power2(levels)
    ensures BmtHash(keccak, data) == Reduce(keccak, levels, SegmentHashes(keccak, data))
    decreases levels
  {
    hide BmtHash, Join, PairUp, SegmentHashes, Reduce;
    if levels == 0 {
      BmtLeaf(keccak, data);
    } else {
      assert Power2(levels) == 2 * Power2(levels - 1);
      hide Power2;
      var half := 64 * Power2(levels - 1);
      var a, b := data[..half], data[half..];
      assert data == a + b;
      BmtStep(keccak, a, b);
      BmtIsMerkleRoot(keccak, levels - 1, a);
      BmtIsMerkleRoot(keccak, levels - 1, b);
      SegmentsSplit(keccak, a, b);
      ReduceSplits(keccak, levels - 1, SegmentHashes(keccak, a), SegmentHashes(keccak, b));
    }
  }

  // ------------------------------------------------------------------ levels

  /** What one reference of level `k` represents. */
  function LevelSize(k: nat): (s: nat)
    ensures s >= CHUNK
  {
    if k == 0 then CHUNK else BRANCHES * LevelSize(k - 1)
  }

  /** Largest data for which the loop that finds the level ends. */
  const MAX_DATA: nat := 0x2000_0000_0000_0000

  /** The first level from `k` on whose references, 128 of them, represent `size` bytes. */
  function SpanFrom(k: nat, size: nat): nat
    decreases size - LevelSize(k)
  {
    if LevelSize(k) * BRANCHES >= size then LevelSize(k) else SpanFrom(k + 1, size)
  }

  function SpanFor(size: nat): nat { SpanFrom(0, size) }

  predicate IsSpan(span: nat, size: nat) {
    span >= CHUNK && span * BRANCHES >= size && (span > CHUNK ==> span < size)
  }

  lemma {:induction false} SpanFromIsSpan(k: nat, size: nat)
    requires k > 0 ==> LevelSize(k) < size
    ensures IsSpan(SpanFrom(k, size), size) && (k > 0 ==> SpanFrom(k, size) < size)
    decreases size - LevelSize(k)
  {
    if LevelSize(k) * BRANCHES < size {
      SpanFromIsSpan(k + 1, size);
    }
  }

  /** The loop variable after `n` rounds, in 64 bits. */
  function SpanAfter(n: nat): nat {
    if n == 0 then CHUNK else SpanAfter(n - 1) * BRANCHES % WRAP
  }

  predicate LoopGoesOn(span: nat, size: nat) {
    span * BRANCHES % WRAP < size
  }

  lemma {:induction false} LevelsGrow(k: nat, l: nat)
    requires k <= l
    ensures LevelSize(k) <= LevelSize(l)
    decreases l - k
  {
    if k < l {
      LevelsGrow(k, l - 1);
    }
  }

  lemma EighthLevel()
    ensures LevelSize(6) == MAX_DATA / BRANCHES && LevelSize(7) == MAX_DATA
  {
    assert LevelSize(2) == BRANCHES * LevelSize(1);
    assert LevelSize(4) == BRANCHES * LevelSize(3);
    assert LevelSize(6) == BRANCHES * LevelSize(5);
  }

  /** Below the limit, multiplying does not wrap around. */
  lemma NoWrap(k: nat)
    requires LevelSize(k) < MAX_DATA
    ensures LevelSize(k) * BRANCHES % WRAP == LevelSize(k + 1)
  {
    EighthLevel();
    if k > 6 {
      LevelsGrow(7, k);
    } else {
      LevelsGrow(k, 6);
    }
    hide LevelSize;
    NextLevel(k);
  }

  lemma NextLevel(k: nat)
    ensures LevelSize(k + 1) == BRANCHES * LevelSize(k)
  {
  }

  method MaxRepresentedSize(size: nat) returns (span: nat)
    requires size <= MAX_DATA
    ensures span == SpanFor(size)
  {
    hide LevelSize;
    FirstLevel();
    span := CHUNK;
    ghost var k := 0;
    while (span * BRANCHES) % WRAP < size
      invariant span == LevelSize(k) && (span > CHUNK ==> span < size) && SpanFrom(k, size) == SpanFor(size)
      decreases size - span
    {
      NoWrap(k);
      NextLevel(k);
      k := k + 1;
      span := (span * BRANCHES) % WRAP;
    }
    NoWrap(k);
    NextLevel(k);
  }

  lemma FirstLevel()
    ensures LevelSize(0) == CHUNK
  {
  }

  lemma SpanStep(n: nat)
    ensures SpanAfter(n) == if n == 0 then CHUNK else SpanAfter(n - 1) * BRANCHES % WRAP
  {
  }

  lemma {:induction false} SpansUpToTheLimit(n: nat)
    ensures n <= 7 ==> SpanAfter(n) == LevelSize(n)
    ensures n > 7 ==> SpanAfter(n) == 0
  {
    hide LevelSize, SpanAfter;
    EighthLevel();
    FirstLevel();
    SpanStep(n);
    if n > 0 {
      SpansUpToTheLimit(n - 1);
      if n <= 7 {
        LevelsGrow(n - 1, 6);
        NoWrap(n - 1);
      }
    }
  }

  lemma AboveTheLimitItGoesOn(n: nat, size: nat)
    requires MAX_DATA < size < WRAP
    ensures LoopGoesOn(SpanAfter(n), size)
  {
    hide LevelSize, SpanAfter;
    SpansUpToTheLimit(n);
    EighthLevel();
    if n <= 6 {
      LevelsGrow(n, 6);
    }
  }

  /** With 64-bit sizes the loop ends exactly for data of at most 2 ** 61 bytes. */
  lemma LoopEndsExactlyUpToLimit(size: nat)
    requires size < WRAP
    ensures size <= MAX_DATA <==> exists n :: !LoopGoesOn(SpanAfter(n), size)
  {
    hide LevelSize, SpanAfter;
    if size <= MAX_DATA {
      SpansUpToTheLimit(6);
      EighthLevel();
      assert !LoopGoesOn(SpanAfter(6), size);
    } else {
      forall n: nat ensures LoopGoesOn(SpanAfter(n), size) {
        AboveTheLimitItGoesOn(n, size);
      }
    }
  }

  // ------------------------------------------------------------- chunk trees

  datatype Tree = Leaf(data: seq<byte>) | Node(size: nat, span: nat, children: seq<Tree>)

  function Pieces(data: seq<byte>, span: nat): seq<seq<byte>>
    requires span > 0
    decreases |data|
  {
    if data == [] then []
    else if |data| <= span then [data]
    else [data[..span]] + Pieces(data[span..], span)
  }

  function DataOf(t: Tree): seq<byte> {
    match t
    case Leaf(data) => data
    case Node(_, _, children) => DataOfAll(children)
  }

  function DataOfAll(ts: seq<Tree>): seq<byte> {
    if ts == [] then [] else DataOf(ts[0]) + DataOfAll(ts[1..])
  }

  lemma {:induction false} PiecesAreSmall(data: seq<byte>, span: nat)
    requires span > 0
    ensures forall i :: 0 <= i < |Pieces(data, span)| ==>
              0 < |Pieces(data, span)[i]| <= span && |Pieces(data, span)[i]| <= |data|
    ensures forall i :: 0 <= i < |Pieces(data, span)| - 1 ==> |Pieces(data, span)[i]| == span
    ensures data != [] ==> |Pieces(data, span)| > 0
    ensures |Pieces(data, span)| > 0 ==> (|Pieces(data, span)| - 1) * span < |data|
    decreases |data|
  {
    if |data| > span {
      PiecesAreSmall(data[span..], span);
      var rest := Pieces(data[span..], span);
      assert Pieces(data, span) == [data[..span]] + rest;
      assert |rest| * span == (|rest| - 1) * span + span by { Distribute(|rest|, 1, span); }
    }
  }

  /** 128 pieces are enough. */
  lemma FewPieces(data: seq<byte>, span: nat)
    requires span > 0 && span * BRANCHES >= |data|
    ensures |Pieces(data, span)| <= BRANCHES
  {
    PiecesAreSmall(data, span);
    hide Pieces;
    var n := |Pieces(data, span)|;
    if n > BRANCHES {
      Multiply(BRANCHES, n - 1, span, span);
    }
  }

  predicate IsLeafData(data: seq<byte>, force: bool) {
    |data| < CHUNK || (|data| == CHUNK && !force)
  }

  function Rank(data: seq<byte>, force: bool): nat {
    2 * |data| + if force then 1 else 0
  }

  predicate AllBelow(pieces: seq<seq<byte>>, force: bool, bound: nat) {
    forall i :: 0 <= i < |pieces| ==> Rank(pieces[i], force) < bound
  }

  /**
   * The tree over `data`. A piece of exactly 4096 bytes is forced to be an
   * inner node when its siblings may be; `forcing` is off in the old variant.
   */
  function TreeOf(data: seq<byte>, force: bool, forcing: bool): Tree
    decreases Rank(data, force), 1, 0
  {
    if IsLeafData(data, force) then Leaf(data) else
      var span := SpanFor(|data|);
      SpanFromIsSpan(0, |data|);
      PiecesAreSmall(data, span);
      Node(|data|, span, TreesOf(Pieces(data, span), forcing && span > CHUNK, forcing, Rank(data, force)))
  }

  function TreesOf(pieces: seq<seq<byte>>, force: bool, forcing: bool, bound: nat): (ts: seq<Tree>)
    requires AllBelow(pieces, force, bound)
    ensures |ts| == |pieces|
    decreases bound, 0, |pieces|
  {
    if pieces == [] then [] else [TreeOf(pieces[0], force, forcing)] + TreesOf(pieces[1..], force, forcing, bound)
  }

  /**
   * Inner nodes have one to 128 children, which represent `span` bytes each
   * except for the last, whose span may be smaller; leaves hold at most 4096 bytes.
   */
  predicate IsChunkTree(t: Tree) {
    match t
    case Leaf(data) => |data| <= 4096
    case Node(size, span, children) =>
      && 1 <= |children| <= 128 && size == |DataOf(t)|
      && (forall i :: 0 <= i < |children| ==> IsChunkTree(children[i]) && 0 < |DataOf(children[i])| <= span)
      && (forall i :: 0 <= i < |children| - 1 ==> |DataOf(children[i])| == span)
  }

  lemma {:induction false} PiecesMakeData(data: seq<byte>, span: nat)
    requires span > 0
    ensures Flatten(Pieces(data, span)) == data
    decreases |data|
  {
    if |data| > span {
      PiecesMakeData(data[span..], span);
      var rest := Pieces(data[span..], span);
      assert ([data[..span]] + rest)[0] == data[..span] && ([data[..span]] + rest)[1..] == rest;
      assert data == data[..span] + data[span..];
    } else if data != [] {
      assert [data][1..] == [] && data + [] == data;
    }
  }

  /** The leaves of the tree, from left to right, hold the data; no inner node has more than 128 children. */
  lemma {:induction false} TreeIsChunkTree(data: seq<byte>, force: bool, forcing: bool)
    ensures DataOf(TreeOf(data, force, forcing)) == data && IsChunkTree(TreeOf(data, force, forcing))
    decreases Rank(data, force), 1, 0
  {
    if !IsLeafData(data, force) {
      var span := SpanFor(|data|);
      SpanFromIsSpan(0, |data|);
      PiecesAreSmall(data, span);
      FewPieces(data, span);
      PiecesMakeData(data, span);
      var pieces := Pieces(data, span);
      var children := TreesOf(pieces, forcing && span > CHUNK, forcing, Rank(data, force));
      TreesAreChunkTrees(pieces, forcing && span > CHUNK, forcing, Rank(data, force));
      assert TreeOf(data, force, forcing) == Node(|data|, span, children);
      hide TreeOf, TreesOf, Pieces, Flatten, SpanFor, IsChunkTree, DataOf;
      NodeIsChunkTree(data, span, pieces, children);
    }
  }

  lemma NodeIsChunkTree(data: seq<byte>, span: nat, pieces: seq<seq<byte>>, children: seq<Tree>)
    requires |children| == |pieces| && 1 <= |pieces| <= BRANCHES && DataOfAll(children) == data
    requires forall i :: 0 <= i < |pieces| ==> DataOf(children[i]) == pieces[i] && IsChunkTree(children[i])
    requires forall i :: 0 <= i < |pieces| ==> 0 < |pieces[i]| <= span
    requires forall i :: 0 <= i < |pieces| - 1 ==> |pieces[i]| == span
    ensures DataOf(Node(|data|, span, children)) == data && IsChunkTree(Node(|data|, span, children))
  {
    hide DataOfAll;
  }

  lemma {:induction false} TreesAreChunkTrees(pieces: seq<seq<byte>>, force: bool, forcing: bool, bound: nat)
    requires AllBelow(pieces, force, bound)
    ensures var ts := TreesOf(pieces, force, forcing, bound);
            && (forall i :: 0 <= i < |pieces| ==> DataOf(ts[i]) == pieces[i] && IsChunkTree(ts[i]))
            && DataOfAll(ts) == Flatten(pieces)
    decreases bound, 0, |pieces|
  {
    hide TreeOf, IsChunkTree, DataOf;
    if pieces != [] {
      TreeIsChunkTree(pieces[0], force, forcing);
      TreesAreChunkTrees(pieces[1..], force, forcing, bound);
      var first, rest := TreeOf(pieces[0], force, forcing), TreesOf(pieces[1..], force, forcing, bound);
      assert TreesOf(pieces, force, forcing, bound) == [first] + rest;
      assert ([first] + rest)[1..] == rest;
    }
  }

  /** The least level whose references, 128 of them, represent `size` bytes. */
  ghost predicate IsLeastSpan(span: nat, size: nat) {
    size <= 128 * span && exists k: nat :: span == 4096 * Pow(128, k) && (k > 0 ==> span < size)
  }

  /**
   * Data of up to 4096 bytes is a leaf, unless it has exactly 4096 and is
   * forced to be an inner node, as it is below a node whose references
   * represent more than 4096 bytes.
   */
  ghost predicate HasLevels(t: Tree, force: bool, forcing: bool) {
    match t
    case Leaf(data) => |data| < 4096 || (|data| == 4096 && !force)
    case Node(size, span, children) =>
      && (size > 4096 || (size == 4096 && force))
      && IsLeastSpan(span, size)
      && forall i :: 0 <= i < |children| ==> HasLevels(children[i], forcing && span > 4096, forcing)
  }

  lemma {:induction false} LevelSizeIs(k: nat)
    ensures LevelSize(k) == 4096 * Pow(128, k)
  {
    if k > 0 {
      LevelSizeIs(k - 1);
    }
  }

  lemma {:induction false} SpanFromIsLeast(k: nat, size: nat)
    requires k > 0 ==> LevelSize(k) < size
    ensures IsLeastSpan(SpanFrom(k, size), size)
    decreases size - LevelSize(k)
  {
    if LevelSize(k) * BRANCHES < size {
      SpanFromIsLeast(k + 1, size);
    } else {
      LevelSizeIs(k);
    }
  }

  lemma LeastSpanIsUnique(a: nat, b: nat, size: nat)
    requires IsLeastSpan(a, size) && IsLeastSpan(b, size)
    ensures a == b
  {
    var k: nat :| a == 4096 * Pow(128, k) && (k > 0 ==> a < size);
    var l: nat :| b == 4096 * Pow(128, l) && (l > 0 ==> b < size);
    LevelSizeIs(k);
    LevelSizeIs(l);
    hide LevelSize, Pow;
    if k < l {
      NextLevel(k);
      LevelsGrow(k + 1, l);
    } else if l < k {
      NextLevel(l);
      LevelsGrow(l + 1, k);
    }
  }

  lemma {:induction false} TreeHasLevels(data: seq<byte>, force: bool, forcing: bool)
    ensures HasLevels(TreeOf(data, force, forcing), force, forcing)
    decreases Rank(data, force), 1, 0
  {
    if !IsLeafData(data, force) {
      var span := SpanFor(|data|);
      SpanFromIsSpan(0, |data|);
      SpanFromIsLeast(0, |data|);
      PiecesAreSmall(data, span);
      var forceChildren := forcing && span > 4096;
      var children := TreesOf(Pieces(data, span), forceChildren, forcing, Rank(data, force));
      assert TreeOf(data, force, forcing) == Node(|data|, span, children);
      TreesHaveLevels(Pieces(data, span), forceChildren, forcing, Rank(data, force));
      forall i | 0 <= i < |children|
        ensures HasLevels(children[i], forceChildren, forcing)
      {
        var pieces := Pieces(data, span);
        assert i < |pieces|;
        assert HasLevels(TreesOf(pieces, forceChildren, forcing, Rank(data, force))[i], forceChildren, forcing);
      }
      hide TreeOf, TreesOf, Pieces, SpanFor, IsLeastSpan, HasLevels;
      NodeHasLevels(|data|, span, children, force, forcing);
    }
  }

  lemma NodeHasLevels(size: nat, span: nat, children: seq<Tree>, force: bool, forcing: bool)
    requires size > 4096 || (size == 4096 && force)
    requires IsLeastSpan(span, size)
    requires forall i :: 0 <= i < |children| ==> HasLevels(children[i], forcing && span > 4096, forcing)
    ensures HasLevels(Node(size, span, children), force, forcing)
  {
  }

  lemma {:induction false} TreesHaveLevels(pieces: seq<seq<byte>>, force: bool, forcing: bool, bound: nat)
    requires AllBelow(pieces, force, bound)
    ensures var ts := TreesOf(pieces, force, forcing, bound);
            forall i :: 0 <= i < |pieces| ==> HasLevels(ts[i], force, forcing)
    decreases bound, 0, |pieces|
  {
    hide TreeOf, HasLevels;
    if pieces != [] {
      TreeHasLevels(pieces[0], force, forcing);
      TreesHaveLevels(pieces[1..], force, forcing, bound);
      assert TreesOf(pieces, force, forcing, bound)
          == [TreeOf(pieces[0], force, forcing)] + TreesOf(pieces[1..], force, forcing, bound);
    }
  }

  /** Children of one node, each with `span` bytes except for the last. */
  ghost predicate AreChildren(ts: seq<Tree>, span: nat, force: bool, forcing: bool) {
    && (forall i :: 0 <= i < |ts| ==>
          IsChunkTree(ts[i]) && HasLevels(ts[i], force, forcing) && 0 < |DataOf(ts[i])| <= span)
    && (forall i :: 0 <= i < |ts| - 1 ==> |DataOf(ts[i])| == span)
  }

  lemma {:induction false} SameDataSameTree(a: Tree, b: Tree, force: bool, forcing: bool)
    requires IsChunkTree(a) && IsChunkTree(b) && HasLevels(a, force, forcing) && HasLevels(b, force, forcing)
    requires DataOf(a) == DataOf(b)
    ensures a == b
    decreases a
  {
    if a.Node? && b.Node? {
      LeastSpanIsUnique(a.span, b.span, a.size);
      hide IsLeastSpan;
      SameDataSameTrees(a.children, b.children, a.span, forcing && a.span > 4096, forcing);
    }
  }

  lemma {:induction false} SameDataSameTrees(a: seq<Tree>, b: seq<Tree>, span: nat, force: bool, forcing: bool)
    requires AreChildren(a, span, force, forcing) && AreChildren(b, span, force, forcing)
    requires DataOfAll(a) == DataOfAll(b)
    ensures a == b
    decreases a
  {
    hide HasLevels, IsChunkTree, DataOf;
    if a != [] && b != [] {
      var first, rest := DataOf(a[0]), DataOfAll(a[1..]);
      var other, others := DataOf(b[0]), DataOfAll(b[1..]);
      assert first + rest == other + others;
      assert |first| == |other|;
      assert first == (first + rest)[..|first|] && other == (other + others)[..|other|];
      assert rest == (first + rest)[|first|..] && others == (other + others)[|other|..];
      SameDataSameTree(a[0], b[0], force, forcing);
      SameDataSameTrees(a[1..], b[1..], span, force, forcing);
      assert a == [a[0]] + a[1..] && b == [b[0]] + b[1..];
    }
  }

  /** These conditions describe one tree for all data, and it is the one the hash is taken of. */
  lemma ChunkTreeIsUnique(t: Tree, data: seq<byte>, force: bool, forcing: bool)
    ensures t == TreeOf(data, force, forcing)
            <==> DataOf(t) == data && IsChunkTree(t) && HasLevels(t, force, forcing)
  {
    TreeIsChunkTree(data, force, forcing);
    TreeHasLevels(data, force, forcing);
    if DataOf(t) == data && IsChunkTree(t) && HasLevels(t, force, forcing) {
      SameDataSameTree(t, TreeOf(data, force, forcing), force, forcing);
    }
  }

  // ------------------------------------------------------------------- hashes

  /** std::vector::resize */
  function Resized(data: seq<byte>, n: nat): (r: seq<byte>)
    ensures |r| == n
  {
    if |data| >= n then data[..n] else data + Repeated(0, n - |data|)
  }

  /** The hash of a chunk: its size, and the Merkle root of its padded content. */
  function ChunkDigest(keccak: Keccak, size: nat, content: seq<byte>): Hash {
    keccak(ToLittleEndian(size) + BmtHash(keccak, Resized(content, CHUNK)))
  }

  function TreeHash(keccak: Keccak, t: Tree): Hash {
    match t
    case Leaf(data) => ChunkDigest(keccak, |data|, data)
    case Node(size, _, children) => ChunkDigest(keccak, size, References(keccak, children))
  }

  /** The hashes of the children, one after the other. */
  function References(keccak: Keccak, ts: seq<Tree>): (r: seq<byte>)
    ensures |r| == 32 * |ts|
  {
    if ts == [] then [] else TreeHash(keccak, ts[0]) + References(keccak, ts[1..])
  }

  /** Padding a chunk never cuts it off. */
  lemma ContentFits(keccak: Keccak, t: Tree)
    requires IsChunkTree(t)
    ensures var content := if t.Leaf? then t.data else References(keccak, t.children);
            |content| <= CHUNK && Resized(content, CHUNK) == content + Repeated(0, CHUNK - |content|)
  {
    hide References;
  }

  lemma {:induction false} ReferencesSnoc(keccak: Keccak, ts: seq<Tree>, i: nat)
    requires i < |ts|
    ensures References(keccak, ts[..i + 1]) == References(keccak, ts[..i]) + TreeHash(keccak, ts[i])
    decreases i
  {
    hide TreeHash;
    if i > 0 {
      ReferencesSnoc(keccak, ts[1..], i - 1);
      assert ts[..i + 1][1..] == ts[1..][..i] && ts[..i][1..] == ts[1..][..i - 1];
    } else {
      assert ts[..1][1..] == [];
    }
  }

  /** What the loops over a chunk see: piece `i` starts at `i * span`. */
  lemma {:induction false} PieceAt(data: seq<byte>, span: nat, i: nat)
    requires span > 0 && i < |Pieces(data, span)|
    ensures i * span < |data|
    ensures Pieces(data, span)[i] == data[i * span..if |data| - i * span < span then |data| else i * span + span]
    ensures i == |Pieces(data, span)| - 1 <==> i * span + span >= |data|
    decreases i
  {
    if i > 0 {
      var rest := data[span..];
      assert Pieces(data, span) == [data[..span]] + Pieces(rest, span);
      PieceAt(rest, span, i - 1);
      hide Pieces;
      NextMultiple(i, span);
      var from, to := (i - 1) * span, if |rest| - (i - 1) * span < span then |rest| else (i - 1) * span + span;
      TailSlice(data, span, from, to);
    }
  }

  lemma TailSlice(data: seq<byte>, span: nat, from: nat, to: nat)
    requires span <= |data| && from <= to <= |data| - span
    ensures data[span..][from..to] == data[span + from..span + to]
  {
    var a, b := data[span..][from..to], data[span + from..span + to];
    assert |a| == |b|;
    forall k | 0 <= k < |a| ensures a[k] == b[k] {
      assert a[k] == data[span..][from + k];
    }
  }

  lemma {:induction false} TreesAt(pieces: seq<seq<byte>>, force: bool, forcing: bool, bound: nat, i: nat)
    requires AllBelow(pieces, force, bound) && i < |pieces|
    ensures TreesOf(pieces, force, forcing, bound)[i] == TreeOf(pieces[i], force, forcing)
    decreases i
  {
    hide TreeOf;
    if i > 0 {
      TreesAt(pieces[1..], force, forcing, bound, i - 1);
    }
  }

  lemma NextMultiple(n: nat, span: nat)
    requires n > 0
    ensures n * span == (n - 1) * span + span
  {
    Distribute(n, 1, span);
  }

  /** The chunk hash of the newer variant. */
  method ChunkHash(keccak: Keccak, data: seq<byte>, forceHigherLevel: bool) returns (hash: Hash)
    requires |data| <= MAX_DATA
    ensures hash == TreeHash(keccak, TreeOf(data, forceHigherLevel, true))
    decreases Rank(data, forceHigherLevel), 1
  {
    var dataToHash := [];
    if |data| < CHUNK {
      dataToHash := data;
    } else if |data| == CHUNK && !forceHigherLevel {
      dataToHash := data;
    } else {
      var maxRepresentedSize := MaxRepresentedSize(|data|);
      SpanFromIsSpan(0, |data|);
      PiecesAreSmall(data, maxRepresentedSize);
      var forceHigher := maxRepresentedSize > CHUNK;
      dataToHash := HashPieces(keccak, data, maxRepresentedSize, forceHigher, Rank(data, forceHigherLevel));
    }
    dataToHash := Resized(dataToHash, CHUNK);
    hash := keccak(ToLittleEndian(|data|) + BmtHash(keccak, dataToHash));
  }

  /** Where piece `n` starts. */
  function Start(n: nat, span: nat): nat { n * span }

  /** One round of the loop over the pieces. */
  lemma PieceStep(keccak: Keccak, data: seq<byte>, span: nat, force: bool, forcing: bool, bound: nat, n: nat, i: nat)
    requires span > 0 && n < |Pieces(data, span)| && i == Start(n, span)
    requires AllBelow(Pieces(data, span), force, bound)
    ensures i < |data| && i + span == Start(n + 1, span)
    ensures var size := if |data| - i < span then |data| - i else span;
            var children := TreesOf(Pieces(data, span), force, forcing, bound);
            && Rank(data[i..i + size], force) < bound
            && References(keccak, children[..n + 1])
               == References(keccak, children[..n]) + TreeHash(keccak, TreeOf(data[i..i + size], force, forcing))
    ensures n + 1 == |Pieces(data, span)| <==> i + span >= |data|
  {
    hide TreeOf, TreesOf, Pieces, TreeHash, References;
    PieceAt(data, span, n);
    TreesAt(Pieces(data, span), force, forcing, bound, n);
    ReferencesSnoc(keccak, TreesOf(Pieces(data, span), force, forcing, bound), n);
    NextMultiple(n + 1, span);
  }

  /** The loop over the pieces of a chunk. */
  method HashPieces(keccak: Keccak, data: seq<byte>, span: nat, force: bool, ghost bound: nat)
      returns (references: seq<byte>)
    requires |data| <= MAX_DATA && span > 0
    requires AllBelow(Pieces(data, span), force, bound)
    ensures references == References(keccak, TreesOf(Pieces(data, span), force, true, bound))
    decreases bound, 0
  {
    PiecesAreSmall(data, span);
    ghost var pieces, children := Pieces(data, span), TreesOf(Pieces(data, span), force, true, bound);
    hide TreeOf, TreesOf, Pieces, TreeHash, References, AllBelow;
    references := [];
    NoReferences(keccak);
    assert Start(0, span) == 0;
    hide Start;
    var i := 0;
    ghost var n := 0;
    while i < |data|
      invariant i == Start(n, span) && n <= |pieces| && (n == |pieces| <==> i >= |data|)
      invariant references == References(keccak, children[..n])
      decreases |data| - i
    {
      PieceStep(keccak, data, span, force, true, bound, n, i);
      var size := if |data| - i < span then |data| - i else span;
      var reference := ChunkHash(keccak, data[i..i + size], force);
      references := references + reference;
      n := n + 1;
      i := i + span;
    }
    assert children[..n] == children;
  }

  lemma NoReferences(keccak: Keccak)
    ensures References(keccak, []) == []
  {
  }

  /** The newer hash; no data hashes to zero. */
  method Bzzr1Hash(keccak: Keccak, input: seq<byte>) returns (hash: Hash)
    requires |input| <= MAX_DATA
    ensures hash == if input == [] then Repeated(0, 32) else TreeHash(keccak, TreeOf(input, false, true))
  {
    if input == [] {
      return Repeated(0, 32);
    }
    hash := ChunkHash(keccak, input, false);
  }

  // -------------------------------------------------------- the older variant

  function OldTreeHash(keccak: Keccak, t: Tree): Hash {
    match t
    case Leaf(data) => keccak(ToLittleEndian(|data|) + data)
    case Node(size, _, children) => keccak(ToLittleEndian(size) + OldReferences(keccak, children))
  }

  function OldReferences(keccak: Keccak, ts: seq<Tree>): (r: seq<byte>)
    ensures |r| == 32 * |ts|
  {
    if ts == [] then [] else OldTreeHash(keccak, ts[0]) + OldReferences(keccak, ts[1..])
  }

  lemma {:induction false} OldReferencesSnoc(keccak: Keccak, ts: seq<Tree>, i: nat)
    requires i < |ts|
    ensures OldReferences(keccak, ts[..i + 1]) == OldReferences(keccak, ts[..i]) + OldTreeHash(keccak, ts[i])
    decreases i
  {
    hide OldTreeHash;
    if i > 0 {
      OldReferencesSnoc(keccak, ts[1..], i - 1);
      assert ts[..i + 1][1..] == ts[1..][..i] && ts[..i][1..] == ts[1..][..i - 1];
    } else {
      assert ts[..1][1..] == [];
    }
  }

  lemma OldPieceStep(keccak: Keccak, data: seq<byte>, span: nat, bound: nat, n: nat, i: nat)
    requires span > 0 && n < |Pieces(data, span)| && i == Start(n, span)
    requires AllBelow(Pieces(data, span), false, bound)
    ensures i < |data| && i + span == Start(n + 1, span)
    ensures var size := if |data| - i < span then |data| - i else span;
            var children := TreesOf(Pieces(data, span), false, false, bound);
            && Rank(data[i..i + size], false) < bound
            && OldReferences(keccak, children[..n + 1])
               == OldReferences(keccak, children[..n]) + OldTreeHash(keccak, TreeOf(data[i..i + size], false, false))
    ensures n + 1 == |Pieces(data, span)| <==> i + span >= |data|
  {
    hide TreeOf, TreesOf, Pieces, OldTreeHash, OldReferences;
    PieceAt(data, span, n);
    TreesAt(Pieces(data, span), false, false, bound, n);
    OldReferencesSnoc(keccak, TreesOf(Pieces(data, span), false, false, bound), n);
    NextMultiple(n + 1, span);
  }

  method SwarmHashIntermediate(keccak: Keccak, input: seq<byte>, offset: nat, length: nat) returns (hash: Hash)
    requires offset + length <= |input| && length <= MAX_DATA
    ensures hash == OldTreeHash(keccak, TreeOf(input[offset..offset + length], false, false))
    decreases 2 * length, 1
  {
    var ref;
    ghost var data := input[offset..offset + length];
    if length <= CHUNK {
      ref := input[offset..offset + length];
    } else {
      var maxRepresentedSize := MaxRepresentedSize(length);
      SpanFromIsSpan(0, length);
      PiecesAreSmall(data, maxRepresentedSize);
      ref := InnerNodes(keccak, input, offset, length, maxRepresentedSize);
    }
    hash := keccak(ToLittleEndian(length) + ref);
  }

  method InnerNodes(keccak: Keccak, input: seq<byte>, offset: nat, length: nat, span: nat)
      returns (innerNodes: seq<byte>)
    requires offset + length <= |input| && length <= MAX_DATA && span > 0
    requires AllBelow(Pieces(input[offset..offset + length], span), false, 2 * length)
    ensures innerNodes
            == OldReferences(keccak, TreesOf(Pieces(input[offset..offset + length], span), false, false, 2 * length))
    decreases 2 * length, 0
  {
    ghost var data := input[offset..offset + length];
    PiecesAreSmall(data, span);
    hide TreeOf, TreesOf, Pieces, OldTreeHash, OldReferences, AllBelow;
    ghost var pieces, children := Pieces(data, span), TreesOf(Pieces(data, span), false, false, 2 * length);
    innerNodes := [];
    NoOldReferences(keccak);
    assert Start(0, span) == 0;
    hide Start;
    var i := 0;
    ghost var n := 0;
    while i < length
      invariant i == Start(n, span) && n <= |pieces| && (n == |pieces| <==> i >= length)
      invariant innerNodes == OldReferences(keccak, children[..n])
      decreases length - i
    {
      OldPieceStep(keccak, data, span, 2 * length, n, i);
      var size := if length - i < span then length - i else span;
      SliceOfSlice(input, offset, length, i, size);
      var node := SwarmHashIntermediate(keccak, input, offset + i, size);
      innerNodes := innerNodes + node;
      n := n + 1;
      i := i + span;
    }
    assert children[..n] == children;
  }

  lemma SliceOfSlice(input: seq<byte>, offset: nat, length: nat, i: nat, size: nat)
    requires offset + length <= |input| && i + size <= length
    ensures input[offset..offset + length][i..i + size] == input[offset + i..offset + i + size]
  {
    var a, b := input[offset..offset + length][i..i + size], input[offset + i..offset + i + size];
    assert |a| == |b|;
    forall k | 0 <= k < size ensures a[k] == b[k] {
      assert a[k] == input[offset..offset + length][i + k];
    }
  }

  lemma NoOldReferences(keccak: Keccak)
    ensures OldReferences(keccak, []) == []
  {
  }

  method Bzzr0Hash(keccak: Keccak, input: seq<byte>) returns (hash: Hash)
    requires |input| <= MAX_DATA
    ensures hash == OldTreeHash(keccak, TreeOf(input, false, false))
  {
    assert input[0..0 + |input|] == input;
    hash := SwarmHashIntermediate(keccak, input, 0, |input|);
  }
}
