/** SSZ Merkleization: the host code that builds roots and branches, the circuit code that
    checks them, and what a root says about the header it was built from. */
module Ssz {
  import opened ByteStrings
  import opened MerkleTree

  // ---------- Leaves ----------

  function ZeroLeaves(k: nat): (r: seq<Digest>)
    ensures |r| == k
  {
    if k == 0 then [] else [ZERO_DIGEST] + ZeroLeaves(k - 1)
  }

  /** At most 32 bytes, zero-padded on the right. */
  function PadRight(data: Bytes): Digest
    requires |data| <= 32
  {
    Digest(data + Repeat(0, 32 - |data|))
  }

  /** `uint64_leaf` */
  function Uint64Leaf(v: U64): Digest {
    PadRight(Le(v, 8))
  }

  /** `data.chunks(32)`, each zero-padded to a leaf. */
  function Chunks(data: Bytes): (r: seq<Digest>)
    ensures 32 * |r| < |data| + 32
    ensures |data| <= 32 * |r|
    decreases |data|
  {
    if |data| == 0 then []
    else if |data| <= 32 then [PadRight(data)]
    else [PadRight(data[..32])] + Chunks(data[32..])
  }

  /** A u64 leaf is eight little-endian bytes and 24 zeros. */
  lemma Uint64LeafInBytes(v: U64)
    ensures Uint64Leaf(v).bytes ==
      [v % 256, v / 0x100 % 256, v / 0x1_0000 % 256, v / 0x100_0000 % 256, v / 0x1_0000_0000 % 256,
       v / 0x100_0000_0000 % 256, v / 0x1_0000_0000_0000 % 256, v / 0x100_0000_0000_0000 % 256] + Repeat(0, 24)
  {
    Le64InBytes(v);
    hide Le, Repeat;
  }

  /** Byte j of the data is byte j mod 32 of chunk j / 32; the last chunk ends in zeros. */
  lemma {:induction false} ChunkBytes(data: Bytes, j: nat)
    requires j < 32 * |Chunks(data)|
    ensures Chunks(data)[j / 32].bytes[j % 32] == if j < |data| then data[j] else 0
    decreases |data|
  {
    if |data| > 32 {
      assert Chunks(data)[1..] == Chunks(data[32..]);
      if j >= 32 {
        ChunkBytes(data[32..], j - 32);
        assert j / 32 == (j - 32) / 32 + 1 && j % 32 == (j - 32) % 32;
      }
    }
  }

  lemma PadRightInjective(a: Bytes, b: Bytes)
    requires |a| == |b| <= 32 && PadRight(a) == PadRight(b)
    ensures a == b
  {
    assert a == PadRight(a).bytes[..|a|] && b == PadRight(b).bytes[..|b|];
  }

  lemma Uint64LeafInjective(a: U64, b: U64)
    requires Uint64Leaf(a) == Uint64Leaf(b)
    ensures a == b
  {
    PadRightInjective(Le(a, 8), Le(b, 8));
    Le64Injective(a, b);
  }

  lemma {:induction false} ChunksInjective(a: Bytes, b: Bytes)
    requires |a| == |b| && Chunks(a) == Chunks(b)
    ensures a == b
    decreases |a|
  {
    if 0 < |a| <= 32 {
      assert Chunks(a)[0] == PadRight(a) && Chunks(b)[0] == PadRight(b);
      PadRightInjective(a, b);
    } else if |a| > 32 {
      assert Chunks(a)[0] == PadRight(a[..32]) && Chunks(b)[0] == PadRight(b[..32]);
      PadRightInjective(a[..32], b[..32]);
      assert Chunks(a)[1..] == Chunks(a[32..]) && Chunks(b)[1..] == Chunks(b[32..]);
      ChunksInjective(a[32..], b[32..]);
      assert a == a[..32] + a[32..] && b == b[..32] + b[32..];
    }
  }

  lemma ChunksStep(data: Bytes, offset: nat, take: nat)
    requires offset < |data| && take == (if |data| - offset < 32 then |data| - offset else 32)
    ensures Chunks(data[offset..]) == [PadRight(data[offset..offset + take])] + Chunks(data[offset + take..])
  {
    var rest := data[offset..];
    assert rest[..take] == data[offset..offset + take] && rest[take..] == data[offset + take..];
    if |rest| <= 32 {
      assert rest[..take] == rest && rest[take..] == [];
    }
  }

  method SplitChunks(data: Bytes) returns (leaves: seq<Digest>)
    ensures leaves == Chunks(data)
  {
    leaves := [];
    var offset := 0;
    while offset < |data|
      invariant 0 <= offset <= |data|
      invariant leaves + Chunks(data[offset..]) == Chunks(data)
    {
      var take := if |data| - offset < 32 then |data| - offset else 32;
      ChunksStep(data, offset, take);
      leaves := leaves + [PadRight(data[offset..offset + take])];
      offset := offset + take;
    }
  }

  // ---------- Roots and branches ----------

  /** `merkle_root_vec`, which asserts that its input is a power of two of leaves. */
  method MerkleRootVec(sha: HashFn, leaves: seq<Digest>, ghost d: nat) returns (root: Digest)
    requires |leaves| == Pow2(d)
    ensures root == Root(PairScheme(sha), leaves, d)
  {
    hide NodeAt;
    var level := leaves;
    ghost var l: nat := 0;
    LeavesAreLevelZero(PairScheme(sha), leaves);
    while |level| > 1
      invariant l <= d && |level| == Pow2(d - l) && IsLevel(PairScheme(sha), leaves, l, level)
      decreases |level|
    {
      assert Pow2(d - l) == 2 * Pow2(d - (l + 1));
      level := HashPairs(PairScheme(sha), level, leaves, l);
      l := l + 1;
    }
    root := level[0];
  }

  /** `merkle_branch_32`, for 2^d leaves: it takes the sibling and then hashes the whole
      level, d times. The source has d = 5. */
  method MerkleBranch(sha: HashFn, leaves: seq<Digest>, d: nat, leafIndex: nat) returns (branch: seq<Digest>)
    requires |leaves| == Pow2(d) && leafIndex < |leaves|
    ensures branch == Siblings(PairScheme(sha), leaves, 0, leafIndex, d)
  {
    hide NodeAt, Siblings, IsLevel;
    ghost var honest := Siblings(PairScheme(sha), leaves, 0, leafIndex, d);
    var level := leaves;
    var idx := leafIndex;
    branch := [];
    LeavesAreLevelZero(PairScheme(sha), leaves);
    assert Shr(leafIndex, 0) == leafIndex;
    hide Pow2, Shr;
    for depth := 0 to d
      invariant |level| == Pow2(d - depth) && IsLevel(PairScheme(sha), leaves, depth, level)
      invariant idx == Shr(leafIndex, depth) < |level|
      invariant branch == honest[..depth]
    {
      LevelSibling(PairScheme(sha), leaves, level, d, depth, leafIndex);
      var sibling := if idx % 2 == 0 then idx + 1 else idx - 1;
      branch := branch + [level[sibling]];
      level := HashPairs(PairScheme(sha), level, leaves, depth);
      idx := idx / 2;
    }
  }

  predicate BranchAccepted(sha: HashFn, leaf: Digest, branch: seq<Digest>, depth: nat, leafIndex: U64, root: Digest) {
    |branch| == depth && PathRoot(PairScheme(sha), leaf, leafIndex, branch) == root
  }

  /** The bit a release build reads at level i: it shifts a u64 by the level modulo 64. */
  function LevelBit(leafIndex: U64, i: nat): nat {
    Shr(leafIndex, i % 64) % 2
  }

  /** It is the index bit of weight 2^(i mod 64), so a longer branch starts over at bit 0. */
  lemma LevelBitInIndex(leafIndex: U64, i: nat)
    ensures LevelBit(leafIndex, i) == leafIndex / Pow2(i % 64) % 2
  {
    ShrIsDivision(leafIndex, i % 64);
    hide Shr, Pow2;
  }

  /** The number whose n bits are those read from level i on. */
  function MaskedBits(leafIndex: U64, i: nat, n: nat): nat
    decreases n
  {
    if n == 0 then 0 else LevelBit(leafIndex, i) + 2 * MaskedBits(leafIndex, i + 1, n - 1)
  }

  lemma LowBit(leafIndex: U64, i: nat, n: nat)
    requires n > 0
    ensures MaskedBits(leafIndex, i, n) % 2 == LevelBit(leafIndex, i)
    ensures MaskedBits(leafIndex, i, n) / 2 == MaskedBits(leafIndex, i + 1, n - 1)
  {
    hide Shr;
    HalfOfSum(MaskedBits(leafIndex, i, n), MaskedBits(leafIndex, i + 1, n - 1), LevelBit(leafIndex, i));
  }

  /** Two indices with one low bit have one parent. */
  lemma OneLevel(s: Scheme, c: Digest, i: nat, j: nat, branch: seq<Digest>)
    requires |branch| > 0 && i % 2 == j % 2
    ensures PathRoot(s, c, i, branch) == PathRoot(s, Parent(s, c, j, branch[0]), i / 2, branch[1..])
    ensures PathRoot(s, c, j, branch) == PathRoot(s, Parent(s, c, j, branch[0]), j / 2, branch[1..])
  {
  }

  /** Up to level 64 these are the bits of the index itself. */
  lemma {:induction false} MaskedBitsAreIndexBits(s: Scheme, c: Digest, leafIndex: U64, i: nat, branch: seq<Digest>)
    requires i + |branch| <= 64
    ensures PathRoot(s, c, MaskedBits(leafIndex, i, |branch|), branch) == PathRoot(s, c, Shr(leafIndex, i), branch)
    decreases |branch|
  {
    if |branch| > 0 {
      LowBit(leafIndex, i, |branch|);
      ShrStep(leafIndex, i);
      OneLevel(s, c, MaskedBits(leafIndex, i, |branch|), Shr(leafIndex, i), branch);
      hide Shr, MaskedBits, PathRoot, Parent;
      MaskedBitsAreIndexBits(s, Parent(s, c, Shr(leafIndex, i), branch[0]), leafIndex, i + 1, branch[1..]);
    }
  }

  /** One level of the circuit's loop is one level of the path. */
  lemma LevelRead(s: Scheme, c: Digest, leafIndex: U64, i: nat, branch: seq<Digest>)
    requires |branch| > 0
    ensures
      PathRoot(s, c, MaskedBits(leafIndex, i, |branch|), branch)
      == PathRoot(s, if LevelBit(leafIndex, i) == 1 then s.Node(branch[0], c) else s.Node(c, branch[0]),
                  MaskedBits(leafIndex, i + 1, |branch| - 1), branch[1..])
  {
    LowBit(leafIndex, i, |branch|);
    OneLevel(s, c, MaskedBits(leafIndex, i, |branch|), LevelBit(leafIndex, i), branch);
    hide LevelBit, MaskedBits, PathRoot;
  }

  lemma NoLevels(s: Scheme, c: Digest, i: nat)
    ensures forall j: nat :: PathRoot(s, c, j, []) == c
    ensures Shr(i, 0) == i
  {
  }

  /** `verify_merkle_branch`: at most 64 levels decide acceptance by the index, more read its
      bits over again. */
  method VerifyMerkleBranch(sha: HashFn, leaf: Digest, branch: seq<Digest>, depth: nat, leafIndex: U64, root: Digest)
    returns (ok: bool)
    ensures ok <==>
      |branch| == depth && PathRoot(PairScheme(sha), leaf, MaskedBits(leafIndex, 0, depth), branch) == root
    ensures depth <= 64 ==> (ok <==> BranchAccepted(sha, leaf, branch, depth, leafIndex, root))
  {
    if |branch| != depth {
      return false;
    }
    var value := FoldBranch(PairScheme(sha), leaf, branch, leafIndex);
    hide PathRoot, MaskedBits, Shr;
    if depth <= 64 {
      MaskedBitsAreIndexBits(PairScheme(sha), leaf, leafIndex, 0, branch);
      NoLevels(PairScheme(sha), leaf, leafIndex);
    }
    return value == root;
  }

  /** Its loop. */
  method FoldBranch(s: Scheme, leaf: Digest, branch: seq<Digest>, leafIndex: U64) returns (value: Digest)
    ensures value == PathRoot(s, leaf, MaskedBits(leafIndex, 0, |branch|), branch)
  {
    hide *;
    value := leaf;
    ghost var rest := branch;
    for i := 0 to |branch|
      invariant rest == branch[i..]
      invariant PathRoot(s, value, MaskedBits(leafIndex, i, |rest|), rest)
             == PathRoot(s, leaf, MaskedBits(leafIndex, 0, |branch|), branch)
    {
      LevelRead(s, value, leafIndex, i, rest);
      rest := rest[1..];
      value := if LevelBit(leafIndex, i) == 1 then s.Node(branch[i], value) else s.Node(value, branch[i]);
    }
    NoLevels(s, value, leafIndex);
  }

  /** Host and circuit agree: the branch the host computes is accepted against its root. */
  lemma HostBranchIsAccepted(sha: HashFn, leaves: seq<Digest>, d: nat, i: U64)
    requires |leaves| == Pow2(d) && i < |leaves|
    ensures BranchAccepted(sha, leaves[i], Siblings(PairScheme(sha), leaves, 0, i, d), d, i,
      Root(PairScheme(sha), leaves, d))
  {
    HonestPathAccepted(PairScheme(sha), leaves, d, i);
  }

  /** And conversely: whatever branch is accepted, the leaf is the one at that index. */
  lemma AcceptedLeafIsAtIndex(sha: HashFn, leaves: seq<Digest>, d: nat, leaf: Digest, branch: seq<Digest>, i: U64)
    requires |leaves| == Pow2(d) && i < |leaves|
    requires BranchAccepted(sha, leaf, branch, d, i, Root(PairScheme(sha), leaves, d))
    ensures
      || (leaf == leaves[i] && branch == Siblings(PairScheme(sha), leaves, 0, i, d))
      || Collision(sha, PathCollision(PairScheme(sha), leaves, 0, leaf, i, branch))
  {
    hide PathRoot, Siblings, PathCollision;
    AcceptedPathIsHonest(PairScheme(sha), leaves, leaf, i, branch);
    ModUnique(i, Pow2(d), 0, i);
  }

  // ---------- Byte vectors and byte lists ----------

  /** `hash_tree_root` of a byte vector of 2^d chunks. */
  function BytesVectorRoot(sha: HashFn, data: Bytes, d: nat): Digest {
    Root(PairScheme(sha), Chunks(data), d)
  }

  /** `hash_tree_root` of a byte list: the chunk root with the length mixed in. */
  function ByteListRoot(sha: HashFn, data: Bytes, maxChunks: nat): Digest
    requires |data| < U64_MOD
  {
    PairScheme(sha).Node(BytesVectorRoot(sha, data, Log2Ceil(maxChunks)), Uint64Leaf(|data|))
  }

  /** The length leaf is hashed after the chunk root. */
  lemma ByteListRootInBytes(sha: HashFn, data: Bytes, maxChunks: nat)
    requires |data| < U64_MOD
    ensures ByteListRoot(sha, data, maxChunks)
      == sha(Root(PairScheme(sha), Chunks(data), Log2Ceil(maxChunks)).bytes + Uint64Leaf(|data|).bytes)
  {
    var r: Bytes := Root(PairScheme(sha), Chunks(data), Log2Ceil(maxChunks)).bytes;
    assert [] + r == r;
  }

  function ByteListCollision(sha: HashFn, a: Bytes, b: Bytes, maxChunks: nat): (Bytes, Bytes)
    requires |a| <= 32 * maxChunks && |b| <= 32 * maxChunks && |a| < U64_MOD && |b| < U64_MOD
  {
    var s, d := PairScheme(sha), Log2Ceil(maxChunks);
    var mixed := (s.Input(BytesVectorRoot(sha, a, d), Uint64Leaf(|a|)),
      s.Input(BytesVectorRoot(sha, b, d), Uint64Leaf(|b|)));
    if Collision(sha, mixed) then mixed else RootCollision(s, Chunks(a), Chunks(b), d, 0)
  }

  /** The length mix-in makes a list root bind contents and length together. */
  lemma ByteListRootBinds(sha: HashFn, a: Bytes, b: Bytes, maxChunks: nat)
    requires |a| <= 32 * maxChunks && |b| <= 32 * maxChunks && |a| < U64_MOD && |b| < U64_MOD
    requires ByteListRoot(sha, a, maxChunks) == ByteListRoot(sha, b, maxChunks)
    ensures a == b || Collision(sha, ByteListCollision(sha, a, b, maxChunks))
  {
    hide NodeAt, Chunks, RootCollision, PadRight, Log2Ceil;
    var s, d := PairScheme(sha), Log2Ceil(maxChunks);
    if !Collision(sha, ByteListCollision(sha, a, b, maxChunks)) {
      s.InputInjective(BytesVectorRoot(sha, a, d), Uint64Leaf(|a|), BytesVectorRoot(sha, b, d), Uint64Leaf(|b|));
      Uint64LeafInjective(|a|, |b|);
      VectorRootBinds(sha, a, b, d);
    }
  }

  lemma VectorRootBinds(sha: HashFn, a: Bytes, b: Bytes, d: nat)
    requires |a| == |b| <= 32 * Pow2(d)
    requires BytesVectorRoot(sha, a, d) == BytesVectorRoot(sha, b, d)
    ensures a == b || Collision(sha, RootCollision(PairScheme(sha), Chunks(a), Chunks(b), d, 0))
  {
    hide NodeAt, Chunks, RootCollision;
    RootBindsLeaves(PairScheme(sha), Chunks(a), Chunks(b), d);
    if Chunks(a) == Chunks(b) {
      ChunksInjective(a, b);
    }
  }

  // ---------- ExecutionPayloadHeader ----------

  /** A decoded header. Lengths are as the API sent them. */
  datatype ExecHeader = ExecHeader(
    parentHash: Digest, feeRecipient: Bytes, stateRoot: Digest, receiptsRoot: Digest,
    logsBloom: Bytes, prevRandao: Digest, blockNumber: U64, gasLimit: U64, gasUsed: U64, timestamp: U64,
    extraData: Bytes, baseFeePerGas: Digest, blockHash: Digest, transactionsRoot: Digest, withdrawalsRoot: Digest,
    blobGasUsed: U64, excessBlobGas: U64)

  datatype SszError = BadFeeRecipient | BadLogsBloom | BadExtraData

  predicate WellFormed(e: ExecHeader) {
    |e.feeRecipient| == 20 && |e.logsBloom| == 256 && |e.extraData| <= 32
  }

  const BLOCK_HASH_INDEX: nat := 12

  function PayloadLeaves(sha: HashFn, e: ExecHeader): (r: seq<Digest>)
    requires WellFormed(e)
    ensures |r| == 32
  {
    [e.parentHash, PadRight(e.feeRecipient), e.stateRoot, e.receiptsRoot]
    + [BytesVectorRoot(sha, e.logsBloom, 3), e.prevRandao, Uint64Leaf(e.blockNumber), Uint64Leaf(e.gasLimit)]
    + [Uint64Leaf(e.gasUsed), Uint64Leaf(e.timestamp), ByteListRoot(sha, e.extraData, 1), e.baseFeePerGas]
    + [e.blockHash, e.transactionsRoot, e.withdrawalsRoot, Uint64Leaf(e.blobGasUsed)]
    + [Uint64Leaf(e.excessBlobGas)] + ZeroLeaves(15)
  }

  function PayloadRoot(sha: HashFn, e: ExecHeader): Digest
    requires WellFormed(e)
  {
    Root(PairScheme(sha), PayloadLeaves(sha, e), 5)
  }

  /** `ssz_bytes_vector_root`, for 2^d chunks; 256 bytes make 8. */
  method SszBytesVectorRoot(sha: HashFn, data: Bytes, ghost d: nat) returns (root: Digest)
    requires |Chunks(data)| == Pow2(d)
    ensures root == BytesVectorRoot(sha, data, d)
  {
    var leaves := SplitChunks(data);
    root := MerkleRootVec(sha, leaves, d);
  }

  /** `ssz_byte_list_root`: chunks past the end of the leaf buffer are dropped, and so they
      are in a tree of that depth. */
  method SszByteListRoot(sha: HashFn, data: Bytes, maxChunks: nat) returns (root: Digest)
    requires |data| < U64_MOD
    ensures root == ByteListRoot(sha, data, maxChunks)
  {
    hide NodeAt, Chunks, Log2Ceil, Uint64Leaf, PadRight;
    var d := Log2Ceil(maxChunks);
    var chunks := SplitChunks(data);
    var leaves := CopyChunks(chunks, Pow2(d));
    var chunkRoot := MerkleRootVec(sha, leaves, d);
    assert 0 * Pow2(d) == 0 && SameRun(PairScheme(sha), leaves, 0, chunks, 0, Pow2(d));
    SameBelow(PairScheme(sha), leaves, 0, chunks, 0, d);
    root := PairScheme(sha).Node(chunkRoot, Uint64Leaf(|data|));
  }

  /** Copies chunks into a zeroed buffer as far as it reaches. */
  method CopyChunks(chunks: seq<Digest>, size: nat) returns (leaves: seq<Digest>)
    ensures |leaves| == size
    ensures forall k: nat :: k < size ==> leaves[k] == if k < |chunks| then chunks[k] else ZERO_DIGEST
  {
    leaves := ZeroLeaves(size);
    ZeroLeavesAreZero(size);
    for i := 0 to |chunks|
      invariant |leaves| == size
      invariant forall k: nat :: k < size ==> leaves[k] == if k < i then chunks[k] else ZERO_DIGEST
    {
      if i < |leaves| {
        leaves := leaves[i := chunks[i]];
      }
    }
  }

  lemma {:induction false} ZeroLeavesAreZero(k: nat)
    ensures forall i :: 0 <= i < k ==> ZeroLeaves(k)[i] == ZERO_DIGEST
  {
    if k > 0 {
      ZeroLeavesAreZero(k - 1);
    }
  }

  /** The 32-leaf buffer, overwritten field by field; leaves 17 to 31 stay zero. */
  method FillLeaves(sha: HashFn, e: ExecHeader, bloom: Digest, extra: Digest) returns (leaves: seq<Digest>)
    requires WellFormed(e)
    requires bloom == BytesVectorRoot(sha, e.logsBloom, 3) && extra == ByteListRoot(sha, e.extraData, 1)
    ensures leaves == PayloadLeaves(sha, e)
  {
    hide BytesVectorRoot, ByteListRoot, PadRight, Uint64Leaf, ZeroLeaves;
    leaves := ZeroLeaves(32);
    assert leaves == [] + ZeroLeaves(32);
    leaves := FillFour(leaves, [], 28, e.parentHash, PadRight(e.feeRecipient), e.stateRoot, e.receiptsRoot);
    ghost var front := leaves[..4];
    leaves := FillFour(leaves, front, 24, bloom, e.prevRandao, Uint64Leaf(e.blockNumber), Uint64Leaf(e.gasLimit));
    front := leaves[..8];
    leaves := FillFour(leaves, front, 20, Uint64Leaf(e.gasUsed), Uint64Leaf(e.timestamp), extra, e.baseFeePerGas);
    front := leaves[..12];
    leaves := FillFour(leaves, front, 16, e.blockHash, e.transactionsRoot, e.withdrawalsRoot,
      Uint64Leaf(e.blobGasUsed));
    front := leaves[..16];
    leaves := FillOne(leaves, front, 15, Uint64Leaf(e.excessBlobGas));
  }

  /** Overwrites the first zero leaf; `front` is filled already and k + 1 leaves are not. */
  method FillOne(leaves: seq<Digest>, ghost front: seq<Digest>, k: nat, a: Digest) returns (r: seq<Digest>)
    requires leaves == front + ZeroLeaves(k + 1)
    ensures r == front + [a] + ZeroLeaves(k)
  {
    r := leaves[|leaves| - (k + 1) := a];
  }

  method FillFour(leaves: seq<Digest>, ghost front: seq<Digest>, k: nat, a: Digest, b: Digest, c: Digest, d: Digest)
    returns (r: seq<Digest>)
    requires leaves == front + ZeroLeaves(k + 4)
    ensures r == front + [a, b, c, d] + ZeroLeaves(k)
    ensures |r| == |leaves| && r[..|front| + 4] == front + [a, b, c, d]
  {
    hide ZeroLeaves;
    r := FillOne(leaves, front, k + 3, a);
    r := FillOne(r, front + [a], k + 2, b);
    r := FillOne(r, front + [a] + [b], k + 1, c);
    r := FillOne(r, front + [a] + [b] + [c], k, d);
    FourInRow(front, a, b, c, d, ZeroLeaves(k));
  }

  lemma FourInRow(front: seq<Digest>, a: Digest, b: Digest, c: Digest, d: Digest, rest: seq<Digest>)
    ensures front + [a] + [b] + [c] + [d] == front + [a, b, c, d]
    ensures (front + [a, b, c, d] + rest)[..|front| + 4] == front + [a, b, c, d]
  {
  }

  /** `ssz_execution_payload_root`: fills a 32-leaf buffer field by field. */
  method SszExecutionPayloadRoot(sha: HashFn, e: ExecHeader) returns (r: Result<(Digest, seq<Digest>), SszError>)
    ensures r.Ok? <==> |e.feeRecipient| == 20 && |e.logsBloom| == 256 && |e.extraData| <= 32
    ensures r.Err? ==>
      r.error == (if |e.feeRecipient| != 20 then BadFeeRecipient
                  else if |e.logsBloom| != 256 then BadLogsBloom else BadExtraData)
    ensures r.Ok? ==> r.value == (PayloadRoot(sha, e), PayloadLeaves(sha, e))
  {
    if |e.feeRecipient| != 20 {
      return Err(BadFeeRecipient);
    }
    if |e.logsBloom| != 256 {
      return Err(BadLogsBloom);
    }
    if |e.extraData| > 32 {
      return Err(BadExtraData);
    }
    var bloom := SszBytesVectorRoot(sha, e.logsBloom, 3);
    var extra := SszByteListRoot(sha, e.extraData, 1);
    var leaves := FillLeaves(sha, e, bloom, extra);
    assert Pow2(5) == 32;
    var root := MerkleRootVec(sha, leaves, 5);
    return Ok((root, leaves));
  }

  // ---------- What the payload root binds ----------

  /** The 17 fields in the order of the Deneb header, then zeros. */
  lemma PayloadLeafAt(sha: HashFn, e: ExecHeader)
    requires WellFormed(e)
    ensures
      var leaves := PayloadLeaves(sha, e);
      && leaves[0] == e.parentHash && leaves[1] == PadRight(e.feeRecipient)
      && leaves[2] == e.stateRoot && leaves[3] == e.receiptsRoot
      && leaves[4] == BytesVectorRoot(sha, e.logsBloom, 3) && leaves[5] == e.prevRandao
      && leaves[6] == Uint64Leaf(e.blockNumber) && leaves[7] == Uint64Leaf(e.gasLimit)
      && leaves[8] == Uint64Leaf(e.gasUsed) && leaves[9] == Uint64Leaf(e.timestamp)
      && leaves[10] == ByteListRoot(sha, e.extraData, 1) && leaves[11] == e.baseFeePerGas
      && leaves[12] == e.blockHash && leaves[13] == e.transactionsRoot && leaves[14] == e.withdrawalsRoot
      && leaves[15] == Uint64Leaf(e.blobGasUsed) && leaves[16] == Uint64Leaf(e.excessBlobGas)
  {
    hide BytesVectorRoot, ByteListRoot, PadRight, Uint64Leaf, ZeroLeaves;
  }

  lemma PayloadPadding(sha: HashFn, e: ExecHeader, k: nat)
    requires WellFormed(e) && 17 <= k < 32
    ensures PayloadLeaves(sha, e)[k] == ZERO_DIGEST
  {
    ZeroLeavesAreZero(15);
    hide BytesVectorRoot, ByteListRoot, PadRight, Uint64Leaf, ZeroLeaves;
    assert PayloadLeaves(sha, e)[k] == ZeroLeaves(15)[k - 17];
  }

  /** The collision two different headers with one root contain. */
  function PayloadCollision(sha: HashFn, a: ExecHeader, b: ExecHeader): (Bytes, Bytes)
    requires WellFormed(a) && WellFormed(b)
  {
    var s := PairScheme(sha);
    var inTree := RootCollision(s, PayloadLeaves(sha, a), PayloadLeaves(sha, b), 5, 0);
    var inBloom := RootCollision(s, Chunks(a.logsBloom), Chunks(b.logsBloom), 3, 0);
    if Collision(sha, inTree) then inTree
    else if Collision(sha, inBloom) then inBloom
    else ByteListCollision(sha, a.extraData, b.extraData, 1)
  }

  /** The payload root binds all 17 fields of the header. */
  lemma PayloadRootBinds(sha: HashFn, a: ExecHeader, b: ExecHeader)
    requires WellFormed(a) && WellFormed(b)
    requires PayloadRoot(sha, a) == PayloadRoot(sha, b)
    ensures a == b || Collision(sha, PayloadCollision(sha, a, b))
  {
    hide NodeAt, Chunks, RootCollision, PayloadLeaves, BytesVectorRoot, ByteListRoot, ByteListCollision, PadRight,
      Uint64Leaf;
    if !Collision(sha, PayloadCollision(sha, a, b)) {
      assert Pow2(5) == 32;
      RootBindsLeaves(PairScheme(sha), PayloadLeaves(sha, a), PayloadLeaves(sha, b), 5);
      PayloadLeafAt(sha, a);
      PayloadLeafAt(sha, b);
      PadRightInjective(a.feeRecipient, b.feeRecipient);
      assert Pow2(3) == 8;
      VectorRootBinds(sha, a.logsBloom, b.logsBloom, 3);
      ByteListRootBinds(sha, a.extraData, b.extraData, 1);
      Uint64LeafInjective(a.blockNumber, b.blockNumber);
      Uint64LeafInjective(a.gasLimit, b.gasLimit);
      Uint64LeafInjective(a.gasUsed, b.gasUsed);
      Uint64LeafInjective(a.timestamp, b.timestamp);
      Uint64LeafInjective(a.blobGasUsed, b.blobGasUsed);
      Uint64LeafInjective(a.excessBlobGas, b.excessBlobGas);
    }
  }

  // ---------- The execution part of the Helios witness ----------

  datatype ExecWitness = ExecWitness(payloadRoot: Digest, toHashBranch: seq<Digest>, blockHash: Digest)

  /** The circuit's check that the block hash sits in the payload. */
  predicate BlockHashProven(sha: HashFn, w: ExecWitness) {
    BranchAccepted(sha, w.blockHash, w.toHashBranch, 5, BLOCK_HASH_INDEX, w.payloadRoot)
  }

  /** The payload part of `build_helios_witness`: every witness it builds passes the check. */
  method BuildExecWitness(sha: HashFn, e: ExecHeader) returns (r: Result<ExecWitness, SszError>)
    ensures r.Ok? <==> WellFormed(e)
    ensures r.Ok? ==> r.value.payloadRoot == PayloadRoot(sha, e) && r.value.blockHash == e.blockHash
    ensures r.Ok? ==> BlockHashProven(sha, r.value)
  {
    hide NodeAt, Siblings, PathRoot, PayloadLeaves;
    var built := SszExecutionPayloadRoot(sha, e);
    if built.Err? {
      return Err(built.error);
    }
    assert Pow2(5) == 32;
    var branch := MerkleBranch(sha, built.value.1, 5, BLOCK_HASH_INDEX);
    PayloadLeafAt(sha, e);
    HostBranchIsAccepted(sha, built.value.1, 5, BLOCK_HASH_INDEX);
    return Ok(ExecWitness(built.value.0, branch, e.blockHash));
  }

  /** And whatever witness passes against a header's payload root carries that header's
      block hash. */
  lemma ProvenBlockHashIsInHeader(sha: HashFn, e: ExecHeader, w: ExecWitness)
    requires WellFormed(e) && w.payloadRoot == PayloadRoot(sha, e) && BlockHashProven(sha, w)
    ensures
      || w.blockHash == e.blockHash
      || Collision(sha, PathCollision(PairScheme(sha), PayloadLeaves(sha, e), 0, w.blockHash, BLOCK_HASH_INDEX,
           w.toHashBranch))
  {
    hide NodeAt, Siblings, PathRoot, PayloadLeaves, PathCollision;
    assert Pow2(5) == 32;
    AcceptedLeafIsAtIndex(sha, PayloadLeaves(sha, e), 5, w.blockHash, w.toHashBranch, BLOCK_HASH_INDEX);
    PayloadLeafAt(sha, e);
  }

  // ---------- BeaconBlockHeader ----------

  datatype BeaconHeader = BeaconHeader(
    slot: U64, proposerIndex: U64, parentRoot: Digest, stateRoot: Digest, bodyRoot: Digest)

  function HeaderLeaves(h: BeaconHeader): (r: seq<Digest>)
    ensures |r| == 8
  {
    [Uint64Leaf(h.slot), Uint64Leaf(h.proposerIndex), h.parentRoot, h.stateRoot, h.bodyRoot] + ZeroLeaves(3)
  }

  /** The header's root, hash by hash: slot and proposer as little-endian leaves, the three
      roots, and three zero leaves. */
  lemma HeaderRootInBytes(sha: HashFn, h: BeaconHeader)
    ensures
      var zero := ZERO_DIGEST.bytes;
      var n0 := sha(Uint64Leaf(h.slot).bytes + Uint64Leaf(h.proposerIndex).bytes);
      var n1 := sha(h.parentRoot.bytes + h.stateRoot.bytes);
      var n2 := sha(h.bodyRoot.bytes + zero);
      var n3 := sha(zero + zero);
      Root(PairScheme(sha), HeaderLeaves(h), 3) == sha(sha(n0.bytes + n1.bytes).bytes + sha(n2.bytes + n3.bytes).bytes)
  {
    hide Uint64Leaf, NodeAt;
    MerkleRoot8IsRoot(sha, HeaderLeaves(h));
    ZeroLeavesAreZero(3);
    PairNodeInBytes(sha);
  }

  lemma PairNodeInBytes(sha: HashFn)
    ensures forall l, r :: PairScheme(sha).Node(l, r) == sha(l.bytes + r.bytes)
  {
    forall l, r ensures PairScheme(sha).Node(l, r) == sha(l.bytes + r.bytes) {
      TwoLeafRoot(sha, l, r);
      var a: Bytes := l.bytes;
      assert [] + a == a;
    }
  }

  /** `merkle_root_8` */
  function MerkleRoot8(sha: HashFn, leaves: seq<Digest>): Digest
    requires |leaves| == 8
  {
    var s := PairScheme(sha);
    var n0 := s.Node(leaves[0], leaves[1]);
    var n1 := s.Node(leaves[2], leaves[3]);
    var n2 := s.Node(leaves[4], leaves[5]);
    var n3 := s.Node(leaves[6], leaves[7]);
    var m0 := s.Node(n0, n1);
    var m1 := s.Node(n2, n3);
    s.Node(m0, m1)
  }

  /** The circuit's fixed tree is the depth-3 SSZ tree. */
  lemma MerkleRoot8IsRoot(sha: HashFn, leaves: seq<Digest>)
    requires |leaves| == 8
    ensures MerkleRoot8(sha, leaves) == Root(PairScheme(sha), leaves, 3)
  {
    var s := PairScheme(sha);
    forall j: nat | j < 4 ensures NodeAt(s, leaves, 1, j) == s.Node(leaves[2 * j], leaves[2 * j + 1]) {
      assert NodeAt(s, leaves, 0, 2 * j) == leaves[2 * j] && NodeAt(s, leaves, 0, 2 * j + 1) == leaves[2 * j + 1];
    }
    forall j: nat | j < 2
      ensures NodeAt(s, leaves, 2, j) == s.Node(NodeAt(s, leaves, 1, 2 * j), NodeAt(s, leaves, 1, 2 * j + 1))
    {
    }
    assert NodeAt(s, leaves, 3, 0) == s.Node(NodeAt(s, leaves, 2, 0), NodeAt(s, leaves, 2, 1));
  }

  /** `hash_tree_root_beacon_header` */
  method HashTreeRootBeaconHeader(sha: HashFn, h: BeaconHeader) returns (root: Digest)
    ensures root == Root(PairScheme(sha), HeaderLeaves(h), 3)
  {
    var leaves := ZeroLeaves(8);
    leaves := leaves[0 := Uint64Leaf(h.slot)];
    leaves := leaves[1 := Uint64Leaf(h.proposerIndex)];
    leaves := leaves[2 := h.parentRoot];
    leaves := leaves[3 := h.stateRoot];
    leaves := leaves[4 := h.bodyRoot];
    ZeroLeavesAreZero(8);
    ZeroLeavesAreZero(3);
    hide Uint64Leaf, ZeroLeaves, NodeAt;
    assert leaves == HeaderLeaves(h);
    root := MerkleRoot8(sha, leaves);
    MerkleRoot8IsRoot(sha, leaves);
  }

  /** A beacon root binds slot, proposer and all three roots. */
  lemma BeaconRootBinds(sha: HashFn, a: BeaconHeader, b: BeaconHeader)
    requires Root(PairScheme(sha), HeaderLeaves(a), 3) == Root(PairScheme(sha), HeaderLeaves(b), 3)
    ensures a == b || Collision(sha, RootCollision(PairScheme(sha), HeaderLeaves(a), HeaderLeaves(b), 3, 0))
  {
    hide NodeAt, RootCollision, Uint64Leaf, ZeroLeaves;
    var la, lb := HeaderLeaves(a), HeaderLeaves(b);
    assert Pow2(3) == 8;
    RootBindsLeaves(PairScheme(sha), la, lb, 3);
    if la == lb {
      assert la[0] == lb[0] && la[1] == lb[1] && la[2] == lb[2] && la[3] == lb[3] && la[4] == lb[4];
      Uint64LeafInjective(a.slot, b.slot);
      Uint64LeafInjective(a.proposerIndex, b.proposerIndex);
    }
  }

  // ---------- From the committed beacon root to the block hash ----------

  const BODY_SIZE: nat := 16
  const BODY_TO_EXEC_INDEX: nat := 9

  /** What the Helios circuit commits the execution block hash with. */
  datatype HeliosWitness = HeliosWitness(finalized: BeaconHeader, bodyBranch: seq<Digest>, exec: ExecWitness)

  /** Steps 5 and 6 of the circuit: the payload root is in the finalized body, and the block
      hash is in the payload. */
  predicate ExecutionAccepted(sha: HashFn, w: HeliosWitness) {
    && BranchAccepted(sha, w.exec.payloadRoot, w.bodyBranch, 4, BODY_TO_EXEC_INDEX, w.finalized.bodyRoot)
    && BlockHashProven(sha, w.exec)
  }

  /** The beacon root the circuit commits. */
  function NewBeaconRoot(sha: HashFn, h: BeaconHeader): Digest {
    Root(PairScheme(sha), HeaderLeaves(h), 3)
  }

  /** A beacon block as its proposer built it. */
  ghost predicate IsBlock(sha: HashFn, h: BeaconHeader, body: seq<Digest>, e: ExecHeader) {
    && |body| == BODY_SIZE && h.bodyRoot == Root(PairScheme(sha), body, 4)
    && WellFormed(e) && body[9] == PayloadRoot(sha, e)
  }

  /** The collision a block hash from elsewhere would need: in the header, in the body, or in
      the payload. */
  function HeliosCollision(
    sha: HashFn, h: BeaconHeader, body: seq<Digest>, e: ExecHeader, w: HeliosWitness): (Bytes, Bytes)
    requires WellFormed(e)
  {
    var s := PairScheme(sha);
    var inHeader := RootCollision(s, HeaderLeaves(w.finalized), HeaderLeaves(h), 3, 0);
    var inBody := PathCollision(s, body, 0, w.exec.payloadRoot, BODY_TO_EXEC_INDEX, w.bodyBranch);
    if Collision(sha, inHeader) then inHeader
    else if Collision(sha, inBody) then inBody
    else PathCollision(s, PayloadLeaves(sha, e), 0, w.exec.blockHash, BLOCK_HASH_INDEX, w.exec.toHashBranch)
  }

  /** Two committed outputs hang together: if the beacon root is that of a block, the block
      hash is the hash in its execution payload, whatever header and branches the prover
      supplied. */
  lemma CommittedBlockHashIsInBlock(
    sha: HashFn, h: BeaconHeader, body: seq<Digest>, e: ExecHeader, w: HeliosWitness)
    requires IsBlock(sha, h, body, e)
    requires ExecutionAccepted(sha, w) && NewBeaconRoot(sha, w.finalized) == NewBeaconRoot(sha, h)
    ensures w.exec.blockHash == e.blockHash || Collision(sha, HeliosCollision(sha, h, body, e, w))
  {
    hide NodeAt, Siblings, PathRoot, PayloadLeaves, PathCollision, RootCollision, HeaderLeaves, BlockHashProven;
    BeaconRootBinds(sha, w.finalized, h);
    if w.finalized == h {
      assert Pow2(4) == BODY_SIZE;
      AcceptedLeafIsAtIndex(sha, body, 4, w.exec.payloadRoot, w.bodyBranch, BODY_TO_EXEC_INDEX);
      if w.exec.payloadRoot == PayloadRoot(sha, e) {
        ProvenBlockHashIsInHeader(sha, e, w.exec);
      }
    }
  }

  /** The witness a host builds for a block: the honest branch to leaf 9 of the body and to
      leaf 12 of the payload. */
  function BlockWitness(sha: HashFn, h: BeaconHeader, body: seq<Digest>, e: ExecHeader): HeliosWitness
    requires WellFormed(e)
  {
    var s := PairScheme(sha);
    HeliosWitness(h, Siblings(s, body, 0, 9, 4),
                  ExecWitness(PayloadRoot(sha, e), Siblings(s, PayloadLeaves(sha, e), 0, 12, 5), e.blockHash))
  }

  /** And for every block there is an accepted witness of its block hash. */
  lemma BlockWitnessIsAccepted(sha: HashFn, h: BeaconHeader, body: seq<Digest>, e: ExecHeader)
    requires IsBlock(sha, h, body, e)
    ensures ExecutionAccepted(sha, BlockWitness(sha, h, body, e))
  {
    hide NodeAt, Siblings, PathRoot, PayloadLeaves;
    assert Pow2(4) == 16 && Pow2(5) == 32;
    PayloadLeafAt(sha, e);
    HostBranchIsAccepted(sha, body, 4, 9);
    HostBranchIsAccepted(sha, PayloadLeaves(sha, e), 5, 12);
  }
}
