/** The incremental commitment tree: O(depth) insertion from cached left subtrees, the
    full heap rebuild that extracts proof paths, and the path verifier. */
module CommitmentTree {
  import opened ByteStrings
  import opened MerkleTree

  const TREE_DEPTH: nat := 20

  lemma DeployedCapacity()
    ensures Pow2(TREE_DEPTH) == 1_048_576
  {
    assert Pow2(8) == 256;
    assert Pow2(14) == 0x4000;
  }

  /** `zero_value`: hash the zero leaf with itself, once a level. */
  method ZeroValue(s: Scheme, level: nat) returns (current: Digest)
    ensures current == PadNode(s, level)
  {
    current := s.pad;
    for l := 0 to level
      invariant current == PadNode(s, l)
    {
      current := s.Node(current, current);
    }
  }

  /** `empty_root` is the root of the tree with no commitments. */
  lemma EmptyRoot(s: Scheme, d: nat)
    ensures Root(s, [], d) == PadNode(s, d)
  {
    BeyondLeavesIsPad(s, [], d, 0);
  }

  // ---------- Inclusion proofs ----------

  datatype MerkleProof = MerkleProof(leafIndex: U64, siblings: seq<Digest>, root: Digest)

  predicate Verifies(s: Scheme, d: nat, proof: MerkleProof, leaf: Digest) {
    |proof.siblings| == d && PathRoot(s, leaf, proof.leafIndex, proof.siblings) == proof.root
  }

  method Verify(s: Scheme, d: nat, proof: MerkleProof, leaf: Digest) returns (ok: bool)
    ensures ok <==> Verifies(s, d, proof, leaf)
  {
    if |proof.siblings| != d {
      return false;
    }
    var current := FoldPath(s, leaf, proof.leafIndex, proof.siblings);
    return current == proof.root;
  }

  /** Path soundness: a leaf that verifies against the root over n commitments is the
      commitment at its index mod 2^d, or the zero leaf past the last commitment. */
  lemma VerifiedLeafIsCommitted(s: Scheme, d: nat, proof: MerkleProof, leaf: Digest, commitments: seq<Digest>)
    requires Verifies(s, d, proof, leaf)
    requires proof.root == Root(s, commitments, d)
    ensures
      var j := proof.leafIndex % Pow2(d);
      || leaf == (if j < |commitments| then commitments[j] else s.pad)
      || Collision(s.hash, PathCollision(s, commitments, 0, leaf, j, proof.siblings))
  {
    AcceptedPathIsHonest(s, commitments, leaf, proof.leafIndex, proof.siblings);
  }

  /** Exactly: against the root over n commitments, `verify` accepts the honest path of the
      leaf at its index mod 2^d and, collisions apart, nothing else. */
  lemma VerifiesExactly(s: Scheme, d: nat, proof: MerkleProof, leaf: Digest, commitments: seq<Digest>)
    requires proof.root == Root(s, commitments, d)
    ensures
      var j := proof.leafIndex % Pow2(d);
      var honest := leaf == LeafAt(s, commitments, j) && proof.siblings == Siblings(s, commitments, 0, j, d);
      && (honest ==> Verifies(s, d, proof, leaf))
      && (Verifies(s, d, proof, leaf) ==>
            honest || Collision(s.hash, PathCollision(s, commitments, 0, leaf, j, proof.siblings)))
  {
    var j := proof.leafIndex % Pow2(d);
    hide PathRoot, Siblings, PathCollision, LeafAt;
    LowBitsOfMod(proof.leafIndex, d);
    HonestPathAccepted(s, commitments, d, j);
    PathReadsLowBits(s, LeafAt(s, commitments, j), proof.leafIndex, j, Siblings(s, commitments, 0, j, d));
    if Verifies(s, d, proof, leaf) {
      AcceptedPathIsHonest(s, commitments, leaf, proof.leafIndex, proof.siblings);
    }
  }

  // ---------- Incremental insertion ----------

  /** The root `compute_insert` returns, from level l up. */
  function InsertRoot(s: Scheme, c: Digest, i: nat, filled: seq<Digest>, l: nat): Digest
    requires l <= |filled|
    decreases |filled| - l
  {
    if l == |filled| then c
    else if i % 2 == 0 then InsertRoot(s, s.Node(c, PadNode(s, l)), i / 2, filled, l + 1)
    else InsertRoot(s, s.Node(filled[l], c), i / 2, filled, l + 1)
  }

  /** The cached subtrees once its updates are applied. */
  function InsertFilled(s: Scheme, c: Digest, i: nat, filled: seq<Digest>, l: nat): (r: seq<Digest>)
    requires l <= |filled|
    ensures |r| == |filled|
    decreases |filled| - l
  {
    if l == |filled| then filled
    else if i % 2 == 0 then InsertFilled(s, s.Node(c, PadNode(s, l)), i / 2, filled[l := c], l + 1)
    else InsertFilled(s, s.Node(filled[l], c), i / 2, filled, l + 1)
  }

  datatype Update = Update(level: nat, value: Digest)

  function ApplyUpdates(filled: seq<Digest>, updates: seq<Update>): (r: seq<Digest>)
    requires forall u :: u in updates ==> u.level < |filled|
    ensures |r| == |filled|
  {
    if updates == [] then filled
    else
      var last := |updates| - 1;
      ApplyUpdates(filled, updates[..last])[updates[last].level := updates[last].value]
  }

  /** `compute_insert`. */
  method ComputeInsert(s: Scheme, leaf: Digest, nextIndex: nat, filled: seq<Digest>)
    returns (root: Digest, updates: seq<Update>)
    ensures root == InsertRoot(s, leaf, nextIndex, filled, 0)
    ensures forall u :: u in updates ==> u.level < |filled|
    ensures ApplyUpdates(filled, updates) == InsertFilled(s, leaf, nextIndex, filled, 0)
  {
    root, updates := leaf, [];
    var index := nextIndex;
    for level := 0 to |filled|
      invariant forall u :: u in updates ==> u.level < level
      invariant ApplyUpdates(filled, updates)[level..] == filled[level..]
      invariant InsertRoot(s, root, index, filled, level) == InsertRoot(s, leaf, nextIndex, filled, 0)
      invariant InsertFilled(s, root, index, ApplyUpdates(filled, updates), level) ==
        InsertFilled(s, leaf, nextIndex, filled, 0)
    {
      assert ApplyUpdates(filled, updates)[level] == filled[level];
      if index % 2 == 0 {
        ghost var before := updates;
        updates := updates + [Update(level, root)];
        assert updates[..|updates| - 1] == before;
        var zero := ZeroValue(s, level);
        root := s.Node(root, zero);
      } else {
        root := s.Node(filled[level], root);
      }
      index := index / 2;
    }
  }

  /** The binary-counter invariant: where bit l of the leaf count is set, the cache holds
      the root of the complete 2^l-leaf subtree just left of the next leaf. */
  ghost predicate FilledInvariant(s: Scheme, leaves: seq<Digest>, filled: seq<Digest>) {
    forall l: nat :: l < |filled| && Shr(|leaves|, l) % 2 == 1 ==>
      filled[l] == NodeAt(s, leaves, l, Shr(|leaves|, l) - 1)
  }

  lemma {:induction false} ShrSucc(n: nat, k: nat)
    ensures Shr(n + 1, k) == Shr(n, k) || Shr(n + 1, k) == Shr(n, k) + 1
    decreases k
  {
    if k > 0 && n % 2 == 1 {
      assert (n + 1) / 2 == n / 2 + 1;
      ShrSucc(n / 2, k - 1);
    }
  }

  /** Climbing one level of an insertion: the node above the new leaf is built from what
      the code has at hand, the cached left sibling or the zero subtree on the right. */
  lemma InsertClimbs(s: Scheme, leaves: seq<Digest>, c: Digest, filled: seq<Digest>, l: nat)
    requires l < |filled| && FilledInvariant(s, leaves, filled)
    ensures
      var m := Shr(|leaves|, l);
      var here := NodeAt(s, leaves + [c], l, m);
      NodeAt(s, leaves + [c], l + 1, Shr(|leaves|, l + 1))
      == if m % 2 == 0 then s.Node(here, PadNode(s, l)) else s.Node(filled[l], here)
  {
    var n := |leaves|;
    var m := Shr(n, l);
    ShrStep(n, l);
    if m % 2 == 0 {
      ShrBounds(n, l);
      assert |leaves + [c]| <= (m + 1) * Pow2(l);
      BeyondLeavesIsPad(s, leaves + [c], l, m + 1);
      assert m == 2 * (m / 2);
    } else {
      OffPathUnchanged(s, leaves + [c], leaves, n, l, m - 1);
      assert m == 2 * (m / 2) + 1;
    }
  }

  lemma {:induction false} InsertRootCorrect(s: Scheme, leaves: seq<Digest>, c: Digest, filled: seq<Digest>, l: nat)
    requires l <= |filled| && FilledInvariant(s, leaves, filled)
    ensures
      InsertRoot(s, NodeAt(s, leaves + [c], l, Shr(|leaves|, l)), Shr(|leaves|, l), filled, l)
      == NodeAt(s, leaves + [c], |filled|, Shr(|leaves|, |filled|))
    decreases |filled| - l
  {
    if l < |filled| {
      InsertClimbs(s, leaves, c, filled, l);
      ShrStep(|leaves|, l);
      InsertRootCorrect(s, leaves, c, filled, l + 1);
    }
  }

  /** Which cache slots an insertion rewrites, and with what. `now` is the cache with the
      levels below l already rewritten. */
  lemma {:induction false} InsertFilledAt(
    s: Scheme, leaves: seq<Digest>, c: Digest, filled: seq<Digest>, now: seq<Digest>, l: nat, k: nat)
    requires l <= |filled| == |now| && k < |filled| && FilledInvariant(s, leaves, filled)
    requires now[l..] == filled[l..]
    ensures
      InsertFilled(s, NodeAt(s, leaves + [c], l, Shr(|leaves|, l)), Shr(|leaves|, l), now, l)[k]
      == if k < l then now[k]
         else if Shr(|leaves|, k) % 2 == 0 then NodeAt(s, leaves + [c], k, Shr(|leaves|, k))
         else filled[k]
    decreases |filled| - l
  {
    if l < |filled| {
      assert now[l] == filled[l];
      InsertClimbs(s, leaves, c, filled, l);
      ShrStep(|leaves|, l);
      var m := Shr(|leaves|, l);
      var next := if m % 2 == 0 then now[l := NodeAt(s, leaves + [c], l, m)] else now;
      InsertFilledAt(s, leaves, c, filled, next, l + 1, k);
    }
  }

  lemma InsertKeepsFilled(s: Scheme, leaves: seq<Digest>, c: Digest, filled: seq<Digest>, l: nat)
    requires l < |filled| && FilledInvariant(s, leaves, filled)
    requires Shr(|leaves| + 1, l) % 2 == 1
    ensures InsertFilled(s, c, |leaves|, filled, 0)[l] == NodeAt(s, leaves + [c], l, Shr(|leaves| + 1, l) - 1)
  {
    var n := |leaves|;
    InsertFilledAt(s, leaves, c, filled, filled, 0, l);
    ShrSucc(n, l);
    if Shr(n, l) % 2 == 1 {
      OffPathUnchanged(s, leaves + [c], leaves, n, l, Shr(n, l) - 1);
    }
  }

  lemma NewLeafNode(s: Scheme, leaves: seq<Digest>, c: Digest)
    ensures Shr(|leaves|, 0) == |leaves| && NodeAt(s, leaves + [c], 0, |leaves|) == c
  {
  }

  /** The fast insert refines the full tree: from a cache that satisfies the invariant it
      returns the root of the tree over all leaves, and restores the invariant. */
  lemma InsertRefinesRebuild(s: Scheme, leaves: seq<Digest>, c: Digest, filled: seq<Digest>)
    requires |leaves| < Pow2(|filled|) && FilledInvariant(s, leaves, filled)
    ensures InsertRoot(s, c, |leaves|, filled, 0) == Root(s, leaves + [c], |filled|)
    ensures FilledInvariant(s, leaves + [c], InsertFilled(s, c, |leaves|, filled, 0))
  {
    hide NodeAt, InsertFilled, InsertRoot, Shr;
    NewLeafNode(s, leaves, c);
    InsertRootCorrect(s, leaves, c, filled, 0);
    ShrOfSmall(|leaves|, |filled|);
    forall l: nat | l < |filled| && Shr(|leaves| + 1, l) % 2 == 1
      ensures InsertFilled(s, c, |leaves|, filled, 0)[l] == NodeAt(s, leaves + [c], l, Shr(|leaves| + 1, l) - 1)
    {
      InsertKeepsFilled(s, leaves, c, filled, l);
    }
  }

  // ---------- Full rebuild ----------

  /** Heap layout: node p has children 2p and 2p + 1, and the leaves fill the upper half. */
  ghost predicate IsHeap(s: Scheme, leaves: seq<Digest>, d: nat, nodes: seq<Digest>) {
    && |nodes| == 2 * Pow2(d)
    && (forall j: nat :: j < Pow2(d) ==> nodes[Pow2(d) + j] == LeafAt(s, leaves, j))
    && (forall p: nat :: 1 <= p < Pow2(d) ==> nodes[p] == s.Node(nodes[2 * p], nodes[2 * p + 1]))
  }

  lemma {:induction false} Pow2Monotone(a: nat, b: nat)
    requires a <= b
    ensures Pow2(a) <= Pow2(b)
    decreases b
  {
    if a < b {
      Pow2Monotone(a, b - 1);
    }
  }

  /** Heap slot 2^(d-l) + j is node j of level l. */
  lemma {:induction false} HeapHoldsTree(s: Scheme, leaves: seq<Digest>, d: nat, nodes: seq<Digest>, l: nat, j: nat)
    requires IsHeap(s, leaves, d, nodes)
    requires l <= d && j < Pow2(d - l)
    ensures Pow2(d - l) + j < |nodes| && nodes[Pow2(d - l) + j] == NodeAt(s, leaves, l, j)
    decreases l
  {
    Pow2Monotone(d - l, d);
    if l > 0 {
      Pow2Monotone(d - l + 1, d);
      HeapHoldsTree(s, leaves, d, nodes, l - 1, 2 * j);
      HeapHoldsTree(s, leaves, d, nodes, l - 1, 2 * j + 1);
      var p := Pow2(d - l) + j;
      assert nodes[p] == s.Node(nodes[2 * p], nodes[2 * p + 1]);
    }
  }

  /** The first half of `build_proof_paths`: fill the leaves, then hash upwards. */
  method BuildHeap(s: Scheme, d: nat, leaves: seq<Digest>) returns (nodes: array<Digest>)
    requires |leaves| <= Pow2(d)
    ensures fresh(nodes) && IsHeap(s, leaves, d, nodes[..])
  {
    var size := Pow2(d);
    nodes := new Digest[2 * size];
    for i := 0 to |leaves|
      invariant forall j: nat :: j < i ==> nodes[size + j] == leaves[j]
    {
      nodes[size + i] := leaves[i];
    }
    var zeroLeaf := ZeroValue(s, 0);
    for i := |leaves| to size
      invariant forall j: nat :: j < i ==> nodes[size + j] == LeafAt(s, leaves, j)
    {
      nodes[size + i] := zeroLeaf;
    }
    for p := size downto 1
      invariant forall j: nat :: j < size ==> nodes[size + j] == LeafAt(s, leaves, j)
      invariant forall q: nat :: p <= q < size ==> nodes[q] == s.Node(nodes[2 * q], nodes[2 * q + 1])
    {
      nodes[p] := s.Node(nodes[2 * p], nodes[2 * p + 1]);
    }
  }

  /** One step of a walk up the heap from leaf i: where the sibling lies and where the
      parent is. */
  lemma HeapStep(s: Scheme, leaves: seq<Digest>, d: nat, nodes: seq<Digest>, l: nat, i: nat)
    requires IsHeap(s, leaves, d, nodes) && l < d && Shr(i, l) < Pow2(d - l)
    ensures
      var pos := Pow2(d - l) + Shr(i, l);
      && 0 <= SiblingIndex(pos) < |nodes|
      && nodes[SiblingIndex(pos)] == Siblings(s, leaves, 0, i, d)[l]
      && pos / 2 == Pow2(d - (l + 1)) + Shr(i, l + 1)
      && Shr(i, l + 1) < Pow2(d - (l + 1))
  {
    hide NodeAt, Siblings, IsHeap;
    assert Pow2(d - l) == 2 * Pow2(d - (l + 1));
    ShrStep(i, l);
    HeapHoldsTree(s, leaves, d, nodes, l, SiblingIndex(Shr(i, l)));
    SiblingsAt(s, leaves, 0, i, d, l);
  }

  /** Walks from leaf i to the root of a heap, collecting siblings. */
  method ExtractPath(s: Scheme, d: nat, ghost leaves: seq<Digest>, nodes: array<Digest>, i: nat)
    returns (siblings: seq<Digest>)
    requires IsHeap(s, leaves, d, nodes[..]) && i < Pow2(d)
    ensures siblings == Siblings(s, leaves, 0, i, d)
  {
    ghost var honest := Siblings(s, leaves, 0, i, d);
    siblings := [];
    var pos := Pow2(d) + i;
    var l: nat := 0;
    while l < d
      invariant l <= d
      invariant Shr(i, l) < Pow2(d - l) && pos == Pow2(d - l) + Shr(i, l)
      invariant siblings == honest[..l]
    {
      HeapStep(s, leaves, d, nodes[..], l, i);
      var sibling := if pos % 2 == 0 then nodes[pos + 1] else nodes[pos - 1];
      siblings := siblings + [sibling];
      pos, l := pos / 2, l + 1;
    }
  }

  /** `build_proof_paths`: the honest path of every leaf. More leaves than the tree holds
      would index past the heap. */
  method BuildProofPaths(s: Scheme, d: nat, leaves: seq<Digest>) returns (paths: seq<seq<Digest>>)
    requires |leaves| <= Pow2(d)
    ensures |paths| == |leaves|
    ensures forall i: nat :: i < |leaves| ==> paths[i] == Siblings(s, leaves, 0, i, d)
  {
    var nodes := BuildHeap(s, d, leaves);
    paths := [];
    for i := 0 to |leaves|
      invariant |paths| == i && IsHeap(s, leaves, d, nodes[..])
      invariant forall k: nat :: k < i ==> paths[k] == Siblings(s, leaves, 0, k, d)
    {
      var path := ExtractPath(s, d, leaves, nodes, i);
      paths := paths + [path];
    }
  }

  /** The rebuild, the root and the verifier agree: every rebuilt path verifies. */
  lemma RebuiltPathVerifies(s: Scheme, d: nat, leaves: seq<Digest>, i: U64)
    requires i < |leaves| <= Pow2(d)
    ensures Verifies(s, d, MerkleProof(i, Siblings(s, leaves, 0, i, d), Root(s, leaves, d)), leaves[i])
  {
    HonestPathAccepted(s, leaves, d, i);
  }
}
