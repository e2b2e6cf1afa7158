/** The sorted sanctions tree and its non-membership proofs: the oracle that builds them
    and the circuit that checks them. */
module Sanctions {
  import opened ByteStrings
  import opened DigestOrder
  import opened MerkleTree

  const TAG_ADDR: Bytes := [97, 100, 100, 114]
  const TAG_LEAF: Bytes := [108, 101, 97, 102]
  const TAG_NODE: Bytes := [110, 111, 100, 101]

  /** A list of 32-byte addresses fits in memory: isize::MAX bytes. */
  const MAX_LIST: nat := 0x400_0000_0000_0000

  function HashAddr(sha: HashFn, addr: Digest): Digest {
    sha(TAG_ADDR + addr.bytes)
  }

  function HashLeaf(sha: HashFn, addrHash: Digest): Digest {
    sha(TAG_LEAF + addrHash.bytes)
  }

  /** Nodes are SHA256("node" + left + right); padding is the leaf of the maximum. */
  function TreeScheme(sha: HashFn): Scheme {
    Scheme(sha, TAG_NODE, HashLeaf(sha, MAX_DIGEST))
  }

  /** The sanctions tree, hash by hash: "leaf" before a leaf's address hash, "node" before the
      roots of the left and the right half, and the leaf of 32 bytes 255 for padding. */
  lemma TreeRootInBytes(sha: HashFn, leaves: seq<Digest>, hash: Digest, d: nat)
    ensures HashLeaf(sha, hash) == sha([108, 101, 97, 102] + hash.bytes)
    ensures Root(TreeScheme(sha), [], 0) == sha([108, 101, 97, 102] + Repeat(255, 32))
    ensures |leaves| > 0 ==> Root(TreeScheme(sha), leaves, 0) == leaves[0]
    ensures
      var left, right := LeftHalf(leaves, d), RightHalf(leaves, d);
      Root(TreeScheme(sha), leaves, d + 1)
      == sha([110, 111, 100, 101] + Root(TreeScheme(sha), left, d).bytes + Root(TreeScheme(sha), right, d).bytes)
  {
    hide LeftHalf, RightHalf;
    RootSplits(TreeScheme(sha), leaves, d);
  }

  // ---------- The tree ----------

  function AddrHashes(sha: HashFn, addresses: seq<Digest>): (r: seq<Digest>)
    ensures |r| == |addresses| && forall i :: 0 <= i < |r| ==> r[i] == HashAddr(sha, addresses[i])
  {
    if |addresses| == 0 then [] else [HashAddr(sha, addresses[0])] + AddrHashes(sha, addresses[1..])
  }

  function LeafHashes(sha: HashFn, hashes: seq<Digest>): (r: seq<Digest>)
    ensures |r| == |hashes| && forall i :: 0 <= i < |r| ==> r[i] == HashLeaf(sha, hashes[i])
  {
    if |hashes| == 0 then [] else [HashLeaf(sha, hashes[0])] + LeafHashes(sha, hashes[1..])
  }

  /** The address hashes with both sentinels, sorted and without duplicates. */
  function SortedHashes(sha: HashFn, addresses: seq<Digest>): seq<Digest> {
    Dedup(Sort(AddrHashes(sha, addresses) + [ZERO_DIGEST] + [MAX_DIGEST]))
  }

  function DepthOf(sha: HashFn, addresses: seq<Digest>): nat {
    Log2Ceil(|SortedHashes(sha, addresses)|)
  }

  function PaddedHashes(sha: HashFn, addresses: seq<Digest>): (r: seq<Digest>)
    ensures |r| == Pow2(DepthOf(sha, addresses))
  {
    var hashes := SortedHashes(sha, addresses);
    hashes + Resize(Pow2(DepthOf(sha, addresses)) - |hashes|)
  }

  function Resize(k: nat): (r: seq<Digest>)
    ensures |r| == k && forall i :: 0 <= i < k ==> r[i] == MAX_DIGEST
  {
    if k == 0 then [] else [MAX_DIGEST] + Resize(k - 1)
  }

  function TreeLeaves(sha: HashFn, addresses: seq<Digest>): (r: seq<Digest>)
    ensures |r| == Pow2(DepthOf(sha, addresses))
  {
    LeafHashes(sha, PaddedHashes(sha, addresses))
  }

  function SanctionsRoot(sha: HashFn, addresses: seq<Digest>): Digest {
    Root(TreeScheme(sha), TreeLeaves(sha, addresses), DepthOf(sha, addresses))
  }

  /** The leaf list is sorted, starts at the minimum and ends at the maximum, and holds the
      hashes of exactly the listed addresses and the sentinels. */
  lemma LeavesAreSorted(sha: HashFn, addresses: seq<Digest>)
    ensures
      var padded := PaddedHashes(sha, addresses);
      && Sorted(padded) && padded[0] == ZERO_DIGEST && padded[|padded| - 1] == MAX_DIGEST
      && (forall h :: h in padded <==> h == ZERO_DIGEST || h == MAX_DIGEST || h in AddrHashes(sha, addresses))
  {
    hide Sort, Dedup, Less, Repeat;
    var hashes := SortedHashes(sha, addresses);
    SortedHashesMembers(sha, addresses);
    EndsOfSorted(hashes);
    PaddingKeepsOrder(hashes, Pow2(DepthOf(sha, addresses)) - |hashes|);
  }

  lemma SortedHashesMembers(sha: HashFn, addresses: seq<Digest>)
    ensures
      var hashes := SortedHashes(sha, addresses);
      && Sorted(hashes)
      && (forall h :: h in hashes <==> h == ZERO_DIGEST || h == MAX_DIGEST || h in AddrHashes(sha, addresses))
  {
    hide Sort, Dedup, Less, Repeat;
    var all := AddrHashes(sha, addresses) + [ZERO_DIGEST] + [MAX_DIGEST];
    SortCorrect(all);
    DedupCorrect(Sort(all));
    StrictIsSorted(Dedup(Sort(all)));
    forall h ensures h in Dedup(Sort(all)) <==> h in all {
      assert h in multiset(Sort(all)) <==> h in multiset(all);
    }
  }

  lemma StrictIsSorted(s: seq<Digest>)
    requires StrictlySorted(s)
    ensures Sorted(s)
  {
    forall i: nat, j: nat | i < j < |s| ensures AtMost(s[i], s[j]) {
      Trichotomy(s[i], s[j]);
    }
  }

  lemma EndsOfSorted(s: seq<Digest>)
    requires Sorted(s) && ZERO_DIGEST in s && MAX_DIGEST in s
    ensures |s| > 0 && s[0] == ZERO_DIGEST && s[|s| - 1] == MAX_DIGEST
  {
    hide Less, Repeat;
    SentinelsBound(s[0]);
    SentinelsBound(s[|s| - 1]);
    Trichotomy(s[0], ZERO_DIGEST);
    Trichotomy(s[|s| - 1], MAX_DIGEST);
  }

  lemma PaddingKeepsOrder(s: seq<Digest>, k: nat)
    requires Sorted(s) && |s| > 0 && s[|s| - 1] == MAX_DIGEST
    ensures Sorted(s + Resize(k))
    ensures (s + Resize(k))[0] == s[0] && (s + Resize(k))[|s| + k - 1] == MAX_DIGEST
    ensures forall h :: h in s + Resize(k) <==> h in s
  {
    var t := s + Resize(k);
    forall i: nat, j: nat | i < j < |t| ensures AtMost(t[i], t[j]) {
      SentinelsBound(t[i]);
    }
    hide Less;
  }

  /** And the padding is least: distinct hashes first, fewer padding leaves than hashes. */
  lemma PaddingIsLeast(sha: HashFn, addresses: seq<Digest>)
    ensures
      var padded, n := PaddedHashes(sha, addresses), |SortedHashes(sha, addresses)|;
      && n <= |padded| == Pow2(DepthOf(sha, addresses)) < 2 * n
      && StrictlySorted(padded[..n])
      && (forall i: nat :: n <= i < |padded| ==> padded[i] == MAX_DIGEST)
  {
    hide Sort, Dedup, Less, Repeat;
    var all := AddrHashes(sha, addresses) + [ZERO_DIGEST] + [MAX_DIGEST];
    SortCorrect(all);
    DedupCorrect(Sort(all));
    SortedHashesMembers(sha, addresses);
    assert ZERO_DIGEST in SortedHashes(sha, addresses);
    assert PaddedHashes(sha, addresses)[..|SortedHashes(sha, addresses)|] == SortedHashes(sha, addresses);
  }

  datatype SanctionsTree = SanctionsTree(sortedAddrHashes: seq<Digest>, levels: seq<seq<Digest>>, depth: nat)

  /** The tree built from `addresses`. */
  ghost predicate IsTreeOf(t: SanctionsTree, sha: HashFn, addresses: seq<Digest>) {
    && t.sortedAddrHashes == PaddedHashes(sha, addresses)
    && t.depth == DepthOf(sha, addresses)
    && |t.levels| == t.depth + 1
    && forall k: nat :: k <= t.depth ==>
         |t.levels[k]| == Pow2(t.depth - k) && IsLevel(TreeScheme(sha), TreeLeaves(sha, addresses), k, t.levels[k])
  }

  /** `build` */
  method Build(sha: HashFn, addresses: seq<Digest>) returns (t: SanctionsTree)
    ensures IsTreeOf(t, sha, addresses)
  {
    var addrHashes := AddrHashes(sha, addresses);
    addrHashes := addrHashes + [ZERO_DIGEST];
    addrHashes := addrHashes + [MAX_DIGEST];
    addrHashes := Dedup(Sort(addrHashes));
    var depth := Log2Ceil(|addrHashes|);
    addrHashes := addrHashes + Resize(Pow2(depth) - |addrHashes|);
    var levels := BuildLevels(sha, LeafHashes(sha, addrHashes), depth);
    t := SanctionsTree(addrHashes, levels, depth);
  }

  /** All levels, leaves first, by repeated pairing. */
  method BuildLevels(sha: HashFn, leaves: seq<Digest>, ghost depth: nat) returns (levels: seq<seq<Digest>>)
    requires |leaves| == Pow2(depth)
    ensures |levels| == depth + 1
    ensures forall k: nat :: k <= depth ==>
      |levels[k]| == Pow2(depth - k) && IsLevel(TreeScheme(sha), leaves, k, levels[k])
  {
    hide NodeAt, IsLevel;
    levels := [leaves];
    assert IsLevel(TreeScheme(sha), leaves, 0, leaves) by {
      LeavesAreLevelZero(TreeScheme(sha), leaves);
    }
    var current := leaves;
    ghost var l: nat := 0;
    while |current| > 1
      invariant l <= depth && |levels| == l + 1 && current == levels[l]
      invariant forall k: nat :: k <= l ==>
        |levels[k]| == Pow2(depth - k) && IsLevel(TreeScheme(sha), leaves, k, levels[k])
      decreases |current|
    {
      assert Pow2(depth - l) == 2 * Pow2(depth - l - 1);
      var next := HashPairs(TreeScheme(sha), current, leaves, l);
      levels := levels + [next];
      current := next;
      l := l + 1;
    }
  }

  /** `root` */
  method TreeRoot(t: SanctionsTree, ghost sha: HashFn, ghost addresses: seq<Digest>) returns (root: Digest)
    requires IsTreeOf(t, sha, addresses)
    ensures root == SanctionsRoot(sha, addresses)
  {
    root := t.levels[|t.levels| - 1][0];
  }

  /** `inclusion_proof`: the honest path of one leaf. */
  method InclusionProof(t: SanctionsTree, ghost sha: HashFn, ghost addresses: seq<Digest>, index: nat)
    returns (siblings: seq<Digest>)
    requires IsTreeOf(t, sha, addresses) && index < |t.sortedAddrHashes|
    ensures siblings == Siblings(TreeScheme(sha), TreeLeaves(sha, addresses), 0, index, t.depth)
  {
    hide NodeAt, Siblings, PaddedHashes, TreeLeaves, DepthOf, IsLevel;
    ghost var honest := Siblings(TreeScheme(sha), TreeLeaves(sha, addresses), 0, index, t.depth);
    siblings := [];
    var idx := index;
    for k := 0 to |t.levels| - 1
      invariant idx == Shr(index, k) < Pow2(t.depth - k)
      invariant siblings == honest[..k]
    {
      LevelSibling(TreeScheme(sha), TreeLeaves(sha, addresses), t.levels[k], t.depth, k, index);
      var siblingIdx := if idx % 2 == 0 then idx + 1 else idx - 1;
      siblings := siblings + [t.levels[k][siblingIdx]];
      idx := idx / 2;
    }
  }

  // ---------- Listed addresses ----------

  /** The collision an address that is not listed but hashes like one contains: with the first
      listed address of that hash. */
  function AddrCollision(sha: HashFn, addresses: seq<Digest>, a: Digest): (Bytes, Bytes)
    decreases |addresses|
  {
    if |addresses| == 0 then ([], [])
    else if HashAddr(sha, addresses[0]) == HashAddr(sha, a) then
      ([97, 100, 100, 114] + a.bytes, [97, 100, 100, 114] + addresses[0].bytes)
    else AddrCollision(sha, addresses[1..], a)
  }

  /** The hash of an address is that of "addr" and its bytes, and it falls on a sentinel. */
  predicate HashesToSentinel(sha: HashFn, a: Digest) {
    sha([97, 100, 100, 114] + a.bytes) in {ZERO_DIGEST, MAX_DIGEST}
  }

  lemma {:induction false} SameHashIsListed(sha: HashFn, addresses: seq<Digest>, a: Digest)
    requires HashAddr(sha, a) in AddrHashes(sha, addresses)
    ensures a in addresses || Collision(sha, AddrCollision(sha, addresses, a))
    decreases |addresses|
  {
    assert AddrHashes(sha, addresses) == [HashAddr(sha, addresses[0])] + AddrHashes(sha, addresses[1..]);
    var x, y := [97, 100, 100, 114] + a.bytes, [97, 100, 100, 114] + addresses[0].bytes;
    if HashAddr(sha, addresses[0]) == HashAddr(sha, a) {
      assert x[4..] == a.bytes && y[4..] == addresses[0].bytes;
    } else {
      SameHashIsListed(sha, addresses[1..], a);
    }
  }

  /** The tree holds the hash of exactly the listed addresses; a false positive is a collision,
      or an address that hashes to a sentinel. */
  lemma HashedIsListed(sha: HashFn, addresses: seq<Digest>, a: Digest)
    ensures a in addresses ==> HashAddr(sha, a) in PaddedHashes(sha, addresses)
    ensures HashAddr(sha, a) in PaddedHashes(sha, addresses) ==>
      a in addresses || HashesToSentinel(sha, a) || Collision(sha, AddrCollision(sha, addresses, a))
    ensures HashesToSentinel(sha, a) ==> HashAddr(sha, a) in PaddedHashes(sha, addresses)
  {
    hide PaddedHashes, Sorted, Repeat, Collision, AddrCollision;
    LeavesAreSorted(sha, addresses);
    ListedIsLeaf(sha, addresses, a);
    if HashAddr(sha, a) in AddrHashes(sha, addresses) {
      SameHashIsListed(sha, addresses, a);
    }
  }

  // ---------- Non-membership ----------

  datatype Witness = Witness(
    sanctionsRoot: Digest, leftLeaf: Digest, rightLeaf: Digest,
    leftProof: seq<Digest>, rightProof: seq<Digest>, leftIndex: U64, rightIndex: U64, treeDepth: nat)

  datatype WitnessError = AddressIsListed | SmallerThanAllLeaves

  /** The circuit's `verify_merkle_proof`. */
  predicate ProofAccepted(sha: HashFn, leaf: Digest, index: U64, proof: seq<Digest>, root: Digest, depth: nat) {
    |proof| == depth && PathRoot(TreeScheme(sha), HashLeaf(sha, leaf), index, proof) == root
  }

  method VerifyMerkleProof(sha: HashFn, leaf: Digest, index: U64, proof: seq<Digest>, root: Digest, depth: nat)
    returns (ok: bool)
    ensures ok <==> ProofAccepted(sha, leaf, index, proof, root, depth)
  {
    if |proof| != depth {
      return false;
    }
    var current := FoldPath(TreeScheme(sha), HashLeaf(sha, leaf), index, proof);
    return current == root;
  }

  /** The proof of every leaf verifies against the root, padding leaves included. */
  lemma InclusionProofVerifies(sha: HashFn, addresses: seq<Digest>, i: U64)
    requires i < |PaddedHashes(sha, addresses)|
    ensures
      var d := DepthOf(sha, addresses);
      ProofAccepted(sha, PaddedHashes(sha, addresses)[i], i,
                    Siblings(TreeScheme(sha), TreeLeaves(sha, addresses), 0, i, d), SanctionsRoot(sha, addresses), d)
  {
    HonestPathAccepted(TreeScheme(sha), TreeLeaves(sha, addresses), DepthOf(sha, addresses), i);
    hide PaddedHashes, DepthOf, NodeAt, Siblings, PathRoot;
  }

  /** Every assertion of the circuit. The u64 addition wraps in a release build. */
  predicate CircuitAccepts(sha: HashFn, w: Witness, recipient: Digest) {
    && WrapAdd(w.leftIndex, 1) == w.rightIndex
    && Less(w.leftLeaf, HashAddr(sha, recipient))
    && Less(HashAddr(sha, recipient), w.rightLeaf)
    && ProofAccepted(sha, w.leftLeaf, w.leftIndex, w.leftProof, w.sanctionsRoot, w.treeDepth)
    && ProofAccepted(sha, w.rightLeaf, w.rightIndex, w.rightProof, w.sanctionsRoot, w.treeDepth)
  }

  /** `non_membership_witness`: it succeeds exactly when the address hash is not a leaf, the
      sentinels rule out the second error, and the circuit accepts the result. */
  method NonMembershipWitness(t: SanctionsTree, sha: HashFn, ghost addresses: seq<Digest>, address: Digest)
    returns (r: Result<Witness, WitnessError>)
    requires IsTreeOf(t, sha, addresses) && |addresses| < MAX_LIST
    ensures r.Ok? <==> HashAddr(sha, address) !in PaddedHashes(sha, addresses)
    ensures address in addresses || HashesToSentinel(sha, address) ==> r.Err?
    ensures r.Err? ==>
      || address in addresses || HashesToSentinel(sha, address)
      || Collision(sha, AddrCollision(sha, addresses, address))
    ensures r.Err? ==> r.error == AddressIsListed
    ensures r.Ok? ==> r.value.sanctionsRoot == SanctionsRoot(sha, addresses) && CircuitAccepts(sha, r.value, address)
  {
    HashedIsListed(sha, addresses, address);
    hide HashesToSentinel, AddrCollision, Collision;
    hide PaddedHashes, DepthOf, TreeLeaves, Less, Siblings, PathRoot, NodeAt, Repeat, IsLevel, Log2Ceil;
    var addrHash := HashAddr(sha, address);
    var hashes := t.sortedAddrHashes;
    LeavesAreSorted(sha, addresses);
    var pos := PartitionPoint(hashes, addrHash);
    if pos < |hashes| && hashes[pos] == addrHash {
      return Err(AddressIsListed);
    }
    Neighbours(hashes, addrHash, pos);
    if pos == 0 {
      return Err(SmallerThanAllLeaves);
    }
    PaddedIsShort(sha, addresses);
    var root := TreeRoot(t, sha, addresses);
    var leftProof := InclusionProof(t, sha, addresses, pos - 1);
    var rightProof := InclusionProof(t, sha, addresses, pos);
    InclusionProofVerifies(sha, addresses, pos - 1);
    InclusionProofVerifies(sha, addresses, pos);
    return Ok(Witness(root, hashes[pos - 1], hashes[pos], leftProof, rightProof, pos - 1, pos, t.depth));
  }

  /** Where an absent hash falls in a list bounded by the sentinels. */
  lemma Neighbours(hashes: seq<Digest>, h: Digest, pos: nat)
    requires |hashes| > 0 && hashes[0] == ZERO_DIGEST && hashes[|hashes| - 1] == MAX_DIGEST && Sorted(hashes)
    requires pos <= |hashes| && !(pos < |hashes| && hashes[pos] == h)
    requires forall i: nat :: i < pos ==> Less(hashes[i], h)
    requires forall i: nat :: pos <= i < |hashes| ==> AtMost(h, hashes[i])
    ensures 0 < pos < |hashes| && h !in hashes
    ensures Less(hashes[pos - 1], h) && Less(h, hashes[pos])
  {
    SentinelsBound(h);
    Trichotomy(h, ZERO_DIGEST);
    Trichotomy(h, MAX_DIGEST);
    assert 0 < pos < |hashes|;
    Trichotomy(h, hashes[pos]);
    forall i: nat | i < |hashes| ensures hashes[i] != h {
      Trichotomy(h, hashes[i]);
      LessAtMost(h, hashes[pos], hashes[i]);
    }
  }

  lemma PaddedIsShort(sha: HashFn, addresses: seq<Digest>)
    requires |addresses| < MAX_LIST
    ensures |PaddedHashes(sha, addresses)| < U64_MOD
  {
    hide Sort, Dedup, Repeat;
  }

  /** `is_sanctioned`: exactly when no witness can be had. */
  method IsSanctioned(
    t: SanctionsTree, sha: HashFn, ghost addresses: seq<Digest>, address: Digest) returns (listed: bool)
    requires IsTreeOf(t, sha, addresses)
    ensures listed <==> HashAddr(sha, address) in PaddedHashes(sha, addresses)
    ensures address in addresses || HashesToSentinel(sha, address) ==> listed
    ensures listed ==>
      || address in addresses || HashesToSentinel(sha, address)
      || Collision(sha, AddrCollision(sha, addresses, address))
  {
    HashedIsListed(sha, addresses, address);
    hide HashesToSentinel, AddrCollision, Collision;
    hide PaddedHashes, DepthOf, TreeLeaves, Less, NodeAt, Repeat, IsLevel, Log2Ceil;
    var addrHash := HashAddr(sha, address);
    LeavesAreSorted(sha, addresses);
    var pos := PartitionPoint(t.sortedAddrHashes, addrHash);
    listed := pos < |t.sortedAddrHashes| && t.sortedAddrHashes[pos] == addrHash;
    if !listed {
      Neighbours(t.sortedAddrHashes, addrHash, pos);
    }
  }

  // ---------- Soundness ----------

  /** The two children the last step of a path hashes. */
  function LastPair(s: Scheme, c: Digest, i: nat, siblings: seq<Digest>): (Digest, Digest)
    requires |siblings| > 0
    decreases |siblings|
  {
    if |siblings| == 1 then Ordered(c, i, siblings[0])
    else LastPair(s, Parent(s, c, i, siblings[0]), i / 2, siblings[1..])
  }

  lemma {:induction false} PathEndsInNode(s: Scheme, c: Digest, i: nat, siblings: seq<Digest>)
    requires |siblings| > 0
    ensures PathRoot(s, c, i, siblings) == s.Node(LastPair(s, c, i, siblings).0, LastPair(s, c, i, siblings).1)
    decreases |siblings|
  {
    if |siblings| > 1 {
      PathEndsInNode(s, Parent(s, c, i, siblings[0]), i / 2, siblings[1..]);
    } else {
      assert siblings[1..] == [];
    }
  }

  lemma {:induction false} PathSplits(s: Scheme, c: Digest, i: nat, siblings: seq<Digest>, m: nat)
    requires m <= |siblings|
    ensures PathRoot(s, c, i, siblings) == PathRoot(s, PathRoot(s, c, i, siblings[..m]), Shr(i, m), siblings[m..])
    decreases m
  {
    if m == 0 {
      assert siblings[..0] == [] && siblings[0..] == siblings;
    } else {
      PathSplits(s, Parent(s, c, i, siblings[0]), i / 2, siblings[1..], m - 1);
      assert siblings[1..][..m - 1] == siblings[..m][1..] && siblings[1..][m - 1..] == siblings[m..];
    }
  }

  /** A leaf input and a node input differ in their tags. */
  lemma TagsDiffer(s: Scheme, a: Digest, l: Digest, r: Digest)
    requires s.tag == TAG_NODE
    ensures TAG_LEAF + a.bytes != s.Input(l, r)
  {
    assert (TAG_LEAF + a.bytes)[0] == 108 && s.Input(l, r)[0] == 110;
  }

  lemma LeafInputInjective(a: Digest, b: Digest)
    requires TAG_LEAF + a.bytes == TAG_LEAF + b.bytes
    ensures a == b
  {
    assert (TAG_LEAF + a.bytes)[4..] == a.bytes && (TAG_LEAF + b.bytes)[4..] == b.bytes;
  }

  /** Where an accepted proof of a leaf that is not at its index gives SHA-256 away: along
      the path, at the leaf, or where a path of the wrong length takes a node for a leaf or
      a leaf for a node. */
  function LeafCollision(
    sha: HashFn, hashes: seq<Digest>, d: nat, leaf: Digest, index: nat, proof: seq<Digest>): (Bytes, Bytes)
    requires |hashes| == Pow2(d)
  {
    var s, leaves, k := TreeScheme(sha), LeafHashes(sha, hashes), |proof|;
    if k <= d then
      var j := index % Pow2(k);
      var onPath := PathCollision(s, leaves, d - k, HashLeaf(sha, leaf), j, proof);
      if Collision(sha, onPath) then onPath
      else if k == d then (TAG_LEAF + leaf.bytes, TAG_LEAF + hashes[j].bytes)
      else (TAG_LEAF + leaf.bytes,
            s.Input(NodeAt(s, leaves, d - k - 1, 2 * j), NodeAt(s, leaves, d - k - 1, 2 * j + 1)))
    else
      var m := k - d;
      var top := PathRoot(s, HashLeaf(sha, leaf), index, proof[..m]);
      var j := Shr(index, m) % Pow2(d);
      var onPath := PathCollision(s, leaves, 0, top, j, proof[m..]);
      var pair := LastPair(s, HashLeaf(sha, leaf), index, proof[..m]);
      if Collision(sha, onPath) then onPath
      else (s.Input(pair.0, pair.1), TAG_LEAF + hashes[j].bytes)
  }

  /** An accepted proof, of whatever length, opens the leaf at its index. */
  lemma AcceptedProofOpensLeaf(sha: HashFn, hashes: seq<Digest>, d: nat, leaf: Digest, index: nat, proof: seq<Digest>)
    requires |hashes| == Pow2(d)
    requires PathRoot(TreeScheme(sha), HashLeaf(sha, leaf), index, proof) ==
      Root(TreeScheme(sha), LeafHashes(sha, hashes), d)
    ensures
      || leaf == hashes[index % Pow2(d)]
      || Collision(sha, LeafCollision(sha, hashes, d, leaf, index, proof))
  {
    if |proof| == d {
      ExactProof(sha, hashes, leaf, index, proof);
    } else if |proof| < d {
      ShortProof(sha, hashes, d, leaf, index, proof);
    } else {
      LongProof(sha, hashes, d, leaf, index, proof);
    }
  }

  lemma ExactProof(sha: HashFn, hashes: seq<Digest>, leaf: Digest, index: nat, proof: seq<Digest>)
    requires |hashes| == Pow2(|proof|)
    requires PathRoot(TreeScheme(sha), HashLeaf(sha, leaf), index, proof) ==
      Root(TreeScheme(sha), LeafHashes(sha, hashes), |proof|)
    ensures
      || leaf == hashes[index % |hashes|]
      || Collision(sha, LeafCollision(sha, hashes, |proof|, leaf, index, proof))
  {
    hide PathRoot, PathCollision, Siblings, NodeAt, Log2Ceil, Pow2;
    AcceptedPathIsHonest(TreeScheme(sha), LeafHashes(sha, hashes), HashLeaf(sha, leaf), index, proof);
    var j := index % |hashes|;
    if leaf != hashes[j] && TAG_LEAF + leaf.bytes == TAG_LEAF + hashes[j].bytes {
      LeafInputInjective(leaf, hashes[j]);
    }
  }

  lemma ShortProof(sha: HashFn, hashes: seq<Digest>, d: nat, leaf: Digest, index: nat, proof: seq<Digest>)
    requires |hashes| == Pow2(d) && |proof| < d
    requires PathRoot(TreeScheme(sha), HashLeaf(sha, leaf), index, proof) ==
      Root(TreeScheme(sha), LeafHashes(sha, hashes), d)
    ensures Collision(sha, LeafCollision(sha, hashes, d, leaf, index, proof))
  {
    hide PathRoot, PathCollision, Siblings, SameLowBits, Shr, Log2Ceil, LeafHashes, Pow2, Ordered;
    var s, leaves, k := TreeScheme(sha), LeafHashes(sha, hashes), |proof|;
    var j := index % Pow2(k);
    LowBitsOfMod(index, k);
    ShrOfSmall(j, k);
    PathReachesNode(s, leaves, d - k, HashLeaf(sha, leaf), index, j, proof);
    TagsDiffer(s, leaf, NodeAt(s, leaves, d - k - 1, 2 * j), NodeAt(s, leaves, d - k - 1, 2 * j + 1));
  }

  lemma LongProof(sha: HashFn, hashes: seq<Digest>, d: nat, leaf: Digest, index: nat, proof: seq<Digest>)
    requires |hashes| == Pow2(d) && |proof| > d
    requires PathRoot(TreeScheme(sha), HashLeaf(sha, leaf), index, proof) ==
      Root(TreeScheme(sha), LeafHashes(sha, hashes), d)
    ensures Collision(sha, LeafCollision(sha, hashes, d, leaf, index, proof))
  {
    hide PathRoot, PathCollision, Siblings, Log2Ceil, LastPair, NodeAt, Shr, LeafHashes, Pow2;
    var s, leaves, m := TreeScheme(sha), LeafHashes(sha, hashes), |proof| - d;
    var top := PathRoot(s, HashLeaf(sha, leaf), index, proof[..m]);
    PathSplits(s, HashLeaf(sha, leaf), index, proof, m);
    PathEndsInNode(s, HashLeaf(sha, leaf), index, proof[..m]);
    var j := Shr(index, m) % Pow2(d);
    AcceptedPathIsHonest(s, leaves, top, Shr(index, m), proof[m..]);
    var pair := LastPair(s, HashLeaf(sha, leaf), index, proof[..m]);
    TagsDiffer(s, hashes[j], pair.0, pair.1);
  }

  /** The collision an accepted witness for a listed hash contains. */
  function WitnessCollision(sha: HashFn, addresses: seq<Digest>, w: Witness): (Bytes, Bytes) {
    var hashes, d := PaddedHashes(sha, addresses), DepthOf(sha, addresses);
    var left := LeafCollision(sha, hashes, d, w.leftLeaf, w.leftIndex, w.leftProof);
    if Collision(sha, left) then left
    else LeafCollision(sha, hashes, d, w.rightLeaf, w.rightIndex, w.rightProof)
  }

  /** Nothing lies strictly between neighbours of a sorted list; and the pair (last, first)
      that an index wrapping past the end would open has nothing between it either. */
  lemma NothingBetween(hashes: seq<Digest>, h: Digest, i: nat, j: nat)
    requires Sorted(hashes) && i < |hashes| && j < |hashes|
    requires j == i + 1 || j == 0
    requires Less(hashes[i], h) && Less(h, hashes[j])
    ensures h !in hashes
  {
    hide Less;
    Trichotomy(hashes[i], hashes[j]);
    LessTransitive(hashes[i], h, hashes[j]);
    forall k: nat | k < |hashes| ensures hashes[k] != h {
      Trichotomy(hashes[i], h);
      Trichotomy(h, hashes[j]);
      Trichotomy(hashes[k], h);
    }
  }

  lemma NextIndex(i: U64, d: nat)
    ensures
      var here, next := i % Pow2(d), WrapAdd(i, 1) % Pow2(d);
      next == here + 1 || next == 0
  {
    var p := Pow2(d);
    if WrapAdd(i, 1) == 0 {
      ModUnique(0, p, 0, 0);
    } else {
      DivMod(i, p);
      var q, r := i / p, i % p;
      if r + 1 < p {
        ModUnique(i + 1, p, q, r + 1);
      } else {
        assert (q + 1) * p == q * p + p;
        ModUnique(i + 1, p, q + 1, 0);
      }
    }
  }

  lemma ListedIsLeaf(sha: HashFn, addresses: seq<Digest>, a: Digest)
    ensures a in addresses ==> HashAddr(sha, a) in PaddedHashes(sha, addresses)
  {
    hide PaddedHashes, Sorted, Repeat;
    LeavesAreSorted(sha, addresses);
    if a in addresses {
      var i :| 0 <= i < |addresses| && addresses[i] == a;
      assert AddrHashes(sha, addresses)[i] == HashAddr(sha, a);
    }
  }

  /** Soundness: if the circuit accepts a witness against the root built from a list, at any
      depth and indices the prover likes, then the recipient is not on the list, or the
      witness contains a SHA-256 collision. */
  lemma AcceptedRecipientIsNotListed(sha: HashFn, addresses: seq<Digest>, w: Witness, recipient: Digest)
    requires w.sanctionsRoot == SanctionsRoot(sha, addresses)
    requires CircuitAccepts(sha, w, recipient)
    ensures
      || (HashAddr(sha, recipient) !in PaddedHashes(sha, addresses) && recipient !in addresses)
      || Collision(sha, WitnessCollision(sha, addresses, w))
  {
    var hashes, d := PaddedHashes(sha, addresses), DepthOf(sha, addresses);
    AcceptedProofOpensLeaf(sha, hashes, d, w.leftLeaf, w.leftIndex, w.leftProof);
    AcceptedProofOpensLeaf(sha, hashes, d, w.rightLeaf, w.rightIndex, w.rightProof);
    LeavesAreSorted(sha, addresses);
    ListedIsLeaf(sha, addresses, recipient);
    NextIndex(w.leftIndex, d);
    hide LeafCollision, PaddedHashes, DepthOf, Less, PathRoot, NodeAt, LeafHashes, Sorted;
    if !Collision(sha, WitnessCollision(sha, addresses, w)) {
      NothingBetween(hashes, HashAddr(sha, recipient), w.leftIndex % Pow2(d), w.rightIndex % Pow2(d));
    }
  }

  /** A witness of two neighbouring leaves around h, with the honest path of each. Indices
      count modulo the number of leaves. */
  ghost predicate HonestWitness(sha: HashFn, addresses: seq<Digest>, w: Witness, h: Digest) {
    var hashes, leaves, d := PaddedHashes(sha, addresses), TreeLeaves(sha, addresses), DepthOf(sha, addresses);
    var i, j := w.leftIndex % Pow2(d), w.rightIndex % Pow2(d);
    && w.treeDepth == d
    && (w.rightIndex == w.leftIndex + 1 || (w.leftIndex == U64_MOD - 1 && w.rightIndex == 0))
    && w.leftLeaf == hashes[i] && w.leftProof == Siblings(TreeScheme(sha), leaves, 0, i, d)
    && w.rightLeaf == hashes[j] && w.rightProof == Siblings(TreeScheme(sha), leaves, 0, j, d)
    && Less(hashes[i], h) && Less(h, hashes[j])
  }

  lemma HonestProofAccepted(sha: HashFn, addresses: seq<Digest>, index: U64)
    ensures
      var d := DepthOf(sha, addresses);
      var i := index % Pow2(d);
      ProofAccepted(sha, PaddedHashes(sha, addresses)[i], index,
                    Siblings(TreeScheme(sha), TreeLeaves(sha, addresses), 0, i, d), SanctionsRoot(sha, addresses), d)
  {
    var d := DepthOf(sha, addresses);
    var i := index % Pow2(d);
    hide DepthOf, PaddedHashes, NodeAt, Siblings, PathRoot, SameLowBits;
    LowBitsOfMod(index, d);
    HonestPathAccepted(TreeScheme(sha), TreeLeaves(sha, addresses), d, i);
    PathReadsLowBits(TreeScheme(sha), TreeLeaves(sha, addresses)[i], index, i,
                     Siblings(TreeScheme(sha), TreeLeaves(sha, addresses), 0, i, d));
  }

  lemma AcceptedProofIsHonest(
    sha: HashFn, addresses: seq<Digest>, leaf: Digest, index: U64, proof: seq<Digest>, depth: nat)
    requires ProofAccepted(sha, leaf, index, proof, SanctionsRoot(sha, addresses), depth)
    ensures
      var hashes, d := PaddedHashes(sha, addresses), DepthOf(sha, addresses);
      var i := index % Pow2(d);
      || (depth == d && leaf == hashes[i] && proof == Siblings(TreeScheme(sha), TreeLeaves(sha, addresses), 0, i, d))
      || Collision(sha, LeafCollision(sha, hashes, d, leaf, index, proof))
  {
    var hashes, d := PaddedHashes(sha, addresses), DepthOf(sha, addresses);
    hide DepthOf, PaddedHashes, NodeAt, Siblings, PathRoot, PathCollision, Log2Ceil;
    AcceptedProofOpensLeaf(sha, hashes, d, leaf, index, proof);
    if depth < d {
      ShortProof(sha, hashes, d, leaf, index, proof);
    } else if depth > d {
      LongProof(sha, hashes, d, leaf, index, proof);
    } else {
      AcceptedPathIsHonest(TreeScheme(sha), LeafHashes(sha, hashes), HashLeaf(sha, leaf), index, proof);
    }
  }

  /** The circuit exactly: against the root built from a list, it accepts the honest witnesses
      for the recipient's hash and, collisions apart, no other. */
  lemma CircuitIsExact(sha: HashFn, addresses: seq<Digest>, w: Witness, recipient: Digest)
    requires w.sanctionsRoot == SanctionsRoot(sha, addresses)
    ensures HonestWitness(sha, addresses, w, sha([97, 100, 100, 114] + recipient.bytes)) ==>
      CircuitAccepts(sha, w, recipient)
    ensures CircuitAccepts(sha, w, recipient) ==>
      || HonestWitness(sha, addresses, w, sha([97, 100, 100, 114] + recipient.bytes))
      || Collision(sha, WitnessCollision(sha, addresses, w))
  {
    hide LeafCollision, PaddedHashes, DepthOf, Less, PathRoot, Siblings, NodeAt, LeafHashes, TreeLeaves, SanctionsRoot;
    HonestProofAccepted(sha, addresses, w.leftIndex);
    HonestProofAccepted(sha, addresses, w.rightIndex);
    if CircuitAccepts(sha, w, recipient) {
      AcceptedProofIsHonest(sha, addresses, w.leftLeaf, w.leftIndex, w.leftProof, w.treeDepth);
      AcceptedProofIsHonest(sha, addresses, w.rightLeaf, w.rightIndex, w.rightProof, w.treeDepth);
    }
    hide ProofAccepted;
  }
}
