/** Binary Merkle trees: one theory for the commitment tree, the SSZ trees and the
    sanctions tree, which differ only in the tag their node hash prepends and in the
    leaf they pad with. */
module MerkleTree {
  import opened ByteStrings

  /** A node is hash(tag + left + right); missing leaves are `pad`. */
  datatype Scheme = Scheme(hash: HashFn, tag: Bytes, pad: Digest) {
    function Input(l: Digest, r: Digest): Bytes {
      tag + l.bytes + r.bytes
    }

    function Node(l: Digest, r: Digest): Digest {
      hash(Input(l, r))
    }

    lemma InputInjective(l: Digest, r: Digest, l': Digest, r': Digest)
      ensures Input(l, r) == Input(l', r') ==> l == l' && r == r'
    {
      var a, b := Input(l, r), Input(l', r');
      var t := |tag|;
      if a == b {
        assert l.bytes == a[t..t + 32] && l'.bytes == b[t..t + 32];
        assert r.bytes == a[t + 32..] && r'.bytes == b[t + 32..];
      }
    }
  }

  /** The commitment tree and SSZ: nodes are SHA256(left + right), an empty leaf is 32 zero
      bytes. */
  function PairScheme(sha: HashFn): Scheme {
    Scheme(sha, [], ZERO_DIGEST)
  }

  /** The exponent of `next_power_of_two`. */
  function Log2Ceil(n: nat): (d: nat)
    ensures n <= Pow2(d) && (d > 0 ==> Pow2(d - 1) < n)
    decreases n
  {
    if n <= 1 then 0 else 1 + Log2Ceil((n + 1) / 2)
  }

  // ---------- Trees ----------

  function LeafAt(s: Scheme, leaves: seq<Digest>, j: nat): Digest {
    if j < |leaves| then leaves[j] else s.pad
  }

  /** Node j of level l, level 0 being the padded leaves. */
  function NodeAt(s: Scheme, leaves: seq<Digest>, l: nat, j: nat): Digest
    decreases l
  {
    if l == 0 then LeafAt(s, leaves, j)
    else s.Node(NodeAt(s, leaves, l - 1, 2 * j), NodeAt(s, leaves, l - 1, 2 * j + 1))
  }

  /** The root of the depth-d tree. */
  function Root(s: Scheme, leaves: seq<Digest>, d: nat): Digest {
    NodeAt(s, leaves, d, 0)
  }

  /** The root of an all-padding subtree with 2^l leaves. */
  function PadNode(s: Scheme, l: nat): Digest {
    if l == 0 then s.pad else s.Node(PadNode(s, l - 1), PadNode(s, l - 1))
  }

  /** i shifted right k times: the index, k levels up, of the node above node i. */
  function Shr(i: nat, k: nat): nat {
    if k == 0 then i else Shr(i / 2, k - 1)
  }

  /** A subtree to the right of every leaf is all padding. */
  lemma {:induction false} BeyondLeavesIsPad(s: Scheme, leaves: seq<Digest>, l: nat, j: nat)
    requires |leaves| <= j * Pow2(l)
    ensures NodeAt(s, leaves, l, j) == PadNode(s, l)
    decreases l
  {
    if l > 0 {
      assert 2 * j * Pow2(l - 1) == j * Pow2(l);
      assert (2 * j + 1) * Pow2(l - 1) == 2 * j * Pow2(l - 1) + Pow2(l - 1);
      BeyondLeavesIsPad(s, leaves, l - 1, 2 * j);
      BeyondLeavesIsPad(s, leaves, l - 1, 2 * j + 1);
    }
  }

  /** Changing leaf n leaves alone every node that is not above it. */
  lemma {:induction false} OffPathUnchanged(s: Scheme, a: seq<Digest>, b: seq<Digest>, n: nat, l: nat, j: nat)
    requires forall k: nat :: k != n ==> LeafAt(s, a, k) == LeafAt(s, b, k)
    requires j != Shr(n, l)
    ensures NodeAt(s, a, l, j) == NodeAt(s, b, l, j)
    decreases l
  {
    if l > 0 {
      ShrStep(n, l - 1);
      OffPathUnchanged(s, a, b, n, l - 1, 2 * j);
      OffPathUnchanged(s, a, b, n, l - 1, 2 * j + 1);
    }
  }

  lemma {:induction false} ShrStep(i: nat, k: nat)
    ensures Shr(i, k + 1) == Shr(i, k) / 2
    decreases k
  {
    if k > 0 {
      ShrStep(i / 2, k - 1);
    }
  }

  lemma {:induction false} ShrBounds(i: nat, k: nat)
    ensures Shr(i, k) * Pow2(k) <= i < (Shr(i, k) + 1) * Pow2(k)
    decreases k
  {
    if k > 0 {
      var q := Shr(i / 2, k - 1);
      ShrBounds(i / 2, k - 1);
      MulDouble(q, Pow2(k - 1));
      MulDouble(q + 1, Pow2(k - 1));
      DoubleBounds(i, q * Pow2(k - 1), (q + 1) * Pow2(k - 1));
    }
  }

  lemma ShrIsDivision(i: nat, k: nat)
    ensures Shr(i, k) == i / Pow2(k)
  {
    hide Shr, Pow2;
    var q, p := Shr(i, k), Pow2(k);
    ShrBounds(i, k);
    Distribute(p, q, 1);
    QuotientIs(i, p, q, i - q * p);
  }

  lemma DoubleBounds(i: nat, x: nat, y: nat)
    requires x <= i / 2 < y
    ensures 2 * x <= i < 2 * y
  {
  }

  lemma ShrOfSmall(i: nat, k: nat)
    requires i < Pow2(k)
    ensures Shr(i, k) == 0
  {
    ShrBounds(i, k);
    assert Shr(i, k) >= 1 ==> Shr(i, k) * Pow2(k) >= Pow2(k);
  }

  // ---------- What a root is, in bytes ----------

  function LeafFrom(s: Scheme, leaves: seq<Digest>, start: nat, k: nat): Digest {
    LeafAt(s, leaves, start + k)
  }

  /** n leaves of one list from x on are those of another from y on. */
  ghost predicate SameRun(s: Scheme, a: seq<Digest>, x: nat, b: seq<Digest>, y: nat, n: nat) {
    forall k: nat :: k < n ==> LeafFrom(s, a, x, k) == LeafFrom(s, b, y, k)
  }

  lemma SplitRun(s: Scheme, a: seq<Digest>, x: nat, b: seq<Digest>, y: nat, p: nat)
    requires SameRun(s, a, x, b, y, 2 * p)
    ensures SameRun(s, a, x, b, y, p) && SameRun(s, a, x + p, b, y + p, p)
  {
    var x', y' := x + p, y + p;
    forall k: nat | k < p ensures LeafFrom(s, a, x', k) == LeafFrom(s, b, y', k) {
      assert LeafFrom(s, a, x, p + k) == LeafFrom(s, b, y, p + k);
    }
  }

  /** Nodes over equal leaves are equal, in any two trees and wherever they stand. */
  lemma {:induction false} SameBelow(s: Scheme, a: seq<Digest>, j: nat, b: seq<Digest>, i: nat, l: nat)
    requires SameRun(s, a, j * Pow2(l), b, i * Pow2(l), Pow2(l))
    ensures NodeAt(s, a, l, j) == NodeAt(s, b, l, i)
    decreases l
  {
    if l == 0 {
      assert LeafFrom(s, a, j, 0) == LeafFrom(s, b, i, 0);
    } else {
      var p := Pow2(l - 1);
      SplitIndex(j, p);
      SplitIndex(i, p);
      SplitRun(s, a, j * Pow2(l), b, i * Pow2(l), p);
      hide SameRun;
      SameBelow(s, a, 2 * j, b, 2 * i, l - 1);
      SameBelow(s, a, 2 * j + 1, b, 2 * i + 1, l - 1);
    }
  }

  lemma SplitIndex(j: nat, p: nat)
    ensures j * (2 * p) == 2 * j * p && (2 * j + 1) * p == 2 * j * p + p
  {
  }

  /** The leaves of the two halves of a tree with 2^(d+1) leaves. */
  function LeftHalf(leaves: seq<Digest>, d: nat): seq<Digest> {
    if |leaves| <= Pow2(d) then leaves else leaves[..Pow2(d)]
  }

  function RightHalf(leaves: seq<Digest>, d: nat): seq<Digest> {
    if |leaves| <= Pow2(d) then [] else leaves[Pow2(d)..]
  }

  lemma RootSplits(s: Scheme, leaves: seq<Digest>, d: nat)
    ensures Root(s, leaves, d + 1) == s.Node(Root(s, LeftHalf(leaves, d), d), Root(s, RightHalf(leaves, d), d))
  {
    var p := Pow2(d);
    assert 0 * p == 0 && 1 * p == p;
    assert SameRun(s, leaves, 0, LeftHalf(leaves, d), 0, p);
    assert SameRun(s, leaves, p, RightHalf(leaves, d), 0, p);
    SameBelow(s, leaves, 0, LeftHalf(leaves, d), 0, d);
    SameBelow(s, leaves, 1, RightHalf(leaves, d), 0, d);
  }

  /** The pair tree, hash by hash: a single leaf is its own root, no leaf at all is 32 zero
      bytes, and a tree hashes the root of its left half before the root of its right. */
  lemma PairRootInBytes(sha: HashFn, leaves: seq<Digest>, d: nat)
    ensures Root(PairScheme(sha), [], 0).bytes == Repeat(0, 32)
    ensures |leaves| > 0 ==> Root(PairScheme(sha), leaves, 0) == leaves[0]
    ensures
      Root(PairScheme(sha), leaves, d + 1)
      == sha(Root(PairScheme(sha), LeftHalf(leaves, d), d).bytes + Root(PairScheme(sha), RightHalf(leaves, d), d).bytes)
  {
    hide LeftHalf, RightHalf;
    RootSplits(PairScheme(sha), leaves, d);
    var l: Bytes := Root(PairScheme(sha), LeftHalf(leaves, d), d).bytes;
    var r: Bytes := Root(PairScheme(sha), RightHalf(leaves, d), d).bytes;
    assert [] + l + r == l + r;
  }

  /** Two leaves, hashed first leaf first. */
  lemma TwoLeafRoot(sha: HashFn, a: Digest, b: Digest)
    ensures Root(PairScheme(sha), [a, b], 1) == sha(a.bytes + b.bytes)
  {
    assert Pow2(0) == 1;
    PairRootInBytes(sha, [a, b], 0);
    PairRootInBytes(sha, [a], 0);
    PairRootInBytes(sha, [b], 0);
    assert [a, b][..1] == [a] && [a, b][1..] == [b];
  }

  // ---------- Paths ----------

  /** A node and its sibling in left-right order, for a node at index i. */
  function Ordered(c: Digest, i: nat, sibling: Digest): (Digest, Digest) {
    if i % 2 == 0 then (c, sibling) else (sibling, c)
  }

  function Parent(s: Scheme, c: Digest, i: nat, sibling: Digest): Digest {
    s.Node(Ordered(c, i, sibling).0, Ordered(c, i, sibling).1)
  }

  /** What a path verifier computes from a leaf, its index and its siblings. */
  function PathRoot(s: Scheme, c: Digest, i: nat, siblings: seq<Digest>): Digest
    decreases |siblings|
  {
    if |siblings| == 0 then c
    else PathRoot(s, Parent(s, c, i, siblings[0]), i / 2, siblings[1..])
  }

  function SiblingIndex(i: nat): nat {
    if i % 2 == 0 then i + 1 else i - 1
  }

  /** The honest siblings on the way up k levels from node i of level l. */
  function Siblings(s: Scheme, leaves: seq<Digest>, l: nat, i: nat, k: nat): (b: seq<Digest>)
    ensures |b| == k
    decreases k
  {
    if k == 0 then []
    else [NodeAt(s, leaves, l, SiblingIndex(i))] + Siblings(s, leaves, l + 1, i / 2, k - 1)
  }

  lemma {:induction false} SiblingsAt(s: Scheme, leaves: seq<Digest>, l: nat, i: nat, k: nat, m: nat)
    requires m < k
    ensures Siblings(s, leaves, l, i, k)[m] == NodeAt(s, leaves, l + m, SiblingIndex(Shr(i, m)))
    decreases k
  {
    if m > 0 {
      SiblingsAt(s, leaves, l + 1, i / 2, k - 1, m - 1);
    }
  }

  lemma ParentOfHonest(s: Scheme, leaves: seq<Digest>, l: nat, i: nat)
    ensures Parent(s, NodeAt(s, leaves, l, i), i, NodeAt(s, leaves, l, SiblingIndex(i)))
         == NodeAt(s, leaves, l + 1, i / 2)
  {
    if i % 2 == 0 {
      assert i == 2 * (i / 2);
    } else {
      assert i == 2 * (i / 2) + 1;
    }
  }

  /** Climbing with the honest siblings reaches the honest node. */
  lemma {:induction false} SiblingsLeadUp(s: Scheme, leaves: seq<Digest>, l: nat, i: nat, k: nat)
    ensures PathRoot(s, NodeAt(s, leaves, l, i), i, Siblings(s, leaves, l, i, k)) == NodeAt(s, leaves, l + k, Shr(i, k))
    decreases k
  {
    if k > 0 {
      hide NodeAt;
      ParentOfHonest(s, leaves, l, i);
      SiblingsLeadUp(s, leaves, l + 1, i / 2, k - 1);
    }
  }

  /** Completeness: every leaf's honest path leads to the root. */
  lemma HonestPathAccepted(s: Scheme, leaves: seq<Digest>, d: nat, i: nat)
    requires i < Pow2(d)
    ensures PathRoot(s, LeafAt(s, leaves, i), i, Siblings(s, leaves, 0, i, d)) == Root(s, leaves, d)
  {
    SiblingsLeadUp(s, leaves, 0, i, d);
    ShrOfSmall(i, d);
  }

  /** A verifier reads only the low k bits of an index. */
  predicate SameLowBits(i: nat, j: nat, k: nat)
    decreases k
  {
    k == 0 || (i % 2 == j % 2 && SameLowBits(i / 2, j / 2, k - 1))
  }

  /** The low k bits of i. */
  function LowBits(i: nat, k: nat): nat
    decreases k
  {
    if k == 0 then 0 else 2 * LowBits(i / 2, k - 1) + i % 2
  }

  lemma {:induction false} LowBitsAreSame(i: nat, k: nat)
    ensures SameLowBits(i, LowBits(i, k), k)
    decreases k
  {
    if k > 0 {
      HalfOfSum(LowBits(i, k), LowBits(i / 2, k - 1), i % 2);
      LowBitsAreSame(i / 2, k - 1);
    }
  }

  lemma {:induction false} LowBitsSplit(i: nat, k: nat)
    ensures i == Shr(i, k) * Pow2(k) + LowBits(i, k) && LowBits(i, k) < Pow2(k)
    decreases k
  {
    if k > 0 {
      LowBitsSplit(i / 2, k - 1);
      MulDouble(Shr(i / 2, k - 1), Pow2(k - 1));
    }
  }

  lemma LowBitsOfMod(i: nat, k: nat)
    ensures SameLowBits(i, i % Pow2(k), k)
  {
    LowBitsAreSame(i, k);
    LowBitsSplit(i, k);
    ModUnique(i, Pow2(k), Shr(i, k), LowBits(i, k));
  }

  lemma DivMod(x: nat, m: nat)
    requires m > 0
    ensures x == (x / m) * m + x % m && x % m < m
  {
  }

  lemma MulDouble(q: nat, m: nat)
    ensures q * (2 * m) == 2 * (q * m)
  {
  }

  lemma ModUnique(x: nat, m: nat, q: nat, r: nat)
    requires r < m && x == q * m + r
    ensures x % m == r
  {
    DivMod(x, m);
    MulGap(q, x / m, m, r, x % m);
  }

  lemma MulGap(q: nat, q': nat, m: nat, r: nat, r': nat)
    requires r < m && r' < m && q * m + r == q' * m + r'
    ensures r == r'
  {
    if q < q' {
      assert (q' - q) * m == q' * m - q * m;
      MulAtLeast(q' - q, m);
    } else if q' < q {
      assert (q - q') * m == q * m - q' * m;
      MulAtLeast(q - q', m);
    }
  }

  lemma MulAtLeast(k: nat, m: nat)
    requires k > 0
    ensures k * m >= m
  {
    assert k * m == (k - 1) * m + m;
  }

  /** Follows a verifier's path beside the honest path of node j, and returns the first
      pair of different children that hash to one digest. */
  function PathCollision(
    s: Scheme, leaves: seq<Digest>, l: nat, c: Digest, j: nat, siblings: seq<Digest>): (Bytes, Bytes)
    decreases |siblings|
  {
    if |siblings| == 0 then ([], [])
    else
      var mine := Ordered(c, j, siblings[0]);
      var honest := Ordered(NodeAt(s, leaves, l, j), j, NodeAt(s, leaves, l, SiblingIndex(j)));
      if mine != honest && s.Node(mine.0, mine.1) == s.Node(honest.0, honest.1) then
        (s.Input(mine.0, mine.1), s.Input(honest.0, honest.1))
      else
        PathCollision(s, leaves, l + 1, Parent(s, c, j, siblings[0]), j / 2, siblings[1..])
  }

  /** A path that reaches the honest node above j started at node j, with the honest
      siblings, or else the two paths contain a collision. */
  lemma {:induction false} PathReachesNode(
    s: Scheme, leaves: seq<Digest>, l: nat, c: Digest, i: nat, j: nat, siblings: seq<Digest>)
    requires SameLowBits(i, j, |siblings|)
    requires PathRoot(s, c, i, siblings) == NodeAt(s, leaves, l + |siblings|, Shr(j, |siblings|))
    ensures
      || (c == NodeAt(s, leaves, l, j) && siblings == Siblings(s, leaves, l, j, |siblings|))
      || Collision(s.hash, PathCollision(s, leaves, l, c, j, siblings))
    decreases |siblings|
  {
    hide NodeAt;
    if |siblings| > 0 {
      var mine := Ordered(c, j, siblings[0]);
      var honest := Ordered(NodeAt(s, leaves, l, j), j, NodeAt(s, leaves, l, SiblingIndex(j)));
      ParentOfHonest(s, leaves, l, j);
      if mine != honest && s.Node(mine.0, mine.1) == s.Node(honest.0, honest.1) {
        s.InputInjective(mine.0, mine.1, honest.0, honest.1);
      } else {
        PathReachesNode(s, leaves, l + 1, Parent(s, c, j, siblings[0]), i / 2, j / 2, siblings[1..]);
        assert siblings == [siblings[0]] + siblings[1..];
      }
    }
  }

  /** Soundness: an accepted path is the honest path of the leaf at index i mod 2^d. */
  lemma AcceptedPathIsHonest(s: Scheme, leaves: seq<Digest>, c: Digest, i: nat, siblings: seq<Digest>)
    requires PathRoot(s, c, i, siblings) == Root(s, leaves, |siblings|)
    ensures
      var j := i % Pow2(|siblings|);
      || (c == LeafAt(s, leaves, j) && siblings == Siblings(s, leaves, 0, j, |siblings|))
      || Collision(s.hash, PathCollision(s, leaves, 0, c, j, siblings))
  {
    var j := i % Pow2(|siblings|);
    LowBitsOfMod(i, |siblings|);
    ShrOfSmall(j, |siblings|);
    PathReachesNode(s, leaves, 0, c, i, j, siblings);
  }

  /** Index bits past the last sibling are not read. */
  lemma {:induction false} PathReadsLowBits(s: Scheme, c: Digest, i: nat, j: nat, siblings: seq<Digest>)
    requires SameLowBits(i, j, |siblings|)
    ensures PathRoot(s, c, i, siblings) == PathRoot(s, c, j, siblings)
    decreases |siblings|
  {
    if |siblings| > 0 {
      PathReadsLowBits(s, Parent(s, c, i, siblings[0]), i / 2, j / 2, siblings[1..]);
    }
  }

  // ---------- Binding ----------

  /** Descends two trees from node j of level l and returns the first place where
      different children hash to one digest. */
  function RootCollision(s: Scheme, a: seq<Digest>, b: seq<Digest>, l: nat, j: nat): (Bytes, Bytes)
    decreases l
  {
    if l == 0 then ([], [])
    else
      var a0, a1 := NodeAt(s, a, l - 1, 2 * j), NodeAt(s, a, l - 1, 2 * j + 1);
      var b0, b1 := NodeAt(s, b, l - 1, 2 * j), NodeAt(s, b, l - 1, 2 * j + 1);
      if (a0, a1) != (b0, b1) then (s.Input(a0, a1), s.Input(b0, b1))
      else
        var left := RootCollision(s, a, b, l - 1, 2 * j);
        if Collision(s.hash, left) then left else RootCollision(s, a, b, l - 1, 2 * j + 1)
  }

  /** Equal nodes have equal leaves below them. */
  lemma {:induction false} NodeBindsLeaves(s: Scheme, a: seq<Digest>, b: seq<Digest>, l: nat, j: nat, k: nat)
    requires NodeAt(s, a, l, j) == NodeAt(s, b, l, j)
    requires j * Pow2(l) <= k < (j + 1) * Pow2(l)
    ensures LeafAt(s, a, k) == LeafAt(s, b, k) || Collision(s.hash, RootCollision(s, a, b, l, j))
    decreases l
  {
    if l == 0 {
      assert k == j;
    } else {
      var a0, a1 := NodeAt(s, a, l - 1, 2 * j), NodeAt(s, a, l - 1, 2 * j + 1);
      var b0, b1 := NodeAt(s, b, l - 1, 2 * j), NodeAt(s, b, l - 1, 2 * j + 1);
      if (a0, a1) != (b0, b1) {
        s.InputInjective(a0, a1, b0, b1);
      } else {
        var p := Pow2(l - 1);
        assert 2 * j * p == j * Pow2(l);
        assert (2 * j + 1) * p == 2 * j * p + p;
        assert (2 * j + 2) * p == (j + 1) * Pow2(l);
        NodeBindsLeaves(s, a, b, l - 1, 2 * j + (if k < (2 * j + 1) * p then 0 else 1), k);
      }
    }
  }

  lemma RootBindsLeaf(s: Scheme, a: seq<Digest>, b: seq<Digest>, d: nat, k: nat)
    requires k < Pow2(d) && Root(s, a, d) == Root(s, b, d)
    ensures LeafAt(s, a, k) == LeafAt(s, b, k) || Collision(s.hash, RootCollision(s, a, b, d, 0))
  {
    assert 0 * Pow2(d) == 0 && 1 * Pow2(d) == Pow2(d);
    NodeBindsLeaves(s, a, b, d, 0, k);
  }

  /** A root binds every leaf. */
  lemma RootBindsLeaves(s: Scheme, a: seq<Digest>, b: seq<Digest>, d: nat)
    requires |a| == |b| <= Pow2(d)
    requires Root(s, a, d) == Root(s, b, d)
    ensures a == b || Collision(s.hash, RootCollision(s, a, b, d, 0))
  {
    if !Collision(s.hash, RootCollision(s, a, b, d, 0)) {
      forall k: nat | k < |a| ensures a[k] == b[k] {
        RootBindsLeaf(s, a, b, d, k);
      }
    }
  }

  // ---------- Loops ----------

  /** `level` holds the first nodes of level l. */
  ghost predicate IsLevel(s: Scheme, leaves: seq<Digest>, l: nat, level: seq<Digest>) {
    forall j: nat :: j < |level| ==> level[j] == NodeAt(s, leaves, l, j)
  }

  lemma LeavesAreLevelZero(s: Scheme, leaves: seq<Digest>)
    ensures IsLevel(s, leaves, 0, leaves)
  {
  }

  /** A level-by-level walk up from leaf i finds the honest sibling at every level. */
  lemma LevelSibling(s: Scheme, leaves: seq<Digest>, level: seq<Digest>, d: nat, l: nat, i: nat)
    requires l < d && |level| == Pow2(d - l) && IsLevel(s, leaves, l, level) && Shr(i, l) < |level|
    ensures |level| % 2 == 0 && |level| / 2 == Pow2(d - (l + 1))
    ensures SiblingIndex(Shr(i, l)) < |level|
    ensures level[SiblingIndex(Shr(i, l))] == Siblings(s, leaves, 0, i, d)[l]
    ensures Shr(i, l) / 2 == Shr(i, l + 1) < |level| / 2
  {
    hide NodeAt, Siblings;
    assert Pow2(d - l) == 2 * Pow2(d - (l + 1));
    ShrStep(i, l);
    SiblingsAt(s, leaves, 0, i, d, l);
  }

  /** One pass over a level, two nodes at a time. */
  method HashPairs(s: Scheme, level: seq<Digest>, ghost leaves: seq<Digest>, ghost l: nat) returns (next: seq<Digest>)
    requires |level| % 2 == 0 && IsLevel(s, leaves, l, level)
    ensures |next| == |level| / 2 && IsLevel(s, leaves, l + 1, next)
  {
    next := [];
    var i := 0;
    while i < |level|
      invariant 0 <= i <= |level| && i % 2 == 0 && |next| == i / 2
      invariant IsLevel(s, leaves, l + 1, next)
    {
      assert level[i] == NodeAt(s, leaves, l, 2 * |next|) && level[i + 1] == NodeAt(s, leaves, l, 2 * |next| + 1);
      next := next + [s.Node(level[i], level[i + 1])];
      i := i + 2;
    }
  }

  /** The verifier's loop over a sibling list. */
  method FoldPath(s: Scheme, leaf: Digest, leafIndex: nat, siblings: seq<Digest>) returns (root: Digest)
    ensures root == PathRoot(s, leaf, leafIndex, siblings)
  {
    root := leaf;
    var index := leafIndex;
    for k := 0 to |siblings|
      invariant PathRoot(s, root, index, siblings[k..]) == PathRoot(s, leaf, leafIndex, siblings)
    {
      assert siblings[k..][1..] == siblings[k + 1..];
      root := if index % 2 == 0 then s.Node(root, siblings[k]) else s.Node(siblings[k], root);
      index := index / 2;
    }
  }
}
