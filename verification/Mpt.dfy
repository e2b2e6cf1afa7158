/** Merkle-Patricia tries (Yellow Paper, Appendix D) and the circuit's proof verifier. */
module Mpt {
  import opened ByteStrings
  import opened HexPrefix
  import opened Rlp

  // ---------- Tries ----------

  /** A branch without a value holds the empty string. */
  datatype Trie =
    | Empty
    | Leaf(path: seq<Nibble>, value: Bytes)
    | Extension(path: seq<Nibble>, child: Trie)
    | Branch(children: seq<Trie>, value: Bytes)

  predicate WellFormed(t: Trie) {
    match t
    case Empty => true
    case Leaf(_, _) => true
    case Extension(_, child) => WellFormed(child)
    case Branch(children, _) => |children| == 16 && forall i :: 0 <= i < |children| ==> WellFormed(children[i])
  }

  /** What the trie stores at a path. */
  function Lookup(t: Trie, ns: seq<Nibble>): Option<Bytes>
    requires WellFormed(t)
  {
    match t
    case Empty => None
    case Leaf(path, value) => if ns == path then Some(value) else None
    case Extension(path, child) => if path <= ns then Lookup(child, ns[|path|..]) else None
    case Branch(children, value) =>
      if |ns| > 0 then Lookup(children[ns[0]], ns[1..])
      else if |value| > 0 then Some(value) else None
  }

  /** The value slot at a path, which in a branch without a value reads as the empty string. */
  function Slot(t: Trie, ns: seq<Nibble>): Option<Bytes>
    requires WellFormed(t)
  {
    match t
    case Empty => None
    case Leaf(path, value) => if ns == path then Some(value) else None
    case Extension(path, child) => if path <= ns then Slot(child, ns[|path|..]) else None
    case Branch(children, value) => if |ns| == 0 then Some(value) else Slot(children[ns[0]], ns[1..])
  }

  /** For values that are not empty, slot and stored value are one. */
  lemma {:induction false} SlotIsLookup(t: Trie, ns: seq<Nibble>, value: Bytes)
    requires WellFormed(t) && |value| > 0
    ensures Slot(t, ns) == Some(value) <==> Lookup(t, ns) == Some(value)
    decreases t
  {
    match t
    case Empty =>
    case Leaf(_, _) =>
    case Extension(path, child) =>
      if path <= ns {
        SlotIsLookup(child, ns[|path|..], value);
      }
    case Branch(children, _) =>
      if |ns| > 0 {
        SlotIsLookup(children[ns[0]], ns[1..], value);
      }
  }

  /** The items of a node's RLP list. */
  function NodeItems(keccak: HashFn, t: Trie): seq<Item>
    decreases t, 1
  {
    match t
    case Empty => []
    case Leaf(path, value) => [Str(HpEncode(path, true)), Str(value)]
    case Extension(path, child) => [Str(HpEncode(path, false)), Ref(keccak, child)]
    case Branch(children, value) => Refs(keccak, children) + [Str(value)]
  }

  function Encode(keccak: HashFn, t: Trie): Bytes
    decreases t, 2
  {
    if t.Empty? then [0x80] else EncodeList(Payload(NodeItems(keccak, t)))
  }

  /** How a node names a child: nothing, the child itself if shorter than 32 bytes, or its
      hash. */
  function Ref(keccak: HashFn, t: Trie): Item
    decreases t, 3
  {
    if t.Empty? then Str([])
    else if |Encode(keccak, t)| < 32 then Nested(Payload(NodeItems(keccak, t)))
    else Str(keccak(Encode(keccak, t)).bytes)
  }

  function Refs(keccak: HashFn, ts: seq<Trie>): (r: seq<Item>)
    ensures |r| == |ts| && forall i :: 0 <= i < |r| ==> r[i] == Ref(keccak, ts[i])
    decreases ts, 0
  {
    if |ts| == 0 then [] else [Ref(keccak, ts[0])] + Refs(keccak, ts[1..])
  }

  function RootHash(keccak: HashFn, t: Trie): Digest {
    keccak(Encode(keccak, t))
  }

  /** How a child appears in its parent's encoding (Yellow Paper, Appendix D): the empty
      string, the node itself when it has fewer than 32 bytes, or a string of its hash. */
  lemma ChildInBytes(keccak: HashFn, t: Trie)
    ensures Ref(keccak, t).Encoding() ==
      if t.Empty? then [0x80]
      else if |Encode(keccak, t)| < 32 then Encode(keccak, t)
      else [0xa0] + keccak(Encode(keccak, t)).bytes
  {
  }

  /** The items of each kind of node, in order; the root of nothing is the hash of 0x80. */
  lemma NodeInBytes(keccak: HashFn, path: seq<Nibble>, value: Bytes, child: Trie, children: seq<Trie>)
    ensures RootHash(keccak, Empty) == keccak([0x80])
    ensures Payload(NodeItems(keccak, Leaf(path, value))) == EncodeString(HpEncode(path, true)) + EncodeString(value)
    ensures Payload(NodeItems(keccak, Extension(path, child)))
      == EncodeString(HpEncode(path, false)) + Ref(keccak, child).Encoding()
    ensures |NodeItems(keccak, Branch(children, value))| == |children| + 1
    ensures Payload(NodeItems(keccak, Branch(children, value)))
      == Flatten(RefEncodings(keccak, children)) + EncodeString(value)
  {
    hide HpEncode, EncodeString;
    PayloadOfTwo(Str(HpEncode(path, true)), Str(value));
    PayloadOfTwo(Str(HpEncode(path, false)), Ref(keccak, child));
    BranchPayload(keccak, children, Str(value));
  }

  /** The children's encodings, child 0 first. */
  function RefEncodings(keccak: HashFn, ts: seq<Trie>): (r: seq<Bytes>)
    ensures |r| == |ts| && forall i :: 0 <= i < |r| ==> r[i] == Ref(keccak, ts[i]).Encoding()
    decreases |ts|
  {
    if |ts| == 0 then [] else [Ref(keccak, ts[0]).Encoding()] + RefEncodings(keccak, ts[1..])
  }

  lemma {:induction false} BranchPayload(keccak: HashFn, ts: seq<Trie>, last: Item)
    ensures Payload(Refs(keccak, ts) + [last]) == Flatten(RefEncodings(keccak, ts)) + last.Encoding()
    decreases |ts|
  {
    hide Encode, Ref, EncodeString, EncodeList;
    if |ts| == 0 {
      assert Refs(keccak, ts) + [last] == [last] && [last][1..] == [];
      assert Payload([last]) == last.Encoding() + [] && Flatten(RefEncodings(keccak, ts)) == [];
    } else {
      BranchPayload(keccak, ts[1..], last);
      var items, texts := Refs(keccak, ts) + [last], RefEncodings(keccak, ts);
      assert items[0] == Ref(keccak, ts[0]) && items[1..] == Refs(keccak, ts[1..]) + [last];
      assert texts[0] == Ref(keccak, ts[0]).Encoding() && texts[1..] == RefEncodings(keccak, ts[1..]);
      PayloadStep(items);
      FlattenStep(texts);
      hide Payload, Flatten, Ref, Item.Encoding, Refs, RefEncodings;
    }
  }

  lemma PayloadStep(items: seq<Item>)
    requires |items| > 0
    ensures Payload(items) == items[0].Encoding() + Payload(items[1..])
  {
  }

  lemma FlattenStep(texts: seq<Bytes>)
    requires |texts| > 0
    ensures Flatten(texts) == texts[0] + Flatten(texts[1..])
  {
  }

  // ---------- The verifier ----------

  /** `verify_mpt_proof` from the remaining nibbles on. Value(false) also covers malformed
      nodes; Aborted is a decoder that panicked or never returned. */
  function Walk(
    m: Usize, keccak: HashFn, proof: seq<Bytes>, ns: seq<Nibble>, current: Digest, expected: Bytes): Decoded<bool>
    decreases |proof|, 0
  {
    if |proof| == 0 then Value(false)
    else if keccak(proof[0]) != current && |proof[0]| >= 32 then Value(false)
    else
      match DecodeList(m, proof[0])
      case Rejected => Value(false)
      case Aborted => Aborted
      case Value(items) => WalkNode(m, keccak, proof[1..], ns, items, expected)
  }

  function WalkNode(
    m: Usize, keccak: HashFn, proof: seq<Bytes>, ns: seq<Nibble>, items: seq<Bytes>, expected: Bytes): Decoded<bool>
    decreases |proof|, 1
  {
    if |items| == 17 then
      if |ns| == 0 then Value(items[16] == expected)
      else
        var child := items[ns[0]];
        if |child| == 32 then Walk(m, keccak, proof, ns[1..], Digest(child), expected) else Value(false)
    else if |items| == 2 then
      var (isLeaf, path) := DecodeHp(items[0]);
      if !(path <= ns) then Value(false)
      else if isLeaf then Value(path == ns && items[1] == expected)
      else if |items[1]| != 32 then Value(false)
      else Walk(m, keccak, proof, ns[|path|..], Digest(items[1]), expected)
    else Value(false)
  }

  /** `verify_mpt_proof` */
  method VerifyMptProof(m: Usize, keccak: HashFn, root: Digest, key: Digest, proof: seq<Bytes>, expected: Bytes)
    returns (r: Decoded<bool>)
    ensures r == Walk(m, keccak, proof, Pairs(key.bytes), root, expected)
  {
    hide DecodeList, Pairs, DecodeHp;
    var nibbles := BytesToNibbles(key.bytes);
    var nibblePos: nat := 0;
    var currentHash := root;
    assert nibbles[0..] == nibbles && proof[0..] == proof;
    for i := 0 to |proof|
      invariant nibblePos <= |nibbles|
      invariant Walk(m, keccak, proof[i..], nibbles[nibblePos..], currentHash, expected)
             == Walk(m, keccak, proof, nibbles, root, expected)
    {
      ghost var ns := nibbles[nibblePos..];
      assert proof[i..][1..] == proof[i + 1..];
      var node := proof[i];
      var nodeHash := keccak(node);
      if nodeHash != currentHash && |node| >= 32 {
        return Value(false);
      }
      var decoded := RlpDecodeList(m, node);
      if !decoded.Value? {
        return if decoded.Rejected? then Value(false) else Aborted;
      }
      var items := decoded.v;
      if |items| == 17 {
        if nibblePos >= |nibbles| {
          return Value(items[16] == expected);
        }
        var child := items[nibbles[nibblePos]];
        nibblePos := nibblePos + 1;
        assert nibbles[nibblePos..] == ns[1..];
        if |child| != 32 {
          return Value(false);
        }
        currentHash := Digest(child);
      } else if |items| == 2 {
        var (isLeaf, path) := DecodeHp(items[0]);
        if nibblePos + |path| > |nibbles| {
          return Value(false);
        }
        assert nibbles[nibblePos..nibblePos + |path|] == ns[..|path|];
        if nibbles[nibblePos..nibblePos + |path|] != path {
          return Value(false);
        }
        nibblePos := nibblePos + |path|;
        assert nibbles[nibblePos..] == ns[|path|..];
        if isLeaf {
          if nibblePos != |nibbles| {
            return Value(false);
          }
          return Value(items[1] == expected);
        }
        if |items[1]| != 32 {
          return Value(false);
        }
        currentHash := Digest(items[1]);
      } else {
        return Value(false);
      }
    }
    return Value(false);
  }

  // ---------- Soundness and completeness ----------

  /** Every node below the root, on the way along ns, is long enough to be named by hash. */
  predicate HashedPath(keccak: HashFn, t: Trie, ns: seq<Nibble>)
    requires WellFormed(t)
  {
    match t
    case Empty => true
    case Leaf(_, _) => true
    case Extension(path, child) =>
      path <= ns ==> |Encode(keccak, child)| >= 32 && HashedPath(keccak, child, ns[|path|..])
    case Branch(children, _) =>
      |ns| > 0 ==> |Encode(keccak, children[ns[0]])| >= 32 && HashedPath(keccak, children[ns[0]], ns[1..])
  }

  /** The node encodings from the root along ns. */
  function HonestProof(keccak: HashFn, t: Trie, ns: seq<Nibble>): seq<Bytes>
    requires WellFormed(t)
  {
    [Encode(keccak, t)] +
      match t
      case Empty => []
      case Leaf(_, _) => []
      case Extension(path, child) => if path <= ns then HonestProof(keccak, child, ns[|path|..]) else []
      case Branch(children, _) => if |ns| > 0 then HonestProof(keccak, children[ns[0]], ns[1..]) else []
  }

  ghost predicate FitsMemory(m: Usize, proof: seq<Bytes>) {
    forall i :: 0 <= i < |proof| ==> |proof[i]| < m
  }

  ghost predicate LongNodes(proof: seq<Bytes>) {
    forall i :: 0 <= i < |proof| ==> |proof[i]| >= 32
  }

  /** A node's own encoding decodes to its items. */
  lemma NodeDecodes(m: Usize, keccak: HashFn, t: Trie)
    requires !t.Empty? && |Encode(keccak, t)| < m
    ensures DecodeList(m, Encode(keccak, t)) == Value(Contents(NodeItems(keccak, t)))
  {
    hide DecodeList, NodeItems;
    ListRoundTrip(m, NodeItems(keccak, t), []);
    assert Encode(keccak, t) + [] == Encode(keccak, t);
  }

  /** A child reads as 32 bytes exactly when it is named by its hash. */
  lemma RefReadsAsHash(keccak: HashFn, t: Trie)
    ensures |Ref(keccak, t).Content()| == 32 <==> |Encode(keccak, t)| >= 32
    ensures |Encode(keccak, t)| >= 32 ==> Ref(keccak, t).Content() == RootHash(keccak, t).bytes
  {
  }

  /** What the verifier should make of a trie node: compare the value, or go on to a child
      that is named by its hash. */
  function NodeStep(
    m: Usize, keccak: HashFn, t: Trie, rest: seq<Bytes>, ns: seq<Nibble>, expected: Bytes): Decoded<bool>
    requires WellFormed(t)
  {
    match t
    case Empty => Value(false)
    case Leaf(path, value) => Value(ns == path && value == expected)
    case Extension(path, child) =>
      if path <= ns && |Encode(keccak, child)| >= 32
      then Walk(m, keccak, rest, ns[|path|..], RootHash(keccak, child), expected)
      else Value(false)
    case Branch(children, value) =>
      if |ns| == 0 then Value(value == expected)
      else if |Encode(keccak, children[ns[0]])| >= 32
      then Walk(m, keccak, rest, ns[1..], RootHash(keccak, children[ns[0]]), expected)
      else Value(false)
  }

  lemma StepFromNode(m: Usize, keccak: HashFn, t: Trie, rest: seq<Bytes>, ns: seq<Nibble>, expected: Bytes)
    requires WellFormed(t) && !t.Empty?
    ensures WalkNode(m, keccak, rest, ns, Contents(NodeItems(keccak, t)), expected) ==
      NodeStep(m, keccak, t, rest, ns, expected)
  {
    hide Walk, Encode, Ref, HpEncode, DecodeHp;
    match t
    case Leaf(path, value) =>
      HpRoundTrip(path, true);
    case Extension(path, child) =>
      HpRoundTrip(path, false);
      RefReadsAsHash(keccak, child);
    case Branch(children, value) =>
      if |ns| > 0 {
        RefReadsAsHash(keccak, children[ns[0]]);
      }
  }

  /** The verifier on a node's own encoding. */
  lemma WalkFromNode(m: Usize, keccak: HashFn, t: Trie, rest: seq<Bytes>, ns: seq<Nibble>, expected: Bytes)
    requires WellFormed(t) && |Encode(keccak, t)| < m
    ensures Walk(m, keccak, [Encode(keccak, t)] + rest, ns, RootHash(keccak, t), expected) ==
      NodeStep(m, keccak, t, rest, ns, expected)
  {
    hide WalkNode, NodeStep, DecodeList, NodeItems, Contents;
    var proof := [Encode(keccak, t)] + rest;
    assert proof[1..] == rest;
    if t.Empty? {
      EmptyRejected(m);
      hide Encode;
      assert NodeStep(m, keccak, t, rest, ns, expected) == Value(false) by {
        EmptyStep(m, keccak, rest, ns, expected);
      }
    } else {
      hide Encode;
      NodeDecodes(m, keccak, t);
      StepFromNode(m, keccak, t, rest, ns, expected);
    }
  }

  lemma EmptyRejected(m: Usize)
    ensures DecodeList(m, [0x80]) == Rejected
  {
  }

  lemma EmptyStep(m: Usize, keccak: HashFn, rest: seq<Bytes>, ns: seq<Nibble>, expected: Bytes)
    ensures NodeStep(m, keccak, Empty, rest, ns, expected) == Value(false)
  {
  }

  /** Exactness on honest proofs: the root-to-leaf path is accepted if and only if the trie
      stores the expected value at ns and every node on the way is named by its hash. */
  lemma {:induction false} HonestProofExact(m: Usize, keccak: HashFn, t: Trie, ns: seq<Nibble>, expected: Bytes)
    requires WellFormed(t) && FitsMemory(m, HonestProof(keccak, t, ns))
    ensures
      Walk(m, keccak, HonestProof(keccak, t, ns), ns, RootHash(keccak, t), expected)
      == Value(Slot(t, ns) == Some(expected) && HashedPath(keccak, t, ns))
    decreases t
  {
    hide Walk, WalkNode, Encode;
    var proof := HonestProof(keccak, t, ns);
    assert proof[0] == Encode(keccak, t) && proof == [Encode(keccak, t)] + proof[1..];
    WalkFromNode(m, keccak, t, proof[1..], ns, expected);
    match t
    case Empty =>
    case Leaf(_, _) =>
    case Extension(path, child) =>
      if path <= ns {
        assert proof[1..] == HonestProof(keccak, child, ns[|path|..]);
        HonestProofExact(m, keccak, child, ns[|path|..], expected);
      }
    case Branch(children, _) =>
      if |ns| > 0 {
        assert proof[1..] == HonestProof(keccak, children[ns[0]], ns[1..]);
        HonestProofExact(m, keccak, children[ns[0]], ns[1..], expected);
      }
  }

  /** Follows a proof beside the trie and returns the first proof node that is not the
      trie's node, with that node. */
  function MptCollision(keccak: HashFn, t: Trie, ns: seq<Nibble>, proof: seq<Bytes>): (Bytes, Bytes)
    requires WellFormed(t)
  {
    if |proof| == 0 then ([], [])
    else if proof[0] != Encode(keccak, t) then (proof[0], Encode(keccak, t))
    else
      match t
      case Extension(path, child) =>
        if path <= ns then MptCollision(keccak, child, ns[|path|..], proof[1..]) else ([], [])
      case Branch(children, _) =>
        if |ns| > 0 then MptCollision(keccak, children[ns[0]], ns[1..], proof[1..]) else ([], [])
      case _ => ([], [])
  }

  // ---------- Short nodes ----------

  /** A value that is itself the encoding of a list, so that a node can hold it as it stands. */
  predicate RawList(m: Usize, value: Bytes) {
    |value| > 0 && value[0] >= 0xc0 && DecodeItem(m, value) == Value((value, |value|))
  }

  /** x is read as the path of a leaf for ns, with y behind it: a hex-prefix string, or an
      encoding of the path whose flag byte makes it a list. */
  predicate PathItem(m: Usize, x: Bytes, y: Bytes, ns: seq<Nibble>) {
    || x == EncodeString(HpEncode(ns, true))
    || (|x| > 0 && x[0] >= 0xc0 && DecodeHp(x) == (true, ns) && DecodeItem(m, x + y) == Value((x, |x|)))
  }

  predicate ValueItem(m: Usize, y: Bytes, value: Bytes) {
    y == EncodeString(value) || (y == value && RawList(m, value))
  }

  /** The items of a leaf that is shorter than 32 bytes. */
  predicate IsShortLeaf(m: Usize, x: Bytes, y: Bytes, ns: seq<Nibble>, value: Bytes) {
    PathItem(m, x, y, ns) && ValueItem(m, y, value) && 1 + |x| + |y| < 32
  }

  /** Whether a leaf for ns holding `value` can be shorter than 32 bytes. Only the flag byte
      of a path that reads as a list is left to choose. */
  predicate ShortLeafFits(m: Usize, ns: seq<Nibble>, value: Bytes) {
    FitsWith(m, ns, value, EncodeString(value)) || FitsWith(m, ns, value, value)
  }

  predicate FitsWith(m: Usize, ns: seq<Nibble>, value: Bytes, y: Bytes) {
    || IsShortLeaf(m, EncodeString(HpEncode(ns, true)), y, ns, value)
    || exists flag: Byte :: IsShortLeaf(m, [flag] + PathTail(ns), y, ns, value)
  }

  function ShortLeafNode(x: Bytes, y: Bytes): Bytes
    requires 1 + |x| + |y| < 32
  {
    [0xc0 + |x| + |y|] + x + y
  }

  lemma ShortLeafFitsSome(m: Usize, x: Bytes, y: Bytes, ns: seq<Nibble>, value: Bytes)
    requires IsShortLeaf(m, x, y, ns, value)
    ensures ShortLeafFits(m, ns, value)
  {
    hide DecodeItem, DecodeHp, EncodeString;
    if x != EncodeString(HpEncode(ns, true)) {
      EncodingsOfPath(x, ns);
      assert x == [x[0]] + PathTail(ns);
    }
    hide PathTail, RawList, PathItem;
    assert FitsWith(m, ns, value, y);
  }

  /** Such a leaf is accepted for its path, whatever hash the walk expects. */
  lemma ShortLeafAccepted(m: Usize, keccak: HashFn, x: Bytes, y: Bytes, ns: seq<Nibble>, current: Digest, value: Bytes)
    requires IsShortLeaf(m, x, y, ns, value)
    ensures Walk(m, keccak, [ShortLeafNode(x, y)], ns, current, value) == Value(true)
  {
    hide DecodeHp, HpEncode;
    ShortLeafDecodes(m, x, y, ns, value);
    hide DecodeList, IsShortLeaf;
  }

  lemma ShortLeafDecodes(m: Usize, x: Bytes, y: Bytes, ns: seq<Nibble>, value: Bytes)
    requires IsShortLeaf(m, x, y, ns, value)
    ensures
      var items := DecodeList(m, ShortLeafNode(x, y));
      items.Value? && |items.v| == 2 && DecodeHp(items.v[0]) == (true, ns) && items.v[1] == value
  {
    PathItemReads(m, x, y, ns);
    ValueItemReads(m, y, value);
    hide DecodeItem, ListPayload, EncodeString, DecodeHp, PathItem, ValueItem, DecodeItems;
    ShortListPayload(m, x, y);
    TwoItems(m, x, y);
  }

  lemma ShortListPayload(m: Usize, x: Bytes, y: Bytes)
    requires 1 + |x| + |y| < 32
    ensures ListPayload(m, ShortLeafNode(x, y)) == Value(x + y)
  {
    var node := ShortLeafNode(x, y);
    assert node[1..1 + |x| + |y|] == x + y;
  }

  lemma TwoItems(m: Usize, x: Bytes, y: Bytes)
    requires DecodeItem(m, x + y).Value? && DecodeItem(m, x + y).v.1 == |x| > 0
    requires DecodeItem(m, y).Value? && DecodeItem(m, y).v.1 == |y| > 0
    ensures DecodeItems(m, x + y) == Value([DecodeItem(m, x + y).v.0, DecodeItem(m, y).v.0])
  {
    hide DecodeItem;
    var first, second := DecodeItem(m, x + y).v.0, DecodeItem(m, y).v.0;
    assert (x + y)[|x|..] == y && y[|y|..] == [];
    assert DecodeItems(m, y[|y|..]) == Value([]) && [second] + [] == [second];
    assert DecodeItems(m, y) == Value([second]);
    assert [first] + [second] == [first, second];
  }

  lemma PathItemReads(m: Usize, x: Bytes, y: Bytes, ns: seq<Nibble>)
    requires PathItem(m, x, y, ns) && |x| < 32
    ensures
      var r := DecodeItem(m, x + y);
      r.Value? && r.v.1 == |x| > 0 && DecodeHp(r.v.0) == (true, ns)
  {
    hide DecodeItem, DecodeHp, EncodeString, HpEncode;
    if x == EncodeString(HpEncode(ns, true)) {
      ItemRoundTrip(m, Str(HpEncode(ns, true)), y);
      HpRoundTrip(ns, true);
    }
  }

  lemma ValueItemReads(m: Usize, y: Bytes, value: Bytes)
    requires ValueItem(m, y, value) && |y| < 32
    ensures |y| > 0 && DecodeItem(m, y) == Value((value, |y|))
  {
    hide DecodeItem, EncodeString;
    if y == EncodeString(value) {
      ItemRoundTrip(m, Str(value), []);
      assert y + [] == y;
    }
  }

  /** The first item of a short node costs at least a path item, unless it is a list. */
  lemma PathItemCost(m: Usize, payload: Bytes, ns: seq<Nibble>)
    requires 0 < |payload| < 32 && DecodeItem(m, payload).Value? && DecodeItem(m, payload).v.1 > 0
    requires DecodeHp(DecodeItem(m, payload).v.0) == (true, ns)
    ensures
      var (item, consumed) := DecodeItem(m, payload).v;
      || |EncodeString(HpEncode(ns, true))| <= consumed
      || (item == payload[..consumed] && payload[0] >= 0xc0 && |EncodeString(HpEncode(ns, true))| <= consumed + 1)
  {
    hide DecodeItem;
    ItemLength(m, payload);
    var (item, consumed) := DecodeItem(m, payload).v;
    EncodingsOfPath(item, ns);
    StandardPathIsShortest(item, ns);
    hide DecodeHp, HpEncode, EncodeString;
  }

  lemma StandardPathIsShortest(item: Bytes, ns: seq<Nibble>)
    requires |item| == |HpEncode(ns, true)|
    ensures |EncodeString(HpEncode(ns, true))| <= |EncodeString(item)|
    ensures |item| <= 55 ==> |EncodeString(HpEncode(ns, true))| <= |item| + 1
  {
  }

  /** The last item of a short node leaves room for a value item. */
  lemma ValueItemCost(m: Usize, payload: Bytes, value: Bytes)
    requires 0 < |payload| < 32 && DecodeItem(m, payload) == Value((value, |payload|))
    ensures
      || |EncodeString(value)| < |payload|
      || ValueItem(m, payload, value)
  {
    hide DecodeItem, EncodeString;
    ItemLength(m, payload);
    assert payload[..|payload|] == payload;
  }

  /** A short node accepted as a leaf shows that a short leaf fits. */
  lemma ShortLeafCounts(m: Usize, payload: Bytes, ns: seq<Nibble>, value: Bytes)
    requires 1 + |payload| < 32 && DecodeItems(m, payload).Value?
    requires
      var items := DecodeItems(m, payload).v;
      |items| == 2 && DecodeHp(items[0]) == (true, ns) && items[1] == value
    ensures ShortLeafFits(m, ns, value)
  {
    hide DecodeItem, DecodeHp, EncodeString, HpEncode, ShortLeafFits;
    var (item, consumed) := DecodeItem(m, payload).v;
    var rest := payload[consumed..];
    SecondIsLast(m, payload);
    PathItemCost(m, payload, ns);
    ValueItemCost(m, rest, value);
    var standard := EncodeString(HpEncode(ns, true));
    if !ValueItem(m, rest, value) {
      ShortLeafFitsSome(m, standard, EncodeString(value), ns, value);
    } else if |standard| <= consumed {
      ShortLeafFitsSome(m, standard, rest, ns, value);
    } else {
      assert payload[..consumed] + rest == payload;
      ShortLeafFitsSome(m, item, rest, ns, value);
    }
  }

  lemma SecondIsLast(m: Usize, payload: Bytes)
    requires DecodeItems(m, payload).Value? && |DecodeItems(m, payload).v| == 2
    ensures
      var (item, consumed) := DecodeItem(m, payload).v;
      && DecodeItem(m, payload).Value? && 0 < consumed < |payload| && item == DecodeItems(m, payload).v[0]
      && DecodeItem(m, payload[consumed..]) == Value((DecodeItems(m, payload).v[1], |payload| - consumed))
  {
    hide DecodeItem;
    var rest := payload[DecodeItem(m, payload).v.1..];
    var last := rest[DecodeItem(m, rest).v.1..];
    assert |DecodeItems(m, last).v| == 0;
  }

  /** So does a short node accepted as a branch at the end of the key. */
  lemma ShortBranchCounts(m: Usize, payload: Bytes, value: Bytes)
    requires 1 + |payload| < 32 && DecodeItems(m, payload).Value?
    requires |DecodeItems(m, payload).v| == 17 && DecodeItems(m, payload).v[16] == value
    ensures ShortLeafFits(m, [], value)
  {
    hide DecodeItem, DecodeItems, EncodeString, ShortLeafFits;
    var at := LastItem(m, payload);
    ValueItemCost(m, payload[at..], value);
    EmptyPathIsOneByte();
    hide HpEncode;
    var standard := EncodeString(HpEncode([], true));
    if ValueItem(m, payload[at..], value) {
      ShortLeafFitsSome(m, standard, payload[at..], [], value);
    } else {
      ShortLeafFitsSome(m, standard, EncodeString(value), [], value);
    }
  }

  lemma EmptyPathIsOneByte()
    ensures |EncodeString(HpEncode([], true))| == 1
  {
  }

  /** A short node is accepted only where a short leaf fits: it has no room for a child's
      hash. */
  lemma ShortNodeCounts(m: Usize, keccak: HashFn, proof: seq<Bytes>, ns: seq<Nibble>, current: Digest, value: Bytes)
    requires |proof| > 0 && |proof[0]| < 32
    requires Walk(m, keccak, proof, ns, current, value) == Value(true)
    ensures ShortLeafFits(m, ns, value)
  {
    hide DecodeItem, DecodeItems, DecodeHp, ShortLeafFits;
    PayloadIsShorter(m, proof[0]);
    hide ListPayload;
    var payload := ListPayload(m, proof[0]).v;
    var items := DecodeItems(m, payload).v;
    if |items| == 17 {
      if |ns| > 0 {
        ItemIsShort(m, payload, ns[0]);
      } else {
        ShortBranchCounts(m, payload, value);
      }
    } else if |items| == 2 {
      ItemIsShort(m, payload, 1);
      if DecodeHp(items[0]) == (true, ns) {
        ShortLeafCounts(m, payload, ns, value);
      }
    }
  }

  lemma PayloadIsShorter(m: Usize, data: Bytes)
    requires ListPayload(m, data).Value?
    ensures |ListPayload(m, data).v| < |data|
  {
  }

  lemma {:induction false} ItemIsShort(m: Usize, payload: Bytes, i: nat)
    requires DecodeItems(m, payload).Value? && i < |DecodeItems(m, payload).v|
    ensures |DecodeItems(m, payload).v[i]| <= |payload|
    decreases i
  {
    ItemFits(m, payload);
    hide DecodeItem;
    if i > 0 {
      ItemIsShort(m, payload[DecodeItem(m, payload).v.1..], i - 1);
    }
  }

  lemma ItemFits(m: Usize, data: Bytes)
    requires DecodeItem(m, data).Value?
    ensures |DecodeItem(m, data).v.0| <= |data|
  {
  }

  /** An accepted proof has a first node, and if it is long its hash is the current one. */
  lemma FirstNodeHashes(m: Usize, keccak: HashFn, proof: seq<Bytes>, ns: seq<Nibble>, current: Digest, expected: Bytes)
    requires Walk(m, keccak, proof, ns, current, expected) == Value(true)
    ensures |proof| > 0 && (|proof[0]| >= 32 ==> keccak(proof[0]) == current)
  {
    hide WalkNode, DecodeList;
  }

  lemma {:induction false} HonestNodesAreLong(keccak: HashFn, t: Trie, ns: seq<Nibble>)
    requires WellFormed(t)
    ensures HashedPath(keccak, t, ns) && |Encode(keccak, t)| >= 32 ==> LongNodes(HonestProof(keccak, t, ns))
    decreases t
  {
    hide Encode;
    match t
    case Empty =>
    case Leaf(_, _) =>
    case Extension(path, child) =>
      if path <= ns {
        HonestNodesAreLong(keccak, child, ns[|path|..]);
      }
    case Branch(children, _) =>
      if |ns| > 0 {
        HonestNodesAreLong(keccak, children[ns[0]], ns[1..]);
      }
  }

  /** Some node that the path along ns reaches by hash leaves a remainder for which a leaf
      holding `value` can be shorter than 32 bytes. */
  predicate ShortLeafReachable(m: Usize, keccak: HashFn, t: Trie, ns: seq<Nibble>, value: Bytes)
    requires WellFormed(t)
  {
    || ShortLeafFits(m, ns, value)
    || match t
       case Empty => false
       case Leaf(_, _) => false
       case Extension(path, child) =>
         && path <= ns && |Encode(keccak, child)| >= 32
         && ShortLeafReachable(m, keccak, child, ns[|path|..], value)
       case Branch(children, _) =>
         && |ns| > 0 && |Encode(keccak, children[ns[0]])| >= 32
         && ShortLeafReachable(m, keccak, children[ns[0]], ns[1..], value)
  }

  /** Soundness: what an accepted proof of a value shows. The trie stores the value there
      along hash-named nodes; or the proof holds a node under 32 bytes, at a place where a leaf
      for the value can be that short; or the proof contains a Keccak collision. */
  lemma {:induction false} AcceptedValueIsStored(
    m: Usize, keccak: HashFn, t: Trie, ns: seq<Nibble>, proof: seq<Bytes>, expected: Bytes)
    requires WellFormed(t) && FitsMemory(m, proof)
    requires Walk(m, keccak, proof, ns, RootHash(keccak, t), expected) == Value(true)
    ensures
      || (Slot(t, ns) == Some(expected) && HashedPath(keccak, t, ns))
      || (!LongNodes(proof) && ShortLeafReachable(m, keccak, t, ns, expected))
      || Collision(keccak, MptCollision(keccak, t, ns, proof))
    decreases t
  {
    hide WalkNode, ShortLeafFits;
    FirstNodeHashes(m, keccak, proof, ns, RootHash(keccak, t), expected);
    hide Walk, Encode;
    if proof[0] == Encode(keccak, t) {
      assert proof == [Encode(keccak, t)] + proof[1..];
      WalkFromNode(m, keccak, t, proof[1..], ns, expected);
      match t
      case Empty =>
      case Leaf(_, _) =>
      case Extension(path, child) =>
        AcceptedValueIsStored(m, keccak, child, ns[|path|..], proof[1..], expected);
      case Branch(children, _) =>
        if |ns| > 0 {
          AcceptedValueIsStored(m, keccak, children[ns[0]], ns[1..], proof[1..], expected);
        }
    } else if |proof[0]| < 32 {
      ShortNodeCounts(m, keccak, proof, ns, RootHash(keccak, t), expected);
    }
  }

  lemma FitsHasLeaf(m: Usize, ns: seq<Nibble>, value: Bytes)
    ensures ShortLeafFits(m, ns, value) <==> exists x, y :: IsShortLeaf(m, x, y, ns, value)
  {
    hide IsShortLeaf;
    forall x, y | IsShortLeaf(m, x, y, ns, value) ensures ShortLeafFits(m, ns, value) {
      ShortLeafFitsSome(m, x, y, ns, value);
    }
  }

  /** A proof that leaves the trie for a short leaf as soon as one fits. */
  ghost function ShortcutProof(m: Usize, keccak: HashFn, t: Trie, ns: seq<Nibble>, value: Bytes): seq<Bytes>
    requires WellFormed(t) && ShortLeafReachable(m, keccak, t, ns, value)
  {
    if ShortLeafFits(m, ns, value) then
      var x, y :| IsShortLeaf(m, x, y, ns, value);
      [ShortLeafNode(x, y)]
    else
      [Encode(keccak, t)] +
        match t
        case Extension(path, child) => ShortcutProof(m, keccak, child, ns[|path|..], value)
        case Branch(children, _) => ShortcutProof(m, keccak, children[ns[0]], ns[1..], value)
  }

  lemma FittingLeafIsAccepted(m: Usize, keccak: HashFn, t: Trie, ns: seq<Nibble>, value: Bytes)
    requires WellFormed(t) && ShortLeafReachable(m, keccak, t, ns, value) && ShortLeafFits(m, ns, value)
    ensures
      var proof := ShortcutProof(m, keccak, t, ns, value);
      FitsMemory(m, proof) && Walk(m, keccak, proof, ns, RootHash(keccak, t), value) == Value(true)
  {
    hide Walk, WalkNode, Encode;
    var proof := ShortcutProof(m, keccak, t, ns, value);
    FitsHasLeaf(m, ns, value);
    hide PathItem, ValueItem, FitsWith;
    var x, y :| IsShortLeaf(m, x, y, ns, value) && proof == [ShortLeafNode(x, y)];
    ShortLeafAccepted(m, keccak, x, y, ns, RootHash(keccak, t), value);
  }

  /** And it is accepted, whatever the trie stores. */
  lemma {:induction false} ShortcutIsAccepted(m: Usize, keccak: HashFn, t: Trie, ns: seq<Nibble>, value: Bytes)
    requires WellFormed(t) && ShortLeafReachable(m, keccak, t, ns, value)
    requires FitsMemory(m, HonestProof(keccak, t, ns))
    ensures
      var proof := ShortcutProof(m, keccak, t, ns, value);
      FitsMemory(m, proof) && Walk(m, keccak, proof, ns, RootHash(keccak, t), value) == Value(true)
    decreases t
  {
    hide Walk, WalkNode, Encode, ShortLeafFits;
    var proof := ShortcutProof(m, keccak, t, ns, value);
    if ShortLeafFits(m, ns, value) {
      FittingLeafIsAccepted(m, keccak, t, ns, value);
    } else {
      assert proof == [Encode(keccak, t)] + proof[1..];
      assert HonestProof(keccak, t, ns)[0] == Encode(keccak, t);
      WalkFromNode(m, keccak, t, proof[1..], ns, value);
      match t
      case Extension(path, child) =>
        assert HonestProof(keccak, t, ns)[1..] == HonestProof(keccak, child, ns[|path|..]);
        ShortcutIsAccepted(m, keccak, child, ns[|path|..], value);
      case Branch(children, _) =>
        assert HonestProof(keccak, t, ns)[1..] == HonestProof(keccak, children[ns[0]], ns[1..]);
        ShortcutIsAccepted(m, keccak, children[ns[0]], ns[1..], value);
    }
  }

  /** A value of 30 bytes or more leaves no room for a short leaf, at any place. */
  lemma {:induction false} LongValueIsSafe(m: Usize, keccak: HashFn, t: Trie, ns: seq<Nibble>, value: Bytes)
    requires WellFormed(t) && |value| >= 30
    ensures !ShortLeafReachable(m, keccak, t, ns, value)
    decreases t
  {
    hide Encode, ShortLeafFits;
    LongValueFillsNode(m, ns, value);
    match t
    case Empty =>
    case Leaf(_, _) =>
    case Extension(path, child) =>
      if path <= ns {
        LongValueIsSafe(m, keccak, child, ns[|path|..], value);
      }
    case Branch(children, _) =>
      if |ns| > 0 {
        LongValueIsSafe(m, keccak, children[ns[0]], ns[1..], value);
      }
  }

  lemma LongValueFillsNode(m: Usize, ns: seq<Nibble>, value: Bytes)
    requires |value| >= 30
    ensures !ShortLeafFits(m, ns, value)
  {
    FitsHasLeaf(m, ns, value);
    hide ShortLeafFits, DecodeItem, DecodeHp;
  }

  /** The full key of 64 nibbles leaves none either: a proof's first node is never a short
      one that counts. */
  lemma LongPathFillsNode(m: Usize, ns: seq<Nibble>, value: Bytes)
    requires |ns| >= 60
    ensures !ShortLeafFits(m, ns, value)
  {
    FitsHasLeaf(m, ns, value);
    hide ShortLeafFits, DecodeItem, DecodeHp;
    forall x, y ensures !IsShortLeaf(m, x, y, ns, value) {
      if IsShortLeaf(m, x, y, ns, value) {
        LongPathItem(m, x, y, ns);
      }
    }
  }

  lemma LongPathItem(m: Usize, x: Bytes, y: Bytes, ns: seq<Nibble>)
    requires PathItem(m, x, y, ns)
    ensures |x| >= |ns| / 2 + 1
  {
    hide DecodeItem;
    if x != EncodeString(HpEncode(ns, true)) {
      EncodingsOfPath(x, ns);
    }
  }

  /** The verifier for a 64-nibble key, exactly. An accepted proof means that the value is
      stored along hash-named nodes, or that a short leaf for it can be reached and the proof
      holds a short node, or a named collision; and in the first two cases there is an
      accepted proof. Values of 30 bytes or more leave only the first case and the
      collision. For values that are not empty, stored means what the trie looks up. */
  lemma VerifierIsExact(m: Usize, keccak: HashFn, t: Trie, key: Digest, expected: Bytes, proof: seq<Bytes>)
    requires WellFormed(t) && FitsMemory(m, proof)
    requires FitsMemory(m, HonestProof(keccak, t, Pairs(key.bytes)))
    ensures
      var ns := Pairs(key.bytes);
      var stored := Slot(t, ns) == Some(expected) && HashedPath(keccak, t, ns);
      var short := ShortLeafReachable(m, keccak, t, ns, expected);
      && (Walk(m, keccak, proof, ns, RootHash(keccak, t), expected) == Value(true)
          ==> stored || (short && !LongNodes(proof)) || Collision(keccak, MptCollision(keccak, t, ns, proof)))
      && (stored ==> Walk(m, keccak, HonestProof(keccak, t, ns), ns, RootHash(keccak, t), expected) == Value(true))
      && (short ==>
            var shortcut := ShortcutProof(m, keccak, t, ns, expected);
            FitsMemory(m, shortcut) && Walk(m, keccak, shortcut, ns, RootHash(keccak, t), expected) == Value(true))
      && (|expected| >= 30 ==> !short)
      && (|expected| > 0 ==> (Slot(t, ns) == Some(expected) <==> Lookup(t, ns) == Some(expected)))
      && (stored && |Encode(keccak, t)| >= 32 ==> LongNodes(HonestProof(keccak, t, ns)))
  {
    hide *;
    var ns := Pairs(key.bytes);
    HonestProofExact(m, keccak, t, ns, expected);
    HonestNodesAreLong(keccak, t, ns);
    if Walk(m, keccak, proof, ns, RootHash(keccak, t), expected) == Value(true) {
      AcceptedValueIsStored(m, keccak, t, ns, proof, expected);
    }
    if ShortLeafReachable(m, keccak, t, ns, expected) {
      ShortcutIsAccepted(m, keccak, t, ns, expected);
    }
    if |expected| >= 30 {
      LongValueIsSafe(m, keccak, t, ns, expected);
    }
    if |expected| > 0 {
      SlotIsLookup(t, ns, expected);
    }
  }

  /** A short leaf passes below any extension of a key, whatever the extension's child
      stores. */
  lemma ShortLeafBelowExtension(
    m: Usize, keccak: HashFn, key: Digest, k: nat, child: Trie, x: Bytes, y: Bytes, value: Bytes)
    requires k <= 64 && WellFormed(child) && |Encode(keccak, child)| >= 32
    requires IsShortLeaf(m, x, y, Pairs(key.bytes)[k..], value)
    requires |Encode(keccak, Extension(Pairs(key.bytes)[..k], child))| < m
    ensures
      var t := Extension(Pairs(key.bytes)[..k], child);
      Walk(m, keccak, [Encode(keccak, t), ShortLeafNode(x, y)], Pairs(key.bytes), RootHash(keccak, t), value) ==
        Value(true)
  {
    var ns := Pairs(key.bytes);
    var t := Extension(ns[..k], child);
    hide Walk, WalkNode, Encode, IsShortLeaf, Pairs;
    assert [Encode(keccak, t), ShortLeafNode(x, y)] == [Encode(keccak, t)] + [ShortLeafNode(x, y)];
    WalkFromNode(m, keccak, t, [ShortLeafNode(x, y)], ns, value);
    assert ns[..k] <= ns && ns[|ns[..k]|..] == ns[k..];
    ShortLeafAccepted(m, keccak, x, y, ns[k..], RootHash(keccak, child), value);
  }

  /** A concrete failure, for every key: the trie stores 32 zero bytes there, and a proof that
      ends in a three-byte leaf is accepted for the value 5. */
  lemma ShortLeafReplacesValue(m: Usize, keccak: HashFn, key: Digest)
    ensures
      var t := Extension(Pairs(key.bytes), Leaf([], Repeat(0, 32)));
      && WellFormed(t) && Lookup(t, Pairs(key.bytes)) == Some(Repeat(0, 32))
      && Walk(m, keccak, [Encode(keccak, t), [0xc2, 0x20, 0x05]], Pairs(key.bytes), RootHash(keccak, t), [0x05]) ==
           Value(true)
  {
    var ns := Pairs(key.bytes);
    var child := Leaf([], Repeat(0, 32));
    SmallNodes(keccak, ns, Repeat(0, 32));
    FiveIsShort(m);
    hide Encode, Walk, Pairs, IsShortLeaf, Repeat, HpEncode, Ref;
    assert ns[..64] == ns && ns[64..] == [] == ns[|ns|..];
    StoredBelow(ns, Repeat(0, 32));
    hide WellFormed, Lookup;
    ShortLeafBelowExtension(m, keccak, key, 64, child, [0x20], [0x05], [0x05]);
    assert ShortLeafNode([0x20], [0x05]) == [0xc2, 0x20, 0x05];
  }

  lemma StoredBelow(ns: seq<Nibble>, value: Bytes)
    requires ns != [] && value != []
    ensures
      var t := Extension(ns, Leaf([], value));
      WellFormed(t) && WellFormed(t.child) && Lookup(t, ns) == Some(value)
  {
    assert ns[|ns|..] == [];
  }

  lemma FiveIsShort(m: Usize)
    ensures IsShortLeaf(m, [0x20], [0x05], [], [0x05])
  {
    assert HpEncode([], true) == [0x20];
  }

  lemma SmallNodes(keccak: HashFn, ns: seq<Nibble>, value: Bytes)
    requires |ns| == 64 && |value| == 32
    ensures |Encode(keccak, Leaf([], value))| >= 32
    ensures |Encode(keccak, Extension(ns, Leaf([], value)))| < 0x1_0000
  {
    LeafSize(keccak, value);
    var child := Leaf([], value);
    var items := [Str(HpEncode(ns, false)), Ref(keccak, child)];
    hide HpEncode;
    assert |HpEncode(ns, false)| == 33;
    PayloadOfTwo(items[0], items[1]);
    assert |Payload(items)| == 67;
    BeLength(67, 1);
  }

  lemma PayloadOfTwo(a: Item, b: Item)
    ensures Payload([a, b]) == a.Encoding() + b.Encoding()
  {
    assert [a, b][1..] == [b] && [b][1..] == [];
    assert Payload([b]) == b.Encoding() + [];
  }

  lemma LeafSize(keccak: HashFn, value: Bytes)
    requires |value| == 32
    ensures 32 <= |Encode(keccak, Leaf([], value))| < 64
  {
    var items := [Str(HpEncode([], true)), Str(value)];
    EmptyPathIsOneByte();
    hide HpEncode;
    PayloadOfTwo(items[0], items[1]);
  }

  // ---------- When the verifier aborts ----------

  /** The remaining nibbles and the hash the verifier looks for after it has passed a node. */
  function NextNode(
    m: Usize, keccak: HashFn, node: Bytes, ns: seq<Nibble>, current: Digest): Option<(seq<Nibble>, Digest)>
  {
    if keccak(node) != current && |node| >= 32 then None
    else
      match DecodeList(m, node)
      case Rejected => None
      case Aborted => None
      case Value(items) =>
        if |items| == 17 then
          if |ns| > 0 && |items[ns[0]]| == 32 then Some((ns[1..], Digest(items[ns[0]]))) else None
        else if |items| == 2 then
          var (isLeaf, path) := DecodeHp(items[0]);
          if path <= ns && !isLeaf && |items[1]| == 32 then Some((ns[|path|..], Digest(items[1]))) else None
        else None
  }

  /** The same when it comes to node i, or None if it stops before. */
  function AtNode(
    m: Usize, keccak: HashFn, proof: seq<Bytes>, ns: seq<Nibble>, current: Digest, i: nat)
    : Option<(seq<Nibble>, Digest)>
    decreases i
  {
    if i == 0 then Some((ns, current))
    else if |proof| == 0 then None
    else
      match NextNode(m, keccak, proof[0], ns, current)
      case None => None
      case Some((rest, next)) => AtNode(m, keccak, proof[1..], rest, next, i - 1)
  }

  /** The verifier comes to node i, takes it in, and its decoding aborts. */
  ghost predicate AbortsAt(m: Usize, keccak: HashFn, proof: seq<Bytes>, ns: seq<Nibble>, current: Digest, i: nat) {
    var here := AtNode(m, keccak, proof, ns, current, i);
    && i < |proof| && here.Some? && DecodeList(m, proof[i]).Aborted?
    && (keccak(proof[i]) == here.value.1 || |proof[i]| < 32)
  }

  /** The verifier panics or never returns exactly when it takes in a node whose list decoding
      does, and `Rlp.ListAbortsExactly` says when that is. */
  lemma {:induction false} WalkAbortsExactly(
    m: Usize, keccak: HashFn, proof: seq<Bytes>, ns: seq<Nibble>, current: Digest, expected: Bytes)
    ensures Walk(m, keccak, proof, ns, current, expected).Aborted?
      <==> exists i: nat :: AbortsAt(m, keccak, proof, ns, current, i)
    decreases |proof|
  {
    hide DecodeList, DecodeHp;
    if |proof| > 0 {
      match NextNode(m, keccak, proof[0], ns, current)
      case None =>
        assert AbortsAt(m, keccak, proof, ns, current, 0) <==> Walk(m, keccak, proof, ns, current, expected).Aborted?;
        assert forall i: nat :: i > 0 ==> !AbortsAt(m, keccak, proof, ns, current, i);
      case Some((rest, next)) =>
        WalkAbortsExactly(m, keccak, proof[1..], rest, next, expected);
        assert Walk(m, keccak, proof, ns, current, expected) == Walk(m, keccak, proof[1..], rest, next, expected);
        ShiftAbort(m, keccak, proof, ns, current);
    }
  }

  lemma ShiftAbort(m: Usize, keccak: HashFn, proof: seq<Bytes>, ns: seq<Nibble>, current: Digest)
    requires |proof| > 0 && NextNode(m, keccak, proof[0], ns, current).Some?
    ensures
      var (rest, next) := NextNode(m, keccak, proof[0], ns, current).value;
      (exists i: nat :: AbortsAt(m, keccak, proof, ns, current, i))
      <==> (exists i: nat :: AbortsAt(m, keccak, proof[1..], rest, next, i))
  {
    var (rest, next) := NextNode(m, keccak, proof[0], ns, current).value;
    assert !DecodeList(m, proof[0]).Aborted?;
    hide DecodeList, NextNode;
    forall i: nat
      ensures AbortsAt(m, keccak, proof, ns, current, i + 1) == AbortsAt(m, keccak, proof[1..], rest, next, i)
    {
    }
    assert !AbortsAt(m, keccak, proof, ns, current, 0);
    if i: nat :| AbortsAt(m, keccak, proof, ns, current, i) {
      assert AbortsAt(m, keccak, proof[1..], rest, next, i - 1);
    }
    if j: nat :| AbortsAt(m, keccak, proof[1..], rest, next, j) {
      assert AbortsAt(m, keccak, proof, ns, current, j + 1);
    }
  }

  /** Against the root of a trie, only a short node can abort the verifier, or the proof
      contains a collision. */
  lemma {:induction false} OnlyShortNodesAbort(
    m: Usize, keccak: HashFn, t: Trie, ns: seq<Nibble>, proof: seq<Bytes>, expected: Bytes)
    requires WellFormed(t) && FitsMemory(m, proof)
    requires Walk(m, keccak, proof, ns, RootHash(keccak, t), expected).Aborted?
    ensures
      || (exists i :: 0 <= i < |proof| && |proof[i]| < 32 && DecodeList(m, proof[i]).Aborted?)
      || Collision(keccak, MptCollision(keccak, t, ns, proof))
    decreases t
  {
    hide DecodeList;
    if proof[0] == Encode(keccak, t) {
      hide Walk, WalkNode, Encode;
      assert proof == [Encode(keccak, t)] + proof[1..];
      WalkFromNode(m, keccak, t, proof[1..], ns, expected);
      match t
      case Empty =>
      case Leaf(_, _) =>
      case Extension(path, child) =>
        OnlyShortNodesAbort(m, keccak, child, ns[|path|..], proof[1..], expected);
      case Branch(children, _) =>
        if |ns| > 0 {
          OnlyShortNodesAbort(m, keccak, children[ns[0]], ns[1..], proof[1..], expected);
        }
    } else if |proof[0]| < 32 && !DecodeList(m, proof[0]).Aborted? {
      ShortNodeEndsWalk(m, keccak, proof, ns, RootHash(keccak, t), expected);
    }
  }

  /** After a short node the walk is over, one way or the other. */
  lemma ShortNodeEndsWalk(
    m: Usize, keccak: HashFn, proof: seq<Bytes>, ns: seq<Nibble>, current: Digest, expected: Bytes)
    requires |proof| > 0 && |proof[0]| < 32 && !DecodeList(m, proof[0]).Aborted?
    ensures Walk(m, keccak, proof, ns, current, expected).Value?
  {
    hide DecodeItem, DecodeItems, DecodeHp, Walk;
    assert Walk(m, keccak, proof, ns, current, expected).Value? by {
      ShortItems(m, proof[0]);
      WalkStops(m, keccak, proof, ns, current, expected);
    }
  }

  lemma ShortItems(m: Usize, node: Bytes)
    requires |node| < 32
    ensures DecodeList(m, node).Value? ==>
      forall i :: 0 <= i < |DecodeList(m, node).v| ==> |DecodeList(m, node).v[i]| < 32
  {
    if DecodeList(m, node).Value? {
      PayloadIsShorter(m, node);
      var payload := ListPayload(m, node).v;
      hide DecodeItems, ListPayload;
      forall i: nat | i < |DecodeItems(m, payload).v| ensures |DecodeItems(m, payload).v[i]| < 32 {
        ItemIsShort(m, payload, i);
      }
    }
  }

  lemma WalkStops(m: Usize, keccak: HashFn, proof: seq<Bytes>, ns: seq<Nibble>, current: Digest, expected: Bytes)
    requires |proof| > 0 && !DecodeList(m, proof[0]).Aborted?
    requires DecodeList(m, proof[0]).Value? ==>
      forall i :: 0 <= i < |DecodeList(m, proof[0]).v| ==> |DecodeList(m, proof[0]).v[i]| < 32
    ensures Walk(m, keccak, proof, ns, current, expected).Value?
  {
    hide DecodeList, DecodeHp;
  }
}
