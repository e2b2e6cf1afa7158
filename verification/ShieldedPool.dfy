/** The shielded pool module: what each call does to the list of commitments, the spent
    nullifiers and the supplies, and the class that keeps an incremental tree and a ring of
    recent roots in step with that list. */
module ShieldedPool {
  import opened ByteStrings
  import opened CommitmentTree
  import opened MerkleTree

  const ROOTS_HISTORY_SIZE: nat := 100
  const SANCTIONS_PROOF_MAX_AGE_SECS: nat := 86_400

  datatype Error =
    | ZeroNoteAmount | BadOwnerKey | TreeFull
    | UnknownRoot | BadTransferProof | StaleSanctionsRoot | SanctionsProofTooOld | BadSanctionsProof
    | NoteAlreadySpent | NotSanctionsOracle | BadUnshieldProof
    | ZeroDepositAmount | ZeroRecipient | BadConfiguredContract | WrongContract
    | DepositAlreadyClaimed | BlockNotFinalized | BadBridgeProof
    | DepositNotClaimed | AlreadyWithdrawn | NoClaimedAmount
    | HeliosRootMismatch | HeliosSlotNotAdvancing | HeliosGapTooLarge | BadHeliosProof

  // ---------- Messages ----------

  datatype Note = Note(amount: U64, assetId: Digest, ownerPubkey: Bytes, salt: Digest)

  /** Proof verification happens elsewhere: each message carries its verdict. */
  datatype Transfer = Transfer(
    merkleRoot: Digest, proofOk: bool, transferAmount: U64,
    sanctionsRoot: Digest, proofTimestamp: U64, sanctionsProofOk: bool,
    nullifiers: seq<Digest>, outputs: seq<Digest>)

  datatype Unshield = Unshield(proofOk: bool, nullifier: Digest, assetId: Digest, amount: U64)

  // ---------- Specification ----------

  datatype Params = Params(sha: HashFn, depth: nat) {
    function Scheme(): Scheme {
      PairScheme(sha)
    }

    function RootOf(commitments: seq<Digest>): Digest {
      Root(Scheme(), commitments, depth)
    }
  }

  datatype PoolState = PoolState(
    commitments: seq<Digest>,
    spent: set<Digest>,
    supply: map<Digest, U64>,
    complianceTxCount: U64,
    complianceTotalVolume: U64,
    sanctionsRoot: Option<Digest>,
    sanctionsOracle: Option<Bytes>)
  {
    function SupplyOf(asset: Digest): U64 {
      if asset in supply then supply[asset] else 0
    }
  }

  const GENESIS_POOL: PoolState := PoolState([], {}, map[], 0, 0, None, None)

  /** r is the root after the k-th insertion, for one of the last 100 insertions. */
  ghost predicate KnownRoot(p: Params, commitments: seq<Digest>, r: Digest) {
    exists k: nat ::
      && 1 <= k <= |commitments| < k + ROOTS_HISTORY_SIZE
      && r == p.RootOf(commitments[..k])
  }

  function NoteInput(note: Note): Bytes {
    Le(note.amount, 8) + note.assetId.bytes + note.ownerPubkey + note.salt.bytes
  }

  function CommitmentOf(sha: HashFn, note: Note): Result<Digest, Error> {
    if note.amount == 0 then Err(ZeroNoteAmount)
    else if |note.ownerPubkey| != 32 then Err(BadOwnerKey)
    else Ok(sha(NoteInput(note)))
  }

  /** What is hashed: the amount as eight little-endian bytes, the asset, the owner's 32
      bytes, the salt. Nothing else has a commitment. */
  lemma CommitmentInBytes(sha: HashFn, note: Note, commitment: Digest)
    ensures
      var n := note.amount;
      CommitmentOf(sha, note) == Ok(commitment) <==>
      && n > 0 && |note.ownerPubkey| == 32
      && commitment == sha(
           [n % 256, n / 0x100 % 256, n / 0x1_0000 % 256, n / 0x100_0000 % 256, n / 0x1_0000_0000 % 256,
            n / 0x100_0000_0000 % 256, n / 0x1_0000_0000_0000 % 256, n / 0x100_0000_0000_0000 % 256]
           + note.assetId.bytes + note.ownerPubkey + note.salt.bytes)
  {
    Le64InBytes(note.amount);
    hide Le;
  }

  /** A commitment stands for one note. */
  lemma CommitmentBindsNote(sha: HashFn, a: Note, b: Note)
    requires CommitmentOf(sha, a).Ok? && CommitmentOf(sha, a) == CommitmentOf(sha, b)
    ensures a == b || Collision(sha, (NoteInput(a), NoteInput(b)))
  {
    hide Le;
    var x, y := NoteInput(a), NoteInput(b);
    if x == y {
      assert x[..8] == Le(a.amount, 8) && y[..8] == Le(b.amount, 8);
      assert x[8..40] == a.assetId.bytes && y[8..40] == b.assetId.bytes;
      assert x[40..72] == a.ownerPubkey && y[40..72] == b.ownerPubkey;
      assert x[72..] == a.salt.bytes && y[72..] == b.salt.bytes;
      Le64Injective(a.amount, b.amount);
    }
  }

  /** Appends commitments one by one; the tree may fill up on the way. */
  function Append(depth: nat, st: PoolState, more: seq<Digest>): Result<PoolState, Error>
    decreases |more|
  {
    if |more| == 0 then Ok(st)
    else if |st.commitments| >= Pow2(depth) then Err(TreeFull)
    else Append(depth, st.(commitments := st.commitments + [more[0]]), more[1..])
  }

  function Deposit(st: PoolState, asset: Digest, amount: U64): PoolState {
    st.(supply := st.supply[asset := WrapAdd(st.SupplyOf(asset), amount)])
  }

  function ShieldStep(p: Params, st: PoolState, note: Note): Result<PoolState, Error> {
    match CommitmentOf(p.sha, note)
    case Err(e) => Err(e)
    case Ok(commitment) =>
      match Append(p.depth, st, [commitment])
      case Err(e) => Err(e)
      case Ok(next) => Ok(Deposit(next, note.assetId, note.amount))
  }

  /** The first check a transfer fails, if any. */
  ghost function TransferError(p: Params, st: PoolState, t: Transfer, now: U64): Option<Error> {
    if t.merkleRoot != ZERO_DIGEST && !KnownRoot(p, st.commitments, t.merkleRoot) then Some(UnknownRoot)
    else if !t.proofOk then Some(BadTransferProof)
    else if st.sanctionsRoot.Some? && st.sanctionsRoot.value != ZERO_DIGEST && t.sanctionsRoot != st.sanctionsRoot.value
    then Some(StaleSanctionsRoot)
    else if t.proofTimestamp > 0 && now - t.proofTimestamp > SANCTIONS_PROOF_MAX_AGE_SECS then
      Some(SanctionsProofTooOld)
    else if !t.sanctionsProofOk then Some(BadSanctionsProof)
    else if exists n :: n in t.nullifiers && n in st.spent then Some(NoteAlreadySpent)
    else None
  }

  ghost function TransferStep(p: Params, st: PoolState, t: Transfer, now: U64): Result<PoolState, Error> {
    match TransferError(p, st, t, now)
    case Some(e) => Err(e)
    case None =>
      match Append(p.depth, st.(spent := st.spent + (set n | n in t.nullifiers)), t.outputs)
      case Err(e) => Err(e)
      case Ok(next) => Ok(next.(
        complianceTxCount := WrapAdd(st.complianceTxCount, 1),
        complianceTotalVolume := WrapAdd(st.complianceTotalVolume, t.transferAmount)))
  }

  function UnshieldStep(st: PoolState, u: Unshield): Result<PoolState, Error> {
    if !u.proofOk then Err(BadUnshieldProof)
    else if u.nullifier in st.spent then Err(NoteAlreadySpent)
    else Ok(st.(
      spent := st.spent + {u.nullifier},
      supply := st.supply[u.assetId := SaturatingSub(st.SupplyOf(u.assetId), u.amount)]))
  }

  function UpdateSanctionsRootStep(st: PoolState, newRoot: Digest, sender: Bytes): Result<PoolState, Error> {
    if st.sanctionsOracle.Some? && st.sanctionsOracle.value != [] && sender != st.sanctionsOracle.value
    then Err(NotSanctionsOracle)
    else Ok(st.(sanctionsRoot := Some(newRoot)))
  }

  /** A handler's answer and the state it leaves agree with the specification. After an
      error the state is whatever the handler left: the runtime reverts it. */
  ghost predicate Realizes(r: Result<(), Error>, spec: Result<PoolState, Error>, valid: bool, post: PoolState) {
    match spec
    case Ok(next) => r.Ok? && valid && post == next
    case Err(e) => r == Err(e)
  }

  // ---------- Tree state ----------

  /** The nullifiers the map marks as spent. */
  ghost function SpentIn(nullifiers: map<Digest, bool>): set<Digest> {
    set n | n in nullifiers && nullifiers[n]
  }

  lemma MarkOne(nullifiers: map<Digest, bool>, n: Digest)
    ensures SpentIn(nullifiers[n := true]) == SpentIn(nullifiers) + {n}
  {
  }

  function FilledSlot(s: Scheme, filled: map<nat, Digest>, l: nat): Digest {
    if l in filled then filled[l] else PadNode(s, l)
  }

  /** The stored subtrees as a list, an absent level reading as its zero value. */
  function FilledList(s: Scheme, filled: map<nat, Digest>, d: nat): (r: seq<Digest>)
    ensures |r| == d && forall l: nat :: l < d ==> r[l] == FilledSlot(s, filled, l)
  {
    if d == 0 then [] else FilledList(s, filled, d - 1) + [FilledSlot(s, filled, d - 1)]
  }

  /** Slot k mod 100 holds the root after insertion k + 1, for the last 100 insertions. */
  ghost predicate RingInvariant(p: Params, leaves: seq<Digest>, roots: map<nat, Digest>) {
    forall k: nat :: k < |leaves| <= k + ROOTS_HISTORY_SIZE ==>
      k % ROOTS_HISTORY_SIZE in roots && roots[k % ROOTS_HISTORY_SIZE] == p.RootOf(leaves[..k + 1])
  }

  lemma RingRecords(p: Params, leaves: seq<Digest>, c: Digest, roots: map<nat, Digest>)
    requires RingInvariant(p, leaves, roots)
    ensures RingInvariant(p, leaves + [c], roots[|leaves| % ROOTS_HISTORY_SIZE := p.RootOf(leaves + [c])])
  {
    var more := leaves + [c];
    forall k: nat | k < |more| <= k + ROOTS_HISTORY_SIZE
      ensures
        var after := roots[|leaves| % ROOTS_HISTORY_SIZE := p.RootOf(more)];
        k % ROOTS_HISTORY_SIZE in after && after[k % ROOTS_HISTORY_SIZE] == p.RootOf(more[..k + 1])
    {
      if k == |leaves| {
        assert more[..k + 1] == more;
      } else {
        assert more[..k + 1] == leaves[..k + 1];
      }
    }
  }

  /** A full ring slot holds one of the roots a caller may use. */
  lemma RingSlotIsKnown(p: Params, leaves: seq<Digest>, roots: map<nat, Digest>, i: nat)
    requires RingInvariant(p, leaves, roots)
    requires i < |leaves| && i < ROOTS_HISTORY_SIZE && i in roots
    ensures KnownRoot(p, leaves, roots[i])
  {
    var n := |leaves|;
    var k := if n <= ROOTS_HISTORY_SIZE then i else n - ROOTS_HISTORY_SIZE + (i - n) % ROOTS_HISTORY_SIZE;
    assert k % ROOTS_HISTORY_SIZE == i;
    assert roots[i] == p.RootOf(leaves[..k + 1]);
  }

  class Pool {
    const sha: HashFn
    const depth: nat
    var commitments: seq<Digest>
    var merkleRoot: Digest
    var merkleNextIndex: nat
    var filledSubtrees: map<nat, Digest>
    var roots: map<nat, Digest>
    var rootsCount: nat
    var nullifiers: map<Digest, bool>
    var supply: map<Digest, U64>
    var complianceTxCount: U64
    var complianceTotalVolume: U64
    var sanctionsRoot: Option<Digest>
    var sanctionsOracle: Option<Bytes>

    function P(): Params {
      Params(sha, depth)
    }

    /** The tree fields describe the tree over `leaves`. */
    ghost predicate TreeValid(leaves: seq<Digest>)
      reads this
    {
      && merkleNextIndex == rootsCount == |leaves| <= Pow2(depth)
      && merkleRoot == P().RootOf(leaves)
      && FilledInvariant(PairScheme(sha), leaves, FilledList(PairScheme(sha), filledSubtrees, depth))
      && RingInvariant(P(), leaves, roots)
    }

    ghost predicate Valid()
      reads this
    {
      TreeValid(commitments)
    }

    ghost function State(): PoolState
      reads this
    {
      PoolState(commitments, SpentIn(nullifiers), supply, complianceTxCount, complianceTotalVolume, sanctionsRoot,
        sanctionsOracle)
    }

    /** `genesis` */
    constructor (sha: HashFn, depth: nat)
      ensures this.sha == sha && this.depth == depth
      ensures Valid() && State() == GENESIS_POOL
    {
      this.sha, this.depth := sha, depth;
      commitments, nullifiers, supply := [], map[], map[];
      complianceTxCount, complianceTotalVolume := 0, 0;
      sanctionsRoot, sanctionsOracle := None, None;
      merkleNextIndex, rootsCount, roots := 0, 0, map[];
      new;
      filledSubtrees := map[];
      for level := 0 to depth
        invariant merkleNextIndex == rootsCount == 0 && roots == map[] && State() == GENESIS_POOL
        invariant forall l :: l in filledSubtrees ==> filledSubtrees[l] == PadNode(PairScheme(sha), l)
      {
        var zero := ZeroValue(PairScheme(sha), level);
        filledSubtrees := filledSubtrees[level := zero];
      }
      merkleRoot := ZeroValue(PairScheme(sha), depth);
      EmptyRoot(PairScheme(sha), depth);
      ShrOfZero(depth);
    }

    /** A working copy for one transaction. */
    constructor Copy(from: Pool)
      requires from.Valid()
      ensures sha == from.sha && depth == from.depth
      ensures Valid() && State() == from.State()
    {
      sha, depth := from.sha, from.depth;
      commitments, merkleRoot, merkleNextIndex := from.commitments, from.merkleRoot, from.merkleNextIndex;
      filledSubtrees, roots, rootsCount := from.filledSubtrees, from.roots, from.rootsCount;
      nullifiers, supply := from.nullifiers, from.supply;
      complianceTxCount, complianceTotalVolume := from.complianceTxCount, from.complianceTotalVolume;
      sanctionsRoot, sanctionsOracle := from.sanctionsRoot, from.sanctionsOracle;
    }

    /** `insert_commitment`: the tree over `leaves` becomes the tree over one leaf more,
        unless it is full. */
    method InsertCommitment(c: Digest, ghost leaves: seq<Digest>) returns (r: Result<(), Error>)
      requires TreeValid(leaves)
      modifies `merkleRoot, `merkleNextIndex, `filledSubtrees, `roots, `rootsCount
      ensures r == if |leaves| < Pow2(depth) then Ok(()) else Err(TreeFull)
      ensures r.Ok? ==> TreeValid(leaves + [c])
    {
      var nextIndex := merkleNextIndex;
      if nextIndex >= Pow2(depth) {
        return Err(TreeFull);
      }
      var s := PairScheme(sha);
      var filledCache := [];
      for level := 0 to depth
        invariant filledCache == FilledList(s, filledSubtrees, level)
      {
        filledCache := filledCache + [FilledSlot(s, filledSubtrees, level)];
      }
      var newRoot, updates := ComputeInsert(s, c, nextIndex, filledCache);
      PersistFilled(filledCache, updates);
      InsertRefinesRebuild(s, leaves, c, filledCache);
      RingRecords(P(), leaves, c, roots);
      merkleRoot := newRoot;
      roots := roots[rootsCount % ROOTS_HISTORY_SIZE := newRoot];
      rootsCount := rootsCount + 1;
      merkleNextIndex := nextIndex + 1;
      return Ok(());
    }

    /** Writes the updates back, one level at a time. */
    method PersistFilled(filledCache: seq<Digest>, updates: seq<Update>)
      requires filledCache == FilledList(PairScheme(sha), filledSubtrees, depth)
      requires forall u :: u in updates ==> u.level < depth
      modifies `filledSubtrees
      ensures FilledList(PairScheme(sha), filledSubtrees, depth) == ApplyUpdates(filledCache, updates)
    {
      assert updates[..0] == [];
      for i := 0 to |updates|
        invariant FilledList(PairScheme(sha), filledSubtrees, depth) == ApplyUpdates(filledCache, updates[..i])
      {
        assert updates[..i + 1][..i] == updates[..i];
        filledSubtrees := filledSubtrees[updates[i].level := updates[i].value];
      }
      assert updates[..|updates|] == updates;
    }

    /** `is_known_root`: exactly the roots after the last 100 insertions. */
    method IsKnownRoot(root: Digest) returns (known: bool)
      requires Valid()
      ensures known <==> KnownRoot(P(), commitments, root)
    {
      if rootsCount == 0 {
        return false;
      }
      var limit := if rootsCount < ROOTS_HISTORY_SIZE then rootsCount else ROOTS_HISTORY_SIZE;
      for i := 0 to limit
        invariant forall j: nat :: j < i && j in roots ==> roots[j] != root
      {
        var slot := i % ROOTS_HISTORY_SIZE;
        if slot in roots && roots[slot] == root {
          RingSlotIsKnown(P(), commitments, roots, i);
          return true;
        }
      }
      known := false;
      forall k: nat | 1 <= k <= |commitments| < k + ROOTS_HISTORY_SIZE
        ensures root != P().RootOf(commitments[..k])
      {
        var slot := (k - 1) % ROOTS_HISTORY_SIZE;
        assert slot in roots && roots[slot] == P().RootOf(commitments[..(k - 1) + 1]);
      }
    }

    /** Pushes to the flat list and inserts into the tree, as every caller does. */
    method Commit(c: Digest) returns (r: Result<(), Error>)
      requires Valid()
      modifies `commitments, `merkleRoot, `merkleNextIndex, `filledSubtrees, `roots, `rootsCount
      ensures r == if |old(commitments)| < Pow2(depth) then Ok(()) else Err(TreeFull)
      ensures r.Ok? ==> Valid() && commitments == old(commitments) + [c]
    {
      ghost var leaves := commitments;
      commitments := commitments + [c];
      r := InsertCommitment(c, leaves);
    }

    method HandleShield(note: Note) returns (r: Result<(), Error>)
      requires Valid()
      modifies this
      ensures Realizes(r, ShieldStep(P(), old(State()), note), Valid(), State())
    {
      var commitment := CommitmentOf(sha, note);
      if commitment.Err? {
        return Err(commitment.error);
      }
      r := Commit(commitment.value);
      if r.Err? {
        return;
      }
      assert Append(depth, old(State()), [commitment.value]) == Ok(State());
      var currentSupply := if note.assetId in supply then supply[note.assetId] else 0;
      supply := supply[note.assetId := WrapAdd(currentSupply, note.amount)];
    }

    method HandleTransfer(t: Transfer, now: U64) returns (r: Result<(), Error>)
      requires Valid()
      modifies this
      ensures Realizes(r, TransferStep(P(), old(State()), t, now), Valid(), State())
    {
      hide FilledInvariant, RingInvariant, KnownRoot;
      r := CheckTransfer(t, now);
      if r.Err? {
        return;
      }
      MarkSpent(t.nullifiers);
      r := CommitAll(t.outputs);
      if r.Ok? {
        complianceTxCount := WrapAdd(complianceTxCount, 1);
        complianceTotalVolume := WrapAdd(complianceTotalVolume, t.transferAmount);
      }
    }

    /** Every check of a transfer, in order, before anything is written. */
    method CheckTransfer(t: Transfer, now: U64) returns (r: Result<(), Error>)
      requires Valid()
      ensures
        match TransferError(P(), State(), t, now)
        case Some(e) => r == Err(e)
        case None => r.Ok?
    {
      if t.merkleRoot != ZERO_DIGEST {
        var known := IsKnownRoot(t.merkleRoot);
        if !known {
          return Err(UnknownRoot);
        }
      }
      if !t.proofOk {
        return Err(BadTransferProof);
      }
      var currentRoot := if sanctionsRoot.Some? then sanctionsRoot.value else ZERO_DIGEST;
      if currentRoot != ZERO_DIGEST && t.sanctionsRoot != currentRoot {
        return Err(StaleSanctionsRoot);
      }
      var proofAge := SaturatingSub(now, t.proofTimestamp);
      if t.proofTimestamp > 0 && proofAge > SANCTIONS_PROOF_MAX_AGE_SECS {
        return Err(SanctionsProofTooOld);
      }
      if !t.sanctionsProofOk {
        return Err(BadSanctionsProof);
      }
      var spent := AnySpent(t.nullifiers);
      return if spent then Err(NoteAlreadySpent) else Ok(());
    }

    method AnySpent(ns: seq<Digest>) returns (spent: bool)
      ensures spent <==> exists n :: n in ns && n in SpentIn(nullifiers)
    {
      for i := 0 to |ns|
        invariant forall j :: 0 <= j < i ==> ns[j] !in SpentIn(nullifiers)
      {
        if ns[i] in nullifiers && nullifiers[ns[i]] {
          assert ns[i] in SpentIn(nullifiers);
          return true;
        }
      }
      return false;
    }

    method MarkSpent(ns: seq<Digest>)
      modifies `nullifiers
      ensures SpentIn(nullifiers) == SpentIn(old(nullifiers)) + set n | n in ns
    {
      for i := 0 to |ns|
        invariant forall n :: n in SpentIn(nullifiers) <==> n in SpentIn(old(nullifiers)) || n in ns[..i]
      {
        MarkOne(nullifiers, ns[i]);
        nullifiers := nullifiers[ns[i] := true];
        assert ns[..i + 1] == ns[..i] + [ns[i]];
      }
      assert ns[..|ns|] == ns;
    }

    method CommitAll(outputs: seq<Digest>) returns (r: Result<(), Error>)
      requires Valid()
      modifies `commitments, `merkleRoot, `merkleNextIndex, `filledSubtrees, `roots, `rootsCount
      ensures Realizes(r, Append(depth, old(State()), outputs), Valid(), State())
    {
      for i := 0 to |outputs|
        invariant Valid()
        invariant Append(depth, State(), outputs[i..]) == Append(depth, old(State()), outputs)
      {
        assert outputs[i..][1..] == outputs[i + 1..];
        r := Commit(outputs[i]);
        if r.Err? {
          return;
        }
      }
      r := Ok(());
    }

    method HandleUnshield(u: Unshield) returns (r: Result<(), Error>)
      requires Valid()
      modifies this
      ensures Realizes(r, UnshieldStep(old(State()), u), Valid(), State())
    {
      if !u.proofOk {
        return Err(BadUnshieldProof);
      }
      if u.nullifier in nullifiers && nullifiers[u.nullifier] {
        return Err(NoteAlreadySpent);
      }
      MarkOne(nullifiers, u.nullifier);
      nullifiers := nullifiers[u.nullifier := true];
      var currentSupply := if u.assetId in supply then supply[u.assetId] else 0;
      supply := supply[u.assetId := SaturatingSub(currentSupply, u.amount)];
      return Ok(());
    }

    method HandleUpdateSanctionsRoot(newRoot: Digest, sender: Bytes) returns (r: Result<(), Error>)
      requires Valid()
      modifies `sanctionsRoot
      ensures Realizes(r, UpdateSanctionsRootStep(old(State()), newRoot, sender), Valid(), State())
    {
      var oracle := if sanctionsOracle.Some? then sanctionsOracle.value else [];
      if oracle != [] && sender != oracle {
        return Err(NotSanctionsOracle);
      }
      sanctionsRoot := Some(newRoot);
      return Ok(());
    }
  }

  lemma {:induction false} ShrOfZero(k: nat)
    ensures forall l: nat :: l <= k ==> Shr(0, l) == 0
    decreases k
  {
    if k > 0 {
      ShrOfZero(k - 1);
      ShrStep(0, k - 1);
    }
  }
}
