/** The bridge module: deposit claims that land in the shielded pool, withdrawals, and the
    trusted beacon head. */
module Bridge {
  import opened ByteStrings
  import opened BridgeKeys
  import opened ShieldedPool

  // ---------- Configuration and messages ----------

  /** The genesis configuration. `contract` is None when the configured address string does
      not parse. */
  datatype BridgeConfig = BridgeConfig(
    contract: Option<Address>, initialBeaconRoot: Digest, initialSlot: U64, maxSlotGap: U64)

  datatype Claim = Claim(
    proofOk: bool, ethBlockHash: Digest, depositId: U64, recipient: Digest, amount: U64, contract: Address)

  datatype Withdraw = Withdraw(depositId: U64, ethRecipient: Address)

  datatype HeliosUpdate = HeliosUpdate(
    proofOk: bool, prevTrustedRoot: Digest, newBeaconRoot: Digest, newSlot: U64, executionBlockHash: Digest)

  datatype WithdrawalRecord = WithdrawalRecord(
    withdrawalId: nat, depositId: U64, ethRecipient: Address, amount: U64, relayed: bool)

  // ---------- Specification ----------

  datatype BridgeState = BridgeState(
    claims: map<U64, U64>,
    withdrawals: seq<WithdrawalRecord>,
    totalBridged: U64,
    totalClaims: U64,
    totalWithdrawn: U64,
    trustedRoot: Digest,
    trustedSlot: U64,
    finalized: map<Digest, U64>,
    heliosUpdates: U64)
  {
    ghost predicate Withdrawn(depositId: U64) {
      exists r :: r in withdrawals && r.depositId == depositId
    }
  }

  function GenesisBridge(cfg: BridgeConfig): BridgeState {
    BridgeState(map[], [], 0, 0, 0, cfg.initialBeaconRoot, cfg.initialSlot, map[], 0)
  }

  /** b"bridged-usdc-obscura-network-v01" */
  const BRIDGED_USDC: Digest :=
    Digest([98, 114, 105, 100, 103, 101, 100, 45, 117, 115, 100, 99, 45, 111, 98, 115,
     99, 117, 114, 97, 45, 110, 101, 116, 119, 111, 114, 107, 45, 118, 48, 49])

  lemma BridgedUsdcText()
    ensures forall i :: 0 <= i < 32 ==> BRIDGED_USDC.bytes[i] == "bridged-usdc-obscura-network-v01"[i] as int
  {
  }

  function ClaimStep(
    p: Params, cfg: BridgeConfig, pool: PoolState, b: BridgeState, c: Claim): Result<(PoolState, BridgeState), Error>
  {
    if c.amount == 0 then Err(ZeroDepositAmount)
    else if c.recipient == ZERO_DIGEST then Err(ZeroRecipient)
    else if cfg.contract.None? then Err(BadConfiguredContract)
    else if c.contract != cfg.contract.value then Err(WrongContract)
    else if c.depositId in b.claims then Err(DepositAlreadyClaimed)
    else if b.trustedSlot > 0 && (c.ethBlockHash !in b.finalized || b.finalized[c.ethBlockHash] == 0) then
      Err(BlockNotFinalized)
    else if !c.proofOk then Err(BadBridgeProof)
    else
      match Append(p.depth, pool, [c.recipient])
      case Err(e) => Err(e)
      case Ok(next) => Ok((
        Deposit(next, BRIDGED_USDC, c.amount),
        b.(claims := b.claims[c.depositId := c.amount],
           totalBridged := WrapAdd(b.totalBridged, c.amount),
           totalClaims := WrapAdd(b.totalClaims, 1))))
  }

  ghost function WithdrawStep(cfg: BridgeConfig, b: BridgeState, w: Withdraw): Result<BridgeState, Error> {
    if cfg.contract.None? then Err(BadConfiguredContract)
    else if w.depositId !in b.claims then Err(DepositNotClaimed)
    else if b.Withdrawn(w.depositId) then Err(AlreadyWithdrawn)
    else if b.claims[w.depositId] == 0 then Err(NoClaimedAmount)
    else
      var amount := b.claims[w.depositId];
      var record := WithdrawalRecord(|b.withdrawals|, w.depositId, w.ethRecipient, amount, false);
      Ok(b.(withdrawals := b.withdrawals + [record],
            totalWithdrawn := WrapAdd(b.totalWithdrawn, amount)))
  }

  function HeliosStep(cfg: BridgeConfig, b: BridgeState, u: HeliosUpdate): Result<BridgeState, Error> {
    if u.prevTrustedRoot != b.trustedRoot then Err(HeliosRootMismatch)
    else if u.newSlot <= b.trustedSlot then Err(HeliosSlotNotAdvancing)
    else if b.trustedSlot > 0 && u.newSlot - b.trustedSlot > cfg.maxSlotGap then Err(HeliosGapTooLarge)
    else if !u.proofOk then Err(BadHeliosProof)
    else Ok(b.(trustedRoot := u.newBeaconRoot, trustedSlot := u.newSlot,
               finalized := b.finalized[u.executionBlockHash := u.newSlot],
               heliosUpdates := WrapAdd(b.heliosUpdates, 1)))
  }

  ghost predicate BridgeRealizes(
    r: Result<(), Error>, spec: Result<BridgeState, Error>, valid: bool, post: BridgeState)
  {
    match spec
    case Ok(next) => r.Ok? && valid && post == next
    case Err(e) => r == Err(e)
  }

  // ---------- The string-keyed maps ----------

  predicate Marked(processed: map<string, bool>, key: string) {
    key in processed && processed[key]
  }

  /** One string map holds two sets: the claimed and the withdrawn deposits. */
  ghost predicate ProcessedInvariant(
    cfg: BridgeConfig, processed: map<string, bool>, claims: map<U64, U64>, withdrawals: seq<WithdrawalRecord>)
  {
    && (cfg.contract.Some? ==>
          forall id: U64 :: Marked(processed, DepositKey(cfg.contract.value, id)) <==> id in claims)
    && (forall id: U64 :: Marked(processed, WithdrawalKey(id)) <==> exists r :: r in withdrawals && r.depositId == id)
  }

  lemma MarkClaim(
    cfg: BridgeConfig, processed: map<string, bool>, claims: map<U64, U64>, withdrawals: seq<WithdrawalRecord>,
    id: U64, amount: U64)
    requires cfg.contract.Some? && ProcessedInvariant(cfg, processed, claims, withdrawals)
    ensures
      var marked := processed[DepositKey(cfg.contract.value, id) := true];
      ProcessedInvariant(cfg, marked, claims[id := amount], withdrawals)
  {
    var c := cfg.contract.value;
    forall i: U64 ensures DepositKey(c, i) == DepositKey(c, id) ==> i == id {
      if DepositKey(c, i) == DepositKey(c, id) {
        DepositKeyInjective(c, i, c, id);
      }
    }
    forall i: U64 ensures WithdrawalKey(i) != DepositKey(c, id) {
      KeyFamiliesDisjoint(c, id, i);
    }
  }

  lemma MarkWithdrawal(
    cfg: BridgeConfig, processed: map<string, bool>, claims: map<U64, U64>, withdrawals: seq<WithdrawalRecord>,
    r: WithdrawalRecord)
    requires ProcessedInvariant(cfg, processed, claims, withdrawals)
    ensures ProcessedInvariant(cfg, processed[WithdrawalKey(r.depositId) := true], claims, withdrawals + [r])
  {
    var after, more := processed[WithdrawalKey(r.depositId) := true], withdrawals + [r];
    assert more[|withdrawals|] == r;
    forall i: U64 ensures Marked(after, WithdrawalKey(i)) <==> exists q :: q in more && q.depositId == i {
      if WithdrawalKey(i) == WithdrawalKey(r.depositId) {
        WithdrawalKeyInjective(i, r.depositId);
      }
    }
    if cfg.contract.Some? {
      forall i: U64 ensures DepositKey(cfg.contract.value, i) != WithdrawalKey(r.depositId) {
        KeyFamiliesDisjoint(cfg.contract.value, i, r.depositId);
      }
    }
  }

  /** The hex-keyed map of finalized blocks and the same map keyed by digest. */
  ghost predicate FinalizedInvariant(byKey: map<string, U64>, byHash: map<Digest, U64>) {
    forall h: Digest :: (BlockKey(h) in byKey <==> h in byHash) && (h in byHash ==> byKey[BlockKey(h)] == byHash[h])
  }

  lemma RecordFinalized(byKey: map<string, U64>, byHash: map<Digest, U64>, h: Digest, slot: U64)
    requires FinalizedInvariant(byKey, byHash)
    ensures FinalizedInvariant(byKey[BlockKey(h) := slot], byHash[h := slot])
  {
    forall g: Digest ensures BlockKey(g) == BlockKey(h) ==> g == h {
      if BlockKey(g) == BlockKey(h) {
        BlockKeyInjective(g, h);
      }
    }
  }

  class Bridge {
    const config: BridgeConfig
    const pool: Pool
    var processedDeposits: map<string, bool>
    var claimedAmounts: map<U64, U64>
    var withdrawals: map<nat, WithdrawalRecord>
    var nextWithdrawalId: nat
    var totalBridgedUsdc: U64
    var totalClaims: U64
    var totalWithdrawnUsdc: U64
    var trustedBeaconRoot: Digest
    var trustedSlot: U64
    var finalizedEthBlocks: map<string, U64>
    var heliosUpdateCount: U64

    /** The withdrawal records in order, and the finalized blocks keyed by digest. */
    ghost var ledger: seq<WithdrawalRecord>
    ghost var finalized: map<Digest, U64>

    ghost predicate Valid()
      reads this
    {
      && ProcessedInvariant(config, processedDeposits, claimedAmounts, ledger)
      && nextWithdrawalId == |ledger|
      && (forall k: nat :: k in withdrawals <==> k < |ledger|)
      && (forall k: nat :: k < |ledger| ==> withdrawals[k] == ledger[k])
      && FinalizedInvariant(finalizedEthBlocks, finalized)
    }

    ghost function State(): BridgeState
      reads this
    {
      BridgeState(claimedAmounts, ledger, totalBridgedUsdc, totalClaims, totalWithdrawnUsdc,
                  trustedBeaconRoot, trustedSlot, finalized, heliosUpdateCount)
    }

    /** `genesis` */
    constructor (config: BridgeConfig, pool: Pool)
      ensures this.config == config && this.pool == pool
      ensures Valid() && State() == GenesisBridge(config)
    {
      this.config, this.pool := config, pool;
      processedDeposits, claimedAmounts, withdrawals, finalizedEthBlocks := map[], map[], map[], map[];
      totalBridgedUsdc, totalClaims, nextWithdrawalId, totalWithdrawnUsdc, heliosUpdateCount := 0, 0, 0, 0, 0;
      trustedBeaconRoot, trustedSlot := config.initialBeaconRoot, config.initialSlot;
      ledger, finalized := [], map[];
    }

    /** A working copy for one transaction. */
    constructor Copy(from: Bridge, pool: Pool)
      requires from.Valid()
      ensures config == from.config && this.pool == pool
      ensures Valid() && State() == from.State()
    {
      config, this.pool := from.config, pool;
      processedDeposits, claimedAmounts, withdrawals := from.processedDeposits, from.claimedAmounts, from.withdrawals;
      nextWithdrawalId, totalBridgedUsdc, totalClaims := from.nextWithdrawalId, from.totalBridgedUsdc, from.totalClaims;
      totalWithdrawnUsdc, trustedBeaconRoot := from.totalWithdrawnUsdc, from.trustedBeaconRoot;
      trustedSlot, finalizedEthBlocks := from.trustedSlot, from.finalizedEthBlocks;
      heliosUpdateCount, ledger, finalized := from.heliosUpdateCount, from.ledger, from.finalized;
    }

    method HandleClaimDeposit(c: Claim) returns (r: Result<(), Error>)
      requires Valid() && pool.Valid()
      modifies this, pool
      ensures
        match ClaimStep(pool.P(), config, old(pool.State()), old(State()), c)
        case Ok(next) => r.Ok? && Valid() && pool.Valid() && pool.State() == next.0 && State() == next.1
        case Err(e) => r == Err(e)
    {
      if c.amount == 0 {
        return Err(ZeroDepositAmount);
      }
      if c.recipient == ZERO_DIGEST {
        return Err(ZeroRecipient);
      }
      if config.contract.None? {
        return Err(BadConfiguredContract);
      }
      if c.contract != config.contract.value {
        return Err(WrongContract);
      }
      var depositKey := DepositKey(c.contract, c.depositId);
      if Marked(processedDeposits, depositKey) {
        return Err(DepositAlreadyClaimed);
      }
      if trustedSlot > 0 {
        var blockKey := BlockKey(c.ethBlockHash);
        var provenSlot := if blockKey in finalizedEthBlocks then finalizedEthBlocks[blockKey] else 0;
        if provenSlot == 0 {
          return Err(BlockNotFinalized);
        }
      }
      if !c.proofOk {
        return Err(BadBridgeProof);
      }
      r := Settle(c, depositKey);
    }

    /** The effects of an accepted claim: mark it, shield it, add it to the totals. */
    method Settle(c: Claim, depositKey: string) returns (r: Result<(), Error>)
      requires Valid() && pool.Valid()
      requires config.contract.Some? && depositKey == DepositKey(config.contract.value, c.depositId)
      modifies `processedDeposits, `claimedAmounts, `totalBridgedUsdc, `totalClaims, pool
      ensures
        match Append(pool.depth, old(pool.State()), [c.recipient])
        case Err(e) => r == Err(e)
        case Ok(next) =>
          && r.Ok? && Valid() && pool.Valid()
          && pool.State() == Deposit(next, BRIDGED_USDC, c.amount)
          && claimedAmounts == old(claimedAmounts)[c.depositId := c.amount]
          && totalBridgedUsdc == WrapAdd(old(totalBridgedUsdc), c.amount)
          && totalClaims == WrapAdd(old(totalClaims), 1)
    {
      hide *;
      MarkClaimed(c, depositKey);
      r := ShieldDeposit(c);
      if r.Ok? {
        CountClaim(c.amount);
      }
    }

    method CountClaim(amount: U64)
      requires Valid()
      modifies `totalBridgedUsdc, `totalClaims
      ensures Valid()
      ensures totalBridgedUsdc == WrapAdd(old(totalBridgedUsdc), amount) && totalClaims == WrapAdd(old(totalClaims), 1)
    {
      totalBridgedUsdc := WrapAdd(totalBridgedUsdc, amount);
      totalClaims := WrapAdd(totalClaims, 1);
    }

    method MarkClaimed(c: Claim, depositKey: string)
      requires Valid()
      requires config.contract.Some? && depositKey == DepositKey(config.contract.value, c.depositId)
      modifies `processedDeposits, `claimedAmounts
      ensures Valid() && claimedAmounts == old(claimedAmounts)[c.depositId := c.amount]
    {
      MarkClaim(config, processedDeposits, claimedAmounts, ledger, c.depositId, c.amount);
      processedDeposits := processedDeposits[depositKey := true];
      claimedAmounts := claimedAmounts[c.depositId := c.amount];
    }

    /** Writes the pre-computed commitment straight into the pool's tree. */
    method ShieldDeposit(c: Claim) returns (r: Result<(), Error>)
      requires pool.Valid()
      modifies pool
      ensures
        match Append(pool.depth, old(pool.State()), [c.recipient])
        case Err(e) => r == Err(e)
        case Ok(next) => r.Ok? && pool.Valid() && pool.State() == Deposit(next, BRIDGED_USDC, c.amount)
    {
      r := pool.Commit(c.recipient);
      if r.Err? {
        return;
      }
      assert Append(pool.depth, old(pool.State()), [c.recipient]) == Ok(pool.State());
      var currentShielded := if BRIDGED_USDC in pool.supply then pool.supply[BRIDGED_USDC] else 0;
      pool.supply := pool.supply[BRIDGED_USDC := WrapAdd(currentShielded, c.amount)];
    }

    method HandleWithdrawBridge(w: Withdraw) returns (r: Result<(), Error>)
      requires Valid()
      modifies this
      ensures BridgeRealizes(r, WithdrawStep(config, old(State()), w), Valid(), State())
    {
      if config.contract.None? {
        return Err(BadConfiguredContract);
      }
      var depositKey := DepositKey(config.contract.value, w.depositId);
      if !Marked(processedDeposits, depositKey) {
        return Err(DepositNotClaimed);
      }
      var withdrawalKey := WithdrawalKey(w.depositId);
      if Marked(processedDeposits, withdrawalKey) {
        return Err(AlreadyWithdrawn);
      }
      var amount := if w.depositId in claimedAmounts then claimedAmounts[w.depositId] else 0;
      if amount == 0 {
        return Err(NoClaimedAmount);
      }
      RecordWithdrawal(w, withdrawalKey, amount);
      totalWithdrawnUsdc := WrapAdd(totalWithdrawnUsdc, amount);
      return Ok(());
    }

    method RecordWithdrawal(w: Withdraw, withdrawalKey: string, amount: U64)
      requires Valid() && withdrawalKey == WithdrawalKey(w.depositId)
      modifies `nextWithdrawalId, `processedDeposits, `withdrawals, `ledger
      ensures Valid()
      ensures ledger == old(ledger) + [WithdrawalRecord(|old(ledger)|, w.depositId, w.ethRecipient, amount, false)]
    {
      var withdrawalId := nextWithdrawalId;
      var record := WithdrawalRecord(withdrawalId, w.depositId, w.ethRecipient, amount, false);
      MarkWithdrawal(config, processedDeposits, claimedAmounts, ledger, record);
      nextWithdrawalId := withdrawalId + 1;
      processedDeposits := processedDeposits[withdrawalKey := true];
      withdrawals := withdrawals[withdrawalId := record];
      ledger := ledger + [record];
    }

    method HandleUpdateHeliosHead(u: HeliosUpdate) returns (r: Result<(), Error>)
      requires Valid()
      modifies this
      ensures BridgeRealizes(r, HeliosStep(config, old(State()), u), Valid(), State())
    {
      if u.prevTrustedRoot != trustedBeaconRoot {
        return Err(HeliosRootMismatch);
      }
      if u.newSlot <= trustedSlot {
        return Err(HeliosSlotNotAdvancing);
      }
      if trustedSlot > 0 {
        var gap := SaturatingSub(u.newSlot, trustedSlot);
        if gap > config.maxSlotGap {
          return Err(HeliosGapTooLarge);
        }
      }
      if !u.proofOk {
        return Err(BadHeliosProof);
      }
      AdvanceHead(u);
      heliosUpdateCount := WrapAdd(heliosUpdateCount, 1);
      hide ProcessedInvariant, FinalizedInvariant;
      return Ok(());
    }

    method AdvanceHead(u: HeliosUpdate)
      requires Valid()
      modifies `trustedBeaconRoot, `trustedSlot, `finalizedEthBlocks, `finalized
      ensures Valid()
      ensures trustedBeaconRoot == u.newBeaconRoot && trustedSlot == u.newSlot
      ensures finalized == old(finalized)[u.executionBlockHash := u.newSlot]
    {
      trustedBeaconRoot, trustedSlot := u.newBeaconRoot, u.newSlot;
      RecordFinalized(finalizedEthBlocks, finalized, u.executionBlockHash, u.newSlot);
      finalizedEthBlocks := finalizedEthBlocks[BlockKey(u.executionBlockHash) := u.newSlot];
      finalized := finalized[u.executionBlockHash := u.newSlot];
    }
  }
}
