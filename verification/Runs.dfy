/** What every run of calls keeps: the state of the pool and the bridge read off the list of
    accepted calls, and the safety properties that follow. */
module Runs {
  import opened ByteStrings
  import opened CommitmentTree
  import opened MerkleTree
  import opened ShieldedPool
  import opened Bridge
  import opened Rollup

  // ---------- Accepted calls ----------

  ghost predicate Accepted(ch: Chain, calls: seq<Call>, i: nat)
    requires i < |calls|
  {
    Step(ch, Run(ch, calls[..i]), calls[i]).Ok?
  }

  /** The calls of a run that succeeded, in order. */
  ghost function AcceptedCalls(ch: Chain, calls: seq<Call>): seq<Call>
    decreases |calls|
  {
    if |calls| == 0 then []
    else
      var n := |calls| - 1;
      AcceptedCalls(ch, calls[..n]) + (if Accepted(ch, calls, n) then [calls[n]] else [])
  }

  // ---------- What the accepted calls say ----------

  /** The commitments a call inserts. */
  function NewLeaves(sha: HashFn, call: Call): seq<Digest> {
    match call
    case ShieldCall(note) => (match CommitmentOf(sha, note) case Ok(c) => [c] case Err(_) => [])
    case TransferCall(t, _) => t.outputs
    case ClaimCall(c) => [c.recipient]
    case _ => []
  }

  function Leaves(sha: HashFn, acc: seq<Call>): seq<Digest>
    decreases |acc|
  {
    if |acc| == 0 then [] else Leaves(sha, acc[..|acc| - 1]) + NewLeaves(sha, acc[|acc| - 1])
  }

  function NullifiersOf(call: Call): set<Digest> {
    match call
    case TransferCall(t, _) => set n | n in t.nullifiers
    case UnshieldCall(u) => {u.nullifier}
    case _ => {}
  }

  function SpentBy(acc: seq<Call>): set<Digest>
    decreases |acc|
  {
    if |acc| == 0 then {} else SpentBy(acc[..|acc| - 1]) + NullifiersOf(acc[|acc| - 1])
  }

  function VolumeAdded(call: Call): U64 {
    if call.TransferCall? then call.transfer.transferAmount else 0
  }

  function VolumeOf(acc: seq<Call>): nat
    decreases |acc|
  {
    if |acc| == 0 then 0 else VolumeOf(acc[..|acc| - 1]) + VolumeAdded(acc[|acc| - 1])
  }

  /** How many leaves an accepted call adds: one for a shield or a claim, one for each output
      of a transfer. */
  function InsertedBy(call: Call): nat {
    match call
    case ShieldCall(_) => 1
    case TransferCall(t, _) => |t.outputs|
    case ClaimCall(_) => 1
    case _ => 0
  }

  function InsertionCount(acc: seq<Call>): nat
    decreases |acc|
  {
    if |acc| == 0 then 0 else InsertionCount(acc[..|acc| - 1]) + InsertedBy(acc[|acc| - 1])
  }

  function TransferCount(acc: seq<Call>): nat
    decreases |acc|
  {
    if |acc| == 0 then 0
    else TransferCount(acc[..|acc| - 1]) + (if acc[|acc| - 1].TransferCall? then 1 else 0)
  }

  /** The sanctions root posted last. */
  function PostedRoot(acc: seq<Call>): Option<Digest>
    decreases |acc|
  {
    if |acc| == 0 then None
    else
      var last := acc[|acc| - 1];
      if last.SanctionsRootCall? then Some(last.newRoot) else PostedRoot(acc[..|acc| - 1])
  }

  function ClaimLog(acc: seq<Call>): seq<Claim>
    decreases |acc|
  {
    if |acc| == 0 then []
    else
      var last := acc[|acc| - 1];
      ClaimLog(acc[..|acc| - 1]) + (if last.ClaimCall? then [last.claim] else [])
  }

  function WithdrawLog(acc: seq<Call>): seq<Withdraw>
    decreases |acc|
  {
    if |acc| == 0 then []
    else
      var last := acc[|acc| - 1];
      WithdrawLog(acc[..|acc| - 1]) + (if last.WithdrawCall? then [last.withdraw] else [])
  }

  function HeadLog(acc: seq<Call>): seq<HeliosUpdate>
    decreases |acc|
  {
    if |acc| == 0 then []
    else
      var last := acc[|acc| - 1];
      HeadLog(acc[..|acc| - 1]) + (if last.HeliosCall? then [last.update] else [])
  }

  /** The slot each block was last proven at. */
  function FinalizedBy(heads: seq<HeliosUpdate>): map<Digest, U64>
    decreases |heads|
  {
    if |heads| == 0 then map[]
    else
      var last := heads[|heads| - 1];
      FinalizedBy(heads[..|heads| - 1])[last.executionBlockHash := last.newSlot]
  }

  /** The claimed amount of each deposit. */
  function ClaimedBy(log: seq<Claim>): map<U64, U64>
    decreases |log|
  {
    if |log| == 0 then map[]
    else
      var last := log[|log| - 1];
      ClaimedBy(log[..|log| - 1])[last.depositId := last.amount]
  }

  function SumClaims(log: seq<Claim>): nat
    decreases |log|
  {
    if |log| == 0 then 0 else SumClaims(log[..|log| - 1]) + log[|log| - 1].amount
  }

  function SumRecords(records: seq<WithdrawalRecord>): nat
    decreases |records|
  {
    if |records| == 0 then 0 else SumRecords(records[..|records| - 1]) + records[|records| - 1].amount
  }

  // ---------- Invariants ----------

  /** Nullifier sets of different accepted calls have nothing in common. */
  ghost predicate NoReuse(acc: seq<Call>) {
    forall i: nat, j: nat :: i < j < |acc| ==> NullifiersOf(acc[i]) !! NullifiersOf(acc[j])
  }

  ghost predicate PoolHistory(ch: Chain, pool: PoolState, acc: seq<Call>) {
    && pool.commitments == Leaves(ch.params.sha, acc)
    && |pool.commitments| == InsertionCount(acc) <= Pow2(ch.params.depth)
    && pool.spent == SpentBy(acc)
    && NoReuse(acc)
    && pool.complianceTxCount == TransferCount(acc) % U64_MOD
    && pool.complianceTotalVolume == VolumeOf(acc) % U64_MOD
    && pool.sanctionsRoot == PostedRoot(acc)
    && pool.sanctionsOracle == None
  }

  /** No deposit is claimed twice, and no claim is for nothing. */
  ghost predicate DistinctClaims(log: seq<Claim>) {
    && (forall i: nat :: i < |log| ==> log[i].amount > 0)
    && (forall i: nat, j: nat :: i < j < |log| ==> log[i].depositId != log[j].depositId)
  }

  ghost predicate ClaimsHistory(b: BridgeState, log: seq<Claim>) {
    && b.claims == ClaimedBy(log)
    && DistinctClaims(log)
    && b.totalBridged == SumClaims(log) % U64_MOD
    && b.totalClaims == |log| % U64_MOD
  }

  /** Records are numbered from 0, in order of the withdraw calls, each for another deposit
      and for the amount that deposit was claimed for. */
  ghost predicate WithdrawalsHistory(b: BridgeState, log: seq<Withdraw>) {
    && |b.withdrawals| == |log|
    && (forall k: nat :: k < |log| ==>
          && log[k].depositId in b.claims
          && b.withdrawals[k] ==
             WithdrawalRecord(k, log[k].depositId, log[k].ethRecipient, b.claims[log[k].depositId], false))
    && (forall i: nat, j: nat :: i < j < |log| ==> log[i].depositId != log[j].depositId)
    && b.totalWithdrawn == SumRecords(b.withdrawals) % U64_MOD
  }

  function PrevRoot(cfg: BridgeConfig, heads: seq<HeliosUpdate>): Digest {
    if |heads| == 0 then cfg.initialBeaconRoot else heads[|heads| - 1].newBeaconRoot
  }

  function PrevSlot(cfg: BridgeConfig, heads: seq<HeliosUpdate>): U64 {
    if |heads| == 0 then cfg.initialSlot else heads[|heads| - 1].newSlot
  }

  /** Each head names the one before it, at a later slot, within the gap once a slot is known. */
  ghost predicate HeadsLinked(cfg: BridgeConfig, heads: seq<HeliosUpdate>) {
    forall i: nat :: i < |heads| ==>
      && heads[i].prevTrustedRoot == PrevRoot(cfg, heads[..i])
      && heads[i].newSlot > PrevSlot(cfg, heads[..i])
      && (PrevSlot(cfg, heads[..i]) > 0 ==> heads[i].newSlot <= PrevSlot(cfg, heads[..i]) + cfg.maxSlotGap)
  }

  ghost predicate HeadsHistory(cfg: BridgeConfig, b: BridgeState, heads: seq<HeliosUpdate>) {
    && HeadsLinked(cfg, heads)
    && b.trustedRoot == PrevRoot(cfg, heads)
    && b.trustedSlot == PrevSlot(cfg, heads)
    && b.finalized == FinalizedBy(heads)
    && b.heliosUpdates == |heads| % U64_MOD
  }

  ghost predicate History(ch: Chain, st: SystemState, acc: seq<Call>) {
    && PoolHistory(ch, st.pool, acc)
    && ClaimsHistory(st.bridge, ClaimLog(acc))
    && WithdrawalsHistory(st.bridge, WithdrawLog(acc))
    && HeadsHistory(ch.config, st.bridge, HeadLog(acc))
  }

  // ---------- Each step keeps them ----------

  lemma {:induction false} AppendAddsAll(d: nat, st: PoolState, more: seq<Digest>)
    requires |st.commitments| <= Pow2(d)
    ensures Append(d, st, more) ==
      if |st.commitments| + |more| <= Pow2(d) then Ok(st.(commitments := st.commitments + more)) else Err(TreeFull)
    decreases |more|
  {
    if |more| == 0 {
      assert st.commitments + more == st.commitments;
    } else if |st.commitments| < Pow2(d) {
      AppendAddsAll(d, st.(commitments := st.commitments + [more[0]]), more[1..]);
      assert st.commitments + [more[0]] + more[1..] == st.commitments + more;
    }
  }

  lemma WrapAddExact(total: nat, x: U64)
    ensures WrapAdd(total % U64_MOD, x) == (total + x) % U64_MOD
  {
  }

  lemma {:induction false} SpentByContains(acc: seq<Call>, i: nat)
    requires i < |acc|
    ensures NullifiersOf(acc[i]) <= SpentBy(acc)
    decreases |acc|
  {
    if i < |acc| - 1 {
      SpentByContains(acc[..|acc| - 1], i);
    }
  }

  lemma NoReuseExtends(acc: seq<Call>, call: Call)
    requires NoReuse(acc) && NullifiersOf(call) !! SpentBy(acc)
    ensures NoReuse(acc + [call])
  {
    forall i: nat | i < |acc| ensures NullifiersOf(acc[i]) !! NullifiersOf(call) {
      SpentByContains(acc, i);
    }
  }

  lemma AcceptedNullifiersAreFresh(ch: Chain, st: SystemState, call: Call)
    requires Step(ch, st, call).Ok?
    ensures NullifiersOf(call) !! st.pool.spent
  {
  }

  /** An accepted call adds its commitments, its nullifiers and its volume to the pool. */
  lemma PoolEffect(ch: Chain, st: SystemState, call: Call)
    requires |st.pool.commitments| <= Pow2(ch.params.depth) && Step(ch, st, call).Ok?
    ensures
      var next := Step(ch, st, call).value.pool;
      && next.commitments == st.pool.commitments + NewLeaves(ch.params.sha, call)
      && |NewLeaves(ch.params.sha, call)| == InsertedBy(call)
      && |next.commitments| <= Pow2(ch.params.depth)
      && next.spent == st.pool.spent + NullifiersOf(call)
      && next.complianceTxCount == WrapAdd(st.pool.complianceTxCount, if call.TransferCall? then 1 else 0)
      && next.complianceTotalVolume == WrapAdd(st.pool.complianceTotalVolume, VolumeAdded(call))
      && next.sanctionsRoot == (if call.SanctionsRootCall? then Some(call.newRoot) else st.pool.sanctionsRoot)
      && next.sanctionsOracle == st.pool.sanctionsOracle
  {
    hide KnownRoot, Append, HeliosStep, WithdrawStep, Pow2;
    match call
    case ShieldCall(note) => AppendAddsAll(ch.params.depth, st.pool, NewLeaves(ch.params.sha, call));
    case TransferCall(t, _) =>
      AppendAddsAll(ch.params.depth, st.pool.(spent := st.pool.spent + set n | n in t.nullifiers), t.outputs);
    case ClaimCall(c) => AppendAddsAll(ch.params.depth, st.pool, [c.recipient]);
    case _ =>
  }

  lemma PoolStepKeeps(ch: Chain, st: SystemState, acc: seq<Call>, call: Call)
    requires PoolHistory(ch, st.pool, acc) && Step(ch, st, call).Ok?
    ensures PoolHistory(ch, Step(ch, st, call).value.pool, acc + [call])
  {
    hide NoReuse, Step, Leaves, SpentBy, VolumeOf, NullifiersOf, NewLeaves, InsertionCount, TransferCount, PostedRoot;
    WrapAddExact(TransferCount(acc), if call.TransferCall? then 1 else 0);
    AcceptedNullifiersAreFresh(ch, st, call);
    NoReuseExtends(acc, call);
    PoolEffect(ch, st, call);
    WrapAddExact(VolumeOf(acc), VolumeAdded(call));
    OneMoreCall(ch.params.sha, acc, call);
  }

  lemma OneMoreCall(sha: HashFn, acc: seq<Call>, call: Call)
    ensures Leaves(sha, acc + [call]) == Leaves(sha, acc) + NewLeaves(sha, call)
    ensures SpentBy(acc + [call]) == SpentBy(acc) + NullifiersOf(call)
    ensures VolumeOf(acc + [call]) == VolumeOf(acc) + VolumeAdded(call)
    ensures InsertionCount(acc + [call]) == InsertionCount(acc) + InsertedBy(call)
    ensures TransferCount(acc + [call]) == TransferCount(acc) + if call.TransferCall? then 1 else 0
    ensures PostedRoot(acc + [call]) == if call.SanctionsRootCall? then Some(call.newRoot) else PostedRoot(acc)
    ensures ClaimLog(acc + [call]) == if call.ClaimCall? then ClaimLog(acc) + [call.claim] else ClaimLog(acc)
    ensures WithdrawLog(acc + [call]) ==
      if call.WithdrawCall? then WithdrawLog(acc) + [call.withdraw] else WithdrawLog(acc)
    ensures HeadLog(acc + [call]) == if call.HeliosCall? then HeadLog(acc) + [call.update] else HeadLog(acc)
  {
    assert (acc + [call])[..|acc + [call]| - 1] == acc;
  }

  // ---------- The bridge's part ----------

  lemma {:induction false} ClaimedByContains(log: seq<Claim>, i: nat)
    requires i < |log| && DistinctClaims(log)
    ensures log[i].depositId in ClaimedBy(log) && ClaimedBy(log)[log[i].depositId] == log[i].amount
    decreases |log|
  {
    if i < |log| - 1 {
      ClaimedByContains(log[..|log| - 1], i);
    }
  }

  lemma DistinctClaimsExtends(log: seq<Claim>, c: Claim)
    requires DistinctClaims(log) && c.amount > 0 && c.depositId !in ClaimedBy(log)
    ensures DistinctClaims(log + [c])
  {
    forall i: nat | i < |log| ensures log[i].depositId != c.depositId {
      ClaimedByContains(log, i);
    }
  }

  lemma ClaimsGrow(b: BridgeState, after: BridgeState, log: seq<Claim>, c: Claim)
    requires ClaimsHistory(b, log) && c.amount > 0 && c.depositId !in b.claims
    requires after.claims == b.claims[c.depositId := c.amount]
    requires after.totalBridged == WrapAdd(b.totalBridged, c.amount) && after.totalClaims == WrapAdd(b.totalClaims, 1)
    ensures ClaimsHistory(after, log + [c])
  {
    DistinctClaimsExtends(log, c);
    hide DistinctClaims;
    assert (log + [c])[..|log + [c]| - 1] == log;
    WrapAddExact(SumClaims(log), c.amount);
    WrapAddExact(|log|, 1);
  }

  lemma ClaimEffect(ch: Chain, st: SystemState, c: Claim)
    requires Step(ch, st, ClaimCall(c)).Ok?
    ensures
      var b, after := st.bridge, Step(ch, st, ClaimCall(c)).value.bridge;
      && c.amount > 0 && c.depositId !in b.claims
      && after.claims == b.claims[c.depositId := c.amount]
      && after.totalBridged == WrapAdd(b.totalBridged, c.amount) && after.totalClaims == WrapAdd(b.totalClaims, 1)
  {
  }

  lemma ClaimsStepKeeps(ch: Chain, st: SystemState, acc: seq<Call>, call: Call)
    requires ClaimsHistory(st.bridge, ClaimLog(acc)) && Step(ch, st, call).Ok?
    ensures ClaimsHistory(Step(ch, st, call).value.bridge, ClaimLog(acc + [call]))
  {
    hide Step, ClaimLog, ClaimedBy, DistinctClaims, SumClaims;
    OneMoreCall(ch.params.sha, acc, call);
    if call.ClaimCall? {
      ClaimEffect(ch, st, call.claim);
      ClaimsGrow(st.bridge, Step(ch, st, call).value.bridge, ClaimLog(acc), call.claim);
    } else {
      OtherCallsKeepClaims(ch, st, call);
    }
  }

  lemma OtherCallsKeepClaims(ch: Chain, st: SystemState, call: Call)
    requires Step(ch, st, call).Ok? && !call.ClaimCall?
    ensures
      var b, after := st.bridge, Step(ch, st, call).value.bridge;
      b.claims == after.claims && b.totalBridged == after.totalBridged && b.totalClaims == after.totalClaims
  {
    hide KnownRoot;
  }

  lemma WithdrawalsGrow(b: BridgeState, after: BridgeState, log: seq<Withdraw>, w: Withdraw)
    requires WithdrawalsHistory(b, log)
    requires w.depositId in b.claims && !b.Withdrawn(w.depositId)
    requires after.claims == b.claims
    requires after.withdrawals == b.withdrawals +
      [WithdrawalRecord(|b.withdrawals|, w.depositId, w.ethRecipient, b.claims[w.depositId], false)]
    requires after.totalWithdrawn == WrapAdd(b.totalWithdrawn, b.claims[w.depositId])
    ensures WithdrawalsHistory(after, log + [w])
  {
    WrapAddExact(SumRecords(b.withdrawals), b.claims[w.depositId]);
    assert after.withdrawals[..|after.withdrawals| - 1] == b.withdrawals;
    forall i: nat | i < |log| ensures log[i].depositId != w.depositId {
      assert b.withdrawals[i] in b.withdrawals;
    }
  }

  lemma WithdrawEffect(ch: Chain, st: SystemState, w: Withdraw)
    requires Step(ch, st, WithdrawCall(w)).Ok?
    ensures
      var b, after := st.bridge, Step(ch, st, WithdrawCall(w)).value.bridge;
      && w.depositId in b.claims && !b.Withdrawn(w.depositId) && after.claims == b.claims
      && after.withdrawals == b.withdrawals +
           [WithdrawalRecord(|b.withdrawals|, w.depositId, w.ethRecipient, b.claims[w.depositId], false)]
      && after.totalWithdrawn == WrapAdd(b.totalWithdrawn, b.claims[w.depositId])
  {
  }

  lemma WithdrawalsStepKeeps(ch: Chain, st: SystemState, acc: seq<Call>, call: Call)
    requires WithdrawalsHistory(st.bridge, WithdrawLog(acc)) && Step(ch, st, call).Ok?
    ensures WithdrawalsHistory(Step(ch, st, call).value.bridge, WithdrawLog(acc + [call]))
  {
    hide Step, WithdrawLog, SumRecords;
    OneMoreCall(ch.params.sha, acc, call);
    if call.WithdrawCall? {
      WithdrawEffect(ch, st, call.withdraw);
      WithdrawalsGrow(st.bridge, Step(ch, st, call).value.bridge, WithdrawLog(acc), call.withdraw);
    } else {
      OtherCallsKeepWithdrawals(ch, st, call);
    }
  }

  lemma OtherCallsKeepWithdrawals(ch: Chain, st: SystemState, call: Call)
    requires Step(ch, st, call).Ok? && !call.WithdrawCall?
    ensures
      var b, after := st.bridge, Step(ch, st, call).value.bridge;
      && b.withdrawals == after.withdrawals && b.totalWithdrawn == after.totalWithdrawn
      && (forall id: U64 :: id in b.claims ==> id in after.claims && after.claims[id] == b.claims[id])
  {
    hide KnownRoot;
  }

  lemma LinkOneMore(cfg: BridgeConfig, heads: seq<HeliosUpdate>, u: HeliosUpdate)
    requires HeadsLinked(cfg, heads)
    requires u.prevTrustedRoot == PrevRoot(cfg, heads) && u.newSlot > PrevSlot(cfg, heads)
    requires PrevSlot(cfg, heads) > 0 ==> u.newSlot <= PrevSlot(cfg, heads) + cfg.maxSlotGap
    ensures HeadsLinked(cfg, heads + [u])
  {
    hide PrevRoot, PrevSlot;
    var more := heads + [u];
    assert more[..|heads|] == heads;
    forall i: nat | i < |heads| ensures more[..i] == heads[..i] {
    }
  }

  lemma HeadsExtend(cfg: BridgeConfig, b: BridgeState, heads: seq<HeliosUpdate>, u: HeliosUpdate)
    requires HeadsHistory(cfg, b, heads) && HeliosStep(cfg, b, u).Ok?
    ensures HeadsHistory(cfg, HeliosStep(cfg, b, u).value, heads + [u])
  {
    LinkOneMore(cfg, heads, u);
    WrapAddExact(|heads|, 1);
    hide HeadsLinked;
    assert (heads + [u])[..|heads + [u]| - 1] == heads;
  }

  lemma HeadsStepKeeps(ch: Chain, st: SystemState, acc: seq<Call>, call: Call)
    requires HeadsHistory(ch.config, st.bridge, HeadLog(acc)) && Step(ch, st, call).Ok?
    ensures HeadsHistory(ch.config, Step(ch, st, call).value.bridge, HeadLog(acc + [call]))
  {
    hide HeadLog, HeadsLinked, FinalizedBy, HeliosStep;
    OneMoreCall(ch.params.sha, acc, call);
    if call.HeliosCall? {
      HeadsExtend(ch.config, st.bridge, HeadLog(acc), call.update);
      hide HeadsHistory;
    } else {
      OtherCallsKeepHead(ch, st, call);
      hide Step;
    }
  }

  lemma OtherCallsKeepHead(ch: Chain, st: SystemState, call: Call)
    requires Step(ch, st, call).Ok? && !call.HeliosCall?
    ensures
      var b, after := st.bridge, Step(ch, st, call).value.bridge;
      && b.trustedRoot == after.trustedRoot && b.trustedSlot == after.trustedSlot
      && b.finalized == after.finalized && b.heliosUpdates == after.heliosUpdates
  {
    hide KnownRoot;
  }

  // ---------- Every run ----------

  /** The state after any run is the one its accepted calls describe. */
  lemma {:induction false} RunHasHistory(ch: Chain, calls: seq<Call>)
    ensures History(ch, Run(ch, calls), AcceptedCalls(ch, calls))
    decreases |calls|
  {
    if |calls| > 0 {
      var n := |calls| - 1;
      RunHasHistory(ch, calls[..n]);
      if Accepted(ch, calls, n) {
        var st, acc := Run(ch, calls[..n]), AcceptedCalls(ch, calls[..n]);
        PoolStepKeeps(ch, st, acc, calls[n]);
        ClaimsStepKeeps(ch, st, acc, calls[n]);
        WithdrawalsStepKeeps(ch, st, acc, calls[n]);
        HeadsStepKeeps(ch, st, acc, calls[n]);
        hide PoolHistory, ClaimsHistory, WithdrawalsHistory, HeadsHistory, Step;
      } else {
        hide History, Step;
        assert AcceptedCalls(ch, calls) == AcceptedCalls(ch, calls[..n]);
      }
    }
  }

  /** Calls leave what came before in place: commitments, nullifiers, claims, withdrawals. */
  ghost predicate Grows(before: SystemState, after: SystemState) {
    && before.pool.commitments <= after.pool.commitments
    && before.pool.spent <= after.pool.spent
    && (forall id: U64 :: id in before.bridge.claims ==>
         id in after.bridge.claims && after.bridge.claims[id] == before.bridge.claims[id])
    && before.bridge.withdrawals <= after.bridge.withdrawals
  }

  lemma ApplyGrows(ch: Chain, st: SystemState, call: Call)
    requires |st.pool.commitments| <= Pow2(ch.params.depth)
    ensures Grows(st, Apply(ch, st, call))
  {
    if Step(ch, st, call).Ok? {
      PoolEffect(ch, st, call);
      BridgeGrows(ch, st, call);
      hide Step;
    } else {
      hide Step;
    }
  }

  lemma BridgeGrows(ch: Chain, st: SystemState, call: Call)
    requires Step(ch, st, call).Ok?
    ensures
      var b, after := st.bridge, Step(ch, st, call).value.bridge;
      && (forall id: U64 :: id in b.claims ==> id in after.claims && after.claims[id] == b.claims[id])
      && b.withdrawals <= after.withdrawals
  {
    hide KnownRoot;
  }

  lemma {:induction false} RunGrows(ch: Chain, calls: seq<Call>, i: nat)
    requires i <= |calls|
    ensures Grows(Run(ch, calls[..i]), Run(ch, calls))
    decreases |calls|
  {
    if i == |calls| {
      assert calls[..i] == calls;
    } else {
      var n := |calls| - 1;
      RunGrows(ch, calls[..n], i);
      assert calls[..n][..i] == calls[..i];
      RunHasHistory(ch, calls[..n]);
      ApplyGrows(ch, Run(ch, calls[..n]), calls[n]);
    }
  }

  // ---------- Safety of the pool ----------

  /** A run's commitments are those of its accepted calls, in order: one for a shield or a
      claim, the outputs of a transfer. */
  lemma CommitmentsAreInsertions(ch: Chain, calls: seq<Call>)
    ensures Run(ch, calls).pool.commitments == Leaves(ch.params.sha, AcceptedCalls(ch, calls))
    ensures |Run(ch, calls).pool.commitments| == InsertionCount(AcceptedCalls(ch, calls)) <= Pow2(ch.params.depth)
  {
    RunHasHistory(ch, calls);
  }

  /** The deployed pool, with its tree of depth 20, never holds more than 1,048,576 notes. */
  lemma DeployedPoolIsBounded(ch: Chain, calls: seq<Call>)
    requires ch.params.depth == TREE_DEPTH
    ensures |Run(ch, calls).pool.commitments| <= 1_048_576
  {
    hide *;
    CommitmentsAreInsertions(ch, calls);
    DeployedCapacity();
  }

  /** The compliance counters count every accepted transfer and its volume, modulo 2^64. */
  lemma ComplianceCounters(ch: Chain, calls: seq<Call>)
    ensures Run(ch, calls).pool.complianceTxCount == TransferCount(AcceptedCalls(ch, calls)) % U64_MOD
    ensures Run(ch, calls).pool.complianceTotalVolume == VolumeOf(AcceptedCalls(ch, calls)) % U64_MOD
  {
    RunHasHistory(ch, calls);
  }

  /** An accepted transfer names either the zero root or the root after one of the last 100
      insertions; once a non-zero sanctions root has been posted, the one posted last; and a
      sanctions proof no older than a day, unless it carries no time. */
  lemma TransferRootsAreCurrent(ch: Chain, calls: seq<Call>, i: nat)
    requires i < |calls| && calls[i].TransferCall? && Accepted(ch, calls, i)
    ensures
      var t, before := calls[i].transfer, AcceptedCalls(ch, calls[..i]);
      && (t.merkleRoot != ZERO_DIGEST ==> KnownRoot(ch.params, Leaves(ch.params.sha, before), t.merkleRoot))
      && (PostedRoot(before).Some? && PostedRoot(before).value != ZERO_DIGEST ==>
           t.sanctionsRoot == PostedRoot(before).value)
      && (t.proofTimestamp > 0 ==> calls[i].now <= t.proofTimestamp + SANCTIONS_PROOF_MAX_AGE_SECS)
  {
    RunHasHistory(ch, calls[..i]);
    hide Run, AcceptedCalls, KnownRoot, Leaves, PostedRoot, ClaimsHistory, WithdrawalsHistory, HeadsHistory, NoReuse;
  }

  /** The first transfer of a chain may name the zero root, which is the root after no
      insertion, and the same nullifier twice. */
  lemma ZeroRootAndRepeatedNullifier(ch: Chain, n: Digest, output: Digest, now: U64)
    ensures
      var t := Transfer(ZERO_DIGEST, true, 0, ZERO_DIGEST, 0, true, [n, n], [output]);
      && Step(ch, Genesis(ch), TransferCall(t, now)).Ok?
      && !KnownRoot(ch.params, Genesis(ch).pool.commitments, t.merkleRoot)
  {
    hide Step, Genesis;
    var t := Transfer(ZERO_DIGEST, true, 0, ZERO_DIGEST, 0, true, [n, n], [output]);
    TransferAcceptedExactly(ch, [], t, now);
    CommitmentsAreInsertions(ch, []);
  }

  /** The sanctions root is never protected: no call of any run stores an oracle, so every
      sender may post any root after any run. */
  lemma AnySenderPostsSanctionsRoot(ch: Chain, calls: seq<Call>, newRoot: Digest, sender: Bytes)
    ensures Run(ch, calls).pool.sanctionsOracle == None
    ensures Step(ch, Run(ch, calls), SanctionsRootCall(newRoot, sender)).Ok?
    ensures Run(ch, calls + [SanctionsRootCall(newRoot, sender)]).pool.sanctionsRoot == Some(newRoot)
  {
    RunHasHistory(ch, calls);
    var more := calls + [SanctionsRootCall(newRoot, sender)];
    assert more[..|more| - 1] == calls;
    hide PoolHistory, ClaimsHistory, WithdrawalsHistory, HeadsHistory, AcceptedCalls;
  }

  /** In any state, reachable or not, posting is reserved for the oracle if and only if a
      non-empty one is stored, and no other refusal exists. */
  lemma OnlyOraclePostsExactly(ch: Chain, st: SystemState, newRoot: Digest)
    ensures (forall sender: Bytes :: Step(ch, st, SanctionsRootCall(newRoot, sender)).Ok?
                              ==> st.pool.sanctionsOracle == Some(sender))
      <==> st.pool.sanctionsOracle !in {None, Some([])}
    ensures forall sender: Bytes :: Step(ch, st, SanctionsRootCall(newRoot, sender)).Err? ==>
      && Step(ch, st, SanctionsRootCall(newRoot, sender)) == Err(NotSanctionsOracle)
      && st.pool.sanctionsOracle !in {None, Some([]), Some(sender)}
  {
    assert Step(ch, st, SanctionsRootCall(newRoot, [0])).Ok? || st.pool.sanctionsOracle !in {None, Some([])};
  }

  /** No nullifier serves two accepted calls, wherever they stand in a run, and the spent
      set is the union of the accepted calls' nullifiers. */
  lemma NoDoubleSpend(ch: Chain, calls: seq<Call>, i: nat, j: nat)
    requires i < j < |calls| && Accepted(ch, calls, i) && Accepted(ch, calls, j)
    ensures NullifiersOf(calls[i]) !! NullifiersOf(calls[j])
    ensures Run(ch, calls).pool.spent == SpentBy(AcceptedCalls(ch, calls))
  {
    hide *;
    SpentOfRun(ch, calls);
    SpentStays(ch, calls, i, j);
    AcceptedIsOk(ch, calls, j);
    AcceptedNullifiersAreFresh(ch, Run(ch, calls[..j]), calls[j]);
  }

  lemma SpentOfRun(ch: Chain, calls: seq<Call>)
    ensures Run(ch, calls).pool.spent == SpentBy(AcceptedCalls(ch, calls))
  {
    RunHasHistory(ch, calls);
    hide Run, AcceptedCalls, SpentBy, NoReuse, ClaimsHistory, WithdrawalsHistory, HeadsHistory;
  }

  lemma AcceptedStep(ch: Chain, calls: seq<Call>, i: nat)
    requires i < |calls| && Accepted(ch, calls, i)
    ensures Run(ch, calls[..i + 1]) == Step(ch, Run(ch, calls[..i]), calls[i]).value
  {
    assert calls[..i + 1][..i] == calls[..i];
    hide Step;
  }

  /** What an accepted call spends stays spent. */
  lemma SpentStays(ch: Chain, calls: seq<Call>, i: nat, j: nat)
    requires i < j <= |calls| && Accepted(ch, calls, i)
    ensures NullifiersOf(calls[i]) <= Run(ch, calls[..j]).pool.spent
  {
    AcceptedStep(ch, calls, i);
    AcceptedIsOk(ch, calls, i);
    CommitmentsAreInsertions(ch, calls[..i]);
    hide Step, Run, InsertionCount, Leaves, NewLeaves, Accepted;
    PoolEffect(ch, Run(ch, calls[..i]), calls[i]);
    RunGrows(ch, calls[..j], i + 1);
    assert calls[..j][..i + 1] == calls[..i + 1];
  }

  /** A root stays usable through the next 99 insertions. */
  lemma RootStaysKnown(ch: Chain, calls: seq<Call>, later: seq<Call>)
    requires 1 <= |Run(ch, calls).pool.commitments|
    requires |Run(ch, calls + later).pool.commitments| < |Run(ch, calls).pool.commitments| + 100
    ensures KnownRoot(ch.params, Run(ch, calls + later).pool.commitments,
      ch.params.RootOf(Run(ch, calls).pool.commitments))
  {
    RunGrows(ch, calls + later, |calls|);
    assert (calls + later)[..|calls|] == calls;
    var cs := Run(ch, calls).pool.commitments;
    var more := Run(ch, calls + later).pool.commitments;
    assert more[..|cs|] == cs;
    hide Run;
  }

  /** And it is forgotten after 100: the root over the first k commitments is then accepted only
      for a collision, or as the root over a longer list whose further commitments are all the
      zero digest. */
  lemma RootIsForgotten(ch: Chain, calls: seq<Call>, k: nat)
    requires k + 100 <= |Run(ch, calls).pool.commitments|
    requires KnownRoot(ch.params, Run(ch, calls).pool.commitments,
      ch.params.RootOf(Run(ch, calls).pool.commitments[..k]))
    ensures
      var cs := Run(ch, calls).pool.commitments;
      exists j: nat :: k < j <= |cs| && SameRootOnly(ch.params, cs, k, j)
  {
    CommitmentsAreInsertions(ch, calls);
    var cs := Run(ch, calls).pool.commitments;
    hide Run, Leaves, InsertionCount, Pow2;
    var j: nat :| 1 <= j <= |cs| < j + ROOTS_HISTORY_SIZE && ch.params.RootOf(cs[..k]) == ch.params.RootOf(cs[..j]);
    var s, d := ch.params.Scheme(), ch.params.depth;
    if !Collision(ch.params.sha, RootCollision(s, cs[..k], cs[..j], d, 0)) {
      forall i: nat | k <= i < j ensures cs[i] == ZERO_DIGEST {
        hide RootCollision, NodeAt;
        RootBindsLeaf(s, cs[..k], cs[..j], d, i);
      }
    }
    assert SameRootOnly(ch.params, cs, k, j);
  }

  /** The lists of k and of j commitments have one root for a reason. */
  ghost predicate SameRootOnly(p: Params, cs: seq<Digest>, k: nat, j: nat)
    requires k <= j <= |cs|
  {
    || (forall i: nat :: k <= i < j ==> cs[i] == ZERO_DIGEST)
    || Collision(p.sha, RootCollision(p.Scheme(), cs[..k], cs[..j], p.depth, 0))
  }

  /** Every commitment stays spendable: after any run, and through the next 99 insertions,
      the rebuilt path of commitment i verifies against a root the pool accepts. */
  lemma EveryNoteIsSpendable(ch: Chain, calls: seq<Call>, later: seq<Call>, i: U64)
    requires i < |Run(ch, calls).pool.commitments|
    requires |Run(ch, calls + later).pool.commitments| < |Run(ch, calls).pool.commitments| + 100
    ensures
      var cs := Run(ch, calls).pool.commitments;
      var proof := MerkleProof(i, Siblings(ch.params.Scheme(), cs, 0, i, ch.params.depth), ch.params.RootOf(cs));
      && Verifies(ch.params.Scheme(), ch.params.depth, proof, cs[i])
      && KnownRoot(ch.params, Run(ch, calls + later).pool.commitments, proof.root)
  {
    CommitmentsAreInsertions(ch, calls);
    RebuiltPathVerifies(ch.params.Scheme(), ch.params.depth, Run(ch, calls).pool.commitments, i);
    RootStaysKnown(ch, calls, later);
    hide Run, Siblings, KnownRoot;
  }

  // ---------- Shielded supply ----------

  /** What has moved in and out of one asset's supply, how much of the withdrawals was
      clipped by saturation, and how often a deposit wrapped around 2^64. */
  datatype Flow = Flow(deposited: nat, withdrawn: nat, clipped: nat, wraps: nat)

  function DepositedBy(call: Call, asset: Digest): U64 {
    if call.ShieldCall? && call.note.assetId == asset then call.note.amount
    else if call.ClaimCall? && asset == BRIDGED_USDC then call.claim.amount
    else 0
  }

  function WithdrawnBy(call: Call, asset: Digest): U64 {
    if call.UnshieldCall? && call.unshield.assetId == asset then call.unshield.amount else 0
  }

  ghost function FlowOf(ch: Chain, calls: seq<Call>, asset: Digest): Flow
    decreases |calls|
  {
    if |calls| == 0 then Flow(0, 0, 0, 0)
    else
      var n := |calls| - 1;
      var f := FlowOf(ch, calls[..n], asset);
      if !Accepted(ch, calls, n) then f
      else
        var held := Run(ch, calls[..n]).pool.SupplyOf(asset);
        var d, w := DepositedBy(calls[n], asset), WithdrawnBy(calls[n], asset);
        Flow(f.deposited + d, f.withdrawn + w,
             f.clipped + (if w > held then w - held else 0),
             f.wraps + (if held + d >= U64_MOD then 1 else 0))
  }

  lemma SupplyEffect(ch: Chain, st: SystemState, call: Call, asset: Digest)
    requires |st.pool.commitments| <= Pow2(ch.params.depth) && Step(ch, st, call).Ok?
    ensures
      var held := st.pool.SupplyOf(asset);
      Step(ch, st, call).value.pool.SupplyOf(asset)
      == if DepositedBy(call, asset) > 0 then WrapAdd(held, DepositedBy(call, asset))
         else SaturatingSub(held, WithdrawnBy(call, asset))
  {
    hide KnownRoot, Append, HeliosStep, WithdrawStep, Pow2;
    match call
    case ShieldCall(note) => AppendAddsAll(ch.params.depth, st.pool, NewLeaves(ch.params.sha, call));
    case TransferCall(t, _) =>
      AppendAddsAll(ch.params.depth, st.pool.(spent := st.pool.spent + set n | n in t.nullifiers), t.outputs);
    case ClaimCall(c) => AppendAddsAll(ch.params.depth, st.pool, [c.recipient]);
    case _ =>
  }

  /** Conservation: over every run, nothing is gained or lost except by the saturating
      subtraction and by wrap-around, and both are counted. */
  lemma {:induction false} SupplyIsConserved(ch: Chain, calls: seq<Call>, asset: Digest)
    ensures
      var f, held := FlowOf(ch, calls, asset), Run(ch, calls).pool.SupplyOf(asset);
      && held + f.withdrawn + U64_MOD * f.wraps == f.deposited + f.clipped
      && held + U64_MOD * f.wraps <= f.deposited
    decreases |calls|
  {
    if |calls| > 0 {
      var n := |calls| - 1;
      SupplyIsConserved(ch, calls[..n], asset);
      RunHasHistory(ch, calls[..n]);
      if Accepted(ch, calls, n) {
        SupplyEffect(ch, Run(ch, calls[..n]), calls[n], asset);
        hide Step;
      }
    }
  }

  /** The supply covers deposits less withdrawals if and only if clipping made up for every
      wrap-around. While nothing has wrapped, as is certain below 2^64 in deposits, it covers
      them, and is exactly that if and only if no withdrawal was clipped. */
  lemma SupplyCoversDeposits(ch: Chain, calls: seq<Call>, asset: Digest)
    ensures
      var f, held := FlowOf(ch, calls, asset), Run(ch, calls).pool.SupplyOf(asset);
      && (held >= f.deposited - f.withdrawn <==> f.clipped >= U64_MOD * f.wraps)
      && (f.wraps == 0 ==>
            held >= f.deposited - f.withdrawn && (held == f.deposited - f.withdrawn <==> f.clipped == 0))
      && (f.deposited < U64_MOD ==> f.wraps == 0)
  {
    hide *;
    SupplyIsConserved(ch, calls, asset);
  }

  // ---------- Safety of the bridge ----------

  ghost function SumMap(m: map<U64, U64>): nat
    decreases |m|
  {
    if m == map[] then 0
    else
      var k :| k in m;
      m[k] + SumMap(m - {k})
  }

  lemma {:induction false} SumMapTakes(m: map<U64, U64>, k: U64)
    requires k in m
    ensures SumMap(m) == m[k] + SumMap(m - {k})
    decreases |m|
  {
    var c :| c in m && SumMap(m) == m[c] + SumMap(m - {c});
    if c != k {
      SumMapTakes(m - {c}, k);
      SumMapTakes(m - {k}, c);
      assert m - {c} - {k} == m - {k} - {c};
    }
  }

  lemma {:induction false} SumOfClaimed(log: seq<Claim>)
    requires DistinctClaims(log)
    ensures SumMap(ClaimedBy(log)) == SumClaims(log)
    decreases |log|
  {
    if |log| > 0 {
      var rest, last := log[..|log| - 1], log[|log| - 1];
      SumOfClaimed(rest);
      ClaimedByIds(rest, last.depositId);
      SumMapTakes(ClaimedBy(log), last.depositId);
      assert ClaimedBy(log) - {last.depositId} == ClaimedBy(rest);
    }
  }

  lemma {:induction false} ClaimedByIds(log: seq<Claim>, id: U64)
    ensures id in ClaimedBy(log) <==> exists i: nat :: i < |log| && log[i].depositId == id
    decreases |log|
  {
    if |log| > 0 {
      var n := |log| - 1;
      ClaimedByIds(log[..n], id);
      if id in ClaimedBy(log[..n]) {
        var i: nat :| i < n && log[..n][i].depositId == id;
        assert log[i].depositId == id;
      }
    }
  }

  /** Withdrawals of different deposits, each for its claimed amount, add up to no more than
      all claims. */
  lemma {:induction false} DistinctPartAtMostWhole(m: map<U64, U64>, records: seq<WithdrawalRecord>)
    requires forall k: nat :: k < |records| ==>
      records[k].depositId in m && records[k].amount == m[records[k].depositId]
    requires forall i: nat, j: nat :: i < j < |records| ==> records[i].depositId != records[j].depositId
    ensures SumRecords(records) <= SumMap(m)
    decreases |records|
  {
    if |records| > 0 {
      var last := records[|records| - 1];
      SumMapTakes(m, last.depositId);
      DistinctPartAtMostWhole(m - {last.depositId}, records[..|records| - 1]);
    }
  }

  lemma RecordsAreDistinct(b: BridgeState, log: seq<Withdraw>)
    requires WithdrawalsHistory(b, log)
    ensures forall k: nat :: k < |b.withdrawals| ==>
      && b.withdrawals[k].withdrawalId == k
      && b.withdrawals[k].depositId in b.claims
      && b.withdrawals[k].amount == b.claims[b.withdrawals[k].depositId]
    ensures forall i: nat, j: nat :: i < j < |b.withdrawals| ==>
      b.withdrawals[i].depositId != b.withdrawals[j].depositId
    ensures b.totalWithdrawn == SumRecords(b.withdrawals) % U64_MOD
  {
  }

  /** Over every run, records are numbered 0, 1, 2, ... for different claimed deposits, each
      for its claimed amount. */
  lemma RecordsMatchClaims(ch: Chain, calls: seq<Call>)
    ensures
      var b := Run(ch, calls).bridge;
      && (forall k: nat :: k < |b.withdrawals| ==>
            && b.withdrawals[k].withdrawalId == k
            && b.withdrawals[k].depositId in b.claims
            && b.withdrawals[k].amount == b.claims[b.withdrawals[k].depositId])
      && (forall i: nat, j: nat :: i < j < |b.withdrawals| ==> b.withdrawals[i].depositId != b.withdrawals[j].depositId)
      && b.totalWithdrawn == SumRecords(b.withdrawals) % U64_MOD
  {
    RunHasHistory(ch, calls);
    RecordsAreDistinct(Run(ch, calls).bridge, WithdrawLog(AcceptedCalls(ch, calls)));
    hide Run, AcceptedCalls, PoolHistory, HeadsHistory, ClaimsHistory, WithdrawalsHistory;
  }

  lemma TotalIsSumOfClaims(ch: Chain, calls: seq<Call>)
    ensures Run(ch, calls).bridge.totalBridged == SumMap(Run(ch, calls).bridge.claims) % U64_MOD
  {
    RunHasHistory(ch, calls);
    SumOfClaimed(ClaimLog(AcceptedCalls(ch, calls)));
    hide Run, AcceptedCalls, PoolHistory, HeadsHistory, WithdrawalsHistory, ClaimLog, SumMap, ClaimedBy, DistinctClaims;
  }

  /** Solvency over every run: the stored totals are the sums of the claimed amounts and of
      the withdrawal records, modulo 2^64, and what was withdrawn never exceeds what was
      claimed. If the claims fit in 64 bits, so does the withdrawn total, and it is at most
      the bridged total. */
  lemma BridgeIsSolvent(ch: Chain, calls: seq<Call>)
    ensures
      var b := Run(ch, calls).bridge;
      && b.totalBridged == SumMap(b.claims) % U64_MOD
      && b.totalWithdrawn == SumRecords(b.withdrawals) % U64_MOD
      && SumRecords(b.withdrawals) <= SumMap(b.claims)
      && (SumMap(b.claims) < U64_MOD ==>
            SumRecords(b.withdrawals) == b.totalWithdrawn <= b.totalBridged == SumMap(b.claims))
  {
    hide *;
    TotalIsSumOfClaims(ch, calls);
    RecordsMatchClaims(ch, calls);
    var b := Run(ch, calls).bridge;
    DistinctPartAtMostWhole(b.claims, b.withdrawals);
    BothFit(SumRecords(b.withdrawals), SumMap(b.claims));
  }

  lemma BothFit(part: nat, whole: nat)
    requires part <= whole
    ensures whole < U64_MOD ==> part % U64_MOD == part && whole % U64_MOD == whole
  {
  }

  lemma {:induction false} ClaimedArePositive(log: seq<Claim>, id: U64)
    requires DistinctClaims(log) && id in ClaimedBy(log)
    ensures ClaimedBy(log)[id] > 0
    decreases |log|
  {
    if |log| > 0 && id != log[|log| - 1].depositId {
      ClaimedArePositive(log[..|log| - 1], id);
    }
  }

  /** The withdraw handler's last check never fires: a claimed deposit has an amount. */
  lemma NoClaimedAmountIsUnreachable(ch: Chain, calls: seq<Call>, w: Withdraw)
    ensures Step(ch, Run(ch, calls), WithdrawCall(w)) != Err(NoClaimedAmount)
  {
    RunHasHistory(ch, calls);
    if w.depositId in Run(ch, calls).bridge.claims {
      ClaimedArePositive(ClaimLog(AcceptedCalls(ch, calls)), w.depositId);
    }
    hide Run, AcceptedCalls, ClaimedBy, DistinctClaims, ClaimLog, WithdrawalsHistory, HeadsHistory, PoolHistory;
  }

  /** No deposit is claimed by two accepted calls of a run, nor withdrawn by two. */
  lemma NoReplay(ch: Chain, calls: seq<Call>, i: nat, j: nat)
    requires i < j < |calls| && Accepted(ch, calls, i) && Accepted(ch, calls, j)
    ensures calls[i].ClaimCall? && calls[j].ClaimCall? ==> calls[i].claim.depositId != calls[j].claim.depositId
    ensures calls[i].WithdrawCall? && calls[j].WithdrawCall? ==>
      calls[i].withdraw.depositId != calls[j].withdraw.depositId
  {
    assert calls[..i + 1][..i] == calls[..i];
    var before := Run(ch, calls[..i + 1]);
    assert before == Step(ch, Run(ch, calls[..i]), calls[i]).value;
    RunGrows(ch, calls[..j], i + 1);
    assert calls[..j][..i + 1] == calls[..i + 1];
    AcceptedLeavesMark(ch, Run(ch, calls[..i]), calls[i]);
    MarkedIsRefused(ch, Run(ch, calls[..j]), calls[j]);
    hide Step, Run;
    if calls[i].WithdrawCall? {
      var r :| r in before.bridge.withdrawals && r.depositId == calls[i].withdraw.depositId;
      assert r in Run(ch, calls[..j]).bridge.withdrawals;
    }
  }

  lemma AcceptedLeavesMark(ch: Chain, st: SystemState, call: Call)
    requires Step(ch, st, call).Ok?
    ensures call.ClaimCall? ==> call.claim.depositId in Step(ch, st, call).value.bridge.claims
    ensures call.WithdrawCall? ==> Step(ch, st, call).value.bridge.Withdrawn(call.withdraw.depositId)
  {
    if call.WithdrawCall? {
      var after := Step(ch, st, call).value.bridge;
      assert after.withdrawals[|st.bridge.withdrawals|].depositId == call.withdraw.depositId;
    }
  }

  lemma MarkedIsRefused(ch: Chain, st: SystemState, call: Call)
    ensures call.ClaimCall? && call.claim.depositId in st.bridge.claims ==> Step(ch, st, call).Err?
    ensures call.WithdrawCall? && st.bridge.Withdrawn(call.withdraw.depositId) ==> Step(ch, st, call).Err?
  {
  }

  // ---------- The trusted head ----------

  /** k linked heads advance the slot by at least one each and, from a known slot, by at
      most the gap each. */
  lemma {:induction false} HeadSlotBounds(cfg: BridgeConfig, heads: seq<HeliosUpdate>)
    requires HeadsLinked(cfg, heads)
    ensures cfg.initialSlot + |heads| <= PrevSlot(cfg, heads)
    ensures cfg.initialSlot > 0 ==> PrevSlot(cfg, heads) <= cfg.initialSlot + |heads| * cfg.maxSlotGap
    decreases |heads|
  {
    if |heads| > 0 {
      var n := |heads| - 1;
      PrefixLinked(cfg, heads, n);
      HeadSlotBounds(cfg, heads[..n]);
      assert heads[n].newSlot > PrevSlot(cfg, heads[..n]);
      assert PrevSlot(cfg, heads[..n]) > 0 ==> heads[n].newSlot <= PrevSlot(cfg, heads[..n]) + cfg.maxSlotGap;
      hide HeadsLinked, PrevRoot;
      NextMultiple(n, cfg.maxSlotGap);
    }
  }

  lemma NextMultiple(n: nat, g: nat)
    ensures (n + 1) * g == n * g + g
  {
  }

  lemma PrefixLinked(cfg: BridgeConfig, heads: seq<HeliosUpdate>, n: nat)
    requires HeadsLinked(cfg, heads) && n <= |heads|
    ensures HeadsLinked(cfg, heads[..n])
  {
    forall i: nat | i < n ensures heads[..n][..i] == heads[..i] {
    }
  }

  /** Exactly the blocks named by some head are finalized. */
  lemma {:induction false} FinalizedAreHeads(heads: seq<HeliosUpdate>, h: Digest)
    ensures h in FinalizedBy(heads) <==> exists u :: u in heads && u.executionBlockHash == h
    decreases |heads|
  {
    if |heads| > 0 {
      var n := |heads| - 1;
      FinalizedAreHeads(heads[..n], h);
      assert heads == heads[..n] + [heads[n]];
    }
  }

  /** A finalized block carries a slot after the initial one, no later than the current one. */
  lemma {:induction false} FinalizedSlotBounds(cfg: BridgeConfig, heads: seq<HeliosUpdate>, h: Digest)
    requires HeadsLinked(cfg, heads) && h in FinalizedBy(heads)
    ensures cfg.initialSlot < FinalizedBy(heads)[h] <= PrevSlot(cfg, heads)
    decreases |heads|
  {
    if |heads| > 0 {
      var n := |heads| - 1;
      PrefixLinked(cfg, heads, n);
      HeadSlotBounds(cfg, heads[..n]);
      assert heads[n].newSlot > PrevSlot(cfg, heads[..n]);
      hide HeadsLinked;
      if h != heads[n].executionBlockHash {
        FinalizedSlotBounds(cfg, heads[..n], h);
      }
    }
  }

  /** The trusted head over every run: it is the end of a chain of accepted updates, each
      naming the root before it, with the slot bounds above. */
  lemma HeadChain(ch: Chain, calls: seq<Call>)
    ensures
      var b, cfg := Run(ch, calls).bridge, ch.config;
      var heads := HeadLog(AcceptedCalls(ch, calls));
      && HeadsLinked(cfg, heads)
      && b.trustedRoot == PrevRoot(cfg, heads)
      && cfg.initialSlot + |heads| <= b.trustedSlot
      && (cfg.initialSlot > 0 ==> b.trustedSlot <= cfg.initialSlot + |heads| * cfg.maxSlotGap)
      && b.heliosUpdates == |heads|
      && (forall h :: h in b.finalized ==> cfg.initialSlot < b.finalized[h] <= b.trustedSlot)
  {
    RunHasHistory(ch, calls);
    HeadsFacts(ch.config, Run(ch, calls).bridge, HeadLog(AcceptedCalls(ch, calls)));
    hide Run, AcceptedCalls, HeadLog, HeadsLinked, PoolHistory, ClaimsHistory, WithdrawalsHistory;
  }

  lemma HeadsFacts(cfg: BridgeConfig, b: BridgeState, heads: seq<HeliosUpdate>)
    requires HeadsHistory(cfg, b, heads)
    ensures cfg.initialSlot + |heads| <= b.trustedSlot
    ensures cfg.initialSlot > 0 ==> b.trustedSlot <= cfg.initialSlot + |heads| * cfg.maxSlotGap
    ensures b.heliosUpdates == |heads|
    ensures forall h :: h in b.finalized ==> cfg.initialSlot < b.finalized[h] <= b.trustedSlot
  {
    HeadSlotBounds(cfg, heads);
    forall h | h in b.finalized ensures cfg.initialSlot < b.finalized[h] <= b.trustedSlot {
      FinalizedSlotBounds(cfg, heads, h);
    }
    hide FinalizedBy, HeadsLinked;
  }

  /** Once a slot is trusted, an accepted claim names the execution block of an update
      accepted earlier in the run. */
  lemma ClaimNamesFinalizedBlock(ch: Chain, calls: seq<Call>, i: nat)
    requires i < |calls| && calls[i].ClaimCall? && Accepted(ch, calls, i)
    requires Run(ch, calls[..i]).bridge.trustedSlot > 0
    ensures exists u ::
      u in HeadLog(AcceptedCalls(ch, calls[..i])) && u.executionBlockHash == calls[i].claim.ethBlockHash
  {
    hide *;
    RunHasHistory(ch, calls[..i]);
    FinalizedIsByHeads(ch, Run(ch, calls[..i]), AcceptedCalls(ch, calls[..i]));
    AcceptedIsOk(ch, calls, i);
    AcceptedClaimIsFinalized(ch, Run(ch, calls[..i]), calls[i].claim);
    FinalizedAreHeads(HeadLog(AcceptedCalls(ch, calls[..i])), calls[i].claim.ethBlockHash);
  }

  lemma AcceptedIsOk(ch: Chain, calls: seq<Call>, i: nat)
    requires i < |calls| && Accepted(ch, calls, i)
    ensures Step(ch, Run(ch, calls[..i]), calls[i]).Ok?
  {
  }

  lemma FinalizedIsByHeads(ch: Chain, st: SystemState, acc: seq<Call>)
    requires History(ch, st, acc)
    ensures st.bridge.finalized == FinalizedBy(HeadLog(acc))
  {
  }

  lemma AcceptedClaimIsFinalized(ch: Chain, st: SystemState, c: Claim)
    requires Step(ch, st, ClaimCall(c)).Ok? && st.bridge.trustedSlot > 0
    ensures c.ethBlockHash in st.bridge.finalized
  {
  }

  // ---------- When a call is accepted ----------

  /** The first reason to refuse a call, in the order in which the handlers look, told by
      the calls accepted before it. A zero Merkle root stands in for a known one, and the
      nullifiers of a transfer matter as a set only. */
  ghost function FirstFault(ch: Chain, acc: seq<Call>, call: Call): Option<Error> {
    var room := Pow2(ch.params.depth) - InsertionCount(acc);
    match call
    case ShieldCall(note) =>
      if note.amount == 0 then Some(ZeroNoteAmount)
      else if |note.ownerPubkey| != 32 then Some(BadOwnerKey)
      else TreeFault(1, room)
    case TransferCall(t, now) =>
      var fault := TransferFault(ch, acc, t, now);
      if fault.Some? then fault else TreeFault(|t.outputs|, room)
    case UnshieldCall(u) =>
      if !u.proofOk then Some(BadUnshieldProof)
      else if u.nullifier in SpentBy(acc) then Some(NoteAlreadySpent)
      else None
    case SanctionsRootCall(_, _) => None
    case ClaimCall(c) =>
      var fault := ClaimFault(ch.config, acc, c);
      if fault.Some? then fault else TreeFault(1, room)
    case WithdrawCall(w) =>
      if ch.config.contract.None? then Some(BadConfiguredContract)
      else if !ClaimedIn(ClaimLog(acc), w.depositId) then Some(DepositNotClaimed)
      else if WithdrawnIn(WithdrawLog(acc), w.depositId) then Some(AlreadyWithdrawn)
      else None
    case HeliosCall(u) => HeadFault(ch.config, HeadLog(acc), u)
  }

  function TreeFault(leaves: nat, room: int): Option<Error> {
    if room < leaves then Some(TreeFull) else None
  }

  ghost function TransferFault(ch: Chain, acc: seq<Call>, t: Transfer, now: U64): Option<Error> {
    if t.merkleRoot != ZERO_DIGEST && !KnownRoot(ch.params, Leaves(ch.params.sha, acc), t.merkleRoot) then
      Some(UnknownRoot)
    else if !t.proofOk then Some(BadTransferProof)
    else if PostedRoot(acc) !in {None, Some(ZERO_DIGEST), Some(t.sanctionsRoot)} then Some(StaleSanctionsRoot)
    else if t.proofTimestamp > 0 && now > t.proofTimestamp + 86_400 then Some(SanctionsProofTooOld)
    else if !t.sanctionsProofOk then Some(BadSanctionsProof)
    else if !(NullifiersOf(TransferCall(t, now)) !! SpentBy(acc)) then Some(NoteAlreadySpent)
    else None
  }

  ghost function ClaimFault(cfg: BridgeConfig, acc: seq<Call>, c: Claim): Option<Error> {
    if c.amount == 0 then Some(ZeroDepositAmount)
    else if c.recipient == ZERO_DIGEST then Some(ZeroRecipient)
    else if cfg.contract.None? then Some(BadConfiguredContract)
    else if cfg.contract != Some(c.contract) then Some(WrongContract)
    else if ClaimedIn(ClaimLog(acc), c.depositId) then Some(DepositAlreadyClaimed)
    else if PrevSlot(cfg, HeadLog(acc)) > 0 && !NamedByHead(HeadLog(acc), c.ethBlockHash) then Some(BlockNotFinalized)
    else if !c.proofOk then Some(BadBridgeProof)
    else None
  }

  function HeadFault(cfg: BridgeConfig, heads: seq<HeliosUpdate>, u: HeliosUpdate): Option<Error> {
    var slot := PrevSlot(cfg, heads);
    if u.prevTrustedRoot != PrevRoot(cfg, heads) then Some(HeliosRootMismatch)
    else if u.newSlot <= slot then Some(HeliosSlotNotAdvancing)
    else if slot > 0 && u.newSlot > slot + cfg.maxSlotGap then Some(HeliosGapTooLarge)
    else if !u.proofOk then Some(BadHeliosProof)
    else None
  }

  ghost predicate ClaimedIn(log: seq<Claim>, id: U64) {
    exists c :: c in log && c.depositId == id
  }

  ghost predicate WithdrawnIn(log: seq<Withdraw>, id: U64) {
    exists w :: w in log && w.depositId == id
  }

  ghost predicate NamedByHead(heads: seq<HeliosUpdate>, h: Digest) {
    exists u :: u in heads && u.executionBlockHash == h
  }

  /** The answer to a call: accepted when nothing speaks against it, and otherwise refused
      for the first fault. */
  ghost predicate AnswersFor<T>(r: Result<T, Error>, fault: Option<Error>) {
    match fault
    case None => r.Ok?
    case Some(e) => r == Err(e)
  }

  /** After any run, every call is answered by its first fault: no handler skips a check,
      adds one or checks in another order. */
  lemma AnsweredByFirstFault(ch: Chain, calls: seq<Call>, call: Call)
    ensures AnswersFor(Step(ch, Run(ch, calls), call), FirstFault(ch, AcceptedCalls(ch, calls), call))
  {
    RunHasHistory(ch, calls);
    var st, acc := Run(ch, calls), AcceptedCalls(ch, calls);
    hide *;
    match call
    case ShieldCall(note) => ShieldAnswer(ch, st, acc, note);
    case TransferCall(t, now) => TransferAnswer(ch, st, acc, t, now);
    case UnshieldCall(u) => UnshieldAnswer(ch, st, acc, u);
    case SanctionsRootCall(r, sender) => SanctionsRootAnswer(ch, st, acc, r, sender);
    case ClaimCall(c) => ClaimAnswer(ch, st, acc, c);
    case WithdrawCall(w) => WithdrawAnswer(ch, st, acc, w);
    case HeliosCall(u) => HeliosAnswer(ch, st, acc, u);
  }

  lemma ShieldAnswer(ch: Chain, st: SystemState, acc: seq<Call>, note: Note)
    requires History(ch, st, acc)
    ensures AnswersFor(Step(ch, st, ShieldCall(note)), FirstFault(ch, acc, ShieldCall(note)))
  {
    hide ClaimsHistory, WithdrawalsHistory, HeadsHistory;
    hide Pow2, InsertionCount, NoReuse, Leaves, SpentBy, PostedRoot, NoteInput;
    if CommitmentOf(ch.params.sha, note).Ok? {
      AppendAddsAll(ch.params.depth, st.pool, [CommitmentOf(ch.params.sha, note).value]);
      hide Append;
    }
  }

  lemma TransferAnswer(ch: Chain, st: SystemState, acc: seq<Call>, t: Transfer, now: U64)
    requires History(ch, st, acc)
    ensures AnswersFor(Step(ch, st, TransferCall(t, now)), FirstFault(ch, acc, TransferCall(t, now)))
  {
    hide ClaimsHistory, WithdrawalsHistory, HeadsHistory;
    hide Pow2, InsertionCount, NoReuse, Leaves, SpentBy, PostedRoot, KnownRoot, Append;
    AppendAddsAll(ch.params.depth, st.pool.(spent := st.pool.spent + set n | n in t.nullifiers), t.outputs);
    TransferErrorIsFirst(ch, st, acc, t, now);
    hide TransferError, TransferFault;
  }

  lemma TransferErrorIsFirst(ch: Chain, st: SystemState, acc: seq<Call>, t: Transfer, now: U64)
    requires PoolHistory(ch, st.pool, acc)
    ensures
      TransferError(ch.params, st.pool, t, now) == TransferFault(ch, acc, t, now)
  {
    hide Pow2, InsertionCount, NoReuse, Leaves, SpentBy, PostedRoot, KnownRoot;
  }

  lemma UnshieldAnswer(ch: Chain, st: SystemState, acc: seq<Call>, u: Unshield)
    requires History(ch, st, acc)
    ensures AnswersFor(Step(ch, st, UnshieldCall(u)), FirstFault(ch, acc, UnshieldCall(u)))
  {
    hide ClaimsHistory, WithdrawalsHistory, HeadsHistory;
    hide Pow2, InsertionCount, NoReuse, Leaves, SpentBy, PostedRoot;
  }

  lemma SanctionsRootAnswer(ch: Chain, st: SystemState, acc: seq<Call>, newRoot: Digest, sender: Bytes)
    requires History(ch, st, acc)
    ensures AnswersFor(Step(ch, st, SanctionsRootCall(newRoot, sender)),
      FirstFault(ch, acc, SanctionsRootCall(newRoot, sender)))
  {
    hide ClaimsHistory, WithdrawalsHistory, HeadsHistory;
    hide Pow2, InsertionCount, NoReuse, Leaves, SpentBy, PostedRoot;
  }

  /** What the bridge looks up, in terms of the accepted calls. */
  lemma BridgeLookups(ch: Chain, st: SystemState, acc: seq<Call>, id: U64, h: Digest)
    requires History(ch, st, acc)
    ensures id in st.bridge.claims <==> ClaimedIn(ClaimLog(acc), id)
    ensures id in st.bridge.claims ==> st.bridge.claims[id] > 0
    ensures st.bridge.Withdrawn(id) <==> WithdrawnIn(WithdrawLog(acc), id)
    ensures st.bridge.trustedSlot == PrevSlot(ch.config, HeadLog(acc))
    ensures (h in st.bridge.finalized && st.bridge.finalized[h] > 0) <==> NamedByHead(HeadLog(acc), h)
  {
    ClaimedByIds(ClaimLog(acc), id);
    if id in st.bridge.claims {
      ClaimedArePositive(ClaimLog(acc), id);
    }
    FinalizedAreHeads(HeadLog(acc), h);
    if h in st.bridge.finalized {
      FinalizedSlotBounds(ch.config, HeadLog(acc), h);
    }
    hide ClaimedBy, FinalizedBy, DistinctClaims, HeadsLinked, PoolHistory;
    var log, records := WithdrawLog(acc), st.bridge.withdrawals;
    if r :| r in records && r.depositId == id {
      var k: nat :| k < |records| && records[k] == r;
      assert log[k] in log;
    }
    if w :| w in log && w.depositId == id {
      var k: nat :| k < |log| && log[k] == w;
      assert records[k] in records;
    }
    if c :| c in ClaimLog(acc) && c.depositId == id {
      var k: nat :| k < |ClaimLog(acc)| && ClaimLog(acc)[k] == c;
    }
  }

  lemma ClaimAnswer(ch: Chain, st: SystemState, acc: seq<Call>, c: Claim)
    requires History(ch, st, acc)
    ensures AnswersFor(Step(ch, st, ClaimCall(c)), FirstFault(ch, acc, ClaimCall(c)))
  {
    hide Step, ClaimStep, ClaimFault, TransferFault, Pow2, InsertionCount, History, Append;
    ClaimFirstFault(ch, st, acc, c);
    StepOfBridge(ch, st);
    HasRoomFor(ch, st, acc, c.recipient);
  }

  lemma HasRoomFor(ch: Chain, st: SystemState, acc: seq<Call>, leaf: Digest)
    requires History(ch, st, acc)
    ensures
      var r := Append(ch.params.depth, st.pool, [leaf]);
      if InsertionCount(acc) < Pow2(ch.params.depth) then r.Ok? else r == Err(TreeFull)
  {
    AppendAddsAll(ch.params.depth, st.pool, [leaf]);
    hide Pow2, InsertionCount, Append, NoReuse, Leaves, SpentBy, PostedRoot;
    hide ClaimsHistory, WithdrawalsHistory, HeadsHistory;
  }

  /** The bridge's calls are answered by its handlers. */
  lemma StepOfBridge(ch: Chain, st: SystemState)
    ensures forall c :: SameAnswer(Step(ch, st, ClaimCall(c)), ClaimStep(ch.params, ch.config, st.pool, st.bridge, c))
    ensures forall w :: SameAnswer(Step(ch, st, WithdrawCall(w)), WithdrawStep(ch.config, st.bridge, w))
  {
    hide ClaimStep, WithdrawStep, HeliosStep, ShieldStep, TransferStep, UnshieldStep;
  }

  ghost predicate SameAnswer<S, T>(r: Result<S, Error>, h: Result<T, Error>) {
    match h
    case Ok(_) => r.Ok?
    case Err(e) => r == Err(e)
  }

  /** The checks of a claim ahead of the insertion. */
  lemma ClaimFirstFault(ch: Chain, st: SystemState, acc: seq<Call>, c: Claim)
    requires History(ch, st, acc)
    ensures
      var r, fault := ClaimStep(ch.params, ch.config, st.pool, st.bridge, c), ClaimFault(ch.config, acc, c);
      && (fault.Some? ==> r == Err(fault.value))
      && (fault.None? ==> match Append(ch.params.depth, st.pool, [c.recipient])
                          case Ok(_) => r.Ok?
                          case Err(e) => r == Err(e))
  {
    hide Append, History, NamedByHead, ClaimedIn, ClaimLog, HeadLog, PrevSlot;
    BridgeLookups(ch, st, acc, c.depositId, c.ethBlockHash);
  }

  lemma WithdrawAnswer(ch: Chain, st: SystemState, acc: seq<Call>, w: Withdraw)
    requires History(ch, st, acc)
    ensures AnswersFor(Step(ch, st, WithdrawCall(w)), FirstFault(ch, acc, WithdrawCall(w)))
  {
    hide Step, WithdrawStep, History, NamedByHead, ClaimedIn, WithdrawnIn, ClaimLog, WithdrawLog;
    hide BridgeState.Withdrawn, ClaimFault, TransferFault, Pow2, InsertionCount;
    BridgeLookups(ch, st, acc, w.depositId, ZERO_DIGEST);
    StepOfBridge(ch, st);
    WithdrawChecks(ch.config, st.bridge, w);
  }

  lemma WithdrawChecks(cfg: BridgeConfig, b: BridgeState, w: Withdraw)
    requires w.depositId in b.claims ==> b.claims[w.depositId] > 0
    ensures
      AnswersFor(WithdrawStep(cfg, b, w),
        if cfg.contract.None? then Some(BadConfiguredContract)
        else if w.depositId !in b.claims then Some(DepositNotClaimed)
        else if b.Withdrawn(w.depositId) then Some(AlreadyWithdrawn)
        else None)
  {
    hide BridgeState.Withdrawn;
  }

  lemma HeliosAnswer(ch: Chain, st: SystemState, acc: seq<Call>, u: HeliosUpdate)
    requires History(ch, st, acc)
    ensures AnswersFor(Step(ch, st, HeliosCall(u)), FirstFault(ch, acc, HeliosCall(u)))
  {
    hide PoolHistory, ClaimsHistory, WithdrawalsHistory, HeadLog, FinalizedBy, HeadsLinked, PrevRoot, PrevSlot;
  }

  /** After any run, exactly these shields are accepted. */
  lemma ShieldAcceptedExactly(ch: Chain, calls: seq<Call>, note: Note)
    ensures Step(ch, Run(ch, calls), ShieldCall(note)).Ok? <==>
      && note.amount > 0 && |note.ownerPubkey| == 32
      && InsertionCount(AcceptedCalls(ch, calls)) < Pow2(ch.params.depth)
  {
    AnsweredByFirstFault(ch, calls, ShieldCall(note));
    hide Step, Run, AcceptedCalls, InsertionCount, Pow2;
  }

  /** After any run, exactly these transfers are accepted. */
  lemma TransferAcceptedExactly(ch: Chain, calls: seq<Call>, t: Transfer, now: U64)
    ensures
      var acc := AcceptedCalls(ch, calls);
      Step(ch, Run(ch, calls), TransferCall(t, now)).Ok? <==>
      && (t.merkleRoot == ZERO_DIGEST || KnownRoot(ch.params, Leaves(ch.params.sha, acc), t.merkleRoot))
      && t.proofOk && t.sanctionsProofOk
      && PostedRoot(acc) in {None, Some(ZERO_DIGEST), Some(t.sanctionsRoot)}
      && (t.proofTimestamp == 0 || now <= t.proofTimestamp + 86_400)
      && NullifiersOf(TransferCall(t, now)) !! SpentBy(acc)
      && InsertionCount(acc) + |t.outputs| <= Pow2(ch.params.depth)
  {
    AnsweredByFirstFault(ch, calls, TransferCall(t, now));
    hide Step, Run, AcceptedCalls, InsertionCount, Pow2, KnownRoot, Leaves, PostedRoot, SpentBy;
  }

  /** After any run, exactly these unshields are accepted. */
  lemma UnshieldAcceptedExactly(ch: Chain, calls: seq<Call>, u: Unshield)
    ensures Step(ch, Run(ch, calls), UnshieldCall(u)).Ok? <==>
      u.proofOk && u.nullifier !in SpentBy(AcceptedCalls(ch, calls))
  {
    AnsweredByFirstFault(ch, calls, UnshieldCall(u));
    hide Step, Run, AcceptedCalls, SpentBy;
  }

  /** After any run, exactly these claims are accepted. */
  lemma ClaimAcceptedExactly(ch: Chain, calls: seq<Call>, c: Claim)
    ensures
      var acc := AcceptedCalls(ch, calls);
      Step(ch, Run(ch, calls), ClaimCall(c)).Ok? <==>
      && c.proofOk && c.amount > 0 && c.recipient != ZERO_DIGEST
      && ch.config.contract == Some(c.contract)
      && (forall b :: b in ClaimLog(acc) ==> b.depositId != c.depositId)
      && (PrevSlot(ch.config, HeadLog(acc)) == 0 || NamedByHead(HeadLog(acc), c.ethBlockHash))
      && InsertionCount(acc) < Pow2(ch.params.depth)
  {
    AnsweredByFirstFault(ch, calls, ClaimCall(c));
    hide Step, Run, AcceptedCalls, InsertionCount, Pow2, NamedByHead, HeadLog, ClaimLog, PrevSlot;
  }

  /** After any run, exactly these withdrawals are accepted: of deposits claimed and not yet
      withdrawn. */
  lemma WithdrawAcceptedExactly(ch: Chain, calls: seq<Call>, w: Withdraw)
    ensures
      var acc := AcceptedCalls(ch, calls);
      Step(ch, Run(ch, calls), WithdrawCall(w)).Ok? <==>
      && (exists c :: c in ClaimLog(acc) && c.depositId == w.depositId)
      && (forall v :: v in WithdrawLog(acc) ==> v.depositId != w.depositId)
  {
    AnsweredByFirstFault(ch, calls, WithdrawCall(w));
    if c :| c in ClaimLog(AcceptedCalls(ch, calls)) {
      ClaimsNeedContract(ch, calls, c);
    }
    hide Step, Run, AcceptedCalls, ClaimLog, WithdrawLog;
  }

  /** A chain without a parsable contract address never accepts a claim. */
  lemma {:induction false} ClaimsNeedContract(ch: Chain, calls: seq<Call>, c: Claim)
    requires c in ClaimLog(AcceptedCalls(ch, calls))
    ensures ch.config.contract == Some(c.contract)
    decreases |calls|
  {
    if |calls| > 0 {
      var n := |calls| - 1;
      var before := AcceptedCalls(ch, calls[..n]);
      if Accepted(ch, calls, n) {
        OneMoreCall(ch.params.sha, before, calls[n]);
        hide Step, Run, ClaimLog;
        if calls[n].ClaimCall? && calls[n].claim == c {
          ClaimAcceptedExactly(ch, calls[..n], c);
        } else {
          ClaimsNeedContract(ch, calls[..n], c);
        }
      } else {
        assert AcceptedCalls(ch, calls) == before;
        ClaimsNeedContract(ch, calls[..n], c);
      }
    }
  }

  /** After any run, exactly these head updates are accepted. */
  lemma HeliosAcceptedExactly(ch: Chain, calls: seq<Call>, u: HeliosUpdate)
    ensures
      var heads := HeadLog(AcceptedCalls(ch, calls));
      Step(ch, Run(ch, calls), HeliosCall(u)).Ok? <==>
      && u.proofOk && u.prevTrustedRoot == PrevRoot(ch.config, heads)
      && u.newSlot > PrevSlot(ch.config, heads)
      && (PrevSlot(ch.config, heads) == 0 || u.newSlot <= PrevSlot(ch.config, heads) + ch.config.maxSlotGap)
  {
    AnsweredByFirstFault(ch, calls, HeliosCall(u));
    hide Step, Run, AcceptedCalls, HeadLog, PrevRoot, PrevSlot;
  }
}
