/** The rollup around the two modules: every call is one transaction, and a call that fails
    leaves the state as it was. */
module Rollup {
  import opened ByteStrings
  import opened ShieldedPool
  import opened Bridge

  datatype Call =
    | ShieldCall(note: Note)
    | TransferCall(transfer: Transfer, now: U64)
    | UnshieldCall(unshield: Unshield)
    | SanctionsRootCall(newRoot: Digest, sender: Bytes)
    | ClaimCall(claim: Claim)
    | WithdrawCall(withdraw: Withdraw)
    | HeliosCall(update: HeliosUpdate)

  datatype Chain = Chain(params: Params, config: BridgeConfig)

  datatype SystemState = SystemState(pool: PoolState, bridge: BridgeState)

  ghost function PoolCall(st: SystemState, r: Result<PoolState, Error>): Result<SystemState, Error> {
    match r
    case Ok(pool) => Ok(SystemState(pool, st.bridge))
    case Err(e) => Err(e)
  }

  ghost function BridgeCall(st: SystemState, r: Result<BridgeState, Error>): Result<SystemState, Error> {
    match r
    case Ok(bridge) => Ok(SystemState(st.pool, bridge))
    case Err(e) => Err(e)
  }

  /** What a call would do. */
  ghost function Step(ch: Chain, st: SystemState, call: Call): Result<SystemState, Error> {
    match call
    case ShieldCall(note) => PoolCall(st, ShieldStep(ch.params, st.pool, note))
    case TransferCall(t, now) => PoolCall(st, TransferStep(ch.params, st.pool, t, now))
    case UnshieldCall(u) => PoolCall(st, UnshieldStep(st.pool, u))
    case SanctionsRootCall(newRoot, sender) => PoolCall(st, UpdateSanctionsRootStep(st.pool, newRoot, sender))
    case ClaimCall(c) =>
      (match ClaimStep(ch.params, ch.config, st.pool, st.bridge, c)
       case Ok(next) => Ok(SystemState(next.0, next.1))
       case Err(e) => Err(e))
    case WithdrawCall(w) => BridgeCall(st, WithdrawStep(ch.config, st.bridge, w))
    case HeliosCall(u) => BridgeCall(st, HeliosStep(ch.config, st.bridge, u))
  }

  /** What it does: nothing at all when it fails. */
  ghost function Apply(ch: Chain, st: SystemState, call: Call): SystemState {
    match Step(ch, st, call)
    case Ok(next) => next
    case Err(_) => st
  }

  ghost function Genesis(ch: Chain): SystemState {
    SystemState(GENESIS_POOL, GenesisBridge(ch.config))
  }

  /** The state after a run of calls, in order. */
  ghost function Run(ch: Chain, calls: seq<Call>): SystemState
    decreases |calls|
  {
    if |calls| == 0 then Genesis(ch)
    else Apply(ch, Run(ch, calls[..|calls| - 1]), calls[|calls| - 1])
  }

  class Runtime {
    var pool: Pool
    var bridge: Bridge

    ghost predicate Valid()
      reads this, pool, bridge
    {
      pool.Valid() && bridge.Valid() && bridge.pool == pool
    }

    ghost function State(): SystemState
      reads this, pool, bridge
    {
      SystemState(pool.State(), bridge.State())
    }

    ghost function C(): Chain
      reads this
    {
      Chain(pool.P(), bridge.config)
    }

    constructor (sha: HashFn, depth: nat, config: BridgeConfig)
      ensures Valid() && C() == Chain(Params(sha, depth), config)
      ensures State() == Genesis(C()) && fresh(pool) && fresh(bridge)
    {
      var p := new Pool(sha, depth);
      var b := new Bridge(config, p);
      pool, bridge := p, b;
    }

    /** Runs a call on a working copy of the state and keeps the copy only if the call
        succeeds. */
    method Execute(call: Call) returns (r: Result<(), Error>)
      requires Valid()
      modifies this
      ensures Valid() && C() == old(C()) && State() == Apply(C(), old(State()), call)
      ensures match Step(C(), old(State()), call)
              case Ok(_) => r.Ok?
              case Err(e) => r == Err(e)
    {
      var p := new Pool.Copy(pool);
      var b := new Bridge.Copy(bridge, p);
      r := Dispatch(p, b, call);
      if r.Ok? {
        pool, bridge := p, b;
      }
    }

    static method Dispatch(p: Pool, b: Bridge, call: Call) returns (r: Result<(), Error>)
      requires p.Valid() && b.Valid() && b.pool == p
      modifies p, b
      ensures
        match Step(Chain(p.P(), b.config), old(SystemState(p.State(), b.State())), call)
        case Ok(next) => r.Ok? && p.Valid() && b.Valid() && SystemState(p.State(), b.State()) == next
        case Err(e) => r == Err(e)
    {
      match call
      case ShieldCall(note) => r := p.HandleShield(note);
      case TransferCall(t, now) => r := p.HandleTransfer(t, now);
      case UnshieldCall(u) => r := p.HandleUnshield(u);
      case SanctionsRootCall(newRoot, sender) => r := p.HandleUpdateSanctionsRoot(newRoot, sender);
      case ClaimCall(c) => r := b.HandleClaimDeposit(c);
      case WithdrawCall(w) => r := b.HandleWithdrawBridge(w);
      case HeliosCall(u) => r := b.HandleUpdateHeliosHead(u);
    }
  }

  /** The reachable states of the runtime are the states of runs. */
  method Replay(sha: HashFn, depth: nat, config: BridgeConfig, calls: seq<Call>) returns (rt: Runtime)
    ensures rt.Valid() && rt.C() == Chain(Params(sha, depth), config)
    ensures rt.State() == Run(rt.C(), calls)
  {
    rt := new Runtime(sha, depth, config);
    for i := 0 to |calls|
      invariant rt.Valid() && fresh(rt) && rt.C() == Chain(Params(sha, depth), config)
      invariant rt.State() == Run(rt.C(), calls[..i])
    {
      assert calls[..i + 1][..i] == calls[..i];
      var r := rt.Execute(calls[i]);
      hide Apply;
    }
    assert calls[..|calls|] == calls;
  }
}
