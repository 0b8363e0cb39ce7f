/** Runs of the two contracts: every reachable state, from deployment on. */
module Ledger {
  import opened Prelude
  import opened Roles
  import opened Registry
  import opened Token

  datatype Call =
    | RedeemProof(proof: Proof, sig: PubSignals)
    | SetRoot(newRoot: Word)
    | Revoke(account: Address)
    | RegistryOwner(newOwner: Address)
    | RegistryAgent(account: Address, enabled: bool)
    | Mint(to: Address, amount: Word)
    | Approve(spender: Address, amount: Word)
    | Send(to: Address, amount: Word)
    | SendFrom(from: Address, to: Address, amount: Word)
    | TokenOwner(newOwner: Address)
    | TokenAgent(account: Address, enabled: bool)

  /** A transaction: who calls, the block's time, and what is called. */
  datatype Tx = Tx(caller: Caller, now: Word, call: Call)

  datatype World = World(registry: RegistryState, registryLog: seq<Event>, token: TokenState, tokenLog: seq<Event>)

  function OnRegistry(w: World, r: Result<Effect<RegistryState>, Revert>): Result<World, Revert> {
    match r
    case Err(e) => Err(e)
    case Ok(f) => Ok(w.(registry := f.state, registryLog := w.registryLog + f.events))
  }

  function OnRegistryRoles(w: World, r: Result<Effect<RoleState>, Revert>): Result<World, Revert> {
    match r
    case Err(e) => Err(e)
    case Ok(f) => Ok(w.(registry := w.registry.(roles := f.state), registryLog := w.registryLog + f.events))
  }

  function OnToken(w: World, r: Result<Effect<TokenState>, Revert>): Result<World, Revert> {
    match r
    case Err(e) => Err(e)
    case Ok(f) => Ok(w.(token := f.state, tokenLog := w.tokenLog + f.events))
  }

  function OnTokenRoles(w: World, r: Result<Effect<RoleState>, Revert>): Result<World, Revert> {
    match r
    case Err(e) => Err(e)
    case Ok(f) => Ok(w.(token := w.token.(roles := f.state), tokenLog := w.tokenLog + f.events))
  }

  /** The world a transaction commits, or the reason it reverts. */
  function Execute(v: Verifier, w: World, tx: Tx): Result<World, Revert> {
    match tx.call
    case RedeemProof(proof, sig) => OnRegistry(w, RedeemSpec(v, w.registry, tx.caller, tx.now, proof, sig))
    case SetRoot(root) => OnRegistry(w, SetRootSpec(w.registry, tx.caller, root))
    case Revoke(account) => OnRegistry(w, RevokeSpec(w.registry, tx.caller, account))
    case RegistryOwner(owner) => OnRegistryRoles(w, TransferOwnershipSpec(w.registry.roles, tx.caller, owner))
    case RegistryAgent(account, on) => OnRegistryRoles(w, SetAgentSpec(w.registry.roles, tx.caller, account, on))
    case Mint(to, amount) => OnToken(w, MintSpec(w.registry, w.token, tx.caller, tx.now, to, amount))
    case Approve(spender, amount) => OnToken(w, ApproveSpec(w.token, tx.caller, spender, amount))
    case Send(to, amount) => OnToken(w, MoveSpec(w.registry, w.token, tx.now, tx.caller, to, amount))
    case SendFrom(from, to, amount) =>
      OnToken(w, TransferFromSpec(w.registry, w.token, tx.caller, tx.now, from, to, amount))
    case TokenOwner(owner) => OnTokenRoles(w, TransferOwnershipSpec(w.token.roles, tx.caller, owner))
    case TokenAgent(account, on) => OnTokenRoles(w, SetAgentSpec(w.token.roles, tx.caller, account, on))
  }

  /** A transaction commits or leaves the world as it was. */
  function Step(v: Verifier, w: World, tx: Tx): World {
    var r := Execute(v, w, tx);
    if r.Ok? then r.value else w
  }

  function Run(v: Verifier, w: World, txs: seq<Tx>): World {
    if |txs| == 0 then w else Step(v, Run(v, w, txs[..|txs| - 1]), txs[|txs| - 1])
  }

  /** Both contracts as deployed. */
  function Genesis(registryOwner: Caller, tokenOwner: Caller, root: Word): World {
    World(
      RegistryState(RoleState(registryOwner, {registryOwner}), root, {}, map[]),
      [OwnershipTransferred(0, registryOwner), AgentSet(registryOwner, true), RootUpdated(root)],
      TokenState(RoleState(tokenOwner, {tokenOwner}), 0, map[], map[]),
      [OwnershipTransferred(0, tokenOwner), AgentSet(tokenOwner, true)])
  }

  lemma RunStep(v: Verifier, w: World, txs: seq<Tx>, tx: Tx)
    ensures Run(v, w, txs + [tx]) == Step(v, Run(v, w, txs), tx)
  {
    assert (txs + [tx])[..|txs|] == txs;
  }

  // --------------------------------------------------- the deployed contracts

  class Chain {
    const registry: ComplianceRegistry
    const token: KYCToken

    ghost predicate Valid() {
      token.identityRegistry == registry && token.roles != registry.roles
    }

    ghost function State(): World
      reads registry, registry.roles, token, token.roles
    {
      World(registry.State(), registry.roles.log, token.State(), token.roles.log)
    }

    /** The contracts deployed together are the genesis world. */
    constructor (verifierAddr: Caller, registryAddr: Caller, verifier: Verifier,
                 registryOwner: Caller, tokenOwner: Caller, root: Word)
      ensures Valid() && registry.verifier == verifier
      ensures fresh(registry) && fresh(registry.roles) && fresh(token) && fresh(token.roles)
      ensures State() == Genesis(registryOwner, tokenOwner, root)
    {
      var deployed := ComplianceRegistry.Deploy(verifierAddr, verifier, root, registryOwner);
      var issued := KYCToken.Deploy(registryAddr, deployed.value, tokenOwner);
      registry := deployed.value;
      token := issued.value;
    }

    /** A transaction sent to the contracts does what Execute says. */
    method Submit(tx: Tx) returns (r: Result<(), Revert>)
      requires Valid()
      modifies registry, registry.roles, token, token.roles
      ensures State() == Step(registry.verifier, old(State()), tx)
      ensures match Execute(registry.verifier, old(State()), tx)
              case Ok(_) => r == Ok(())
              case Err(e) => r == Err(e)
    {
      match tx.call {
        case RedeemProof(proof, sig) => r := registry.RedeemProof(tx.caller, tx.now, proof, sig);
        case SetRoot(root) => r := registry.SetRoot(tx.caller, root);
        case Revoke(account) => r := registry.Revoke(tx.caller, account);
        case RegistryOwner(owner) => r := registry.roles.TransferOwnership(tx.caller, owner);
        case RegistryAgent(account, on) => r := registry.roles.SetAgent(tx.caller, account, on);
        case Mint(to, amount) => r := token.Mint(tx.caller, tx.now, to, amount);
        case Approve(spender, amount) => r := token.Approve(tx.caller, spender, amount);
        case Send(to, amount) => r := token.Send(tx.caller, tx.now, to, amount);
        case SendFrom(from, to, amount) => r := token.TransferFrom(tx.caller, tx.now, from, to, amount);
        case TokenOwner(owner) => r := token.roles.TransferOwnership(tx.caller, owner);
        case TokenAgent(account, on) => r := token.roles.SetAgent(tx.caller, account, on);
      }
    }
  }
}
