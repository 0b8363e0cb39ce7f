/**
 * Owner and agents, the authority both contracts inherit, with the words,
 * addresses, reverts and events they share. Calls are atomic: a revert leaves
 * every field and the log as they were.
 */
module Roles {
  import opened Prelude

  const WORD_LIMIT := 0x1_0000_0000_0000_0000_0000_0000_0000_0000_0000_0000_0000_0000_0000_0000_0000_0000

  const ADDRESS_LIMIT := 0x1_0000_0000_0000_0000_0000_0000_0000_0000_0000_0000

  type Word = x: int | 0 <= x < WORD_LIMIT

  type Address = a: int | 0 <= a < ADDRESS_LIMIT

  /** msg.sender: never the zero address. */
  type Caller = a: int | 0 < a < ADDRESS_LIMIT witness 1

  datatype Revert =
    | NotOwner(caller: Address)
    | NotAgent(caller: Address)
    | ZeroAddress
    | RootMismatch(proofRoot: Word, currentRoot: Word)
    | AddressMismatch(caller: Address)
    | CredentialExpired(expiry: Word)
    | NullifierAlreadySpent(nullifier: Word)
    | InvalidProof
    | SenderNotVerified(account: Address)
    | RecipientNotVerified(account: Address)
    | InsufficientBalance(account: Address, balance: Word, needed: Word)
    | InsufficientAllowance(owner: Address, spender: Address, allowance: Word, needed: Word)
    | Panic

  datatype Event =
    | OwnershipTransferred(previousOwner: Address, newOwner: Address)
    | AgentSet(account: Address, enabled: bool)
    | RootUpdated(newRoot: Word)
    | ProofRedeemed(holder: Address, nullifier: Word, expiry: Word)
    | VerificationRevoked(account: Address)
    | Transfer(from: Address, to: Address, value: Word)
    | Approval(owner: Address, spender: Address, amount: Word)

  /** A committed call: the new state and the event it emits, if any. */
  datatype Effect<+S> = Effect(state: S, events: seq<Event>)

  datatype RoleState = RoleState(owner: Address, agents: set<Address>)

  function Granted(agents: set<Address>, account: Address, enabled: bool): set<Address> {
    if enabled then agents + {account} else agents - {account}
  }

  function TransferOwnershipSpec(s: RoleState, caller: Caller, newOwner: Address): Result<Effect<RoleState>, Revert> {
    if caller != s.owner then Err(NotOwner(caller))
    else if newOwner == 0 then Err(ZeroAddress)
    else Ok(Effect(s.(owner := newOwner), [OwnershipTransferred(s.owner, newOwner)]))
  }

  function SetAgentSpec(s: RoleState, caller: Caller, account: Address,
                        enabled: bool): Result<Effect<RoleState>, Revert> {
    if caller != s.owner then Err(NotOwner(caller))
    else if account == 0 then Err(ZeroAddress)
    else Ok(Effect(s.(agents := Granted(s.agents, account, enabled)), [AgentSet(account, enabled)]))
  }

  /** What a call leaves behind: the effect committed, or everything as it was. */
  ghost predicate Commits<S>(spec: Result<Effect<S>, Revert>, before: S, beforeLog: seq<Event>,
                             after: S, afterLog: seq<Event>, r: Result<(), Revert>)
  {
    match spec
    case Ok(effect) => r == Ok(()) && after == effect.state && afterLog == beforeLog + effect.events
    case Err(e) => r == Err(e) && after == before && afterLog == beforeLog
  }

  class Authority {
    var owner: Address
    var agents: set<Address>
    ghost var log: seq<Event>

    ghost function State(): RoleState
      reads this
    {
      RoleState(owner, agents)
    }

    /** Deployment refuses a zero owner. */
    static method Deploy(initialOwner: Address) returns (r: Result<Authority, Revert>)
      ensures initialOwner == 0 ==> r == Err(ZeroAddress)
      ensures initialOwner != 0 ==>
                && r.Ok? && fresh(r.value) && r.value.State() == RoleState(initialOwner, {initialOwner})
                && r.value.log == [OwnershipTransferred(0, initialOwner), AgentSet(initialOwner, true)]
    {
      if initialOwner == 0 {
        return Err(ZeroAddress);
      }
      var roles := new Authority(initialOwner);
      return Ok(roles);
    }

    constructor (initialOwner: Address)
      ensures State() == RoleState(initialOwner, {initialOwner})
      ensures log == [OwnershipTransferred(0, initialOwner), AgentSet(initialOwner, true)]
    {
      owner := initialOwner;
      agents := {initialOwner};
      log := [OwnershipTransferred(0, initialOwner), AgentSet(initialOwner, true)];
    }

    method TransferOwnership(caller: Caller, newOwner: Address) returns (r: Result<(), Revert>)
      modifies this
      ensures Commits(TransferOwnershipSpec(old(State()), caller, newOwner), old(State()), old(log), State(), log, r)
    {
      if caller != owner {
        return Err(NotOwner(caller));
      }
      if newOwner == 0 {
        return Err(ZeroAddress);
      }
      log := log + [OwnershipTransferred(owner, newOwner)];
      owner := newOwner;
      return Ok(());
    }

    method SetAgent(caller: Caller, account: Address, enabled: bool) returns (r: Result<(), Revert>)
      modifies this
      ensures Commits(SetAgentSpec(old(State()), caller, account, enabled), old(State()), old(log), State(), log, r)
    {
      if caller != owner {
        return Err(NotOwner(caller));
      }
      if account == 0 {
        return Err(ZeroAddress);
      }
      if enabled {
        agents := agents + {account};
      } else {
        agents := agents - {account};
      }
      log := log + [AgentSet(account, enabled)];
      return Ok(());
    }
  }
}
