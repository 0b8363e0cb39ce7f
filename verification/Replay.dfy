/** The event logs determine the storage of both contracts, all but the allowances. */
module Replay {
  import opened Roles
  import opened Registry
  import opened Token
  import opened Ledger
  import opened Conservation

  function Front(log: seq<Event>): seq<Event>
    requires |log| > 0
  {
    log[..|log| - 1]
  }

  function Newest(log: seq<Event>): Event
    requires |log| > 0
  {
    log[|log| - 1]
  }

  /** The new owner named by the last OwnershipTransferred. */
  function OwnerIn(log: seq<Event>): Address {
    if |log| == 0 then 0
    else if Newest(log).OwnershipTransferred? then Newest(log).newOwner
    else OwnerIn(Front(log))
  }

  /** Each OwnershipTransferred starts from the owner the one before it named. */
  predicate OwnersChain(log: seq<Event>) {
    |log| > 0 ==>
      && OwnersChain(Front(log))
      && (Newest(log).OwnershipTransferred? ==> Newest(log).previousOwner == OwnerIn(Front(log)))
  }

  function AgentsIn(log: seq<Event>): set<Address> {
    if |log| == 0 then {}
    else if Newest(log).AgentSet? then Granted(AgentsIn(Front(log)), Newest(log).account, Newest(log).enabled)
    else AgentsIn(Front(log))
  }

  /** The root of the last RootUpdated. */
  function RootIn(log: seq<Event>): Word {
    if |log| == 0 then 0
    else if Newest(log).RootUpdated? then Newest(log).newRoot
    else RootIn(Front(log))
  }

  /** The nullifiers of all ProofRedeemed events. */
  function SpentIn(log: seq<Event>): set<Word> {
    if |log| == 0 then {}
    else if Newest(log).ProofRedeemed? then SpentIn(Front(log)) + {Newest(log).nullifier}
    else SpentIn(Front(log))
  }

  /** Given by the last redemption or revocation of the account, 0 when there is none. */
  function UntilIn(log: seq<Event>, a: Address): Word {
    if |log| == 0 then 0
    else if Newest(log).ProofRedeemed? && Newest(log).holder == a then Newest(log).expiry
    else if Newest(log).VerificationRevoked? && Newest(log).account == a then 0
    else UntilIn(Front(log), a)
  }

  /** What Transfer events brought to the account. */
  function Inflow(log: seq<Event>, a: Address): int {
    if |log| == 0 then 0
    else Inflow(Front(log), a) + if Newest(log).Transfer? && Newest(log).to == a then Newest(log).value else 0
  }

  /** What Transfer events took from the account. Events from the zero address are mints. */
  function Outflow(log: seq<Event>, a: Address): int {
    if |log| == 0 then 0
    else Outflow(Front(log), a) + if Newest(log).Transfer? && Newest(log).from == a then Newest(log).value else 0
  }

  /** The registry's storage, read off its log. The zero address is never verified. */
  ghost predicate RegistryReplays(s: RegistryState, log: seq<Event>) {
    && s.roles == RoleState(OwnerIn(log), AgentsIn(log))
    && OwnersChain(log)
    && s.currentRoot == RootIn(log)
    && s.spent == SpentIn(log)
    && (forall a: Address :: Get(s.verifiedUntil, a) == UntilIn(log, a))
    && Get(s.verifiedUntil, 0) == 0
  }

  /** The token's storage, read off its log: the zero address only ever mints. */
  ghost predicate TokenReplays(t: TokenState, log: seq<Event>) {
    && t.roles == RoleState(OwnerIn(log), AgentsIn(log))
    && OwnersChain(log)
    && t.totalSupply == Outflow(log, 0)
    && (forall a: Address :: a != 0 ==> Get(t.balances, a) == Inflow(log, a) - Outflow(log, a))
    && Get(t.balances, 0) == 0 == Inflow(log, 0)
  }

  ghost predicate Sound(w: World) {
    RegistryReplays(w.registry, w.registryLog) && TokenReplays(w.token, w.tokenLog) && Conserved(w.token)
  }

  lemma Appended(log: seq<Event>, e: Event)
    ensures Front(log + [e]) == log && Newest(log + [e]) == e
  {
  }

  lemma RedeemReplays(v: Verifier, s: RegistryState, log: seq<Event>, caller: Caller, now: Word, proof: Proof,
                      sig: PubSignals)
    requires RegistryReplays(s, log)
    ensures var r := RedeemSpec(v, s, caller, now, proof, sig);
            r.Ok? ==> RegistryReplays(r.value.state, log + r.value.events)
  {
    Appended(log, ProofRedeemed(caller, sig.nullifier, sig.expiry));
  }

  lemma SetRootReplays(s: RegistryState, log: seq<Event>, caller: Caller, newRoot: Word)
    requires RegistryReplays(s, log)
    ensures var r := SetRootSpec(s, caller, newRoot);
            r.Ok? ==> RegistryReplays(r.value.state, log + r.value.events)
  {
    Appended(log, RootUpdated(newRoot));
  }

  lemma RevokeReplays(s: RegistryState, log: seq<Event>, caller: Caller, account: Address)
    requires RegistryReplays(s, log)
    ensures var r := RevokeSpec(s, caller, account);
            r.Ok? ==> RegistryReplays(r.value.state, log + r.value.events)
  {
    Appended(log, VerificationRevoked(account));
  }

  /** A change of roles, as either log sees it. */
  lemma RolesReplay(s: RoleState, log: seq<Event>, e: Event)
    requires s == RoleState(OwnerIn(log), AgentsIn(log)) && OwnersChain(log)
    requires e.AgentSet? || (e.OwnershipTransferred? && e.previousOwner == s.owner)
    ensures OwnersChain(log + [e])
    ensures RoleState(OwnerIn(log + [e]), AgentsIn(log + [e]))
            == if e.AgentSet? then s.(agents := Granted(s.agents, e.account, e.enabled)) else s.(owner := e.newOwner)
    ensures RootIn(log + [e]) == RootIn(log) && SpentIn(log + [e]) == SpentIn(log)
    ensures forall a: Address :: UntilIn(log + [e], a) == UntilIn(log, a)
    ensures forall a: Address :: Inflow(log + [e], a) == Inflow(log, a) && Outflow(log + [e], a) == Outflow(log, a)
  {
    Appended(log, e);
  }

  lemma RegistryStepReplays(v: Verifier, w: World, tx: Tx)
    requires Sound(w)
    requires tx.call.RedeemProof? || tx.call.SetRoot? || tx.call.Revoke?
    ensures Sound(Step(v, w, tx))
  {
    match tx.call {
      case RedeemProof(proof, sig) => RedeemReplays(v, w.registry, w.registryLog, tx.caller, tx.now, proof, sig);
      case SetRoot(root) => SetRootReplays(w.registry, w.registryLog, tx.caller, root);
      case Revoke(account) => RevokeReplays(w.registry, w.registryLog, tx.caller, account);
    }
  }

  lemma RegistryOwnerStepReplays(v: Verifier, w: World, tx: Tx)
    requires Sound(w) && tx.call.RegistryOwner?
    ensures Sound(Step(v, w, tx))
  {
    RolesReplay(w.registry.roles, w.registryLog, OwnershipTransferred(w.registry.roles.owner, tx.call.newOwner));
  }

  lemma RegistryAgentStepReplays(v: Verifier, w: World, tx: Tx)
    requires Sound(w) && tx.call.RegistryAgent?
    ensures Sound(Step(v, w, tx))
  {
    RolesReplay(w.registry.roles, w.registryLog, AgentSet(tx.call.account, tx.call.enabled));
  }

  /** An Approval says nothing about roles or balances. */
  lemma ApprovalReplays(s: TokenState, log: seq<Event>, e: Event, allowances: map<(Address, Address), Word>)
    requires TokenReplays(s, log) && e.Approval?
    ensures TokenReplays(s.(allowances := allowances), log + [e])
  {
    Appended(log, e);
  }

  lemma TokenRolesReplay(s: TokenState, log: seq<Event>, e: Event, roles: RoleState)
    requires TokenReplays(s, log)
    requires e.AgentSet? || (e.OwnershipTransferred? && e.previousOwner == s.roles.owner)
    requires roles == if e.AgentSet? then s.roles.(agents := Granted(s.roles.agents, e.account, e.enabled))
                      else s.roles.(owner := e.newOwner)
    ensures TokenReplays(s.(roles := roles), log + [e])
  {
    RolesReplay(s.roles, log, e);
  }

  lemma TokenCommit(w: World, t: TokenState, log: seq<Event>)
    requires Sound(w) && TokenReplays(t, log)
    requires t.balances == w.token.balances && t.totalSupply == w.token.totalSupply
    ensures Sound(w.(token := t, tokenLog := log))
  {
  }

  lemma TokenOwnerStepReplays(v: Verifier, w: World, tx: Tx)
    requires Sound(w) && tx.call.TokenOwner?
    ensures Sound(Step(v, w, tx))
  {
    var roles := w.token.roles.(owner := tx.call.newOwner);
    var e := OwnershipTransferred(w.token.roles.owner, tx.call.newOwner);
    TokenRolesReplay(w.token, w.tokenLog, e, roles);
    TokenCommit(w, w.token.(roles := roles), w.tokenLog + [e]);
  }

  lemma TokenAgentStepReplays(v: Verifier, w: World, tx: Tx)
    requires Sound(w) && tx.call.TokenAgent?
    ensures Sound(Step(v, w, tx))
  {
    var roles := w.token.roles.(agents := Granted(w.token.roles.agents, tx.call.account, tx.call.enabled));
    var e := AgentSet(tx.call.account, tx.call.enabled);
    TokenRolesReplay(w.token, w.tokenLog, e, roles);
    TokenCommit(w, w.token.(roles := roles), w.tokenLog + [e]);
  }

  lemma ApproveStepReplays(v: Verifier, w: World, tx: Tx)
    requires Sound(w) && tx.call.Approve?
    ensures Sound(Step(v, w, tx))
  {
    var e := Approval(tx.caller, tx.call.spender, tx.call.amount);
    var allowances := w.token.allowances[(tx.caller, tx.call.spender) := tx.call.amount];
    ApprovalReplays(w.token, w.tokenLog, e, allowances);
    TokenCommit(w, w.token.(allowances := allowances), w.tokenLog + [e]);
  }

  lemma MintReplays(v: Verifier, w: World, tx: Tx)
    requires Sound(w) && tx.call.Mint?
    ensures Sound(Step(v, w, tx))
  {
    StepConserves(v, w, tx);
    Appended(w.tokenLog, Transfer(0, tx.call.to, tx.call.amount));
  }

  /** A committed move, as the log and the balances see it. */
  lemma MoveReplays(w: World, moved: map<Address, Word>, from: Address, to: Address, amount: Word)
    requires Sound(w) && from != 0 && to != 0
    requires ExactMove(w.token.balances, moved, from, to, amount)
    ensures var log := w.tokenLog + [Transfer(from, to, amount)];
            && (forall a: Address :: a != 0 ==> Get(moved, a) == Inflow(log, a) - Outflow(log, a))
            && Outflow(log, 0) == Outflow(w.tokenLog, 0) && Inflow(log, 0) == 0 && Get(moved, 0) == 0
            && OwnerIn(log) == OwnerIn(w.tokenLog) && AgentsIn(log) == AgentsIn(w.tokenLog) && OwnersChain(log)
  {
    Appended(w.tokenLog, Transfer(from, to, amount));
  }

  lemma TransferReplays(v: Verifier, w: World, tx: Tx)
    requires Sound(w) && (tx.call.Send? || tx.call.SendFrom?)
    ensures Sound(Step(v, w, tx))
  {
    var r := Execute(v, w, tx);
    StepConserves(v, w, tx);
    if r.Ok? {
      var from := if tx.call.Send? then tx.caller else tx.call.from;
      assert from != 0 by {
        assert IsVerified(w.registry, from, tx.now);
      }
      if tx.call.SendFrom? {
        SpendKeepsBalances(w.token, from, tx.caller, tx.call.amount);
      }
      MoveIsExact(w.token.balances, from, tx.call.to, tx.call.amount);
      MoveReplays(w, r.value.token.balances, from, tx.call.to, tx.call.amount);
    }
  }

  lemma StepReplays(v: Verifier, w: World, tx: Tx)
    requires Sound(w)
    ensures Sound(Step(v, w, tx))
  {
    if tx.call.Mint? {
      MintReplays(v, w, tx);
    } else if tx.call.Send? || tx.call.SendFrom? {
      TransferReplays(v, w, tx);
    } else if tx.call.Approve? {
      ApproveStepReplays(v, w, tx);
    } else if tx.call.RegistryOwner? {
      RegistryOwnerStepReplays(v, w, tx);
    } else if tx.call.RegistryAgent? {
      RegistryAgentStepReplays(v, w, tx);
    } else if tx.call.TokenOwner? {
      TokenOwnerStepReplays(v, w, tx);
    } else if tx.call.TokenAgent? {
      TokenAgentStepReplays(v, w, tx);
    } else {
      RegistryStepReplays(v, w, tx);
    }
  }

  /** The two events of the Roles constructor. */
  lemma OpeningEvents(owner: Caller)
    ensures var log := [OwnershipTransferred(0, owner), AgentSet(owner, true)];
            && OwnerIn(log) == owner && AgentsIn(log) == {owner} && OwnersChain(log)
            && RootIn(log) == 0 && SpentIn(log) == {}
            && forall a: Address :: UntilIn(log, a) == 0 && Inflow(log, a) == 0 && Outflow(log, a) == 0
  {
    var first, second := OwnershipTransferred(0, owner), AgentSet(owner, true);
    RolesReplay(RoleState(0, {}), [], first);
    assert [] + [first] == [first];
    RolesReplay(RoleState(owner, {}), [first], second);
    assert [first] + [second] == [first, second];
  }

  lemma GenesisReplays(registryOwner: Caller, tokenOwner: Caller, root: Word)
    ensures Sound(Genesis(registryOwner, tokenOwner, root))
  {
    var g := Genesis(registryOwner, tokenOwner, root);
    GenesisConserved(registryOwner, tokenOwner, root);
    OpeningEvents(registryOwner);
    OpeningEvents(tokenOwner);
    var opening := [OwnershipTransferred(0, registryOwner), AgentSet(registryOwner, true)];
    assert g.registryLog == opening + [RootUpdated(root)];
    Appended(opening, RootUpdated(root));
  }

  /** In every state reachable from deployment, the logs replay to the storage. */
  lemma {:induction false} LogsReplay(v: Verifier, registryOwner: Caller, tokenOwner: Caller, root: Word, txs: seq<Tx>)
    ensures Sound(Run(v, Genesis(registryOwner, tokenOwner, root), txs))
    decreases |txs|
  {
    if |txs| == 0 {
      GenesisReplays(registryOwner, tokenOwner, root);
    } else {
      var n := |txs| - 1;
      LogsReplay(v, registryOwner, tokenOwner, root, txs[..n]);
      StepReplays(v, Run(v, Genesis(registryOwner, tokenOwner, root), txs[..n]), txs[n]);
    }
  }
}
