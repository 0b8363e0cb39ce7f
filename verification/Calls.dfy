/**
 * What each call of the two contracts does, in terms of storage alone: exactly
 * when it commits, and everything it changes when it does.
 */
module Calls {
  import opened Prelude
  import opened Issuer
  import opened Circuit
  import opened Roles
  import opened Registry
  import opened Token
  import opened Ledger
  import opened Conservation
  import opened Redemptions

  /** The transaction left the token alone and logged these events in the registry. */
  predicate InRegistry(w: World, w': World, events: seq<Event>) {
    w'.token == w.token && w'.tokenLog == w.tokenLog && w'.registryLog == w.registryLog + events
  }

  /** The transaction left the registry alone and logged these events in the token. */
  predicate InToken(w: World, w': World, events: seq<Event>) {
    w'.registry == w.registry && w'.registryLog == w.registryLog && w'.tokenLog == w.tokenLog + events
  }

  // ------------------------------------------------------------- the registry

  /**
   * A redemption commits exactly when its root is the published one, it is bound
   * to the caller, its expiry lies ahead, its nullifier is unspent, all four
   * signals are field elements and the pairing accepts. It then spends the
   * nullifier and sets the caller's expiry, and nothing else.
   */
  lemma RedeemIsExact(v: Verifier, w: World, tx: Tx)
    requires tx.call.RedeemProof?
    ensures var s, sig := w.registry, tx.call.sig;
            Execute(v, w, tx).Ok?
            <==> && sig.root == s.currentRoot && sig.holderAddr == tx.caller && tx.now < sig.expiry
                 && sig.nullifier !in s.spent
                 && sig.nullifier < FIELD && sig.root < FIELD && sig.holderAddr < FIELD && sig.expiry < FIELD
                 && v.pairing(tx.call.proof, sig)
    ensures Execute(v, w, tx).Err? ==> Step(v, w, tx) == w
    ensures Execute(v, w, tx).Ok? ==>
              var w', sig := Step(v, w, tx), tx.call.sig;
              && w'.registry.spent == w.registry.spent + {sig.nullifier}
              && Get(w'.registry.verifiedUntil, tx.caller) == sig.expiry
              && (forall a: Address :: a != tx.caller ==>
                    Get(w'.registry.verifiedUntil, a) == Get(w.registry.verifiedUntil, a))
              && w'.registry.roles == w.registry.roles && w'.registry.currentRoot == w.registry.currentRoot
              && InRegistry(w, w', [ProofRedeemed(tx.caller, sig.nullifier, sig.expiry)])
  {
  }

  /** A refused redemption reports the first of its conditions that fails, in the documented order. */
  lemma RedeemReverts(v: Verifier, w: World, tx: Tx)
    requires tx.call.RedeemProof?
    ensures var s, sig, r := w.registry, tx.call.sig, Execute(v, w, tx);
            var published, bound := sig.root == s.currentRoot, sig.holderAddr == tx.caller;
            var live, unspent := tx.now < sig.expiry, sig.nullifier !in s.spent;
            && (r == Err(RootMismatch(sig.root, s.currentRoot)) <==> !published)
            && (r == Err(AddressMismatch(tx.caller)) <==> published && !bound)
            && (r == Err(CredentialExpired(sig.expiry)) <==> published && bound && !live)
            && (r == Err(NullifierAlreadySpent(sig.nullifier)) <==> published && bound && live && !unspent)
            && (r == Err(InvalidProof)
                <==> && published && bound && live && unspent
                     && !(SignalsInField(FIELD, Public(sig)) && v.pairing(tx.call.proof, sig)))
  {
  }

  /** A redemption with a signal outside the field changes nothing, whatever the pairing says. */
  lemma OutOfFieldChangesNothing(v: Verifier, w: World, tx: Tx)
    requires tx.call.RedeemProof? && !SignalsInField(FIELD, Public(tx.call.sig))
    ensures Step(v, w, tx) == w
  {
    RedeemIsExact(v, w, tx);
  }

  /** The owner, and nobody else, publishes a root, any root. */
  lemma SetRootIsExact(v: Verifier, w: World, tx: Tx)
    requires tx.call.SetRoot?
    ensures Execute(v, w, tx).Ok? <==> tx.caller == w.registry.roles.owner
    ensures Execute(v, w, tx).Err? ==> Execute(v, w, tx) == Err(NotOwner(tx.caller)) && Step(v, w, tx) == w
    ensures Execute(v, w, tx).Ok? ==>
              var s, s' := w.registry, Step(v, w, tx).registry;
              && s'.currentRoot == tx.call.newRoot
              && s'.roles == s.roles && s'.spent == s.spent && s'.verifiedUntil == s.verifiedUntil
              && InRegistry(w, Step(v, w, tx), [RootUpdated(tx.call.newRoot)])
  {
  }

  /** An agent, and nobody else, resets an expiry, any account's. */
  lemma RevokeIsExact(v: Verifier, w: World, tx: Tx)
    requires tx.call.Revoke?
    ensures Execute(v, w, tx).Ok? <==> tx.caller in w.registry.roles.agents
    ensures Execute(v, w, tx).Err? ==> Execute(v, w, tx) == Err(NotAgent(tx.caller)) && Step(v, w, tx) == w
    ensures Execute(v, w, tx).Ok? ==>
              var s, s' := w.registry, Step(v, w, tx).registry;
              && Get(s'.verifiedUntil, tx.call.account) == 0
              && (forall a: Address :: a != tx.call.account ==> Get(s'.verifiedUntil, a) == Get(s.verifiedUntil, a))
              && s'.roles == s.roles && s'.currentRoot == s.currentRoot && s'.spent == s.spent
              && InRegistry(w, Step(v, w, tx), [VerificationRevoked(tx.call.account)])
  {
  }

  // ---------------------------------------------------------------- the token

  /** A move of this amount may take place: both parties are verified and the balance suffices. */
  predicate MayMove(w: World, now: Word, from: Address, to: Address, amount: Word) {
    && to != 0 && Get(w.registry.verifiedUntil, from) > now && Get(w.registry.verifiedUntil, to) > now
    && amount <= Get(w.token.balances, from)
  }

  /** Exactly the amount moved, and neither supply nor roles nor the registry changed. */
  ghost predicate JustMoves(w: World, w': World, from: Address, to: Address, amount: Word) {
    && ExactMove(w.token.balances, w'.token.balances, from, to, amount)
    && w'.token.totalSupply == w.token.totalSupply && w'.token.roles == w.token.roles
    && InToken(w, w', [Transfer(from, to, amount)])
  }

  /**
   * A transfer commits exactly when the recipient is not zero, both expiries lie
   * ahead and the balance suffices. It then moves exactly the amount.
   */
  lemma SendIsExact(v: Verifier, w: World, tx: Tx)
    requires tx.call.Send?
    ensures Execute(v, w, tx).Ok? <==> MayMove(w, tx.now, tx.caller, tx.call.to, tx.call.amount)
    ensures Execute(v, w, tx).Err? ==> Step(v, w, tx) == w
    ensures Execute(v, w, tx).Ok? && Conserved(w.token) ==>
              && JustMoves(w, Step(v, w, tx), tx.caller, tx.call.to, tx.call.amount)
              && Step(v, w, tx).token.allowances == w.token.allowances
  {
    if Execute(v, w, tx).Ok? && Conserved(w.token) {
      MoveIsExact(w.token.balances, tx.caller, tx.call.to, tx.call.amount);
    }
  }

  /** What is left of an allowance after an amount is drawn on it: all of it, if it is infinite. */
  function Drawn(allowance: Word, amount: Word): int {
    if allowance == WORD_LIMIT - 1 then allowance else allowance - amount
  }

  lemma SendFromMoves(v: Verifier, w: World, tx: Tx)
    requires tx.call.SendFrom? && Execute(v, w, tx).Ok? && Conserved(w.token)
    ensures JustMoves(w, Step(v, w, tx), tx.call.from, tx.call.to, tx.call.amount)
  {
    SpendKeepsBalances(w.token, tx.call.from, tx.caller, tx.call.amount);
    MoveIsExact(w.token.balances, tx.call.from, tx.call.to, tx.call.amount);
  }

  lemma SendFromDraws(v: Verifier, w: World, tx: Tx)
    requires tx.call.SendFrom? && Execute(v, w, tx).Ok?
    ensures var before, after := w.token.allowances, Step(v, w, tx).token.allowances;
            forall holder: Address, spender: Address ::
              Get(after, (holder, spender))
              == if holder == tx.call.from && spender == tx.caller
                 then Drawn(Get(before, (holder, spender)), tx.call.amount) else Get(before, (holder, spender))
  {
  }

  /**
   * A pull commits exactly when the transfer from the holder would and the caller's
   * allowance is infinite or covers the amount. It then moves exactly the amount
   * and draws on that allowance alone.
   */
  lemma SendFromIsExact(v: Verifier, w: World, tx: Tx)
    requires tx.call.SendFrom?
    ensures var allowance := Get(w.token.allowances, (tx.call.from, tx.caller));
            Execute(v, w, tx).Ok?
            <==> && MayMove(w, tx.now, tx.call.from, tx.call.to, tx.call.amount)
                 && (allowance == WORD_LIMIT - 1 || tx.call.amount <= allowance)
    ensures Execute(v, w, tx).Err? ==> Step(v, w, tx) == w
    ensures Execute(v, w, tx).Ok? && Conserved(w.token) ==>
              JustMoves(w, Step(v, w, tx), tx.call.from, tx.call.to, tx.call.amount)
    ensures Execute(v, w, tx).Ok? ==>
              var before, after := w.token.allowances, Step(v, w, tx).token.allowances;
              forall holder: Address, spender: Address ::
                Get(after, (holder, spender))
                == if holder == tx.call.from && spender == tx.caller
                   then Drawn(Get(before, (holder, spender)), tx.call.amount) else Get(before, (holder, spender))
  {
    if Execute(v, w, tx).Ok? {
      SendFromDraws(v, w, tx);
      if Conserved(w.token) {
        SendFromMoves(v, w, tx);
      }
    }
  }

  /**
   * A mint commits exactly when the caller is an agent, the recipient is not zero
   * and its expiry lies ahead, and the new supply fits a word. It then adds the
   * amount to the supply and to the recipient's balance.
   */
  lemma MintIsExact(v: Verifier, w: World, tx: Tx)
    requires tx.call.Mint? && Conserved(w.token)
    ensures Execute(v, w, tx).Ok?
            <==> && tx.caller in w.token.roles.agents
                 && tx.call.to != 0 && Get(w.registry.verifiedUntil, tx.call.to) > tx.now
                 && w.token.totalSupply + tx.call.amount < WORD_LIMIT
    ensures Execute(v, w, tx).Err? ==> Step(v, w, tx) == w
    ensures Execute(v, w, tx).Ok? ==>
              var t, t' := w.token, Step(v, w, tx).token;
              && t'.totalSupply == t.totalSupply + tx.call.amount
              && Get(t'.balances, tx.call.to) == Get(t.balances, tx.call.to) + tx.call.amount
              && (forall a: Address :: a != tx.call.to ==> Get(t'.balances, a) == Get(t.balances, a))
              && t'.allowances == t.allowances && t'.roles == t.roles
              && InToken(w, Step(v, w, tx), [Transfer(0, tx.call.to, tx.call.amount)])
  {
    if w.token.totalSupply + tx.call.amount < WORD_LIMIT {
      MintCreditFits(w.token, tx.call.to, tx.call.amount);
    }
  }

  /** An approval commits exactly when the spender is not zero, and replaces that allowance, whatever it was. */
  lemma ApproveIsExact(v: Verifier, w: World, tx: Tx)
    requires tx.call.Approve?
    ensures Execute(v, w, tx).Ok? <==> tx.call.spender != 0
    ensures Execute(v, w, tx).Err? ==> Execute(v, w, tx) == Err(ZeroAddress) && Step(v, w, tx) == w
    ensures Execute(v, w, tx).Ok? ==>
              var t, t' := w.token, Step(v, w, tx).token;
              && (forall holder: Address, spender: Address ::
                    Get(t'.allowances, (holder, spender))
                    == if holder == tx.caller && spender == tx.call.spender then tx.call.amount
                       else Get(t.allowances, (holder, spender)))
              && t'.balances == t.balances && t'.totalSupply == t.totalSupply && t'.roles == t.roles
              && InToken(w, Step(v, w, tx), [Approval(tx.caller, tx.call.spender, tx.call.amount)])
  {
  }

  /** A refused transfer, pull or mint reports the first of its conditions that fails, in the order of the code. */
  lemma TokenReverts(v: Verifier, w: World, tx: Tx)
    requires (tx.call.Send? || tx.call.SendFrom? || tx.call.Mint?) && Conserved(w.token)
    ensures var r, to, amount, until := Execute(v, w, tx), tx.call.to, tx.call.amount, w.registry.verifiedUntil;
            var from := if tx.call.SendFrom? then tx.call.from else tx.caller;
            var allowance := Get(w.token.allowances, (from, tx.caller));
            var entitled := if tx.call.SendFrom? then allowance == WORD_LIMIT - 1 || amount <= allowance
                            else tx.call.Send? || tx.caller in w.token.roles.agents;
            var sends := tx.call.Mint? || Get(until, from) > tx.now;
            && (tx.call.SendFrom? ==>
                  (r == Err(InsufficientAllowance(from, tx.caller, allowance, amount)) <==> !entitled))
            && (tx.call.Mint? ==> (r == Err(NotAgent(tx.caller)) <==> !entitled))
            && (r == Err(ZeroAddress) <==> entitled && to == 0)
            && (r == Err(SenderNotVerified(from)) <==> entitled && to != 0 && !sends)
            && (r == Err(RecipientNotVerified(to)) <==> entitled && to != 0 && sends && Get(until, to) <= tx.now)
            && (!tx.call.Mint? ==>
                  (r == Err(InsufficientBalance(from, Get(w.token.balances, from), amount))
                   <==> && entitled && to != 0 && sends && Get(until, to) > tx.now
                        && Get(w.token.balances, from) < amount))
            && (r == Err(Panic)
                <==> && tx.call.Mint? && entitled && to != 0 && Get(until, to) > tx.now
                     && w.token.totalSupply + amount >= WORD_LIMIT)
  {
    if tx.call.Mint? && w.token.totalSupply + tx.call.amount < WORD_LIMIT {
      MintCreditFits(w.token, tx.call.to, tx.call.amount);
    }
  }

  // -------------------------------------------------------------------- roles

  /** The roles of the token, or of the registry. */
  function RolesOf(w: World, onToken: bool): RoleState {
    if onToken then w.token.roles else w.registry.roles
  }

  /** The call sets an agent of that contract. */
  predicate SetsAgent(call: Call, onToken: bool) {
    if onToken then call.TokenAgent? else call.RegistryAgent?
  }

  /** The call transfers the ownership of that contract. */
  predicate SetsOwner(call: Call, onToken: bool) {
    if onToken then call.TokenOwner? else call.RegistryOwner?
  }

  /** Nothing changed but the roles of that contract and its log. */
  predicate OnlyRoles(w: World, w': World, onToken: bool, events: seq<Event>) {
    if onToken then
      && InToken(w, w', events)
      && w'.token.balances == w.token.balances && w'.token.allowances == w.token.allowances
      && w'.token.totalSupply == w.token.totalSupply
    else
      && InRegistry(w, w', events)
      && w'.registry.currentRoot == w.registry.currentRoot && w'.registry.spent == w.registry.spent
      && w'.registry.verifiedUntil == w.registry.verifiedUntil
  }

  /**
   * On either contract, setting an agent commits exactly when the caller is that
   * contract's owner and the account is not zero. The account is then an agent
   * exactly when that was asked, and nothing else changes.
   */
  lemma SetAgentIsExact(v: Verifier, w: World, tx: Tx, onToken: bool)
    requires SetsAgent(tx.call, onToken)
    ensures Execute(v, w, tx).Ok? <==> tx.caller == RolesOf(w, onToken).owner && tx.call.account != 0
    ensures Execute(v, w, tx) == Err(NotOwner(tx.caller)) <==> tx.caller != RolesOf(w, onToken).owner
    ensures Execute(v, w, tx).Err? ==> Step(v, w, tx) == w
    ensures Execute(v, w, tx).Ok? ==>
              var s, s' := RolesOf(w, onToken), RolesOf(Step(v, w, tx), onToken);
              && (tx.call.account in s'.agents <==> tx.call.enabled)
              && (forall a: Address :: a != tx.call.account ==> (a in s'.agents <==> a in s.agents))
              && s'.owner == s.owner
              && OnlyRoles(w, Step(v, w, tx), onToken, [AgentSet(tx.call.account, tx.call.enabled)])
  {
  }

  /**
   * On either contract, a transfer of ownership commits exactly when the caller is
   * that contract's owner and the new one is not zero. The new owner is then the
   * owner, and nothing else changes: it is no agent unless it was one.
   */
  lemma TransferOwnershipIsExact(v: Verifier, w: World, tx: Tx, onToken: bool)
    requires SetsOwner(tx.call, onToken)
    ensures Execute(v, w, tx).Ok? <==> tx.caller == RolesOf(w, onToken).owner && tx.call.newOwner != 0
    ensures Execute(v, w, tx) == Err(NotOwner(tx.caller)) <==> tx.caller != RolesOf(w, onToken).owner
    ensures Execute(v, w, tx).Err? ==> Step(v, w, tx) == w
    ensures Execute(v, w, tx).Ok? ==>
              var s, s' := RolesOf(w, onToken), RolesOf(Step(v, w, tx), onToken);
              && s'.owner == tx.call.newOwner && s'.agents == s.agents
              && OnlyRoles(w, Step(v, w, tx), onToken, [OwnershipTransferred(s.owner, tx.call.newOwner)])
  {
  }

  /** No other call touches the roles. */
  lemma RolesMeanwhile(v: Verifier, w: World, tx: Tx, onToken: bool)
    requires !SetsAgent(tx.call, onToken) && !SetsOwner(tx.call, onToken)
    ensures RolesOf(Step(v, w, tx), onToken) == RolesOf(w, onToken)
  {
    if tx.call.SendFrom? {
      assert Step(v, w, tx).token.roles == w.token.roles;
    }
  }

  // ---------------------------------------------------------------- over runs

  /** Every word the registry keeps of a redemption is a field element. */
  ghost predicate KeepsFieldElements(s: RegistryState) {
    && (forall n: Word :: n in s.spent ==> n < FIELD)
    && (forall a: Address :: Get(s.verifiedUntil, a) < FIELD)
  }

  lemma StepKeepsFieldElements(v: Verifier, w: World, tx: Tx)
    requires KeepsFieldElements(w.registry)
    ensures KeepsFieldElements(Step(v, w, tx).registry)
  {
    if tx.call.RedeemProof? {
      RedeemIsExact(v, w, tx);
    } else if tx.call.Revoke? {
      RevokeIsExact(v, w, tx);
    }
  }

  /**
   * In every run from deployment, each redemption carried four field elements, so
   * every spent nullifier is one and no verification outlasts the field.
   */
  lemma {:induction false} RedemptionsAreInField(v: Verifier, registryOwner: Caller, tokenOwner: Caller, root: Word,
                                                 txs: seq<Tx>)
    ensures var g := Genesis(registryOwner, tokenOwner, root);
            && (forall r :: r in History(v, g, txs) ==> SignalsInField(FIELD, Public(r.sig)))
            && KeepsFieldElements(Run(v, g, txs).registry)
    decreases |txs|
  {
    if |txs| == 0 {
    } else {
      var g, n := Genesis(registryOwner, tokenOwner, root), |txs| - 1;
      var w := Run(v, g, txs[..n]);
      RedemptionsAreInField(v, registryOwner, tokenOwner, root, txs[..n]);
      StepKeepsFieldElements(v, w, txs[n]);
      if txs[n].call.RedeemProof? {
        RedeemIsExact(v, w, txs[n]);
      }
    }
  }

  /** The last committed setting of the account as an agent of that contract over a run, if there was one. */
  function LastSetting(v: Verifier, w: World, txs: seq<Tx>, onToken: bool, a: Address): Option<bool> {
    if |txs| == 0 then None else
      var n := |txs| - 1;
      var tx := txs[n];
      if SetsAgent(tx.call, onToken) && tx.call.account == a && Execute(v, Run(v, w, txs[..n]), tx).Ok?
      then Some(tx.call.enabled)
      else LastSetting(v, w, txs[..n], onToken, a)
  }

  /** The owner named by the last committed transfer of that contract's ownership over a run, if there was one. */
  function LastOwner(v: Verifier, w: World, txs: seq<Tx>, onToken: bool): Option<Address> {
    if |txs| == 0 then None else
      var n := |txs| - 1;
      var tx := txs[n];
      if SetsOwner(tx.call, onToken) && Execute(v, Run(v, w, txs[..n]), tx).Ok?
      then Some(tx.call.newOwner)
      else LastOwner(v, w, txs[..n], onToken)
  }

  /**
   * Over any run from deployment, on either contract, an account is an agent
   * exactly when the last committed setting of it said so, or there was none and it
   * deployed the contract; and the owner is the last one named by a committed
   * transfer of ownership, or the deployer.
   */
  lemma {:induction false} RolesAreAsCalled(v: Verifier, registryOwner: Caller, tokenOwner: Caller, root: Word,
                                            txs: seq<Tx>, onToken: bool, a: Address)
    ensures var g := Genesis(registryOwner, tokenOwner, root);
            var s := RolesOf(Run(v, g, txs), onToken);
            var deployer := if onToken then tokenOwner else registryOwner;
            && (a in s.agents <==>
                  match LastSetting(v, g, txs, onToken, a) case Some(on) => on case None => a == deployer)
            && (s.owner == match LastOwner(v, g, txs, onToken) case Some(owner) => owner case None => deployer)
    decreases |txs|
  {
    if |txs| == 0 {
    } else {
      var g, n := Genesis(registryOwner, tokenOwner, root), |txs| - 1;
      var w, tx := Run(v, g, txs[..n]), txs[n];
      RolesAreAsCalled(v, registryOwner, tokenOwner, root, txs[..n], onToken, a);
      if SetsAgent(tx.call, onToken) {
        SetAgentIsExact(v, w, tx, onToken);
      } else if SetsOwner(tx.call, onToken) {
        TransferOwnershipIsExact(v, w, tx, onToken);
      } else {
        RolesMeanwhile(v, w, tx, onToken);
      }
    }
  }

  /**
   * In every state reachable from deployment, a mint commits exactly when the
   * caller is an agent, the recipient is not zero and its expiry lies ahead, and
   * the new supply fits a word.
   */
  lemma MintInReach(v: Verifier, registryOwner: Caller, tokenOwner: Caller, root: Word, txs: seq<Tx>, tx: Tx)
    requires tx.call.Mint?
    ensures var w := Run(v, Genesis(registryOwner, tokenOwner, root), txs);
            Execute(v, w, tx).Ok?
            <==> && tx.caller in w.token.roles.agents
                 && tx.call.to != 0 && Get(w.registry.verifiedUntil, tx.call.to) > tx.now
                 && w.token.totalSupply + tx.call.amount < WORD_LIMIT
  {
    var g := Genesis(registryOwner, tokenOwner, root);
    GenesisConserved(registryOwner, tokenOwner, root);
    SupplyIsConserved(v, g, txs);
    MintIsExact(v, Run(v, g, txs), tx);
  }
}
