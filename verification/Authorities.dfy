/** Who can change what: every change of storage traces back to its caller's right to make it. */
module Authorities {
  import opened Roles
  import opened Registry
  import opened Token
  import opened Ledger
  import opened Conservation

  // ------------------------------------------------------------ the registry

  /** The account itself submits an accepted proof, bound to it and to the current root, of this expiry. */
  predicate ProvesExpiry(v: Verifier, s: RegistryState, tx: Tx, a: Address, expiry: Word) {
    && tx.caller == a && tx.call.RedeemProof?
    && VerifyProof(v, tx.call.proof, tx.call.sig)
    && tx.call.sig.root == s.currentRoot && tx.call.sig.holderAddr == a && tx.call.sig.expiry == expiry > tx.now
  }

  /**
   * Roles and the root change at the owner's call. An expiry is raised only by the
   * account's own accepted proof, to the expiry proved, and lowered only by the
   * account itself or an agent. A nullifier is spent only by an accepted proof of
   * it, and none is ever released.
   */
  ghost predicate RegistryAuthorised(v: Verifier, s: RegistryState, s': RegistryState, tx: Tx) {
    && (s'.roles != s.roles ==> tx.caller == s.roles.owner)
    && (s'.currentRoot != s.currentRoot ==> tx.caller == s.roles.owner)
    && (forall a: Address :: Get(s'.verifiedUntil, a) > Get(s.verifiedUntil, a) ==>
          ProvesExpiry(v, s, tx, a, Get(s'.verifiedUntil, a)))
    && (forall a: Address :: Get(s'.verifiedUntil, a) < Get(s.verifiedUntil, a) ==>
          tx.caller in s.roles.agents || ProvesExpiry(v, s, tx, a, Get(s'.verifiedUntil, a)))
    && (forall n: Word :: n in s.spent ==> n in s'.spent)
    && (forall n: Word :: n in s'.spent && n !in s.spent ==>
          tx.call.RedeemProof? && tx.call.sig.nullifier == n && VerifyProof(v, tx.call.proof, tx.call.sig))
  }

  lemma RegistryStepAuthorised(v: Verifier, w: World, tx: Tx)
    ensures RegistryAuthorised(v, w.registry, Step(v, w, tx).registry, tx)
  {
    if tx.call.SendFrom? {
      assert Step(v, w, tx).registry == w.registry;
    }
  }

  // --------------------------------------------------------------- the token

  /** The holder moves its own tokens, or a spender moves them within the allowance left to it. */
  predicate MayDebit(w: World, tx: Tx, a: Address, amount: int) {
    || (tx.call.Send? && tx.caller == a && tx.call.amount == amount)
    || (tx.call.SendFrom? && tx.call.from == a && tx.call.amount == amount
        && (Get(w.token.allowances, (a, tx.caller)) == MAX_WORD || Get(w.token.allowances, (a, tx.caller)) >= amount))
  }

  /** An agent mints to the account, or someone's debit of the same amount is paid to it. */
  predicate MayCredit(w: World, tx: Tx, a: Address, amount: int) {
    || (tx.call.Mint? && tx.call.to == a && tx.call.amount == amount && tx.caller in w.token.roles.agents)
    || (tx.call.Send? && tx.call.to == a && MayDebit(w, tx, tx.caller, amount))
    || (tx.call.SendFrom? && tx.call.to == a && MayDebit(w, tx, tx.call.from, amount))
  }

  /** The holder approves the spender, or the spender draws on the holder. */
  predicate MayChangeAllowance(tx: Tx, holder: Address, spender: Address) {
    || (tx.call.Approve? && tx.caller == holder && tx.call.spender == spender)
    || (tx.call.SendFrom? && tx.caller == spender && tx.call.from == holder)
  }

  /** Every change of the token's storage is one its caller had the right to make. */
  ghost predicate TokenAuthorised(w: World, t': TokenState, tx: Tx) {
    var t := w.token;
    && (t'.roles != t.roles ==> tx.caller == t.roles.owner)
    && (t'.totalSupply != t.totalSupply ==>
          tx.call.Mint? && tx.caller in t.roles.agents && t'.totalSupply == t.totalSupply + tx.call.amount)
    && (forall a: Address :: Get(t'.balances, a) < Get(t.balances, a) ==>
          MayDebit(w, tx, a, Get(t.balances, a) - Get(t'.balances, a)))
    && (forall a: Address :: Get(t'.balances, a) > Get(t.balances, a) ==>
          MayCredit(w, tx, a, Get(t'.balances, a) - Get(t.balances, a)))
    && (forall holder: Address, spender: Address ::
          Get(t'.allowances, (holder, spender)) != Get(t.allowances, (holder, spender)) ==>
          MayChangeAllowance(tx, holder, spender))
  }

  lemma MoveAuthorised(w: World, tx: Tx)
    requires Conserved(w.token) && tx.call.Send?
    requires MoveSpec(w.registry, w.token, tx.now, tx.caller, tx.call.to, tx.call.amount).Ok?
    ensures var t' := MoveSpec(w.registry, w.token, tx.now, tx.caller, tx.call.to, tx.call.amount).value.state;
            TokenAuthorised(w, t', tx)
  {
    MoveIsExact(w.token.balances, tx.caller, tx.call.to, tx.call.amount);
  }

  lemma PullAuthorised(w: World, tx: Tx)
    requires Conserved(w.token) && tx.call.SendFrom?
    requires TransferFromSpec(w.registry, w.token, tx.caller, tx.now, tx.call.from, tx.call.to, tx.call.amount).Ok?
    ensures var t' := TransferFromSpec(w.registry, w.token, tx.caller, tx.now,
                                       tx.call.from, tx.call.to, tx.call.amount).value.state;
            TokenAuthorised(w, t', tx)
  {
    SpendKeepsBalances(w.token, tx.call.from, tx.caller, tx.call.amount);
    MoveIsExact(w.token.balances, tx.call.from, tx.call.to, tx.call.amount);
  }

  lemma MintAuthorised(w: World, tx: Tx)
    requires tx.call.Mint?
    requires MintSpec(w.registry, w.token, tx.caller, tx.now, tx.call.to, tx.call.amount).Ok?
    ensures var t' := MintSpec(w.registry, w.token, tx.caller, tx.now, tx.call.to, tx.call.amount).value.state;
            TokenAuthorised(w, t', tx)
  {
  }

  lemma ApproveAuthorised(w: World, tx: Tx)
    requires tx.call.Approve? && ApproveSpec(w.token, tx.caller, tx.call.spender, tx.call.amount).Ok?
    ensures var t' := ApproveSpec(w.token, tx.caller, tx.call.spender, tx.call.amount).value.state;
            TokenAuthorised(w, t', tx)
  {
  }

  lemma TokenStepAuthorised(v: Verifier, w: World, tx: Tx)
    requires Conserved(w.token)
    ensures TokenAuthorised(w, Step(v, w, tx).token, tx)
  {
    if Execute(v, w, tx).Ok? {
      match tx.call {
        case Send(_, _) => MoveAuthorised(w, tx);
        case SendFrom(_, _, _) => PullAuthorised(w, tx);
        case Mint(_, _) => MintAuthorised(w, tx);
        case Approve(_, _) => ApproveAuthorised(w, tx);
        case _ =>
      }
    }
  }

  // ------------------------------------------------------------- over runs

  ghost predicate RolesAreReal(s: RoleState) {
    s.owner != 0 && 0 !in s.agents
  }

  lemma StepKeepsRolesReal(v: Verifier, w: World, tx: Tx)
    requires RolesAreReal(w.registry.roles) && RolesAreReal(w.token.roles)
    ensures RolesAreReal(Step(v, w, tx).registry.roles) && RolesAreReal(Step(v, w, tx).token.roles)
  {
    if tx.call.SendFrom? {
      assert Step(v, w, tx).token.roles == w.token.roles;
    }
  }

  lemma {:induction false} RolesStayReal(v: Verifier, registryOwner: Caller, tokenOwner: Caller, root: Word,
                                         txs: seq<Tx>)
    ensures var w := Run(v, Genesis(registryOwner, tokenOwner, root), txs);
            RolesAreReal(w.registry.roles) && RolesAreReal(w.token.roles)
    decreases |txs|
  {
    if |txs| == 0 {
    } else {
      var n := |txs| - 1;
      RolesStayReal(v, registryOwner, tokenOwner, root, txs[..n]);
      StepKeepsRolesReal(v, Run(v, Genesis(registryOwner, tokenOwner, root), txs[..n]), txs[n]);
    }
  }

  /**
   * Over any run from deployment, neither contract ever has the zero address as
   * owner or agent, and every step is authorised.
   */
  lemma ChangesAreAuthorised(v: Verifier, registryOwner: Caller, tokenOwner: Caller, root: Word, txs: seq<Tx>, tx: Tx)
    ensures var w := Run(v, Genesis(registryOwner, tokenOwner, root), txs);
            && RolesAreReal(w.registry.roles) && RolesAreReal(w.token.roles)
            && RegistryAuthorised(v, w.registry, Step(v, w, tx).registry, tx)
            && TokenAuthorised(w, Step(v, w, tx).token, tx)
  {
    var g := Genesis(registryOwner, tokenOwner, root);
    GenesisConserved(registryOwner, tokenOwner, root);
    SupplyIsConserved(v, g, txs);
    RolesStayReal(v, registryOwner, tokenOwner, root, txs);
    RegistryStepAuthorised(v, Run(v, g, txs), tx);
    TokenStepAuthorised(v, Run(v, g, txs), tx);
  }
}
