/** Balances move only under a live verification, and stay frozen without one. */
module Compliance {
  import opened Roles
  import opened Registry
  import opened Token
  import opened Ledger
  import opened Replay

  /** A transaction that changes a balance finds its account verified. */
  lemma OnlyVerifiedMove(v: Verifier, w: World, tx: Tx, a: Address)
    requires Get(Step(v, w, tx).token.balances, a) != Get(w.token.balances, a)
    ensures IsVerified(w.registry, a, tx.now)
  {
    match tx.call {
      case SendFrom(from, to, amount) =>
        var spent := SpendSpec(w.token, from, tx.caller, amount).value;
        assert spent.balances == w.token.balances;
      case _ =>
    }
  }

  /** The event redeems for the account or revokes it. */
  predicate Touches(e: Event, a: Address) {
    (e.ProofRedeemed? && e.holder == a) || (e.VerificationRevoked? && e.account == a)
  }

  /** The event at i redeemed a proof for a, and nothing after it redeems or revokes a. */
  ghost predicate LastGrant(log: seq<Event>, a: Address, i: nat) {
    && i < |log| && log[i].ProofRedeemed? && log[i].holder == a
    && forall j :: i < j < |log| ==> !Touches(log[j], a)
  }

  /** A live verification goes back to one redemption that nothing has replaced or revoked. */
  lemma {:induction false} UntilHasGrant(log: seq<Event>, a: Address) returns (i: nat)
    requires UntilIn(log, a) > 0
    ensures LastGrant(log, a, i) && log[i].expiry == UntilIn(log, a)
    decreases |log|
  {
    if Newest(log).ProofRedeemed? && Newest(log).holder == a {
      i := |log| - 1;
    } else {
      i := UntilHasGrant(Front(log), a);
    }
  }

  /**
   * Over any run from deployment, a transaction that changes an account's balance
   * comes after a redemption by that account which expires strictly later than the
   * transaction and which no later redemption or revocation has replaced.
   */
  lemma BalanceChangeIsCompliant(v: Verifier, registryOwner: Caller, tokenOwner: Caller, root: Word,
                                 txs: seq<Tx>, tx: Tx, a: Address) returns (i: nat)
    requires var w := Run(v, Genesis(registryOwner, tokenOwner, root), txs);
             Get(Step(v, w, tx).token.balances, a) != Get(w.token.balances, a)
    ensures var log := Run(v, Genesis(registryOwner, tokenOwner, root), txs).registryLog;
            LastGrant(log, a, i) && log[i].expiry > tx.now
  {
    var w := Run(v, Genesis(registryOwner, tokenOwner, root), txs);
    LogsReplay(v, registryOwner, tokenOwner, root, txs);
    OnlyVerifiedMove(v, w, tx, a);
    i := UntilHasGrant(w.registryLog, a);
  }

  /** The account is verified at the time or holds nothing. */
  predicate HoldsOnlyVerified(w: World, a: Address, t: Word) {
    IsVerified(w.registry, a, t) || Get(w.token.balances, a) == 0
  }

  /** An agent revokes an account that holds something. */
  predicate RevokesHolder(w: World, tx: Tx, a: Address) {
    tx.call == Revoke(a) && tx.caller in w.registry.roles.agents && Get(w.token.balances, a) > 0
  }

  /**
   * A transaction takes an account out of "verified or holding nothing" exactly
   * when it is an agent's revocation of an account that holds something.
   */
  lemma OnlyRevokingBreaksHolding(v: Verifier, w: World, tx: Tx, a: Address)
    requires HoldsOnlyVerified(w, a, tx.now)
    ensures !HoldsOnlyVerified(Step(v, w, tx), a, tx.now) <==> RevokesHolder(w, tx, a)
  {
    var after := Step(v, w, tx);
    if Get(after.token.balances, a) != Get(w.token.balances, a) {
      OnlyVerifiedMove(v, w, tx, a);
      assert after.registry == w.registry;
    }
  }

  /** Time takes an account out of it exactly by passing the expiry of an account that holds something. */
  lemma OnlyExpiryBreaksHolding(w: World, a: Address, t: Word, later: Word)
    requires t <= later && HoldsOnlyVerified(w, a, t)
    ensures !HoldsOnlyVerified(w, a, later)
            <==> Get(w.token.balances, a) > 0 && t < Get(w.registry.verifiedUntil, a) <= later
  {
  }

  /** Between transaction k - 1 and transaction k, the expiry of an account that holds something passes. */
  predicate LapsesBefore(v: Verifier, w: World, txs: seq<Tx>, a: Address, k: nat)
    requires k < |txs|
  {
    var mid := Run(v, w, txs[..k]);
    k > 0 && Get(mid.token.balances, a) > 0 && txs[k - 1].now < Get(mid.registry.verifiedUntil, a) <= txs[k].now
  }

  /** The account is verified or holds nothing just before and just after transaction k. */
  predicate HoldsAround(v: Verifier, w: World, txs: seq<Tx>, a: Address, k: nat)
    requires k < |txs|
  {
    && HoldsOnlyVerified(Run(v, w, txs[..k]), a, txs[k].now)
    && HoldsOnlyVerified(Run(v, w, txs[..k + 1]), a, txs[k].now)
  }

  /** At transaction k neither an expiry nor a revocation hits the account while it holds something. */
  predicate Undisturbed(v: Verifier, w: World, txs: seq<Tx>, a: Address, k: nat)
    requires k < |txs|
  {
    !LapsesBefore(v, w, txs, a, k) && !RevokesHolder(Run(v, w, txs[..k]), txs[k], a)
  }

  lemma HoldsAroundStep(v: Verifier, w: World, txs: seq<Tx>, a: Address, k: nat)
    requires k < |txs| && Get(w.token.balances, a) == 0
    requires k > 0 ==> txs[k - 1].now <= txs[k].now && HoldsAround(v, w, txs, a, k - 1)
    ensures HoldsAround(v, w, txs, a, k) <==> Undisturbed(v, w, txs, a, k)
  {
    var mid := Run(v, w, txs[..k]);
    assert txs[..k + 1] == txs[..k] + [txs[k]];
    RunStep(v, w, txs[..k], txs[k]);
    if k > 0 {
      OnlyExpiryBreaksHolding(mid, a, txs[k - 1].now, txs[k].now);
    }
    if HoldsOnlyVerified(mid, a, txs[k].now) {
      OnlyRevokingBreaksHolding(v, mid, txs[k], a);
    }
  }

  /**
   * As time goes on from a world in which the account holds nothing, it is
   * verified or holds nothing around every transaction exactly when time never
   * passes its expiry while it holds something and no agent revokes it while it
   * does.
   */
  lemma {:induction false} HoldingIsKept(v: Verifier, w: World, txs: seq<Tx>, a: Address, n: nat)
    requires n <= |txs| && Get(w.token.balances, a) == 0
    requires forall j, k :: 0 <= j <= k < |txs| ==> txs[j].now <= txs[k].now
    ensures (forall k: nat :: k < n ==> HoldsAround(v, w, txs, a, k))
            <==> (forall k: nat :: k < n ==> Undisturbed(v, w, txs, a, k))
  {
    if n == 0 {
    } else {
      HoldingIsKept(v, w, txs, a, n - 1);
      if forall k: nat :: k < n - 1 ==> HoldsAround(v, w, txs, a, k) {
        HoldsAroundStep(v, w, txs, a, n - 1);
      }
    }
  }

  /** Over any stretch in which the account is unverified at each step, its balance is constant. */
  lemma {:induction false} FrozenWhileUnverified(v: Verifier, w: World, txs: seq<Tx>, a: Address)
    requires forall k :: 0 <= k < |txs| ==> !IsVerified(Run(v, w, txs[..k]).registry, a, txs[k].now)
    ensures Get(Run(v, w, txs).token.balances, a) == Get(w.token.balances, a)
    decreases |txs|
  {
    if |txs| == 0 {
    } else {
      var n := |txs| - 1;
      forall k | 0 <= k < n
        ensures !IsVerified(Run(v, w, txs[..n][..k]).registry, a, txs[..n][k].now)
      {
        assert txs[..n][..k] == txs[..k];
      }
      FrozenWhileUnverified(v, w, txs[..n], a);
      if Get(Step(v, Run(v, w, txs[..n]), txs[n]).token.balances, a) != Get(Run(v, w, txs[..n]).token.balances, a) {
        OnlyVerifiedMove(v, Run(v, w, txs[..n]), txs[n], a);
      }
    }
  }

  /** Block times never decrease, starting from t. */
  ghost predicate TimesAscend(t: Word, txs: seq<Tx>) {
    && (forall k :: 0 <= k < |txs| ==> t <= txs[k].now)
    && (forall j, k :: 0 <= j <= k < |txs| ==> txs[j].now <= txs[k].now)
  }

  /** Only a redemption by the account itself can raise its verification. */
  lemma OnlyRedeemingVerifies(v: Verifier, w: World, tx: Tx, a: Address)
    requires !(tx.call.RedeemProof? && tx.caller == a)
    ensures Get(Step(v, w, tx).registry.verifiedUntil, a) <= Get(w.registry.verifiedUntil, a)
  {
  }

  /**
   * Once a verification has lapsed or been revoked, as time goes on the account
   * stays unverified and its balance stays as it was, until the account itself
   * redeems again, whatever anyone else does.
   */
  lemma {:induction false} LapseFreezes(v: Verifier, w: World, t: Word, txs: seq<Tx>, a: Address)
    requires !IsVerified(w.registry, a, t) && TimesAscend(t, txs)
    requires forall tx :: tx in txs ==> !(tx.call.RedeemProof? && tx.caller == a)
    ensures Get(Run(v, w, txs).registry.verifiedUntil, a) <= t
    ensures Get(Run(v, w, txs).token.balances, a) == Get(w.token.balances, a)
    decreases |txs|
  {
    if |txs| == 0 {
    } else {
      var n := |txs| - 1;
      LapseFreezes(v, w, t, txs[..n], a);
      var mid := Run(v, w, txs[..n]);
      OnlyRedeemingVerifies(v, mid, txs[n], a);
      if Get(Step(v, mid, txs[n]).token.balances, a) != Get(mid.token.balances, a) {
        OnlyVerifiedMove(v, mid, txs[n], a);
        assert false;
      }
    }
  }
}
