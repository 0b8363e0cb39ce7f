/**
 * Concrete runs that mark where the repository's prose promises more than its
 * code keeps. The verifier is any verifier, and the run starts from any proof of
 * Alice's that it accepts.
 */
module Examples {
  import opened Roles
  import opened Registry
  import opened Ledger

  const ALICE: Caller := 1

  const BOB: Caller := 2

  /** An accepted proof of Alice's, with an expiry after time 0. */
  predicate Usable(v: Verifier, proof: Proof, sig: PubSignals) {
    VerifyProof(v, proof, sig) && sig.holderAddr == ALICE && sig.expiry > 0
  }

  /** Alice deploys both contracts with the proof's root, verifies herself and mints herself 5. */
  function Start(sig: PubSignals): World {
    Genesis(ALICE, ALICE, sig.root)
  }

  function Redeem(proof: Proof, sig: PubSignals): Tx {
    Tx(ALICE, 0, RedeemProof(proof, sig))
  }

  function Funding(proof: Proof, sig: PubSignals): seq<Tx> {
    [Redeem(proof, sig)] + [Tx(ALICE, 0, Mint(ALICE, 5))]
  }

  function Funded(v: Verifier, proof: Proof, sig: PubSignals): World {
    Step(v, Step(v, Start(sig), Redeem(proof, sig)), Tx(ALICE, 0, Mint(ALICE, 5)))
  }

  lemma FundedRuns(v: Verifier, proof: Proof, sig: PubSignals)
    ensures Run(v, Start(sig), Funding(proof, sig)) == Funded(v, proof, sig)
  {
    var redeem := Redeem(proof, sig);
    assert [] + [redeem] == [redeem];
    RunStep(v, Start(sig), [], redeem);
    RunStep(v, Start(sig), [redeem], Tx(ALICE, 0, Mint(ALICE, 5)));
  }

  lemma FundedHolds(v: Verifier, proof: Proof, sig: PubSignals)
    requires Usable(v, proof, sig)
    ensures var w := Funded(v, proof, sig);
            && Get(w.registry.verifiedUntil, ALICE) == sig.expiry
            && w.registry.roles == RoleState(ALICE, {ALICE})
            && Get(w.token.balances, ALICE) == 5 && w.token.allowances == map[]
  {
    var verified := Step(v, Start(sig), Redeem(proof, sig));
    assert Get(verified.registry.verifiedUntil, ALICE) == sig.expiry;
    assert verified.token == Start(sig).token;
  }

  /** An account that is not verified can hold a balance: revocation freezes, it does not confiscate. */
  lemma UnverifiedMayHold(v: Verifier, proof: Proof, sig: PubSignals)
    requires Usable(v, proof, sig)
    ensures var w := Run(v, Start(sig), Funding(proof, sig) + [Tx(ALICE, 0, Revoke(ALICE))]);
            !IsVerified(w.registry, ALICE, 0) && Get(w.token.balances, ALICE) == 5
  {
    FundedRuns(v, proof, sig);
    FundedHolds(v, proof, sig);
    RunStep(v, Start(sig), Funding(proof, sig), Tx(ALICE, 0, Revoke(ALICE)));
  }

  /** A self-transfer by the holder, and the same one by the spender, seen from the state both start in. */
  lemma SameEvent(v: Verifier, w: World)
    requires Get(w.registry.verifiedUntil, ALICE) > 0 && Get(w.token.balances, ALICE) == 5
    requires w.token.allowances == map[(ALICE, BOB) := 5]
    ensures var own := Step(v, w, Tx(ALICE, 0, Send(ALICE, 5)));
            var pulled := Step(v, w, Tx(BOB, 0, SendFrom(ALICE, ALICE, 5)));
            && own.registryLog == pulled.registryLog && own.tokenLog == pulled.tokenLog
            && Get(own.token.allowances, (ALICE, BOB)) == 5 && Get(pulled.token.allowances, (ALICE, BOB)) == 0
  {
  }

  /** Allowances are not a function of the logs: a spend by allowance logs only the Transfer. */
  lemma AllowancesAreNotLogged(v: Verifier, proof: Proof, sig: PubSignals)
    requires Usable(v, proof, sig)
    ensures var approved := Funding(proof, sig) + [Tx(ALICE, 0, Approve(BOB, 5))];
            var own := Run(v, Start(sig), approved + [Tx(ALICE, 0, Send(ALICE, 5))]);
            var pulled := Run(v, Start(sig), approved + [Tx(BOB, 0, SendFrom(ALICE, ALICE, 5))]);
            && own.registryLog == pulled.registryLog && own.tokenLog == pulled.tokenLog
            && Get(own.token.allowances, (ALICE, BOB)) == 5 && Get(pulled.token.allowances, (ALICE, BOB)) == 0
  {
    var approve := Tx(ALICE, 0, Approve(BOB, 5));
    FundedRuns(v, proof, sig);
    FundedHolds(v, proof, sig);
    RunStep(v, Start(sig), Funding(proof, sig), approve);
    SameEvent(v, Step(v, Funded(v, proof, sig), approve));
    RunStep(v, Start(sig), Funding(proof, sig) + [approve], Tx(ALICE, 0, Send(ALICE, 5)));
    RunStep(v, Start(sig), Funding(proof, sig) + [approve], Tx(BOB, 0, SendFrom(ALICE, ALICE, 5)));
  }
}
