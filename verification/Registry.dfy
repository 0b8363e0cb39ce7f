/** The compliance registry: the published root, spent nullifiers, and verifications that lapse. */
module Registry {
  import opened Prelude
  import opened Hashing
  import opened Circuit
  import opened Issuer
  import opened Roles

  /** The public signals as the contract receives them, four 256-bit words. */
  datatype PubSignals = PubSignals(nullifier: Word, root: Word, holderAddr: Word, expiry: Word)

  /** The three proof points, coordinate by coordinate. */
  datatype Proof = Proof(
    a0: Word, a1: Word, b00: Word, b01: Word, b10: Word, b11: Word, c0: Word, c1: Word)

  /** The pairing check, and the witness that is attributed to the prover of a proof. */
  datatype Verifier = Verifier(pairing: (Proof, PubSignals) -> bool, extract: (Proof, PubSignals) -> Witness)

  function Public(s: PubSignals): Signals {
    Signals(s.nullifier, s.root, s.holderAddr, s.expiry)
  }

  /** Signals not below the field order are refused before the pairing check. */
  predicate VerifyProof(v: Verifier, proof: Proof, s: PubSignals) {
    && s.nullifier < FIELD && s.root < FIELD && s.holderAddr < FIELD && s.expiry < FIELD
    && v.pairing(proof, s)
  }

  const DEPTH := 16

  /** The witness satisfies every KYCPass constraint, with some intermediate signals. */
  ghost predicate Satisfied(h: Hasher, s: Signals, w: Witness) {
    exists x :: ConstraintsHold(h, FIELD, DEPTH, s, w, x)
  }

  function Get<K>(m: map<K, Word>, k: K): Word {
    if k in m then m[k] else 0
  }

  datatype RegistryState = RegistryState(
    roles: RoleState, currentRoot: Word, spent: set<Word>, verifiedUntil: map<Address, Word>)

  predicate IsVerified(s: RegistryState, account: Address, now: Word) {
    Get(s.verifiedUntil, account) > now
  }

  function RedeemSpec(v: Verifier, s: RegistryState, caller: Caller, now: Word, proof: Proof, sig: PubSignals)
      : Result<Effect<RegistryState>, Revert>
  {
    if sig.root != s.currentRoot then Err(RootMismatch(sig.root, s.currentRoot))
    else if sig.holderAddr != caller then Err(AddressMismatch(caller))
    else if sig.expiry <= now then Err(CredentialExpired(sig.expiry))
    else if sig.nullifier in s.spent then Err(NullifierAlreadySpent(sig.nullifier))
    else if !VerifyProof(v, proof, sig) then Err(InvalidProof)
    else Ok(Effect(s.(spent := s.spent + {sig.nullifier}, verifiedUntil := s.verifiedUntil[caller := sig.expiry]),
                   [ProofRedeemed(caller, sig.nullifier, sig.expiry)]))
  }

  function SetRootSpec(s: RegistryState, caller: Caller, newRoot: Word): Result<Effect<RegistryState>, Revert> {
    if caller != s.roles.owner then Err(NotOwner(caller))
    else Ok(Effect(s.(currentRoot := newRoot), [RootUpdated(newRoot)]))
  }

  function RevokeSpec(s: RegistryState, caller: Caller, account: Address): Result<Effect<RegistryState>, Revert> {
    if caller !in s.roles.agents then Err(NotAgent(caller))
    else Ok(Effect(s.(verifiedUntil := s.verifiedUntil[account := 0]), [VerificationRevoked(account)]))
  }

  class ComplianceRegistry {
    const roles: Authority
    const verifier: Verifier
    var currentRoot: Word
    var spent: set<Word>
    var verifiedUntil: map<Address, Word>

    ghost function State(): RegistryState
      reads this, roles
    {
      RegistryState(roles.State(), currentRoot, spent, verifiedUntil)
    }

    constructor (roles: Authority, verifier: Verifier, initialRoot: Word)
      modifies roles
      ensures this.roles == roles && this.verifier == verifier
      ensures State() == RegistryState(old(roles.State()), initialRoot, {}, map[])
      ensures roles.log == old(roles.log) + [RootUpdated(initialRoot)]
    {
      this.roles := roles;
      this.verifier := verifier;
      currentRoot := initialRoot;
      spent := {};
      verifiedUntil := map[];
      new;
      roles.log := roles.log + [RootUpdated(initialRoot)];
    }

    /** Deployment refuses a zero owner, then a zero verifier address. */
    static method Deploy(verifierAddr: Address, verifier: Verifier, initialRoot: Word, initialOwner: Address)
        returns (r: Result<ComplianceRegistry, Revert>)
      ensures initialOwner == 0 || verifierAddr == 0 ==> r == Err(ZeroAddress)
      ensures initialOwner != 0 && verifierAddr != 0 ==>
                && r.Ok? && fresh(r.value) && fresh(r.value.roles) && r.value.verifier == verifier
                && r.value.State() == RegistryState(RoleState(initialOwner, {initialOwner}), initialRoot, {}, map[])
                && r.value.roles.log
                   == [OwnershipTransferred(0, initialOwner), AgentSet(initialOwner, true), RootUpdated(initialRoot)]
    {
      var roles := Authority.Deploy(initialOwner);
      if roles.Err? {
        return Err(roles.error);
      }
      if verifierAddr == 0 {
        return Err(ZeroAddress);
      }
      var registry := new ComplianceRegistry(roles.value, verifier, initialRoot);
      return Ok(registry);
    }

    method RedeemProof(caller: Caller, now: Word, proof: Proof, sig: PubSignals) returns (r: Result<(), Revert>)
      modifies this, roles
      ensures Commits(RedeemSpec(verifier, old(State()), caller, now, proof, sig),
                      old(State()), old(roles.log), State(), roles.log, r)
    {
      if sig.root != currentRoot {
        return Err(RootMismatch(sig.root, currentRoot));
      }
      if sig.holderAddr != caller {
        return Err(AddressMismatch(caller));
      }
      if sig.expiry <= now {
        return Err(CredentialExpired(sig.expiry));
      }
      if sig.nullifier in spent {
        return Err(NullifierAlreadySpent(sig.nullifier));
      }
      if !VerifyProof(verifier, proof, sig) {
        return Err(InvalidProof);
      }
      spent := spent + {sig.nullifier};
      verifiedUntil := verifiedUntil[caller := sig.expiry];
      roles.log := roles.log + [ProofRedeemed(caller, sig.nullifier, sig.expiry)];
      return Ok(());
    }

    method SetRoot(caller: Caller, newRoot: Word) returns (r: Result<(), Revert>)
      modifies this, roles
      ensures Commits(SetRootSpec(old(State()), caller, newRoot), old(State()), old(roles.log), State(), roles.log, r)
    {
      if caller != roles.owner {
        return Err(NotOwner(caller));
      }
      currentRoot := newRoot;
      roles.log := roles.log + [RootUpdated(newRoot)];
      return Ok(());
    }

    method Revoke(caller: Caller, account: Address) returns (r: Result<(), Revert>)
      modifies this, roles
      ensures Commits(RevokeSpec(old(State()), caller, account), old(State()), old(roles.log), State(), roles.log, r)
    {
      if caller !in roles.agents {
        return Err(NotAgent(caller));
      }
      verifiedUntil := verifiedUntil[account := 0];
      roles.log := roles.log + [VerificationRevoked(account)];
      return Ok(());
    }

    method Verified(account: Address, now: Word) returns (verified: bool)
      ensures verified <==> IsVerified(State(), account, now)
    {
      return Get(verifiedUntil, account) > now;
    }
  }
}
