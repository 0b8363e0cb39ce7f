/** Single spend: which redemptions a run can contain, and what each one proves. */
module Redemptions {
  import opened Prelude
  import opened Hashing
  import opened Circuit
  import opened Issuer
  import opened Roles
  import opened Registry
  import opened Ledger
  import opened Compliance

  /** A committed redemption, with the root that was current when it committed. */
  datatype Redemption = Redemption(holder: Address, now: Word, current: Word, proof: Proof, sig: PubSignals)

  /** The redemption a transaction adds to the history, if it commits one. */
  function Redeemed(v: Verifier, w: World, tx: Tx): seq<Redemption> {
    if tx.call.RedeemProof? && Execute(v, w, tx).Ok?
    then [Redemption(tx.caller, tx.now, w.registry.currentRoot, tx.call.proof, tx.call.sig)] else []
  }

  /** The redemptions a run committed, in order. */
  function History(v: Verifier, w: World, txs: seq<Tx>): seq<Redemption> {
    if |txs| == 0 then [] else
      var n := |txs| - 1;
      History(v, w, txs[..n]) + Redeemed(v, Run(v, w, txs[..n]), txs[n])
  }

  /** The roots that were current at some point of a run. */
  function Published(v: Verifier, w: World, txs: seq<Tx>): set<Word> {
    if |txs| == 0 then {w.registry.currentRoot}
    else Published(v, w, txs[..|txs| - 1]) + {Run(v, w, txs).registry.currentRoot}
  }

  /** The checks a committed redemption passed. */
  ghost predicate WasChecked(v: Verifier, roots: set<Word>, r: Redemption) {
    && VerifyProof(v, r.proof, r.sig)
    && r.sig.root == r.current && r.current in roots && r.sig.holderAddr == r.holder && r.sig.expiry > r.now
  }

  /** Every spent nullifier was spent by some redemption. */
  ghost predicate SpentInHistory(s: RegistryState, hist: seq<Redemption>) {
    forall n: Word :: n in s.spent ==> exists i :: 0 <= i < |hist| && hist[i].sig.nullifier == n
  }

  /**
   * Redemption i, logged at k, gave the account the verification it has: it is the
   * account's latest, and nothing logged after it redeems or revokes the account.
   */
  ghost predicate IsGrant(s: RegistryState, log: seq<Event>, hist: seq<Redemption>, a: Address, i: nat, k: nat) {
    && i < |hist| && hist[i].holder == a && hist[i].sig.expiry == Get(s.verifiedUntil, a)
    && (forall j :: i < j < |hist| ==> hist[j].holder != a)
    && LastGrant(log, a, k)
    && log[k] == ProofRedeemed(a, hist[i].sig.nullifier, hist[i].sig.expiry)
  }

  /** Every verification was given by some redemption. */
  ghost predicate GrantsInHistory(s: RegistryState, log: seq<Event>, hist: seq<Redemption>) {
    forall a: Address :: Get(s.verifiedUntil, a) != 0 ==> exists i: nat, k: nat :: IsGrant(s, log, hist, a, i, k)
  }

  /** What a run's history of redemptions has to do with the registry it leaves behind. */
  ghost predicate HistoryHolds(v: Verifier, roots: set<Word>, w: World, hist: seq<Redemption>) {
    && w.registry.currentRoot in roots
    && (forall i :: 0 <= i < |hist| ==> WasChecked(v, roots, hist[i]) && hist[i].sig.nullifier in w.registry.spent)
    && (forall i, j :: 0 <= i < j < |hist| ==> hist[i].sig.nullifier != hist[j].sig.nullifier)
    && SpentInHistory(w.registry, hist)
    && GrantsInHistory(w.registry, w.registryLog, hist)
  }

  lemma SpentExtends(s: RegistryState, s': RegistryState, hist: seq<Redemption>, r: Redemption)
    requires SpentInHistory(s, hist) && s'.spent == s.spent + {r.sig.nullifier}
    ensures SpentInHistory(s', hist + [r])
  {
    var hist' := hist + [r];
    forall n: Word | n in s'.spent
      ensures exists i :: 0 <= i < |hist'| && hist'[i].sig.nullifier == n
    {
      if n == r.sig.nullifier {
        assert hist'[|hist|].sig.nullifier == n;
      } else {
        var i :| 0 <= i < |hist| && hist[i].sig.nullifier == n;
        assert hist'[i].sig.nullifier == n;
      }
    }
  }

  lemma GrantsExtend(s: RegistryState, s': RegistryState, log: seq<Event>, hist: seq<Redemption>, r: Redemption)
    requires GrantsInHistory(s, log, hist) && s'.verifiedUntil == s.verifiedUntil[r.holder := r.sig.expiry]
    ensures GrantsInHistory(s', log + [ProofRedeemed(r.holder, r.sig.nullifier, r.sig.expiry)], hist + [r])
  {
    var hist', log' := hist + [r], log + [ProofRedeemed(r.holder, r.sig.nullifier, r.sig.expiry)];
    forall a: Address | Get(s'.verifiedUntil, a) != 0
      ensures exists i: nat, k: nat :: IsGrant(s', log', hist', a, i, k)
    {
      if a == r.holder {
        assert IsGrant(s', log', hist', a, |hist|, |log|);
      } else {
        assert Get(s.verifiedUntil, a) != 0;
        var i: nat, k: nat :| IsGrant(s, log, hist, a, i, k);
        assert IsGrant(s', log', hist', a, i, k);
      }
    }
  }

  lemma GrantsKeep(s: RegistryState, s': RegistryState, log: seq<Event>, news: seq<Event>, hist: seq<Redemption>)
    requires GrantsInHistory(s, log, hist)
    requires forall a: Address :: Get(s'.verifiedUntil, a) == Get(s.verifiedUntil, a) || Get(s'.verifiedUntil, a) == 0
    requires forall e, a: Address :: e in news && Touches(e, a) ==> Get(s'.verifiedUntil, a) == 0
    ensures GrantsInHistory(s', log + news, hist)
  {
    forall a: Address | Get(s'.verifiedUntil, a) != 0
      ensures exists i: nat, k: nat :: IsGrant(s', log + news, hist, a, i, k)
    {
      assert Get(s.verifiedUntil, a) != 0;
      var i: nat, k: nat :| IsGrant(s, log, hist, a, i, k);
      assert forall j :: 0 <= j < |news| ==> news[j] in news;
      assert IsGrant(s', log + news, hist, a, i, k);
    }
  }

  lemma RedemptionExtends(v: Verifier, roots: set<Word>, w: World, hist: seq<Redemption>, tx: Tx)
    requires HistoryHolds(v, roots, w, hist)
    requires tx.call.RedeemProof? && Execute(v, w, tx).Ok?
    ensures HistoryHolds(v, roots, Step(v, w, tx), hist + Redeemed(v, w, tx))
  {
    var r := Redeemed(v, w, tx)[0];
    var after := Step(v, w, tx);
    SpentExtends(w.registry, after.registry, hist, r);
    GrantsExtend(w.registry, after.registry, w.registryLog, hist, r);
    assert WasChecked(v, roots, r);
  }

  /** What the registry and its log do at any other step. */
  lemma RegistryMeanwhile(v: Verifier, w: World, tx: Tx) returns (news: seq<Event>)
    requires !(tx.call.RedeemProof? && Execute(v, w, tx).Ok?)
    ensures var s, s' := w.registry, Step(v, w, tx).registry;
            && s'.spent == s.spent
            && Step(v, w, tx).registryLog == w.registryLog + news
            && (forall a: Address ::
                  Get(s'.verifiedUntil, a) == Get(s.verifiedUntil, a) || Get(s'.verifiedUntil, a) == 0)
            && (forall e, a: Address :: e in news && Touches(e, a) ==> Get(s'.verifiedUntil, a) == 0)
  {
    news := Step(v, w, tx).registryLog[|w.registryLog|..];
  }

  lemma HistoryStep(v: Verifier, roots: set<Word>, w: World, hist: seq<Redemption>, tx: Tx)
    requires HistoryHolds(v, roots, w, hist)
    ensures HistoryHolds(v, roots + {Step(v, w, tx).registry.currentRoot}, Step(v, w, tx), hist + Redeemed(v, w, tx))
  {
    if tx.call.RedeemProof? && Execute(v, w, tx).Ok? {
      RedemptionExtends(v, roots, w, hist, tx);
      assert roots + {w.registry.currentRoot} == roots;
    } else {
      var news := RegistryMeanwhile(v, w, tx);
      GrantsKeep(w.registry, Step(v, w, tx).registry, w.registryLog, news, hist);
      assert hist + Redeemed(v, w, tx) == hist;
    }
  }

  /** In every reachable state, spent nullifiers and live expiries go back to checked redemptions. */
  lemma {:induction false} HistoryIsSound(v: Verifier, registryOwner: Caller, tokenOwner: Caller, root: Word,
                                          txs: seq<Tx>)
    ensures var g := Genesis(registryOwner, tokenOwner, root);
            HistoryHolds(v, Published(v, g, txs), Run(v, g, txs), History(v, g, txs))
    decreases |txs|
  {
    if |txs| == 0 {
    } else {
      var g := Genesis(registryOwner, tokenOwner, root);
      var n := |txs| - 1;
      HistoryIsSound(v, registryOwner, tokenOwner, root, txs[..n]);
      HistoryStep(v, Published(v, g, txs[..n]), Run(v, g, txs[..n]), History(v, g, txs[..n]), txs[n]);
    }
  }

  /** The witness attributed to a redemption's prover. */
  function WitnessOf(v: Verifier, r: Redemption): Witness {
    v.extract(r.proof, r.sig)
  }

  /** The prover of this redemption knew a witness satisfying every constraint. */
  ghost predicate Known(v: Verifier, h: Hasher, r: Redemption) {
    Satisfied(h, Public(r.sig), WitnessOf(v, r))
  }

  /** Every redemption of the history was proved by someone who knew a witness. */
  ghost predicate AllKnown(v: Verifier, h: Hasher, hist: seq<Redemption>) {
    forall i :: 0 <= i < |hist| ==> Known(v, h, hist[i])
  }

  /** A satisfying witness passes the circuit. */
  lemma SatisfiedPasses(h: Hasher, s: Signals, w: Witness)
    requires IsPrime(FIELD)
    ensures Satisfied(h, s, w) <==> Pass(h, FIELD, DEPTH, s, w)
  {
    ConstraintsArePass(h, FIELD, DEPTH, s, w);
  }

  /**
   * Over any run from deployment, no two redemptions share a nullifier residue;
   * and no two whose provers knew a witness spend the same secret under the same
   * root, whatever the leaf, the expiry, the caller, or the revocations between.
   */
  lemma SingleSpend(v: Verifier, h: Hasher, registryOwner: Caller, tokenOwner: Caller, root: Word,
                    txs: seq<Tx>, i: int, j: int)
    requires IsPrime(FIELD)
    requires 0 <= i < j < |History(v, Genesis(registryOwner, tokenOwner, root), txs)|
    ensures var hist := History(v, Genesis(registryOwner, tokenOwner, root), txs);
            && hist[i].sig.nullifier % FIELD != hist[j].sig.nullifier % FIELD
            && (Known(v, h, hist[i]) && Known(v, h, hist[j]) ==>
                  (WitnessOf(v, hist[i]).holderSecret, hist[i].sig.root)
                  != (WitnessOf(v, hist[j]).holderSecret, hist[j].sig.root))
  {
    var g := Genesis(registryOwner, tokenOwner, root);
    var hist := History(v, g, txs);
    HistoryIsSound(v, registryOwner, tokenOwner, root, txs);
    assert WasChecked(v, Published(v, g, txs), hist[i]) && WasChecked(v, Published(v, g, txs), hist[j]);
    SatisfiedPasses(h, Public(hist[i].sig), WitnessOf(v, hist[i]));
    SatisfiedPasses(h, Public(hist[j].sig), WitnessOf(v, hist[j]));
  }

  /** The first redemption that spent the nullifier, or the length of the history. */
  function SpentBy(hist: seq<Redemption>, nullifier: Word): (i: nat)
    ensures i <= |hist|
    ensures i < |hist| ==> hist[i].sig.nullifier == nullifier
    ensures i == |hist| ==> forall k :: 0 <= k < |hist| ==> hist[k].sig.nullifier != nullifier
  {
    if |hist| == 0 then 0
    else if hist[0].sig.nullifier == nullifier then 0
    else
      assert hist == [hist[0]] + hist[1..];
      1 + SpentBy(hist[1..], nullifier)
  }

  /** A redemption that meets every condition but the nullifier's. */
  predicate OtherwiseValid(v: Verifier, s: RegistryState, tx: Tx) {
    && tx.call.RedeemProof?
    && tx.call.sig.root == s.currentRoot && tx.call.sig.holderAddr == tx.caller && tx.call.sig.expiry > tx.now
    && VerifyProof(v, tx.call.proof, tx.call.sig)
  }

  /** The redemption of the history that spent the nullifier spent this secret under this root, or collides with it. */
  ghost predicate SpentOrClash(v: Verifier, h: Hasher, r: Redemption, secret: int, root: Word) {
    var mine, theirs := (secret, root), (WitnessOf(v, r).holderSecret, r.sig.root);
    mine == theirs || IsClash(h, Clash(mine, theirs))
  }

  /**
   * When an otherwise valid redemption is refused, given the secret its nullifier
   * was derived from. It is refused exactly when its nullifier was spent. If its
   * secret was already redeemed under its root, it is refused; and if it is
   * refused, then it was, or the two (secret, root) pairs are different pairs with
   * one digest. In particular a revocation does not re-enable a credential under
   * the same root, and after a rotation nothing but such a collision stops the
   * same credential, revoked or not.
   */
  lemma RefusedWhenSpent(v: Verifier, h: Hasher, registryOwner: Caller, tokenOwner: Caller, root: Word,
                         txs: seq<Tx>, tx: Tx, secret: int)
    requires IsPrime(FIELD)
    requires OtherwiseValid(v, Run(v, Genesis(registryOwner, tokenOwner, root), txs).registry, tx)
    requires tx.call.sig.nullifier == h.pair(secret, tx.call.sig.root)
    requires AllKnown(v, h, History(v, Genesis(registryOwner, tokenOwner, root), txs))
    ensures var g := Genesis(registryOwner, tokenOwner, root);
            var hist := History(v, g, txs);
            var i := SpentBy(hist, tx.call.sig.nullifier);
            && (Execute(v, Run(v, g, txs), tx).Err? <==> i < |hist|)
            && (i < |hist| ==> SpentOrClash(v, h, hist[i], secret, tx.call.sig.root))
            && (forall k | 0 <= k < |hist| ::
                  (secret, tx.call.sig.root) == (WitnessOf(v, hist[k]).holderSecret, hist[k].sig.root) ==>
                  Execute(v, Run(v, g, txs), tx) == Err(NullifierAlreadySpent(tx.call.sig.nullifier)))
  {
    var g := Genesis(registryOwner, tokenOwner, root);
    var hist := History(v, g, txs);
    HistoryIsSound(v, registryOwner, tokenOwner, root, txs);
    forall k | 0 <= k < |hist|
      ensures Pass(h, FIELD, DEPTH, Public(hist[k].sig), WitnessOf(v, hist[k]))
    {
      assert Known(v, h, hist[k]);
      SatisfiedPasses(h, Public(hist[k].sig), WitnessOf(v, hist[k]));
    }
  }

  /** An otherwise valid redemption that is not refused verifies its holder until its expiry. */
  lemma AcceptedVerifies(v: Verifier, w: World, tx: Tx)
    requires OtherwiseValid(v, w.registry, tx)
    ensures Execute(v, w, tx).Ok? ==> Get(Step(v, w, tx).registry.verifiedUntil, tx.caller) == tx.call.sig.expiry
  {
  }
}
