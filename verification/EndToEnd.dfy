/** From the issuer's list to the token's balances. */
module EndToEnd {
  import opened Prelude
  import opened Hashing
  import opened Merkle
  import opened Circuit
  import opened Numerals
  import opened Issuer
  import opened Addresses
  import opened IssuerRuns
  import opened Roles
  import opened Registry
  import opened Redemptions
  import Compliance
  import L = Ledger

  function Leaves(h: Hasher, creds: seq<Credential>): (xs: seq<int>)
    ensures |xs| == |creds|
    ensures forall i :: 0 <= i < |creds| ==> xs[i] == LeafOf(h, creds[i])
  {
    seq(|creds|, i requires 0 <= i < |creds| => LeafOf(h, creds[i]))
  }

  /** The root of the tree over some issued credentials. */
  function TreeRoot(h: Hasher, depth: nat, creds: seq<Credential>): int {
    Node(h, SeqMap(Leaves(h, creds)), depth, 0)
  }

  // ------------------------------------------------------------ one credential

  /** What a satisfying witness shows about the list its root was built from. */
  datatype Finding =
    | Opens(index: int)
    | PairClash(clash: Clash)
    | TripleClash(first: Credential, second: Credential)
    | ZeroLeaf(credential: Credential)

  /** Follow the witness's path down the issuer's tree and say what is found at its end. */
  function Inspect(h: Hasher, creds: seq<Credential>, s: Signals, w: Witness): Finding
    requires |w.elements| == |w.bits|
  {
    var mine := Credential(w.holderSecret, s.expiry, w.issuerId);
    match OpeningClash(h, SeqMap(Leaves(h, creds)), 0, LeafOf(h, mine), w.elements, w.bits)
    case Some(clash) => PairClash(clash)
    case None =>
      var i := LittleEndian(w.bits);
      if i < 0 || i >= |creds| then ZeroLeaf(mine)
      else if creds[i] != mine then TripleClash(mine, creds[i])
      else Opens(i)
  }

  /** The finding is what it says: the credential is in the list, or here is what broke the hash. */
  predicate FindingHolds(h: Hasher, creds: seq<Credential>, s: Signals, w: Witness, f: Finding) {
    match f
    case Opens(i) => 0 <= i < |creds| && creds[i] == Credential(w.holderSecret, s.expiry, w.issuerId)
    case PairClash(c) => IsClash(h, c)
    case TripleClash(a, b) => a != b && LeafOf(h, a) == LeafOf(h, b)
    case ZeroLeaf(c) => LeafOf(h, c) == 0
  }

  /**
   * A witness that passes the circuit under the root of the issuer's tree holds a
   * credential of the issuer's list, at the position its path spells, unless
   * Inspect exhibits a collision or a leaf that hashes to zero.
   */
  lemma PassHoldsCredential(h: Hasher, p: int, depth: nat, creds: seq<Credential>, s: Signals, w: Witness)
    requires Pass(h, p, depth, s, w) && s.root == TreeRoot(h, depth, creds)
    ensures FindingHolds(h, creds, s, w, Inspect(h, creds, s, w))
    ensures Inspect(h, creds, s, w).Opens? ==> Inspect(h, creds, s, w).index == LittleEndian(w.bits)
  {
    var mine := Credential(w.holderSecret, s.expiry, w.issuerId);
    OpeningSound(h, SeqMap(Leaves(h, creds)), LeafOf(h, mine), w.elements, w.bits);
    PathNamesLeaf(w.bits);
  }

  // ------------------------------------------------------------ the issuer's book

  /** The credentials a run of issue calls put on the list, in order. */
  ghost function Issued(h: Hasher, depth: int, calls: seq<Call>): seq<Credential> {
    if |calls| == 0 then [] else
      var n := |calls| - 1;
      Issued(h, depth, calls[..n]) +
      if Outcome(h, depth, After(h, depth, Absent, calls[..n]), calls[n]).0.Ok? && Read(h, calls[n]).Ok?
      then [Read(h, calls[n]).value.1] else []
  }

  lemma IssuedStep(h: Hasher, depth: int, calls: seq<Call>)
    requires |calls| > 0
    ensures var n := |calls| - 1;
            var r := Outcome(h, depth, After(h, depth, Absent, calls[..n]), calls[n]).0;
            && (r.Ok? ==> Read(h, calls[n]).Ok?
                          && Issued(h, depth, calls) == Issued(h, depth, calls[..n]) + [Read(h, calls[n]).value.1])
            && (r.Err? ==> Issued(h, depth, calls) == Issued(h, depth, calls[..n]))
  {
    var n := |calls| - 1;
    OneIssue(h, depth, After(h, depth, Absent, calls[..n]), calls[n]);
  }

  lemma TextsExtend(h: Hasher, creds: seq<Credential>, cred: Credential)
    ensures Texts(Leaves(h, creds + [cred])) == Texts(Leaves(h, creds)) + [Text(10, LeafOf(h, cred))]
  {
    assert Leaves(h, creds + [cred]) == Leaves(h, creds) + [LeafOf(h, cred)];
  }

  /** The file holds the leaves of the credentials issued, printed in order. */
  lemma {:induction false} FileHoldsIssued(h: Hasher, depth: int, calls: seq<Call>)
    requires Clean(calls)
    ensures Stored(After(h, depth, Absent, calls)) == Texts(Leaves(h, Issued(h, depth, calls)))
    ensures !After(h, depth, Absent, calls).Malformed?
    decreases |calls|
  {
    if |calls| == 0 {
    } else {
      var n := |calls| - 1;
      assert !calls[n].save.Torn?;
      FileHoldsIssued(h, depth, calls[..n]);
      OneIssue(h, depth, After(h, depth, Absent, calls[..n]), calls[n]);
      IssuedStep(h, depth, calls);
      var before, after := Issued(h, depth, calls[..n]), Issued(h, depth, calls);
      if |after| > |before| {
        TextsExtend(h, before, after[|before|]);
      }
    }
  }

  lemma RootOfPrinted(h: Hasher, depth: int, xs: seq<int>, dec: string, hex: string)
    requires depth > 0 && RootStringsSpec(h, depth, Holds(Texts(xs))) == Ok((dec, hex))
    ensures Parse(10, dec) == Some(Node(h, SeqMap(xs), depth, 0))
  {
    ParseTexts(xs);
    RoundTrip(10, Node(h, SeqMap(xs), depth, 0));
  }

  /** The root a successful issue returns is the root of the tree over everything issued so far. */
  lemma IssuedRootIsTreeRoot(h: Hasher, depth: int, calls: seq<Call>, result: IssueResult)
    requires Clean(calls) && |calls| > 0 && depth > 0
    requires Outcome(h, depth, After(h, depth, Absent, calls[..|calls| - 1]), calls[|calls| - 1]).0 == Ok(result)
    ensures Parse(10, result.rootDec) == Some(TreeRoot(h, depth, Issued(h, depth, calls)))
    ensures result.index == |Issued(h, depth, calls)| - 1
  {
    var n := |calls| - 1;
    var before := After(h, depth, Absent, calls[..n]);
    OneIssue(h, depth, before, calls[n]);
    FileHoldsIssued(h, depth, calls);
    RootOfPrinted(h, depth, Leaves(h, Issued(h, depth, calls)), result.rootDec, result.rootHex);
    assert |Stored(After(h, depth, Absent, calls))| == |Stored(before)| + 1;
  }

  /** Each published root that the book lists is the root of the tree over the credentials listed for it. */
  ghost predicate Honest(h: Hasher, book: map<Word, seq<Credential>>) {
    forall r :: r in book ==> r == TreeRoot(h, DEPTH, book[r])
  }

  // ---------------------------------------------------------------- end to end

  /** The finding for a redemption, given the list its root was built from. */
  function FindingFor(v: Verifier, h: Hasher, creds: seq<Credential>, r: Redemption): Finding
    requires |WitnessOf(v, r).elements| == |WitnessOf(v, r).bits|
  {
    Inspect(h, creds, Public(r.sig), WitnessOf(v, r))
  }

  /** The redemption's witness holds a credential of the list with its expiry, or breaks the hash. */
  ghost predicate Justified(v: Verifier, h: Hasher, creds: seq<Credential>, r: Redemption) {
    && |WitnessOf(v, r).elements| == |WitnessOf(v, r).bits|
    && FindingHolds(h, creds, Public(r.sig), WitnessOf(v, r), FindingFor(v, h, creds, r))
    && (FindingFor(v, h, creds, r).Opens? ==> creds[FindingFor(v, h, creds, r).index].expiry == r.sig.expiry)
  }

  lemma RedemptionJustified(v: Verifier, h: Hasher, creds: seq<Credential>, r: Redemption)
    requires IsPrime(FIELD) && Known(v, h, r)
    requires r.sig.root == TreeRoot(h, DEPTH, creds)
    ensures Justified(v, h, creds, r)
  {
    SatisfiedPasses(h, Public(r.sig), WitnessOf(v, r));
    PassHoldsCredential(h, FIELD, DEPTH, creds, Public(r.sig), WitnessOf(v, r));
  }

  /** The redemption behind a nonzero verifiedUntil, and where it is logged. */
  lemma GrantOf(v: Verifier, registryOwner: Caller, tokenOwner: Caller, root: Word, txs: seq<L.Tx>, a: Address)
      returns (i: nat, k: nat)
    requires Get(L.Run(v, L.Genesis(registryOwner, tokenOwner, root), txs).registry.verifiedUntil, a) != 0
    ensures var g := L.Genesis(registryOwner, tokenOwner, root);
            var w, hist := L.Run(v, g, txs), History(v, g, txs);
            IsGrant(w.registry, w.registryLog, hist, a, i, k) && hist[i].sig.root == hist[i].current
  {
    var g := L.Genesis(registryOwner, tokenOwner, root);
    HistoryIsSound(v, registryOwner, tokenOwner, root, txs);
    var w, hist := L.Run(v, g, txs), History(v, g, txs);
    i, k :| IsGrant(w.registry, w.registryLog, hist, a, i, k);
    assert WasChecked(v, Published(v, g, txs), hist[i]);
  }

  /** Each redemption was made under a root the book lists, by a prover who knew a witness. */
  ghost predicate Accounted(v: Verifier, h: Hasher, book: map<Word, seq<Credential>>, hist: seq<Redemption>) {
    AllKnown(v, h, hist) && forall i :: 0 <= i < |hist| ==> hist[i].current in book
  }

  /**
   * End-to-end soundness. In every run from deployment in which redemptions were
   * made under roots of trees over listed credentials, by provers who knew a
   * witness, a nonzero verifiedUntil goes back to the account's latest redemption,
   * which nothing has revoked; and it is the expiry of a credential listed under
   * the root that was current then, unless that redemption exhibits a collision of
   * the hash or a leaf that hashes to zero. Roots under which nothing was redeemed,
   * such as a published 0, need not be roots of anything.
   */
  lemma VerifiedMeansCredentialed(v: Verifier, h: Hasher, registryOwner: Caller, tokenOwner: Caller, root: Word,
                                  txs: seq<L.Tx>, book: map<Word, seq<Credential>>, a: Address)
      returns (i: nat, k: nat)
    requires IsPrime(FIELD) && Honest(h, book)
    requires Accounted(v, h, book, History(v, L.Genesis(registryOwner, tokenOwner, root), txs))
    requires Get(L.Run(v, L.Genesis(registryOwner, tokenOwner, root), txs).registry.verifiedUntil, a) != 0
    ensures var g := L.Genesis(registryOwner, tokenOwner, root);
            var w, hist := L.Run(v, g, txs), History(v, g, txs);
            && IsGrant(w.registry, w.registryLog, hist, a, i, k)
            && hist[i].sig.root == hist[i].current && hist[i].current in book
            && Justified(v, h, book[hist[i].current], hist[i])
  {
    var hist := History(v, L.Genesis(registryOwner, tokenOwner, root), txs);
    i, k := GrantOf(v, registryOwner, tokenOwner, root, txs, a);
    assert Known(v, h, hist[i]);
    RedemptionJustified(v, h, book[hist[i].current], hist[i]);
  }

  /**
   * No balance changes without a credential. A transaction that changes an
   * account's balance comes after a redemption by that account that is its latest
   * and unrevoked, whose expiry is still in the future, and whose witness holds a
   * listed credential with that expiry, unless it exhibits a break of the hash.
   */
  lemma BalanceChangeIsCredentialed(v: Verifier, h: Hasher, registryOwner: Caller, tokenOwner: Caller, root: Word,
                                    txs: seq<L.Tx>, tx: L.Tx, book: map<Word, seq<Credential>>, a: Address)
      returns (i: nat, k: nat)
    requires IsPrime(FIELD) && Honest(h, book)
    requires Accounted(v, h, book, History(v, L.Genesis(registryOwner, tokenOwner, root), txs))
    requires var w := L.Run(v, L.Genesis(registryOwner, tokenOwner, root), txs);
             Get(L.Step(v, w, tx).token.balances, a) != Get(w.token.balances, a)
    ensures var g := L.Genesis(registryOwner, tokenOwner, root);
            var w, hist := L.Run(v, g, txs), History(v, g, txs);
            && IsGrant(w.registry, w.registryLog, hist, a, i, k) && hist[i].sig.expiry > tx.now
            && hist[i].current in book && Justified(v, h, book[hist[i].current], hist[i])
  {
    var w := L.Run(v, L.Genesis(registryOwner, tokenOwner, root), txs);
    Compliance.OnlyVerifiedMove(v, w, tx, a);
    i, k := VerifiedMeansCredentialed(v, h, registryOwner, tokenOwner, root, txs, book, a);
  }

  /** The root is the one that the n-th call of the issuer's run returned. */
  ghost predicate FromIssuer(h: Hasher, calls: seq<Call>, root: Word, n: nat) {
    && 0 < n <= |calls|
    && var r := Outcome(h, DEPTH, After(h, DEPTH, Absent, calls[..n - 1]), calls[n - 1]).0;
       r.Ok? && Parse(10, r.value.rootDec) == Some(root)
  }

  lemma FromIssuerIsTreeRoot(h: Hasher, calls: seq<Call>, root: Word, n: nat)
    requires Clean(calls) && FromIssuer(h, calls, root, n)
    ensures root == TreeRoot(h, DEPTH, Issued(h, DEPTH, calls[..n]))
  {
    var first := calls[..n];
    assert first[..n - 1] == calls[..n - 1];
    var r := Outcome(h, DEPTH, After(h, DEPTH, Absent, first[..n - 1]), first[n - 1]).0;
    IssuedRootIsTreeRoot(h, DEPTH, first, r.value);
  }

  /**
   * The issuer's run and the contracts' run together. If every redemption was made
   * under a root that some call of one clean run of issue returned, by a prover who
   * knew a witness, then a nonzero verifiedUntil is the expiry of a credential that
   * run had issued by the call that returned the root, unless the account's latest
   * redemption exhibits a break of the hash.
   */
  lemma VerifiedMeansIssued(v: Verifier, h: Hasher, calls: seq<Call>,
                            registryOwner: Caller, tokenOwner: Caller, root: Word, txs: seq<L.Tx>, a: Address)
      returns (i: nat, k: nat, n: nat)
    requires IsPrime(FIELD) && Clean(calls)
    requires AllKnown(v, h, History(v, L.Genesis(registryOwner, tokenOwner, root), txs))
    requires forall r :: r in History(v, L.Genesis(registryOwner, tokenOwner, root), txs) ==>
               exists n: nat :: FromIssuer(h, calls, r.current, n)
    requires Get(L.Run(v, L.Genesis(registryOwner, tokenOwner, root), txs).registry.verifiedUntil, a) != 0
    ensures var g := L.Genesis(registryOwner, tokenOwner, root);
            var w, hist := L.Run(v, g, txs), History(v, g, txs);
            && IsGrant(w.registry, w.registryLog, hist, a, i, k)
            && FromIssuer(h, calls, hist[i].current, n)
            && Justified(v, h, Issued(h, DEPTH, calls[..n]), hist[i])
  {
    var hist := History(v, L.Genesis(registryOwner, tokenOwner, root), txs);
    i, k := GrantOf(v, registryOwner, tokenOwner, root, txs, a);
    assert hist[i] in hist && Known(v, h, hist[i]);
    n :| FromIssuer(h, calls, hist[i].current, n);
    FromIssuerIsTreeRoot(h, calls, hist[i].current, n);
    RedemptionJustified(v, h, Issued(h, DEPTH, calls[..n]), hist[i]);
  }

  // ------------------------------------------------------------ the honest path

  /** Whatever passes the circuit has a proof the verifier accepts. */
  ghost predicate Complete(v: Verifier, h: Hasher) {
    forall s: PubSignals, w :: Pass(h, FIELD, DEPTH, Public(s), w) ==> exists proof :: VerifyProof(v, proof, s)
  }

  lemma PassHasProof(v: Verifier, h: Hasher, s: Signals, w: Witness) returns (proof: Proof, sig: PubSignals)
    requires Complete(v, h) && Pass(h, FIELD, DEPTH, s, w)
    ensures Public(sig) == s && VerifyProof(v, proof, sig)
  {
    sig := PubSignals(s.nullifier, s.root, s.holderAddr, s.expiry);
    assert Public(sig) == s;
    proof :| VerifyProof(v, proof, sig);
  }

  /** An issued in-range credential has a proof for the address written, under the tree's current root. */
  lemma IssuedHasProof(v: Verifier, h: Hasher, calls: seq<Call>, k: nat, issued: IssueResult, p: ProveParams,
                       holder: int, current: Word)
      returns (proof: Proof, sig: PubSignals)
    requires FieldHasher(h, FIELD) && Complete(v, h) && Clean(calls) && k < |calls|
    requires Outcome(h, DEPTH, After(h, DEPTH, Absent, calls[..k]), calls[k]).0 == Ok(issued)
    requires |Stored(After(h, DEPTH, Absent, calls))| <= Pow2(DEPTH)
    requires Spells(p.addr, holder) && holder >= 0
    requires Parse(10, p.secret) == Some(issued.secret) && InField(FIELD, issued.secret)
    requires Parse(10, p.expiry) == Parse(10, calls[k].params.expiry)
    requires Parse(10, p.issuer) == Parse(10, calls[k].params.issuer)
    requires Parse(10, p.expiry).Some? ==> InField(FIELD, Parse(10, p.expiry).value)
    requires Parse(10, p.issuer).Some? ==> InField(FIELD, Parse(10, p.issuer).value)
    requires RootStringsSpec(h, DEPTH, After(h, DEPTH, Absent, calls)) == Ok((Text(10, current), HexField(current)))
    ensures VerifyProof(v, proof, sig)
    ensures sig.root == current && sig.nullifier == h.pair(issued.secret, current)
    ensures sig.holderAddr == holder
    ensures Parse(10, p.expiry) == Some(sig.expiry)
  {
    IssuedThenProved(h, DEPTH, calls, k, issued, p, holder);
    var r := BuildProofSpec(h, DEPTH, After(h, DEPTH, Absent, calls), p);
    var (w, s) := Decode(r.value.0, r.value.1).value;
    TextInjective(10, s.root, current);
    proof, sig := PassHasProof(v, h, s, w);
  }

  /** A valid proof redeems, and verifies its holder until its expiry, unless its nullifier was spent. */
  lemma ProofRedeems(v: Verifier, h: Hasher, registryOwner: Caller, tokenOwner: Caller, root: Word, txs: seq<L.Tx>,
                     tx: L.Tx, secret: int)
    requires IsPrime(FIELD) && AllKnown(v, h, History(v, L.Genesis(registryOwner, tokenOwner, root), txs))
    requires OtherwiseValid(v, L.Run(v, L.Genesis(registryOwner, tokenOwner, root), txs).registry, tx)
    requires tx.call.sig.nullifier == h.pair(secret, tx.call.sig.root)
    ensures var g := L.Genesis(registryOwner, tokenOwner, root);
            var hist, w := History(v, g, txs), L.Run(v, g, txs);
            var i := SpentBy(hist, tx.call.sig.nullifier);
            && (i == |hist| ==>
                  && L.Execute(v, w, tx).Ok?
                  && Get(L.Step(v, w, tx).registry.verifiedUntil, tx.caller) == tx.call.sig.expiry)
            && (i < |hist| ==> SpentOrClash(v, h, hist[i], secret, tx.call.sig.root))
  {
    RefusedWhenSpent(v, h, registryOwner, tokenOwner, root, txs, tx, secret);
    AcceptedVerifies(v, L.Run(v, L.Genesis(registryOwner, tokenOwner, root), txs), tx);
  }

  /**
   * The honest path works. After any run of issue calls that fits the tree, take
   * an issued credential with expiry and issuer in the field, any address text, and
   * any run of the contracts that leaves the issuer's root published. Then there is
   * a proof with which a redemption from the address the text spells, before the
   * expiry, commits and verifies it until exactly that expiry, unless an earlier
   * redemption spent the same secret under the same root or its nullifier collides.
   */
  lemma HonestHolderIsVerified(v: Verifier, h: Hasher, calls: seq<Call>, k: nat, issued: IssueResult, p: ProveParams,
                               registryOwner: Caller, tokenOwner: Caller, root: Word, txs: seq<L.Tx>,
                               caller: Caller, now: Word)
      returns (proof: Proof, sig: PubSignals)
    requires IsPrime(FIELD) && FieldHasher(h, FIELD) && Complete(v, h)
    requires AllKnown(v, h, History(v, L.Genesis(registryOwner, tokenOwner, root), txs))
    requires Clean(calls) && k < |calls|
    requires Outcome(h, DEPTH, After(h, DEPTH, Absent, calls[..k]), calls[k]).0 == Ok(issued)
    requires |Stored(After(h, DEPTH, Absent, calls))| <= Pow2(DEPTH)
    requires Spells(p.addr, caller)
    requires Parse(10, p.secret) == Some(issued.secret) && InField(FIELD, issued.secret)
    requires Parse(10, p.expiry) == Parse(10, calls[k].params.expiry)
    requires Parse(10, p.issuer) == Parse(10, calls[k].params.issuer)
    requires Parse(10, p.expiry).Some? ==> now < Parse(10, p.expiry).value < FIELD
    requires Parse(10, p.issuer).Some? ==> InField(FIELD, Parse(10, p.issuer).value)
    requires var current := L.Run(v, L.Genesis(registryOwner, tokenOwner, root), txs).registry.currentRoot;
             RootStringsSpec(h, DEPTH, After(h, DEPTH, Absent, calls)) == Ok((Text(10, current), HexField(current)))
    ensures Parse(10, p.expiry) == Some(sig.expiry) && sig.holderAddr == caller
    ensures var g := L.Genesis(registryOwner, tokenOwner, root);
            var hist, w := History(v, g, txs), L.Run(v, g, txs);
            var tx := L.Tx(caller, now, L.RedeemProof(proof, sig));
            var i := SpentBy(hist, sig.nullifier);
            && (i == |hist| ==>
                  L.Execute(v, w, tx).Ok? && Get(L.Step(v, w, tx).registry.verifiedUntil, caller) == sig.expiry)
            && (i < |hist| ==> SpentOrClash(v, h, hist[i], issued.secret, w.registry.currentRoot))
  {
    var current := L.Run(v, L.Genesis(registryOwner, tokenOwner, root), txs).registry.currentRoot;
    proof, sig := IssuedHasProof(v, h, calls, k, issued, p, caller, current);
    var tx := L.Tx(caller, now, L.RedeemProof(proof, sig));
    ProofRedeems(v, h, registryOwner, tokenOwner, root, txs, tx, issued.secret);
  }

  // ---------------------------------------------------------- after a rotation

  /** A listed in-range credential within capacity has a proof for any address, under its list's root. */
  lemma ListedHasProof(v: Verifier, h: Hasher, creds: seq<Credential>, index: nat, addr: Address, current: Word)
      returns (proof: Proof, sig: PubSignals)
    requires FieldHasher(h, FIELD) && Complete(v, h)
    requires index < |creds| && index < Pow2(DEPTH) && CredentialInField(FIELD, creds[index])
    requires current == TreeRoot(h, DEPTH, creds)
    ensures VerifyProof(v, proof, sig)
    ensures sig.root == current && sig.nullifier == h.pair(creds[index].secret, current)
    ensures sig.holderAddr == addr && sig.expiry == creds[index].expiry
  {
    var xs := Leaves(h, creds);
    PathPasses(h, DEPTH, xs, index, addr, creds[index]);
    proof, sig := PassHasProof(v, h, SignalsAt(h, DEPTH, xs, addr, creds[index]),
                               WitnessAt(h, DEPTH, xs, index, creds[index]));
  }

  /** A holder redeems, an agent revokes it, the owner rotates the root, and the holder redeems again. */
  function RevokeAndRotate(holder: Caller, agent: Caller, owner: Caller, now: Word,
                           first: (Proof, PubSignals), r1: Word, second: (Proof, PubSignals)): seq<L.Tx>
  {
    [L.Tx(holder, now, L.RedeemProof(first.0, first.1))] + [L.Tx(agent, now, L.Revoke(holder))]
    + [L.Tx(owner, now, L.SetRoot(r1))] + [L.Tx(holder, now, L.RedeemProof(second.0, second.1))]
  }

  /** What that run does when both proofs are valid and neither nullifier was spent. */
  lemma RotationRuns(v: Verifier, w: L.World, holder: Caller, agent: Caller, owner: Caller, now: Word,
                     first: (Proof, PubSignals), r1: Word, second: (Proof, PubSignals))
    requires OtherwiseValid(v, w.registry, L.Tx(holder, now, L.RedeemProof(first.0, first.1)))
    requires VerifyProof(v, second.0, second.1)
    requires second.1.root == r1 && second.1.holderAddr == holder && second.1.expiry > now
    requires agent in w.registry.roles.agents && owner == w.registry.roles.owner
    requires first.1.nullifier !in w.registry.spent && second.1.nullifier !in w.registry.spent
    ensures var end := L.Run(v, w, RevokeAndRotate(holder, agent, owner, now, first, r1, second)).registry;
            Get(end.verifiedUntil, holder)
            == if first.1.nullifier != second.1.nullifier then second.1.expiry else 0
  {
    var redeem0, revoke := L.Tx(holder, now, L.RedeemProof(first.0, first.1)), L.Tx(agent, now, L.Revoke(holder));
    var rotate, redeem1 := L.Tx(owner, now, L.SetRoot(r1)), L.Tx(holder, now, L.RedeemProof(second.0, second.1));
    assert [] + [redeem0] == [redeem0];
    L.RunStep(v, w, [], redeem0);
    L.RunStep(v, w, [redeem0], revoke);
    L.RunStep(v, w, [redeem0] + [revoke], rotate);
    L.RunStep(v, w, [redeem0] + [revoke] + [rotate], redeem1);
  }

  /**
   * The same credential, revoked, verifies again after a rotation. Take any world,
   * any in-range credential listed under its current root and, at any place, under
   * another one, and any holder. There are proofs with which the holder redeems, is
   * revoked, and after the root is rotated redeems again; if neither nullifier was
   * spent before, the run ends with the holder verified until the credential's
   * expiry exactly when the two nullifiers differ, and if they do not, the two
   * (secret, root) pairs are different pairs with one digest.
   */
  lemma RevokedMayReturn(v: Verifier, h: Hasher, w: L.World, cred: Credential,
                         before: seq<Credential>, i: nat, after: seq<Credential>, j: nat, r1: Word,
                         holder: Caller, agent: Caller, owner: Caller, now: Word)
      returns (first: (Proof, PubSignals), second: (Proof, PubSignals))
    requires FieldHasher(h, FIELD) && Complete(v, h) && CredentialInField(FIELD, cred) && cred.expiry > now
    requires i < |before| && i < Pow2(DEPTH) && before[i] == cred
    requires j < |after| && j < Pow2(DEPTH) && after[j] == cred
    requires w.registry.currentRoot == TreeRoot(h, DEPTH, before) != r1 == TreeRoot(h, DEPTH, after)
    requires agent in w.registry.roles.agents && owner == w.registry.roles.owner
    requires forall n :: n in w.registry.spent ==> n != h.pair(cred.secret, w.registry.currentRoot)
    requires forall n :: n in w.registry.spent ==> n != h.pair(cred.secret, r1)
    ensures var r0 := w.registry.currentRoot;
            var end := L.Run(v, w, RevokeAndRotate(holder, agent, owner, now, first, r1, second)).registry;
            && VerifyProof(v, first.0, first.1) && VerifyProof(v, second.0, second.1)
            && first.1.expiry == second.1.expiry == cred.expiry
            && first.1.nullifier == h.pair(cred.secret, r0) && second.1.nullifier == h.pair(cred.secret, r1)
            && (IsVerified(end, holder, now) <==> first.1.nullifier != second.1.nullifier)
            && (IsVerified(end, holder, now) ==> Get(end.verifiedUntil, holder) == cred.expiry)
            && (!IsVerified(end, holder, now) ==> IsClash(h, Clash((cred.secret, r0), (cred.secret, r1))))
  {
    var proof0, sig0 := ListedHasProof(v, h, before, i, holder, w.registry.currentRoot);
    var proof1, sig1 := ListedHasProof(v, h, after, j, holder, r1);
    first, second := (proof0, sig0), (proof1, sig1);
    RotationRuns(v, w, holder, agent, owner, now, first, r1, second);
  }
}
