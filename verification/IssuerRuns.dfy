/** What holds over whole runs of the issuer, and of the proofs built afterwards. */
module IssuerRuns {
  import opened Prelude
  import opened Hashing
  import opened Merkle
  import opened DenseTree
  import opened Circuit
  import opened Numerals
  import opened Issuer
  import opened Addresses

  /** One call of issue: the random source's answer, the parameters, and how its write ends. */
  datatype Call = Call(random: Option<int>, params: IssueParams, save: SaveOutcome)

  ghost function Outcome(h: Hasher, depth: int, file: Contents, c: Call): (Result<IssueResult, KycError>, Contents) {
    IssueSpec(h, c.random, depth, file, c.params, c.save)
  }

  /** The state file after a run of issue calls. */
  ghost function After(h: Hasher, depth: int, file: Contents, calls: seq<Call>): Contents {
    if |calls| == 0 then file
    else Outcome(h, depth, After(h, depth, file, calls[..|calls| - 1]), calls[|calls| - 1]).1
  }

  /** No write is torn half-way. */
  ghost predicate Clean(calls: seq<Call>) {
    forall c :: c in calls ==> !c.save.Torn?
  }

  function Stored(file: Contents): seq<string> {
    if file.Holds? then file.leaves else []
  }

  /** What a call to issue reads from its parameters. */
  function Read(h: Hasher, c: Call): Result<(int, Credential), KycError> {
    ReadCredential(h, c.params.addr, ResolveSecret(c.params.secret, c.random), c.params.expiry, c.params.issuer)
  }

  // -------------------------------------------------------------- parameters

  /** The secret a text stands for: the draw when it is empty, otherwise the number it writes, if in the field. */
  predicate SecretIs(text: string, random: Option<int>, s: int) {
    if text == "" then random == Some(s) else Parse(10, text) == Some(s) && InField(FIELD, s)
  }

  /** The texts stand for this holder and this credential, which the hasher takes. */
  predicate StandFor(h: Hasher, addr: string, secret: string, random: Option<int>, expiry: string, issuer: string,
                     holder: int, cred: Credential) {
    && Spells(addr, holder) && SecretIs(secret, random, cred.secret)
    && Parse(10, expiry) == Some(cred.expiry) && Parse(10, issuer) == Some(cred.issuer)
    && h.takesTriple(cred.secret, cred.expiry, cred.issuer)
  }

  /** What a call to issue asks for. */
  predicate Asks(h: Hasher, c: Call, holder: int, cred: Credential) {
    StandFor(h, c.params.addr, c.params.secret, c.random, c.params.expiry, c.params.issuer, holder, cred)
  }

  /** What a request for a proof asks for. No secret is drawn for it. */
  predicate AsksProof(h: Hasher, p: ProveParams, holder: int, cred: Credential) {
    StandFor(h, p.addr, p.secret, None, p.expiry, p.issuer, holder, cred)
  }

  /** A call's parameters are accepted, as one holder and credential, exactly when they stand for them. */
  lemma ReadIsExact(h: Hasher, c: Call, holder: int, cred: Credential)
    ensures Read(h, c) == Ok((holder, cred)) <==> Asks(h, c, holder, cred)
  {
    AddressIsExact(c.params.addr, holder);
  }

  lemma ProofReadIsExact(h: Hasher, p: ProveParams, holder: int, cred: Credential)
    ensures ReadCredential(h, p.addr, ParseSecret(p.secret), p.expiry, p.issuer) == Ok((holder, cred))
            <==> AsksProof(h, p, holder, cred)
  {
    AddressIsExact(p.addr, holder);
  }

  /**
   * A refusal of the parameters, in the order they are read: the address, the
   * secret or the draw, expiry and issuer, and the hasher. The file stays as it is.
   */
  lemma RefusedParameters(h: Hasher, depth: int, file: Contents, c: Call)
    ensures var p, refused := c.params, Outcome(h, depth, file, c);
            && ((forall x :: !Spells(p.addr, x)) ==> refused == (Err(InvalidAddr), file))
            && ((exists x :: Spells(p.addr, x)) ==>
                  && (p.secret == "" && c.random.None? ==> refused == (Err(RandomFailed), file))
                  && (p.secret != "" && Parse(10, p.secret).None? ==> refused == (Err(InvalidField), file))
                  && (p.secret != "" && Parse(10, p.secret).Some? && !InField(FIELD, Parse(10, p.secret).value) ==>
                        refused == (Err(SecretOutOfRange), file))
                  && (forall s :: SecretIs(p.secret, c.random, s) ==>
                        && (Parse(10, p.expiry).None? || Parse(10, p.issuer).None? ==>
                              refused == (Err(InvalidField), file))
                        && (Parse(10, p.expiry).Some? && Parse(10, p.issuer).Some?
                            && !h.takesTriple(s, Parse(10, p.expiry).value, Parse(10, p.issuer).value) ==>
                              refused == (Err(HasherFailed), file))))
  {
    var read := AddrToField(c.params.addr);
    if read.Ok? {
      AddressIsExact(c.params.addr, read.value);
    }
    if x :| Spells(c.params.addr, x) {
      AddressIsExact(c.params.addr, x);
    }
  }

  // ------------------------------------------------------------------ history

  /**
   * One call: a failure other than a torn write leaves the file as it was; a
   * success appends one leaf, returns the list's old length, and returns the
   * root that a fresh read of the new file gives.
   */
  lemma OneIssue(h: Hasher, depth: int, file: Contents, c: Call)
    ensures var (r, after) := Outcome(h, depth, file, c);
            && (r.Err? && !c.save.Torn? ==> after == file)
            && (r.Err? && r.error != SaveFailed ==> after == file)
            && (r.Ok? ==>
                  && c.save.Written? && !file.Malformed? && Read(h, c).Ok?
                  && after == Holds(Stored(file) + [Text(10, LeafOf(h, Read(h, c).value.1))])
                  && r.value.secret == Read(h, c).value.1.secret && r.value.index == |Stored(file)|
                  && RootStringsSpec(h, depth, after) == Ok((r.value.rootDec, r.value.rootHex)))
  {
  }

  /**
   * A success issues what was asked for: the secret given, which is in the field,
   * or the one drawn when none was given; and the leaf put last on the list is the
   * hash of that secret, the expiry and the issuer, in that order.
   */
  lemma IssuedAsAsked(h: Hasher, depth: int, file: Contents, c: Call)
    ensures var (r, after) := Outcome(h, depth, file, c);
            r.Ok? ==>
              var expiry, issuer := Parse(10, c.params.expiry), Parse(10, c.params.issuer);
              && (exists holder :: Spells(c.params.addr, holder))
              && (c.params.secret != "" ==> Parse(10, c.params.secret) == Some(r.value.secret))
              && (c.params.secret != "" ==> 0 <= r.value.secret < FIELD)
              && (c.params.secret == "" ==> c.random == Some(r.value.secret))
              && expiry.Some? && issuer.Some?
              && after == Holds(Stored(file) + [Text(10, h.triple(r.value.secret, expiry.value, issuer.value))])
  {
    if Outcome(h, depth, file, c).0.Ok? {
      OneIssue(h, depth, file, c);
      var (holder, cred) := Read(h, c).value;
      ReadIsExact(h, c, holder, cred);
    }
  }

  lemma PrefixOfPrefix<T>(s: seq<T>, k: nat, n: nat)
    requires k <= n <= |s|
    ensures s[..n][..k] == s[..k]
  {
  }

  lemma OneIssueGrows(h: Hasher, depth: int, file: Contents, c: Call)
    requires !c.save.Torn?
    ensures Stored(file) <= Stored(Outcome(h, depth, file, c).1)
  {
    OneIssue(h, depth, file, c);
  }

  lemma PrefixTransitive(a: seq<string>, b: seq<string>, c: seq<string>)
    requires a <= b <= c
    ensures a <= c
  {
  }

  /** Every stored list is a prefix of every later one. */
  lemma {:induction false} ListOnlyGrows(h: Hasher, depth: int, file: Contents, calls: seq<Call>, k: nat)
    requires k <= |calls| && Clean(calls)
    ensures Stored(After(h, depth, file, calls[..k])) <= Stored(After(h, depth, file, calls))
    decreases |calls|
  {
    if k == |calls| {
      assert calls[..k] == calls;
    } else {
      var n := |calls| - 1;
      PrefixOfPrefix(calls, k, n);
      ListOnlyGrows(h, depth, file, calls[..n], k);
      assert calls[n] in calls;
      OneIssueGrows(h, depth, After(h, depth, file, calls[..n]), calls[n]);
      assert After(h, depth, file, calls) == Outcome(h, depth, After(h, depth, file, calls[..n]), calls[n]).1;
      PrefixTransitive(Stored(After(h, depth, file, calls[..k])), Stored(After(h, depth, file, calls[..n])),
                       Stored(After(h, depth, file, calls)));
    }
  }

  lemma AfterOne(h: Hasher, depth: int, file: Contents, calls: seq<Call>, k: nat)
    requires k < |calls|
    ensures After(h, depth, file, calls[..k + 1]) == Outcome(h, depth, After(h, depth, file, calls[..k]), calls[k]).1
  {
    assert calls[..k + 1][..k] == calls[..k];
  }

  /** The index returned by a successful issue names its leaf for ever after. */
  lemma IndexIsPermanent(h: Hasher, depth: int, file: Contents, calls: seq<Call>, k: nat, issued: IssueResult)
    requires k < |calls| && Clean(calls)
    requires Outcome(h, depth, After(h, depth, file, calls[..k]), calls[k]).0 == Ok(issued)
    ensures var now := Stored(After(h, depth, file, calls));
            && Read(h, calls[k]).Ok? && issued.secret == Read(h, calls[k]).value.1.secret
            && issued.index == |Stored(After(h, depth, file, calls[..k]))| < |now|
            && now[issued.index] == Text(10, LeafOf(h, Read(h, calls[k]).value.1))
  {
    OneIssue(h, depth, After(h, depth, file, calls[..k]), calls[k]);
    AfterOne(h, depth, file, calls, k);
    ListOnlyGrows(h, depth, file, calls, k + 1);
    var mid := Stored(After(h, depth, file, calls[..k + 1]));
    var now := Stored(After(h, depth, file, calls));
    assert mid[|mid| - 1] == now[|mid| - 1];
  }

  // ---------------------------------------------------------- issue, then prove

  ghost predicate IsPrintedList(file: Contents, xs: seq<int>) {
    && file == Holds(Texts(xs))
    && forall x :: x in xs ==> InField(FIELD, x)
  }

  /** The file holds printed field elements, or does not exist yet. */
  ghost predicate Canonical(file: Contents) {
    file.Absent? || exists xs :: IsPrintedList(file, xs)
  }

  lemma StaysCanonical(before: Contents, leaf: int)
    requires Canonical(before) && InField(FIELD, leaf)
    ensures Canonical(Holds(Stored(before) + [Text(10, leaf)]))
  {
    var after := Holds(Stored(before) + [Text(10, leaf)]);
    if before.Absent? {
      assert Texts([leaf]) == [] + [Text(10, leaf)];
      assert IsPrintedList(after, [leaf]);
    } else {
      var xs :| IsPrintedList(before, xs);
      assert Texts(xs + [leaf]) == Texts(xs) + [Text(10, leaf)];
      assert IsPrintedList(after, xs + [leaf]);
    }
  }

  lemma {:induction false} RunsAreCanonical(h: Hasher, depth: int, calls: seq<Call>)
    requires FieldHasher(h, FIELD) && Clean(calls)
    ensures Canonical(After(h, depth, Absent, calls))
    decreases |calls|
  {
    if |calls| == 0 {
    } else {
      var n := |calls| - 1;
      var before := After(h, depth, Absent, calls[..n]);
      RunsAreCanonical(h, depth, calls[..n]);
      OneIssue(h, depth, before, calls[n]);
      var (r, after) := Outcome(h, depth, before, calls[n]);
      if r.Ok? {
        StaysCanonical(before, LeafOf(h, Read(h, calls[n]).value.1));
      }
    }
  }

  // --------------------------------------------------------------- capacity

  /** Over a canonical list, the root is there and is the full tree's. */
  lemma PrintedListHasRoot(h: Hasher, depth: int, xs: seq<int>)
    requires FieldHasher(h, FIELD) && depth > 0
    requires forall x :: x in xs ==> InField(FIELD, x)
    ensures RootOver(h, depth, Texts(xs)) == Ok(Node(h, SeqMap(xs), depth, 0))
  {
    ParseTexts(xs);
    FieldLeavesHash(h, FIELD, xs, depth);
  }

  /** The numbers a canonical file holds. */
  ghost function Numbers(file: Contents): (xs: seq<int>)
    requires Canonical(file)
    ensures Stored(file) == Texts(xs) && forall x :: x in xs ==> InField(FIELD, x)
  {
    if file.Absent? then [] else
      var xs :| IsPrintedList(file, xs);
      xs
  }

  lemma ExtendedHasRoot(h: Hasher, depth: int, file: Contents, leaf: int)
    requires FieldHasher(h, FIELD) && depth > 0 && Canonical(file) && InField(FIELD, leaf)
    ensures RootOver(h, depth, Stored(file) + [Text(10, leaf)]).Ok?
  {
    var xs := Numbers(file);
    assert Texts(xs + [leaf]) == Texts(xs) + [Text(10, leaf)];
    PrintedListHasRoot(h, depth, xs + [leaf]);
  }

  /** The root of a printed list, as rootStrings reports it. */
  lemma PrintedListHasRootStrings(h: Hasher, depth: int, xs: seq<int>)
    requires FieldHasher(h, FIELD) && depth > 0
    requires forall x :: x in xs ==> InField(FIELD, x)
    ensures var root := Node(h, SeqMap(xs), depth, 0);
            RootStringsSpec(h, depth, Holds(Texts(xs))) == Ok((Text(10, root), HexField(root)))
  {
    PrintedListHasRoot(h, depth, xs);
  }

  /** Over a canonical file, issue succeeds exactly when its parameters ask for something and its write is done. */
  lemma IssueSucceeds(h: Hasher, depth: int, file: Contents, c: Call)
    requires FieldHasher(h, FIELD) && depth > 0 && Canonical(file)
    ensures Outcome(h, depth, file, c).0.Ok? <==> c.save.Written? && exists holder, cred :: Asks(h, c, holder, cred)
  {
    if Read(h, c).Ok? {
      var (holder, cred) := Read(h, c).value;
      ReadIsExact(h, c, holder, cred);
      ExtendedHasRoot(h, depth, file, LeafOf(h, cred));
    }
    if holder, cred :| Asks(h, c, holder, cred) {
      ReadIsExact(h, c, holder, cred);
    }
  }

  /** A successful issue over a canonical file, in numbers. */
  lemma IssueAppends(h: Hasher, depth: int, file: Contents, c: Call)
    requires FieldHasher(h, FIELD) && depth > 0 && Canonical(file)
    requires Read(h, c).Ok? && c.save.Written?
    ensures var (r, after) := Outcome(h, depth, file, c);
            && r.Ok? && after == Holds(Texts(Numbers(file) + [LeafOf(h, Read(h, c).value.1)]))
            && RootStringsSpec(h, depth, after) == Ok((r.value.rootDec, r.value.rootHex))
  {
    var xs, leaf := Numbers(file), LeafOf(h, Read(h, c).value.1);
    assert Texts(xs + [leaf]) == Texts(xs) + [Text(10, leaf)];
    ExtendedHasRoot(h, depth, file, leaf);
    OneIssue(h, depth, file, c);
  }

  /** Over a canonical file, what a call that asks for a credential does, however its write ends. */
  lemma IssueIsExact(h: Hasher, depth: int, file: Contents, c: Call, holder: int, cred: Credential)
    requires FieldHasher(h, FIELD) && depth > 0 && Canonical(file)
    requires Asks(h, c, holder, cred)
    ensures var (r, after) := Outcome(h, depth, file, c);
            match c.save
            case Refused => r == Err(SaveFailed) && after == file
            case Torn(left) => r == Err(SaveFailed) && after == left
            case Written =>
              && r.Ok? && r.value.secret == cred.secret && r.value.index == |Stored(file)|
              && after == Holds(Stored(file) + [Text(10, h.triple(cred.secret, cred.expiry, cred.issuer))])
              && RootStringsSpec(h, depth, after) == Ok((r.value.rootDec, r.value.rootHex))
  {
    ReadIsExact(h, c, holder, cred);
    ExtendedHasRoot(h, depth, file, LeafOf(h, cred));
    OneIssue(h, depth, file, c);
  }

  lemma OneMorePastCapacity(h: Hasher, xs: seq<int>, leaf: int, depth: nat)
    requires |xs| >= Pow2(depth)
    ensures Node(h, SeqMap(xs + [leaf]), depth, 0) == Node(h, SeqMap(xs), depth, 0)
  {
    RootStopsAtCapacity(h, xs, depth);
    RootStopsAtCapacity(h, xs + [leaf], depth);
    assert (xs + [leaf])[..Pow2(depth)] == xs[..Pow2(depth)];
  }

  lemma CapacityRoots(h: Hasher, depth: int, xs: seq<int>, leaf: int)
    requires FieldHasher(h, FIELD) && depth > 0 && |xs| >= Pow2(depth)
    requires (forall x :: x in xs ==> InField(FIELD, x)) && InField(FIELD, leaf)
    ensures RootStringsSpec(h, depth, Holds(Texts(xs + [leaf]))) == RootStringsSpec(h, depth, Holds(Texts(xs)))
  {
    PrintedListHasRootStrings(h, depth, xs);
    PrintedListHasRootStrings(h, depth, xs + [leaf]);
    OneMorePastCapacity(h, xs, leaf, depth);
  }

  /**
   * Past 2^depth stored leaves a further issue still succeeds whenever its
   * parameters ask for a credential and its write is done, and returns the root that
   * was there before it.
   */
  lemma IssuePastCapacity(h: Hasher, depth: int, file: Contents, c: Call, holder: int, cred: Credential)
    requires FieldHasher(h, FIELD) && depth > 0 && Canonical(file)
    requires |Stored(file)| >= Pow2(depth)
    requires Asks(h, c, holder, cred) && c.save.Written?
    ensures var (r, after) := Outcome(h, depth, file, c);
            && r.Ok?
            && RootStringsSpec(h, depth, file) == Ok((r.value.rootDec, r.value.rootHex))
            && RootStringsSpec(h, depth, after) == RootStringsSpec(h, depth, file)
  {
    ReadIsExact(h, c, holder, cred);
    IssueAppends(h, depth, file, c);
    CapacityRoots(h, depth, Numbers(file), LeafOf(h, cred));
    assert file == Holds(Texts(Numbers(file)));
  }

  /** What buildProof returns for a leaf of a canonical file: the path of the leaf's first position. */
  lemma StoredLeafBuilds(h: Hasher, depth: int, file: Contents, p: ProveParams, xs: seq<int>, addr: int,
                         cred: Credential)
      returns (index: int)
    requires FieldHasher(h, FIELD) && depth > 0 && IsPrintedList(file, xs)
    requires ReadCredential(h, p.addr, ParseSecret(p.secret), p.expiry, p.issuer) == Ok((addr, cred))
    requires InField(FIELD, cred.secret) && LeafOf(h, cred) in xs
    ensures index == FirstIndex(file.leaves, Text(10, LeafOf(h, cred)))
    ensures 0 <= index < |xs| && xs[index] == LeafOf(h, cred)
    ensures var w, s := WitnessAt(h, depth, xs, index, cred), SignalsAt(h, depth, xs, addr, cred);
            && BuildProofSpec(h, depth, file, p) == Ok((Encode(w, s), Text(10, s.nullifier)))
            && RootStringsSpec(h, depth, file) == Ok((Text(10, s.root), HexField(s.root)))
  {
    var leaf := LeafOf(h, cred);
    var k :| 0 <= k < |xs| && xs[k] == leaf;
    assert file.leaves[k] == Text(10, leaf);
    index := FirstIndex(file.leaves, Text(10, leaf));
    TextInjective(10, xs[index], leaf);
    ParseTexts(xs);
    FieldLeavesHash(h, FIELD, xs, depth);
    NodeInField(h, FIELD, SeqMap(xs), depth, 0);
  }

  lemma PathIsInField(h: Hasher, depth: nat, xs: seq<int>, index: int, cred: Credential)
    requires FieldHasher(h, FIELD) && InField(FIELD, cred.secret)
    requires forall x :: x in xs ==> InField(FIELD, x)
    ensures WitnessInField(FIELD, depth, WitnessAt(h, depth, xs, index, cred)) <==> InField(FIELD, cred.issuer)
  {
    forall l | 0 <= l < depth
      ensures InField(FIELD, Siblings(h, SeqMap(xs), index, depth)[l]) && InField(FIELD, Bits(index, depth)[l])
    {
      PathAt(h, SeqMap(xs), index, depth, l);
      NodeInField(h, FIELD, SeqMap(xs), l, Sib(Shr(index, l)));
    }
  }

  /**
   * A path within capacity passes the circuit exactly when the address, expiry
   * and issuer are field elements; one past it passes only through a collision or
   * an earlier copy.
   */
  lemma PathPasses(h: Hasher, depth: nat, xs: seq<int>, index: int, addr: int, cred: Credential)
    requires FieldHasher(h, FIELD) && InField(FIELD, cred.secret)
    requires forall x :: x in xs ==> InField(FIELD, x)
    requires 0 <= index < |xs| && xs[index] == LeafOf(h, cred)
    ensures var w, s := WitnessAt(h, depth, xs, index, cred), SignalsAt(h, depth, xs, addr, cred);
            && (index < Pow2(depth) ==>
                  (Pass(h, FIELD, depth, s, w) <==> CredentialInField(FIELD, cred) && InField(FIELD, addr)))
            && (index >= Pow2(depth) && Pass(h, FIELD, depth, s, w) ==>
                  match BindingClash(h, SeqMap(xs), 0, SeqMap(xs), Shr(index, depth), depth)
                  case Some(c) => IsClash(h, c)
                  case None => exists j :: 0 <= j < index && xs[j] == xs[index])
  {
    NodeInField(h, FIELD, SeqMap(xs), depth, 0);
    PathIsInField(h, depth, xs, index, cred);
    if index < Pow2(depth) {
      PathFoldsToRoot(h, xs, index, depth);
    } else {
      PathReachesRoot(h, xs, index, depth);
      if SameBelow(SeqMap(xs), 0, SeqMap(xs), Shr(index, depth), depth) {
        RepeatedBlock(xs, index, depth);
        assert xs[LittleEndian(Bits(index, depth))] == xs[index];
      }
    }
  }

  /**
   * For any leaf of a canonical file, buildProof succeeds. When the leaf's first
   * position lies within capacity, what it returns passes the circuit exactly when
   * expiry and issuer are field elements and the address is not negative. Past
   * capacity it passes only if BindingClash, run on the first block and the
   * leaf's block, returns two different pairs with one digest.
   */
  lemma StoredLeafProves(h: Hasher, depth: int, file: Contents, p: ProveParams, xs: seq<int>, addr: int,
                         cred: Credential)
    requires FieldHasher(h, FIELD) && depth > 0 && IsPrintedList(file, xs)
    requires AsksProof(h, p, addr, cred) && LeafOf(h, cred) in xs
    ensures var index := FirstIndex(file.leaves, Text(10, LeafOf(h, cred)));
            var r := BuildProofSpec(h, depth, file, p);
            && 0 <= index < |xs|
            && r.Ok?
            && Decode(r.value.0, r.value.1).Some?
            && var (w, s) := Decode(r.value.0, r.value.1).value;
            && RootStringsSpec(h, depth, file) == Ok((Text(10, s.root), HexField(s.root)))
            && s.nullifier == h.pair(cred.secret, s.root) && s.holderAddr == addr && s.expiry == cred.expiry
            && r.value.0.holderSecret == Text(10, cred.secret) && r.value.0.issuerId == Text(10, cred.issuer)
            && r.value.0.holderAddr == Text(10, addr) && r.value.0.expiry == Text(10, cred.expiry)
            && r.value.0.root == Text(10, s.root)
            && r.value.0.pathElements == Texts(w.elements) && r.value.0.pathIndices == Texts(w.bits)
            && (index < Pow2(depth) ==>
                  (Pass(h, FIELD, depth, s, w)
                   <==> InField(FIELD, cred.expiry) && InField(FIELD, cred.issuer) && addr >= 0))
            && (index >= Pow2(depth) && Pass(h, FIELD, depth, s, w) ==>
                  var clash := BindingClash(h, SeqMap(xs), 0, SeqMap(xs), Shr(index, depth), depth);
                  clash.Some? && IsClash(h, clash.value))
  {
    ProofReadIsExact(h, p, addr, cred);
    var index := StoredLeafBuilds(h, depth, file, p, xs, addr, cred);
    InputRoundTrip(WitnessAt(h, depth, xs, index, cred), SignalsAt(h, depth, xs, addr, cred));
    AddressInField(p.addr, addr);
    PathPasses(h, depth, xs, index, addr, cred);
    assert forall j :: 0 <= j < index ==> xs[j] != xs[index] by {
      forall j | 0 <= j < index
        ensures xs[j] != xs[index]
      {
        assert file.leaves[j] == Text(10, xs[j]);
      }
    }
  }

  /** Over a canonical file, buildProof succeeds exactly for a request whose credential's leaf is on the list. */
  lemma BuildProofSucceeds(h: Hasher, depth: int, file: Contents, p: ProveParams)
    requires FieldHasher(h, FIELD) && depth > 0 && Canonical(file)
    ensures BuildProofSpec(h, depth, file, p).Ok?
            <==> exists holder, cred ::
                   && AsksProof(h, p, holder, cred)
                   && Text(10, h.triple(cred.secret, cred.expiry, cred.issuer)) in Stored(file)
  {
    var read := ReadCredential(h, p.addr, ParseSecret(p.secret), p.expiry, p.issuer);
    if BuildProofSpec(h, depth, file, p).Ok? {
      ProofReadIsExact(h, p, read.value.0, read.value.1);
    }
    if holder, cred :| AsksProof(h, p, holder, cred) && Text(10, LeafOf(h, cred)) in Stored(file) {
      var xs := Numbers(file);
      var k :| 0 <= k < |xs| && Stored(file)[k] == Text(10, LeafOf(h, cred));
      TextInjective(10, xs[k], LeafOf(h, cred));
      ProofReadIsExact(h, p, holder, cred);
      var _ := StoredLeafBuilds(h, depth, file, p, xs, holder, cred);
    }
  }

  /** The stored texts are numerals of these numbers. */
  predicate AreNumerals(ss: seq<string>, xs: seq<int>) {
    |ss| == |xs| && forall i :: 0 <= i < |ss| ==> Parse(10, ss[i]) == Some(xs[i])
  }

  lemma NumeralsAreParsed(ss: seq<string>, xs: seq<int>)
    requires AreNumerals(ss, xs)
    ensures ParseAll(ss) == Some(xs)
  {
    if ParseAll(ss).Some? {
      assert ParseAll(ss).value == xs;
    }
  }

  /** Over any readable list, however its numbers are written: the root over them, or what stops it. */
  lemma RootStringsIsExact(h: Hasher, depth: int, ss: seq<string>, xs: seq<int>)
    requires AreNumerals(ss, xs)
    ensures depth <= 0 ==> RootStringsSpec(h, depth, Holds(ss)) == Err(TreeFailed(InvalidDepth))
    ensures depth > 0 && !(LadderHashes(h, depth) && LayersHash(h, xs, depth)) ==>
              RootStringsSpec(h, depth, Holds(ss)) == Err(TreeFailed(HashFailed))
    ensures depth > 0 && LadderHashes(h, depth) && LayersHash(h, xs, depth) ==>
              var root := Node(h, SeqMap(xs), depth, 0);
              RootStringsSpec(h, depth, Holds(ss)) == Ok((Text(10, root), HexField(root)))
  {
    NumeralsAreParsed(ss, xs);
  }

  /** A text on the list that is no number stops issue and rootStrings alike, and stays where it is. */
  lemma UnreadableLeaf(h: Hasher, depth: int, ss: seq<string>, i: nat, c: Call, holder: int, cred: Credential)
    requires depth > 0 && LadderHashes(h, depth) && i < |ss| && Parse(10, ss[i]).None?
    requires Asks(h, c, holder, cred)
    ensures RootStringsSpec(h, depth, Holds(ss)) == Err(InvalidField)
    ensures Outcome(h, depth, Holds(ss), c) == (Err(InvalidField), Holds(ss))
  {
    ReadIsExact(h, c, holder, cred);
    var after := ss + [Text(10, LeafOf(h, cred))];
    assert after[i] == ss[i];
    assert ParseAll(ss).None? && ParseAll(after).None?;
  }

  /** A file that cannot be read, or a depth there is no tree of, stops issue. */
  lemma RefusedIssues(h: Hasher, depth: int, file: Contents, c: Call, holder: int, cred: Credential)
    requires Asks(h, c, holder, cred)
    ensures file.Malformed? ==> Outcome(h, depth, file, c) == (Err(StateMalformed), file)
    ensures !file.Malformed? && depth <= 0 ==> Outcome(h, depth, file, c) == (Err(TreeFailed(InvalidDepth)), file)
  {
    ReadIsExact(h, c, holder, cred);
  }

  /** Only issue starts a list: without a readable file there is no root. */
  lemma NoStateNoRoot(h: Hasher, depth: int)
    ensures RootStringsSpec(h, depth, Absent) == Err(StateMissing)
    ensures RootStringsSpec(h, depth, Malformed) == Err(StateMalformed)
  {
  }

  /** Nor is there a proof without a readable file, or for a leaf that is not on the list. */
  lemma RefusedProofs(h: Hasher, depth: int, file: Contents, p: ProveParams, holder: int, cred: Credential)
    requires AsksProof(h, p, holder, cred)
    ensures file.Absent? ==> BuildProofSpec(h, depth, file, p) == Err(StateMissing)
    ensures file.Malformed? ==> BuildProofSpec(h, depth, file, p) == Err(StateMalformed)
    ensures file.Holds? && Text(10, h.triple(cred.secret, cred.expiry, cred.issuer)) !in file.leaves ==>
              BuildProofSpec(h, depth, file, p) == Err(LeafNotFound)
  {
    ProofReadIsExact(h, p, holder, cred);
  }

  /**
   * Issue, then prove. After any run of issue calls from no file, take any call
   * that succeeded and any later request whose address text spells the holder and
   * whose other texts write the issued secret, expiry and issuer: if the list still
   * fits the tree, buildProof succeeds under the root that rootStrings reports, for
   * exactly that holder, with the nullifier derived from the secret and that root,
   * and its input passes the circuit exactly when expiry and issuer are field
   * elements and the address is not negative.
   */
  lemma IssuedThenProved(h: Hasher, depth: int, calls: seq<Call>, k: nat, issued: IssueResult, p: ProveParams,
                         holder: int)
    requires FieldHasher(h, FIELD) && depth > 0 && Clean(calls) && k < |calls|
    requires Outcome(h, depth, After(h, depth, Absent, calls[..k]), calls[k]).0 == Ok(issued)
    requires |Stored(After(h, depth, Absent, calls))| <= Pow2(depth)
    requires Spells(p.addr, holder) && Parse(10, p.secret) == Some(issued.secret) && InField(FIELD, issued.secret)
    requires Parse(10, p.expiry) == Parse(10, calls[k].params.expiry)
    requires Parse(10, p.issuer) == Parse(10, calls[k].params.issuer)
    ensures Parse(10, p.expiry).Some? && Parse(10, p.issuer).Some?
    ensures var file := After(h, depth, Absent, calls);
            var r := BuildProofSpec(h, depth, file, p);
            && r.Ok? && Decode(r.value.0, r.value.1).Some?
            && var (w, s) := Decode(r.value.0, r.value.1).value;
            && RootStringsSpec(h, depth, file) == Ok((Text(10, s.root), HexField(s.root)))
            && s.nullifier == h.pair(issued.secret, s.root)
            && s.holderAddr == holder && s.expiry == Parse(10, p.expiry).value
            && (Pass(h, FIELD, depth, s, w)
                <==> InField(FIELD, s.expiry) && InField(FIELD, Parse(10, p.issuer).value) && holder >= 0)
  {
    IndexIsPermanent(h, depth, Absent, calls, k, issued);
    RunsAreCanonical(h, depth, calls);
    var file := After(h, depth, Absent, calls);
    var xs :| IsPrintedList(file, xs);
    var (asker, cred) := Read(h, calls[k]).value;
    ReadIsExact(h, calls[k], asker, cred);
    TextInjective(10, xs[issued.index], LeafOf(h, cred));
    StoredLeafProves(h, depth, file, p, xs, holder, cred);
  }
}
