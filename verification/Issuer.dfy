/**
 * The Go issuer: an append-only list of leaf strings kept in one state file, a
 * tree rebuilt from it on every call, and the circuit input built from a path.
 */
module Issuer {
  import opened Prelude
  import opened Hashing
  import opened Merkle
  import opened DenseTree
  import opened Circuit
  import opened Numerals

  /** The BN254 scalar field order, which a holder secret must be below. */
  const FIELD := 21888242871839275222246405745257275088548364400416034343698204186575808495617

  const ADDR_HEX_LEN := 40

  datatype KycError =
    | InvalidAddr
    | InvalidField
    | SecretOutOfRange
    | RandomFailed
    | HasherFailed
    | LeafNotFound
    | StateMissing
    | StateMalformed
    | SaveFailed
    | TreeFailed(error: TreeError)

  /** What the state file holds. */
  datatype Contents = Absent | Malformed | Holds(leaves: seq<string>)

  /** How a write of the state file ends: done, refused before the file is touched, or torn while writing. */
  datatype SaveOutcome = Written | Refused | Torn(left: Contents)

  datatype IssueParams = IssueParams(addr: string, secret: string, expiry: string, issuer: string)

  datatype IssueResult = IssueResult(secret: int, index: int, rootDec: string, rootHex: string)

  datatype ProveParams = ProveParams(addr: string, secret: string, expiry: string, issuer: string)

  datatype CircuitInput = CircuitInput(
    holderSecret: string, issuerId: string, pathElements: seq<string>, pathIndices: seq<string>,
    root: string, holderAddr: string, expiry: string)

  /** What a leaf commits to. */
  datatype Credential = Credential(secret: int, expiry: int, issuer: int)

  function LeafOf(h: Hasher, c: Credential): int {
    h.triple(c.secret, c.expiry, c.issuer)
  }

  predicate CredentialInField(p: int, c: Credential) {
    InField(p, c.secret) && InField(p, c.expiry) && InField(p, c.issuer)
  }

  // ----------------------------------------------------------------- parsing

  function TrimPrefix(s: string, prefix: string): string {
    if prefix <= s then s[|prefix|..] else s
  }

  function AddrToField(addr: string): Result<int, KycError> {
    var s := TrimPrefix(TrimPrefix(addr, "0x"), "0X");
    if |s| != ADDR_HEX_LEN then Err(InvalidAddr) else
      match Parse(16, s)
      case None => Err(InvalidAddr)
      case Some(x) => Ok(x)
  }

  /** Any decimal integer is taken, negative ones included. */
  function ParseField(s: string): Result<int, KycError> {
    match Parse(10, s)
    case None => Err(InvalidField)
    case Some(x) => Ok(x)
  }

  function ParseSecret(s: string): Result<int, KycError> {
    match ParseField(s)
    case Err(e) => Err(e)
    case Ok(x) => if x < 0 || x >= FIELD then Err(SecretOutOfRange) else Ok(x)
  }

  /**
   * The parser's own comment promises non-negative numbers; a signed one is taken
   * too. What it takes is non-negative exactly when the text does not begin with a
   * minus sign followed by some character other than '0'.
   */
  lemma NegativeFieldIsParsed(s: string)
    ensures ParseField("-1") == Ok(-1)
    ensures ParseField(s).Ok? ==> (ParseField(s).value < 0 <==> SignedNonZero(s))
  {
    RoundTrip(10, -1);
    assert Text(10, -1) == "-1";
    if ParseField(s).Ok? {
      SignDecides(10, s);
    }
  }

  /** The given secret, or the random source's draw when none is given. */
  function ResolveSecret(secret: string, random: Option<int>): Result<int, KycError> {
    if secret != "" then ParseSecret(secret)
    else match random
         case None => Err(RandomFailed)
         case Some(x) => Ok(x)
  }

  function HexField(x: int): string {
    "0x" + Text(16, x)
  }

  /** The rendering is "0x" before a lower-case numeral of the number, and reads back. */
  lemma HexFieldRoundTrip(x: int)
    ensures Parse(16, TrimPrefix(HexField(x), "0x")) == Some(x)
    ensures HexField(x)[..2] == "0x" && IsNumeral(16, HexField(x)[2..], x)
    ensures x >= 0 ==> forall k :: 2 <= k < |HexField(x)| ==> HexField(x)[k] in DIGITS
  {
    RoundTrip(16, x);
    TextIsPlain(16, x);
    assert HexField(x)[2..] == Text(16, x);
    assert forall k :: 2 <= k < |HexField(x)| ==> HexField(x)[k] == Text(16, x)[k - 2];
  }

  /** Read address, secret, expiry and issuer in that order, then hash the leaf. */
  function ReadCredential(h: Hasher, addr: string, secret: Result<int, KycError>, expiry: string, issuer: string)
      : Result<(int, Credential), KycError>
  {
    match AddrToField(addr) case Err(e) => Err(e) case Ok(a) =>
    match secret case Err(e) => Err(e) case Ok(s) =>
    match ParseField(expiry) case Err(e) => Err(e) case Ok(x) =>
    match ParseField(issuer) case Err(e) => Err(e) case Ok(i) =>
      if h.takesTriple(s, x, i) then Ok((a, Credential(s, x, i))) else Err(HasherFailed)
  }

  // ------------------------------------------------------------ stored leaves

  function Texts(xs: seq<int>): (s: seq<string>)
    ensures |s| == |xs|
    ensures forall i :: 0 <= i < |xs| ==> s[i] == Text(10, xs[i])
  {
    seq(|xs|, i requires 0 <= i < |xs| => Text(10, xs[i]))
  }

  function ParseAll(ss: seq<string>): (r: Option<seq<int>>)
    ensures r.Some? ==> |r.value| == |ss|
    ensures r.Some? ==> forall i :: 0 <= i < |ss| ==> Parse(10, ss[i]) == Some(r.value[i])
    ensures r.None? ==> exists i :: 0 <= i < |ss| && Parse(10, ss[i]).None?
  {
    if |ss| == 0 then Some([]) else
      var n := |ss| - 1;
      match ParseAll(ss[..n]) case None => None case Some(front) =>
      match Parse(10, ss[n]) case None => None case Some(x) => Some(front + [x])
  }

  lemma ParseTexts(xs: seq<int>)
    ensures ParseAll(Texts(xs)) == Some(xs)
  {
    forall i | 0 <= i < |xs|
      ensures Parse(10, Texts(xs)[i]) == Some(xs[i])
    {
      RoundTrip(10, xs[i]);
    }
    if ParseAll(Texts(xs)).Some? {
      assert ParseAll(Texts(xs)).value == xs;
    }
  }

  /** The leaves a rebuilt tree holds, or why it could not be rebuilt. */
  ghost function TreeOf(h: Hasher, depth: int, ss: seq<string>): Result<seq<int>, KycError> {
    if depth <= 0 then Err(TreeFailed(InvalidDepth))
    else if !LadderHashes(h, depth) then Err(TreeFailed(HashFailed))
    else match ParseAll(ss)
         case None => Err(InvalidField)
         case Some(xs) => Ok(xs)
  }

  /** The root over the stored leaves. */
  ghost function RootOver(h: Hasher, depth: int, ss: seq<string>): Result<int, KycError> {
    match TreeOf(h, depth, ss)
    case Err(e) => Err(e)
    case Ok(xs) =>
      if LayersHash(h, xs, depth) then Ok(Node(h, SeqMap(xs), depth, 0)) else Err(TreeFailed(HashFailed))
  }

  // -------------------------------------------------- what each command computes

  function Load(file: Contents): Result<seq<string>, KycError> {
    match file
    case Absent => Err(StateMissing)
    case Malformed => Err(StateMalformed)
    case Holds(ls) => Ok(ls)
  }

  function LoadOrCreate(file: Contents): Result<seq<string>, KycError> {
    if file.Absent? then Ok([]) else Load(file)
  }

  ghost function IssueSpec(h: Hasher, random: Option<int>, depth: int, file: Contents, p: IssueParams,
                           save: SaveOutcome)
      : (Result<IssueResult, KycError>, Contents)
  {
    match ReadCredential(h, p.addr, ResolveSecret(p.secret, random), p.expiry, p.issuer)
    case Err(e) => (Err(e), file)
    case Ok((_, cred)) =>
      match LoadOrCreate(file) case Err(e) => (Err(e), file) case Ok(before) =>
      var after := before + [Text(10, LeafOf(h, cred))];
      match RootOver(h, depth, after) case Err(e) => (Err(e), file) case Ok(root) =>
      match save
      case Refused => (Err(SaveFailed), file)
      case Torn(left) => (Err(SaveFailed), left)
      case Written =>
        (Ok(IssueResult(cred.secret, |before|, Text(10, root), HexField(root))), Holds(after))
  }

  ghost function RootStringsSpec(h: Hasher, depth: int, file: Contents): Result<(string, string), KycError> {
    match Load(file) case Err(e) => Err(e) case Ok(ss) =>
    match RootOver(h, depth, ss) case Err(e) => Err(e) case Ok(root) => Ok((Text(10, root), HexField(root)))
  }

  /** The first position holding target, or -1. */
  function FirstIndex(ss: seq<string>, target: string): (i: int)
    ensures i == -1 <==> target !in ss
    ensures i != -1 ==> 0 <= i < |ss| && ss[i] == target && forall j :: 0 <= j < i ==> ss[j] != target
  {
    if |ss| == 0 then -1
    else if ss[0] == target then 0
    else
      var rest := FirstIndex(ss[1..], target);
      assert ss == [ss[0]] + ss[1..];
      if rest == -1 then -1 else rest + 1
  }

  /** The circuit input for a witness and its public signals. */
  function Encode(w: Witness, s: Signals): CircuitInput {
    CircuitInput(Text(10, w.holderSecret), Text(10, w.issuerId), Texts(w.elements), Texts(w.bits),
                 Text(10, s.root), Text(10, s.holderAddr), Text(10, s.expiry))
  }

  /** The numbers the witness generator reads back from a circuit input, with the nullifier text beside it. */
  function Decode(input: CircuitInput, nullifier: string): Option<(Witness, Signals)> {
    match (Parse(10, input.holderSecret), Parse(10, input.issuerId),
           ParseAll(input.pathElements), ParseAll(input.pathIndices))
    case (Some(secret), Some(issuer), Some(elements), Some(bits)) => (
      match (Parse(10, nullifier), Parse(10, input.root), Parse(10, input.holderAddr), Parse(10, input.expiry))
      case (Some(n), Some(root), Some(addr), Some(expiry)) =>
        Some((Witness(secret, issuer, elements, bits), Signals(n, root, addr, expiry)))
      case _ => None)
    case _ => None
  }

  lemma InputRoundTrip(w: Witness, s: Signals)
    ensures Decode(Encode(w, s), Text(10, s.nullifier)) == Some((w, s))
  {
    RoundTrip(10, w.holderSecret);
    RoundTrip(10, w.issuerId);
    ParseTexts(w.elements);
    ParseTexts(w.bits);
    RoundTrip(10, s.nullifier);
    RoundTrip(10, s.root);
    RoundTrip(10, s.holderAddr);
    RoundTrip(10, s.expiry);
  }

  /** The witness and public signals for the leaf at index of a tree over xs. */
  ghost function WitnessAt(h: Hasher, depth: nat, xs: seq<int>, index: int, cred: Credential): Witness {
    Witness(cred.secret, cred.issuer, Siblings(h, SeqMap(xs), index, depth), Bits(index, depth))
  }

  ghost function SignalsAt(h: Hasher, depth: nat, xs: seq<int>, addr: int, cred: Credential): Signals {
    var root := Node(h, SeqMap(xs), depth, 0);
    Signals(h.pair(cred.secret, root), root, addr, cred.expiry)
  }

  ghost function BuildProofSpec(h: Hasher, depth: int, file: Contents, p: ProveParams)
      : Result<(CircuitInput, string), KycError>
  {
    match ReadCredential(h, p.addr, ParseSecret(p.secret), p.expiry, p.issuer)
    case Err(e) => Err(e)
    case Ok((addr, cred)) =>
      match Load(file) case Err(e) => Err(e) case Ok(ss) =>
      var index := FirstIndex(ss, Text(10, LeafOf(h, cred)));
      if index < 0 then Err(LeafNotFound) else
      match TreeOf(h, depth, ss) case Err(e) => Err(e) case Ok(xs) =>
      if !LayersHash(h, xs, depth) then Err(TreeFailed(HashFailed)) else
      var w, s := WitnessAt(h, depth, xs, index, cred), SignalsAt(h, depth, xs, addr, cred);
      if !h.takesPair(cred.secret, s.root) then Err(HasherFailed)
      else Ok((Encode(w, s), Text(10, s.nullifier)))
  }

  // ----------------------------------------------------------- the Go commands

  method StateTree(ss: seq<string>, depth: int, h: Hasher) returns (r: Result<Tree, KycError>)
    ensures match TreeOf(h, depth, ss)
            case Err(e) => r == Err(e)
            case Ok(xs) =>
              && r.Ok? && fresh(r.value) && r.value.Valid()
              && r.value.leaves == xs && r.value.depth == depth && r.value.hasher == h
  {
    var t := Tree.New(depth, h);
    if t.Err? {
      return Err(TreeFailed(t.error));
    }
    for i := 0 to |ss|
      invariant fresh(t.value) && t.value.Valid() && t.value.depth == depth && t.value.hasher == h
      invariant ParseAll(ss[..i]) == Some(t.value.leaves)
    {
      assert ss[..i + 1][..i] == ss[..i];
      var leaf := Parse(10, ss[i]);
      if leaf.None? {
        return Err(InvalidField);
      }
      var _ := t.value.Append(leaf.value);
    }
    assert ss[..|ss|] == ss;
    return Ok(t.value);
  }

  method IndexOf(leaves: seq<string>, target: string) returns (index: int)
    ensures index == FirstIndex(leaves, target)
  {
    for i := 0 to |leaves|
      invariant forall j :: 0 <= j < i ==> leaves[j] != target
    {
      if leaves[i] == target {
        return i;
      }
    }
    return -1;
  }

  method DecimalStrings(xs: seq<int>) returns (out: seq<string>)
    ensures out == Texts(xs)
  {
    out := [];
    for i := 0 to |xs|
      invariant |out| == i
      invariant forall j :: 0 <= j < i ==> out[j] == Text(10, xs[j])
    {
      out := out + [Text(10, xs[i])];
    }
  }

  class StateFile {
    var contents: Contents

    constructor ()
      ensures contents == Absent
    {
      contents := Absent;
    }

    /** Append a credential leaf, rebuild the tree, and write the list back. */
    method Issue(h: Hasher, random: Option<int>, depth: int, p: IssueParams, save: SaveOutcome)
        returns (r: Result<IssueResult, KycError>)
      modifies this
      ensures (r, contents) == IssueSpec(h, random, depth, old(contents), p, save)
    {
      var read := ReadCredential(h, p.addr, ResolveSecret(p.secret, random), p.expiry, p.issuer);
      if read.Err? {
        return Err(read.error);
      }
      var cred := read.value.1;
      var state := LoadOrCreate(contents);
      if state.Err? {
        return Err(state.error);
      }
      var index := |state.value|;
      var leaves := state.value + [Text(10, LeafOf(h, cred))];
      var t := StateTree(leaves, depth, h);
      if t.Err? {
        return Err(t.error);
      }
      var root := t.value.Root();
      if root.Err? {
        return Err(TreeFailed(root.error));
      }
      match save {
        case Refused =>
          return Err(SaveFailed);
        case Torn(left) =>
          contents := left;
          return Err(SaveFailed);
        case Written =>
          contents := Holds(leaves);
          return Ok(IssueResult(cred.secret, index, Text(10, root.value), HexField(root.value)));
      }
    }

    method RootStrings(h: Hasher, depth: int) returns (r: Result<(string, string), KycError>)
      ensures r == RootStringsSpec(h, depth, contents)
    {
      var state := Load(contents);
      if state.Err? {
        return Err(state.error);
      }
      var t := StateTree(state.value, depth, h);
      if t.Err? {
        return Err(t.error);
      }
      var root := t.value.Root();
      if root.Err? {
        return Err(TreeFailed(root.error));
      }
      return Ok((Text(10, root.value), HexField(root.value)));
    }

    method BuildProof(h: Hasher, depth: int, p: ProveParams) returns (r: Result<(CircuitInput, string), KycError>)
      ensures r == BuildProofSpec(h, depth, contents, p)
    {
      var read := ReadCredential(h, p.addr, ParseSecret(p.secret), p.expiry, p.issuer);
      if read.Err? {
        return Err(read.error);
      }
      var (addr, cred) := read.value;
      var state := Load(contents);
      if state.Err? {
        return Err(state.error);
      }
      var index := IndexOf(state.value, Text(10, LeafOf(h, cred)));
      if index < 0 {
        return Err(LeafNotFound);
      }
      var t := StateTree(state.value, depth, h);
      if t.Err? {
        return Err(t.error);
      }
      var path := t.value.Proof(index);
      if path.Err? {
        return Err(TreeFailed(path.error));
      }
      var nullifier := h.HashPair(cred.secret, path.value.root);
      if nullifier.None? {
        return Err(HasherFailed);
      }
      var elements := DecimalStrings(path.value.elements);
      var bits := DecimalStrings(path.value.bits);
      var input := CircuitInput(Text(10, cred.secret), Text(10, cred.issuer), elements, bits,
                                Text(10, path.value.root), Text(10, addr), Text(10, cred.expiry));
      return Ok((input, Text(10, nullifier.value)));
    }
  }
}
