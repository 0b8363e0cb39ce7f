# zk-kyc-pass: a verified model

A Dafny model of the credential system of zk-kyc-pass and proofs of what it
promises, from the issuer's leaf list to the token's balances. `dafny verify
dfyconfig.toml` checks everything.

- **Merkle layer.** `Merkle.dfy` defines the full binary tree over leaves padded
  with 0. `DenseTree.dfy` is the Go tree (built layer by layer, in place),
  `SparseTree.dfy` the JavaScript tree (walked top-down, with 32-bit shifts), and
  `Circuit.dfy` the circuit as constraints over a prime field. Each is proved to
  compute with the same full tree.
- **Issuer.** `Issuer.dfy` has the Go commands over one state-file cell.
  `Numerals.dfy` and `Addresses.dfy` say which texts are numbers and addresses, and
  of what, character by character; `IssuerRuns.dfy` has exactly when the commands
  succeed and what holds over whole runs of `issue` and of the proofs built
  afterwards.
- **Contracts.** `Roles.dfy`, `Registry.dfy` and `Token.dfy` are the contracts as
  classes; `Ledger.dfy` puts them together as a transition system from deployment.
  `Calls.dfy` says of each call, in terms of storage alone, exactly when it commits
  and all it changes. `Conservation.dfy`, `Allowances.dfy`, `Authorities.dfy`, `Replay.dfy`,
  `Compliance.dfy` and `Redemptions.dfy` prove properties of every reachable state.
- **End to end.** `EndToEnd.dfy` joins the three layers: a live verification goes
  back to a credential on the issuer's list, and an issued credential can be
  redeemed. `Examples.dfy` has concrete runs.

The hash is an arbitrary deterministic function that may refuse inputs. It is
never assumed injective. Soundness statements say "this opening is right, or here
is a collision", and the collision is always the value of a function of the inputs
(`OpeningClash`, `BindingClash`, `Inspect`): over a finite field collisions exist,
so their mere existence would say nothing.

Hypotheses that appear as `requires`: `IsPrime(FIELD)` (the BN254 scalar field
order is prime), `FieldHasher` (Poseidon takes field elements and returns them),
`AllKnown` (the redemptions a run actually committed were proved by someone who
knew a witness satisfying every constraint; nothing is asked of proofs nobody
submitted), `Complete` (whatever passes the circuit has an accepted proof; used only
to show that a redemption is possible), `Honest` (the credentials the book lists for
a root are those its tree was built from; `VerifiedMeansIssued` does without a book,
for roots returned by the issuer), `Clean` (no write of the state file is torn).

## Where code and prose differ

The model follows the code.

- `internal/tree/tree.go:94` says the top layer always has length 1. It does
  exactly when there are at most 2^depth leaves (`TopLayerIsSingle`,
  `OverfullExample`). `Append` has no capacity check: over a file of printed field
  elements `issue` succeeds exactly when its parameters ask for a credential and its
  write is done
  (`IssueSucceeds`), however full the tree is, and past capacity it returns the root
  that was there before (`IssuePastCapacity`). A proof built for such a leaf passes
  the circuit only through a hash collision (`StoredLeafProves`).
- `internal/kyc/kyc.go:132` says `parseField` parses non-negative numbers. What it
  reads is negative exactly when the text is a minus sign followed by something
  other than zeros (`NegativeFieldIsParsed`). A built proof input passes the circuit
  exactly when expiry and issuer are in the field and the address does not read as
  a negative number (`IssuedThenProved`).
- `test/circuit/tree.mjs` mirrors the Go tree only up to depth 30. From level 31
  on, the 32-bit shift makes every subtree look empty (`SparseNodeIsBlind`); the root
  is then right exactly when every leaf in range is zero, short of a collision
  (`BlindRoot`, `BlindRootExample`). The repository uses depth 16.
- `src/ZKComplianceRegistry.sol:146-147` says a revoked holder cannot redeem the
  same credential again. That holds under the same root (`RefusedWhenSpent`). Once
  the root is rotated to another one that lists the credential, it can exactly when
  the two nullifiers differ, which they do unless they collide (`RevokedMayReturn`).
- `README.md:141` says an unverified address never holds tokens. Starting from
  nothing, an account is verified or holds nothing around every transaction exactly
  when time never passes its expiry and no agent revokes it while it holds something
  (`HoldingIsKept`, with the single step in `OnlyRevokingBreaksHolding` and
  `OnlyExpiryBreaksHolding`, and a run in `UnverifiedMayHold`). What it holds then is
  frozen (`FrozenWhileUnverified`, `LapseFreezes`).
- The event logs determine all storage except allowances, because spending an
  allowance logs only the transfer (`LogsReplay`, `AllowancesAreNotLogged`). An
  allowance is the last logged approval exactly when that approval is infinite or
  nothing was pulled under it (`AllowanceInLog`).

## Model

| member | source | states |
|---|---|---|
| Merkle.PathComplete | circuits/kycpass.circom:22-43 | a leaf folded along its own siblings and position bits gives the node above it at that height |
| Merkle.UpdateRoot | test/circuit/tree.mjs:33-61 | inserting a leaf in range gives the fold of the new leaf along the path that authenticated the old value |
| Merkle.UpdateLocality | test/circuit/tree.mjs:33-76 | any other leaf's path changes at no level but the one where the positions diverge, and there the sibling becomes the rebuilt subtree |
| Merkle.PathNamesLeaf | circuits/kycpass.circom:8-12 | a path of bits spells, in little-endian binary, a position below 2^depth whose bits are that path |
| Merkle.BitsAreDigits | internal/tree/tree.go:134-149 | the bits collected by halving a position below 2^depth spell that position |
| Merkle.OpeningSound | circuits/kycpass.circom:13-44 | a bit path that folds to the root opens the padded leaf at the index it spells, with that leaf's own siblings, or OpeningClash returns two different pairs with one digest |
| Merkle.NodeBinding | internal/tree/tree.go:68-109 | two nodes of one height with one hash have the same leaves below, or BindingClash returns a collision |
| Merkle.RootBinding | internal/tree/tree.go:110-118 | lists that fit the tree and share a root agree up to zero padding, or BindingClash returns a collision |
| Merkle.PaddingDecides | internal/tree/tree.go:7-10 | lists without a zero leaf that agree up to padding are equal |
| Merkle.TrailingZeroInvisible | internal/tree/tree.go:68-91 | a trailing zero leaf changes no node, so a root does not fix the list's length |
| DenseTree.Tree.New | internal/tree/tree.go:40-54 | the zero ladder is built, or the depth or the hasher's refusal reported, exactly when each applies |
| DenseTree.Tree.Append | internal/tree/tree.go:62-66 | the leaf is appended and its index is the old length |
| DenseTree.Tree.NextLevel | internal/tree/tree.go:70-91 | the parents of a layer with the zero hash for a missing right sibling; failure exactly when the hasher refuses one of its pairs |
| DenseTree.Tree.Layers | internal/tree/tree.go:95-109 | every layer entry is the node of the full padded tree, and layer lengths are as in LayerLenIsCeiling; failure exactly when a pair is refused |
| DenseTree.Tree.Root | internal/tree/tree.go:112-118 | the root of the full padded tree, including the empty one |
| DenseTree.Tree.Proof | internal/tree/tree.go:124-151 | the true siblings, position bits and root, or the right error |
| DenseTree.LayerLenIsCeiling | internal/tree/tree.go:70-109 | layer k has ceil(n / 2^k) entries, and one above the leaves when there are none |
| DenseTree.TopLayerIsSingle | internal/tree/tree.go:93-94 | the top layer has one entry exactly when there are at most 2^depth leaves |
| DenseTree.BeyondLayer | internal/tree/tree.go:7-10 | nodes to the right of a layer are the zero ladder |
| DenseTree.PathFoldsToRoot | internal/tree/tree.go:120-151 | for an index below 2^depth the returned bits are its binary digits and the leaf folds to the returned root |
| DenseTree.PathReachesRoot | internal/tree/tree.go:120-151 | for any index, the path reaches the root if its block of 2^depth leaves repeats the first one, and only then unless BindingClash returns a collision |
| DenseTree.RootStopsAtCapacity | internal/tree/tree.go:63-66 | leaves past 2^depth never reach the root |
| DenseTree.OverfullExample | internal/tree/tree.go:93-94 | three leaves overfill depth 1 and the third one's path misses the root |
| SparseTree.SparseNodeIsNode | test/circuit/tree.mjs:40-50 | up to level 30 the short-circuiting walk computes the full tree's node, for any map of leaves |
| SparseTree.SparseNodeIsBlind | test/circuit/tree.mjs:44-48 | from level 31 on the walk answers the zero ladder whatever the leaves |
| SparseTree.BlindRoot | test/circuit/tree.mjs:59-61 | the walk's root is right up to depth 30; above that, when every leaf in range is zero, and only then unless BindingClash returns a collision |
| SparseTree.BlindRootExample | test/circuit/tree.mjs:44-48 | a hasher and a leaf for which the walk's root is wrong at every depth from 31 on |
| SparseTree.MerkleTree.constructor | test/circuit/tree.mjs:21-31 | an empty tree with its zero ladder |
| SparseTree.MerkleTree.Insert | test/circuit/tree.mjs:33-36 | the leaf is set at the index and maxIndex becomes the larger of the two |
| SparseTree.MerkleTree.HasLeafIn | test/circuit/tree.mjs:52-57 | true exactly when some leaf lies in the half-open range |
| SparseTree.SparseNodeValue | test/circuit/tree.mjs:40-50 | the walk gives the full tree's node up to level 30 and the zero ladder above |
| SparseTree.MerkleTree.NodeAt | test/circuit/tree.mjs:40-50 | the method walks as SparseNode does, whose value SparseNodeValue gives |
| SparseTree.MerkleTree.Root | test/circuit/tree.mjs:59-61 | the full tree's root up to depth 30 |
| SparseTree.MerkleTree.Proof | test/circuit/tree.mjs:65-76 | for every position and depth: the bits and siblings of the position's low 32 bits read as signed, true up to level 30 and the zero ladder above |
| SparseTree.LowBitsSuffice | test/circuit/tree.mjs:69-74 | up to depth 32 the bits are those of the position itself, whatever it is |
| SparseTree.SeenIsTrue | test/circuit/tree.mjs:69-74 | up to depth 31 the siblings are the true ones |
| SparseTree.Mirror | test/circuit/tree.mjs:1-8 | filled with the same leaves, the sparse and the dense tree return the same path and root for every leaf |
| Circuit.EuclidsLemma | circuits/kycpass.circom:27-28 | a prime dividing a product of which it does not divide one factor divides the other |
| Circuit.BooleanIsBit | circuits/kycpass.circom:27-28 | over a prime field the boolean constraint admits exactly 0 and 1 |
| Circuit.InclusionIsFold | circuits/kycpass.circom:13-44 | an assignment satisfies MerkleInclusion exactly when the path is bits, every signal is the generator's, and the root is the fold |
| Circuit.ConstraintsArePass | circuits/kycpass.circom:73-118 | KYCPass is satisfiable for given public signals and witness exactly when leaf, path, root and nullifier fit, and through one assignment only |
| Numerals.RoundTrip | internal/kyc/kyc.go:127-139 | reading a printed integer gives it back, in base 10 and 16, signs included |
| Numerals.ParseIsExact | internal/kyc/kyc.go:132-139 | a text reads as a number exactly when it is an optional sign before one or more of its digits in the base, padded with zeros or not, letters of either case |
| Numerals.TextIsPlain | internal/kyc/kyc.go:127-130 | a number prints as its one numeral without plus sign, capital or leading zero |
| Numerals.TextInjective | internal/kyc/kyc.go:231-248 | two numbers are equal exactly when their texts are |
| Issuer.NegativeFieldIsParsed | internal/kyc/kyc.go:132-139 | a text that parses is negative exactly when it is a minus sign followed by something other than zeros, as "-1" is |
| Issuer.HexFieldRoundTrip | internal/kyc/kyc.go:127-130 | the rendering is 0x before a lower-case hexadecimal numeral of the number, and reads back |
| Issuer.InputRoundTrip | internal/kyc/kyc.go:375-384 | the circuit input decodes to exactly the witness and signals it was made from |
| Issuer.FirstIndex | internal/kyc/kyc.go:231-239 | the first position of a string, or -1 exactly when it is absent |
| Issuer.IndexOf | internal/kyc/kyc.go:231-239 | the loop finds the first position |
| Issuer.DecimalStrings | internal/kyc/kyc.go:241-257 | every number printed in order |
| Issuer.StateTree | internal/kyc/kyc.go:215-229 | the rebuilt tree holds the parsed leaves, or the first error in the order the code meets them |
| Issuer.StateFile.Issue | internal/kyc/kyc.go:265-304 | result and new file content are IssueSpec's, whose values IssuedAsAsked, IssueIsExact and RefusedParameters give in terms of the texts |
| Issuer.StateFile.RootStrings | internal/kyc/kyc.go:311-325 | the root over the stored leaves, in decimal and hexadecimal |
| Issuer.StateFile.BuildProof | internal/kyc/kyc.go:333-385 | circuit input and nullifier are BuildProofSpec's, whose values BuildProofSucceeds, StoredLeafProves and RefusedProofs give in terms of the texts |
| Addresses.AddressIsExact | internal/kyc/kyc.go:85-97 | a text is read as the address x exactly when it is forty hexadecimal characters writing x, bare or behind 0x, 0X or 0x0X |
| Addresses.HexAddress | internal/kyc/kyc.go:85-97 | forty digits of x, letters of either case, are read as x bare and behind either prefix |
| Addresses.EveryAddressIsSpelled | internal/kyc/kyc.go:85-97 | every number below 2^160 has an address text that is read as it |
| Addresses.CapitalsAreRead | internal/kyc/kyc_test.go:40-66 | the test suite's address ending in AA is 170 |
| Addresses.AddressInField | internal/kyc/kyc.go:85-97 | what an address text spells is below 2^160, and a field element exactly when it is not negative |
| IssuerRuns.ReadIsExact | internal/kyc/kyc.go:152-288 | issue takes its parameters for one holder and credential exactly when the address text spells the holder, the secret text is empty and the draw is the secret or it writes the secret in the field, expiry and issuer texts write theirs, and the hasher takes the three |
| IssuerRuns.ProofReadIsExact | internal/kyc/kyc.go:333-353 | the same for a request for a proof, for which nothing is drawn |
| IssuerRuns.RefusedParameters | internal/kyc/kyc.go:268-288 | which error a refused parameter gives, in the order they are read, the file untouched |
| IssuerRuns.IssuedAsAsked | internal/kyc/kyc.go:265-304 | over any file a success returns the secret given, in the field, or the one drawn, and appends the hash of that secret, the expiry and the issuer |
| IssuerRuns.IssueIsExact | internal/kyc/kyc.go:265-304 | over printed field elements, secret, index, root and file for a call that asks for a credential, whether its write is done, refused or torn |
| IssuerRuns.RootStringsIsExact | internal/kyc/kyc.go:311-325 | over any readable list the padded tree's root in both renderings, or the depth's or the hasher's refusal |
| IssuerRuns.UnreadableLeaf | internal/kyc/kyc.go:215-229 | a stored text that is no number stops issue and rootStrings with that error, the file untouched |
| IssuerRuns.NoStateNoRoot | internal/kyc/kyc.go:161-172 | without a file, or with an unreadable one, rootStrings reports which |
| IssuerRuns.RefusedIssues | internal/kyc/kyc.go:174-185 | an unreadable file or a non-positive depth stops issue, the file untouched |
| IssuerRuns.RefusedProofs | internal/kyc/kyc.go:355-362 | buildProof reports a missing file, an unreadable one, and a leaf that is not on the list |
| IssuerRuns.BuildProofSucceeds | internal/kyc/kyc.go:333-385 | over printed field elements buildProof succeeds exactly when the request stands for a credential whose leaf is on the list |
| IssuerRuns.OneIssue | internal/kyc/kyc.go:265-304 | a failure other than a torn write leaves the file alone; a success appends one leaf, returns the old length, and returns the root a fresh read reports |
| IssuerRuns.ListOnlyGrows | internal/kyc/kyc.go:290-303 | over any run every stored list is a prefix of every later one |
| IssuerRuns.IndexIsPermanent | internal/kyc/kyc.go:290-303 | the index returned by a success names its leaf for ever after |
| IssuerRuns.IssuePastCapacity | internal/kyc/kyc.go:290-303 | past 2^depth leaves issue still succeeds and returns the root that was there before it |
| IssuerRuns.RunsAreCanonical | internal/kyc/kyc.go:290-303 | after any run the file holds printed field elements |
| IssuerRuns.IssueSucceeds | internal/kyc/kyc.go:265-304 | over such a file issue succeeds exactly when its parameters stand for some holder and credential and its write is done |
| IssuerRuns.StoredLeafProves | internal/kyc/kyc.go:333-385 | buildProof succeeds for every stored leaf, duplicates included, with each field of the input the number it should be; within capacity its input passes exactly when expiry, issuer and address are in the field; past it only through a collision |
| IssuerRuns.IssuedThenProved | internal/kyc/kyc.go:265-385 | after any run of issue that fits the tree, every issued credential yields a proof input for the holder its address text spells, under the reported root, with nullifier Hash(secret, root), passing exactly when the numbers are in the field |
| Roles.Authority.Deploy | src/Roles.sol:73-79 | a zero owner is refused; otherwise it is owner and only agent, with both events |
| Roles.Authority.TransferOwnership | src/Roles.sol:91-95 | TransferOwnershipSpec's state and event or its revert; Calls.TransferOwnershipIsExact says what they are |
| Roles.Authority.SetAgent | src/Roles.sol:102-106 | SetAgentSpec's state and event or its revert; Calls.SetAgentIsExact says what they are |
| Registry.ComplianceRegistry.Deploy | src/ZKComplianceRegistry.sol:85-90 | zero addresses are refused; otherwise the initial state and log |
| Registry.ComplianceRegistry.RedeemProof | src/ZKComplianceRegistry.sol:105-125 | RedeemSpec's state and event or its revert; Calls.RedeemIsExact and RedeemReverts say what they are |
| Registry.ComplianceRegistry.SetRoot | src/ZKComplianceRegistry.sol:138-141 | owner-only root update with its event |
| Registry.ComplianceRegistry.Revoke | src/ZKComplianceRegistry.sol:148-151 | agent-only reset of the expiry with its event |
| Registry.ComplianceRegistry.Verified | src/ZKComplianceRegistry.sol:164-166 | verified exactly while the expiry lies strictly in the future |
| Token.KYCToken.Deploy | src/KYCToken.sol:80-87 | zero addresses are refused; otherwise an empty ledger |
| Token.KYCToken.Mint | src/KYCToken.sol:118-124 | gates and both checked additions in order, or a revert that undoes everything |
| Token.KYCToken.Approve | src/KYCToken.sol:134-139 | the caller's allowance replaced, with its event |
| Token.KYCToken.Move | src/KYCToken.sol:169-180 | MoveSpec's state and event or its revert; Calls.SendIsExact and TokenReverts say what they are |
| Token.KYCToken.Send | src/KYCToken.sol:146-149 | a move out of the caller's balance, exact by Calls.SendIsExact |
| Token.KYCToken.TransferFrom | src/KYCToken.sol:158-162 | the allowance spent, then the move; a refused move gives the allowance back; exact by Calls.SendFromIsExact |
| Token.KYCToken.SpendAllowance | src/KYCToken.sol:184-192 | an infinite allowance stays, a finite one is reduced or refused |
| Ledger.Chain.constructor | src/KYCToken.sol:80-87 | the contracts deployed together are the genesis world |
| Ledger.Chain.Submit | src/KYCToken.sol:118-162 | any transaction to the deployed contracts commits the world Execute gives or changes nothing |
| Calls.RedeemIsExact | src/ZKComplianceRegistry.sol:105-125 | a redemption commits exactly when root, caller, expiry and nullifier check out, all four signals are below the field order and the pairing accepts; it then spends the nullifier and sets the caller's expiry and nothing else |
| Calls.RedeemReverts | src/ZKComplianceRegistry.sol:105-125 | a refused redemption reports the first condition that fails, in the documented order |
| Calls.OutOfFieldChangesNothing | src/Verifier.sol:73-182 | a redemption with a signal outside the field changes nothing, whatever the pairing says |
| Calls.SetRootIsExact | src/ZKComplianceRegistry.sol:138-141 | commits exactly for the owner, with any root, and changes the root alone |
| Calls.RevokeIsExact | src/ZKComplianceRegistry.sol:148-151 | commits exactly for an agent, on any account, and resets that expiry alone |
| Calls.SendIsExact | src/KYCToken.sol:146-180 | a transfer commits exactly when the recipient is not zero, both expiries lie ahead and the balance suffices, and moves exactly the amount |
| Calls.SendFromIsExact | src/KYCToken.sol:158-192 | a pull commits exactly when that transfer would and the allowance is infinite or covers it, and draws on that allowance alone |
| Calls.MintIsExact | src/KYCToken.sol:118-124 | with supply conserved, a mint commits exactly for an agent, a verified non-zero recipient and a supply that fits, and credits it alone |
| Calls.MintInReach | src/KYCToken.sol:118-124 | in every state reachable from deployment a mint commits exactly then |
| Calls.ApproveIsExact | src/KYCToken.sol:134-139 | commits exactly for a non-zero spender and replaces that allowance alone, whatever it was |
| Calls.TokenReverts | src/KYCToken.sol:118-192 | a refused transfer, pull or mint reports the first condition that fails, in the order of the code |
| Calls.SetAgentIsExact | src/Roles.sol:102-106 | commits on either contract exactly for its owner and a non-zero account, which is then an agent exactly if that was asked, and nothing else changes |
| Calls.TransferOwnershipIsExact | src/Roles.sol:91-95 | commits on either contract exactly for its owner and a non-zero new owner, who then owns it, and nothing else changes, agents included |
| Calls.RedemptionsAreInField | src/ZKComplianceRegistry.sol:105-125 | in every run from deployment each redemption carried four field elements, so every spent nullifier and every expiry is below the field order |
| Calls.RolesAreAsCalled | src/Roles.sol:91-106 | in every run from deployment, on either contract, an account is an agent exactly when the last committed setting of it said so, or none did and it deployed the contract; the owner is the last one named, or the deployer |
| Conservation.MoveIsExact | src/KYCToken.sol:173-178 | with the total below 2^256 neither unchecked operation wraps, self-transfers included |
| Conservation.SupplyIsConserved | src/KYCToken.sol:64-66 | in every reachable state the balances add up to totalSupply, which is the sum of committed mints and below 2^256 |
| Conservation.UncheckedIsSafe | src/KYCToken.sol:118-180 | in every reachable state a committed transfer moves exactly the amount, and a gated mint panics exactly when the supply would overflow |
| Allowances.AllowanceLedger | src/KYCToken.sol:134-192 | over any run a finite approval equals what is left plus what was pulled since; an infinite one never changes and none becomes infinite by itself |
| Allowances.AllowanceInLog | src/KYCToken.sol:134-192 | in every reachable state an allowance is the last logged approval exactly when that is infinite or nothing was pulled under it |
| Replay.LogsReplay | src/ZKComplianceRegistry.sol:85-151 | in every reachable state the logs determine owner chain, agents, root, spent nullifiers, expiries, supply and balances as inflow minus outflow |
| Authorities.ChangesAreAuthorised | src/Roles.sol:14-106 | over any run no zero owner or agent appears, and every change, up or down, of roles, root, spent nullifiers, expiries, supply, balances and allowances is one its caller had the right to make |
| Compliance.OnlyVerifiedMove | src/KYCToken.sol:118-124 | a transaction that changes a balance finds its account verified |
| Compliance.BalanceChangeIsCompliant | src/KYCToken.sol:169-180 | such a transaction comes after a redemption expiring strictly later that no later redemption or revocation replaced |
| Compliance.FrozenWhileUnverified | src/KYCToken.sol:93-97 | over any stretch in which the account is unverified at each step its balance is constant |
| Compliance.LapseFreezes | src/ZKComplianceRegistry.sol:157-166 | after a lapse or revocation, as time goes on, the account stays unverified and its balance frozen until it redeems itself |
| Compliance.OnlyRevokingBreaksHolding | src/KYCToken.sol:93-97 | a transaction takes an account out of verified-or-holding-nothing exactly when an agent revokes it while it holds something |
| Compliance.OnlyExpiryBreaksHolding | src/ZKComplianceRegistry.sol:157-166 | time does so exactly by passing the expiry of an account that holds something |
| Compliance.HoldingIsKept | src/KYCToken.sol:93-97 | over any run from holding nothing, the account is verified or holds nothing around every transaction exactly when neither ever happens |
| Redemptions.HistoryIsSound | src/ZKComplianceRegistry.sol:105-125 | in every reachable state spent nullifiers are those of distinct redemptions that passed all checks, and each expiry is that of the account's latest redemption, logged and unrevoked since |
| Redemptions.SatisfiedPasses | circuits/kycpass.circom:73-118 | a witness satisfies every constraint at the deployed depth exactly when it passes the circuit |
| Redemptions.SingleSpend | src/ZKComplianceRegistry.sol:116-124 | over any run no nullifier residue is redeemed twice, nor any (secret, root) by provers who knew a witness |
| Redemptions.RefusedWhenSpent | src/ZKComplianceRegistry.sol:143-151 | an otherwise valid redemption is refused exactly when its nullifier was redeemed, which means the same secret under the same root or a collision, revocations or not |
| EndToEnd.PassHoldsCredential | circuits/kycpass.circom:46-62 | a passing witness under the issuer's root holds a listed credential at the position its path spells, or Inspect exhibits a collision or a zero leaf |
| EndToEnd.FileHoldsIssued | internal/kyc/kyc.go:290-303 | after any run the file holds the leaves of the issued credentials in order |
| EndToEnd.IssuedRootIsTreeRoot | internal/kyc/kyc.go:292-303 | the root a success returns is the root over everything issued so far |
| EndToEnd.VerifiedMeansCredentialed | src/ZKComplianceRegistry.sol:105-125 | in any run whose redemptions were under listed roots, a nonzero verifiedUntil is the expiry of the account's latest, unrevoked redemption and of a credential listed under the root current then, or a break of the hash is exhibited |
| EndToEnd.BalanceChangeIsCredentialed | src/KYCToken.sol:118-180 | no balance changes without such a redemption whose expiry is still in the future |
| EndToEnd.VerifiedMeansIssued | internal/kyc/kyc.go:265-304 | with roots returned by one run of issue, a nonzero verifiedUntil is the expiry of a credential issued by the call that returned the root, or a break of the hash is exhibited |
| EndToEnd.HonestHolderIsVerified | internal/kyc/kyc.go:265-385 | an issued credential whose root is published can be redeemed by the address its text spells and verifies it until exactly its expiry, unless spent already or colliding |
| EndToEnd.RevokedMayReturn | src/ZKComplianceRegistry.sol:143-151 | a credential listed under two roots, redeemed, revoked and redeemed again after the rotation, verifies again exactly when its two nullifiers differ, and otherwise they are a collision |
| Examples.UnverifiedMayHold | src/KYCToken.sol:93-97 | under any verifier and from any proof it accepts, a run after which an unverified account holds a balance |
| Examples.AllowancesAreNotLogged | src/KYCToken.sol:158-192 | under any verifier and from any proof it accepts, two runs with equal logs and different allowances |

## Left out

- The pairing and precompile assembly of src/Verifier.sol: acceptance is an arbitrary predicate behind the field-range check, and what a prover knew is a hypothesis about the redemptions made.
- The Poseidon permutation (internal/hash/hash.go, scripts/poseidon.js): an arbitrary deterministic hasher that may refuse inputs; a hasher whose answers change from call to call is not covered.
- The proof that the BN254 scalar field order is prime: a hypothesis wherever it is needed.
- circomlib's Switcher and Poseidon templates are not part of this model; Switcher is taken by its contract and Poseidon as the same hash function.
- Files, directories, JSON, permissions and the random source: the state file is one cell, and the outcomes of a write and of a draw are parameters. A torn write may leave anything, and statements over runs exclude it.
- What a witness generator makes of numbers outside the field: such an input is no assignment here.
- Text beyond the characters of numbers and prefixes: strings are sequences of characters, and error messages are error kinds.
- JavaScript numbers beyond exact integers, and non-integer indices.
- The command line, prover wrapper, circuit path configuration and main.go: process launching.
- Token name, symbol and decimals, and the return value true of the ERC-20 calls: constants.
- Deployment with a foreign identity registry: the token's registry is the modelled one.
- Gas, reentrancy through foreign contracts, reorganisations, zero-knowledge and trusted-setup questions.
