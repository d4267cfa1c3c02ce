# Verified model of soroauth

soroauth signs Soroban authorization entries (CAP-46-11, CAP-71-01, CAP-71-02). This project
models four parts of it in Dafny and proves what they are meant to keep.

1. **Signing over delegate trees.** An entry is a small state machine: a credential arm, a stored
   expiration and a tree of nodes that may hold signatures, all committed to one payload.
   `Authorize.dfy` specifies a call as a recursive map over the tree and refines it to the library's
   form, a private copy reached through a flattened list of pointers. `SigningRuns.dfy` proves the
   protocol's invariant over all runs; `Delegates.dfy`, `Batch.dfy`, `BatchSign.dfy`, `Verify.dfy`,
   `DiffPaths.dfy` and `Diff.dfy` cover building trees, ordered and concurrent batches, verification
   and comparison. `AuthorizeMeaning.dfy`, `BatchMeaning.dfy`, `BatchSuccess.dfy` and
   `DiffMeaning.dfy` say what calls, batches and reports do in terms of the entries, the signers'
   answers and the options alone, without the specification functions that the methods refine.
2. **The canonical codec.** `Canonical.dfy` has the document tree, encoder and decoder,
   `CanonicalRoundTrip.dfy` the round trip, `CanonicalSpelling.dfy` the converse, `CanonicalJson.dfy`
   the JSON nesting and the scan for repeated keys, `Text.dfy` the strict decimal, hexadecimal and base64 forms.
3. **The strict CBOR decoder** (section 3 of RFC 8949) in `Cbor.dfy` and the authenticator-data
   parser built on it in `AuthData.dfy`.
4. **Chains and framing.** `Chain.dfy`, `ChainMeaning.dfy`, `Ledger.dfy` and `WebAuthn.dfy`.

`Xdr.dfy` and `Preimage.dfy` hold the values that are signed. XDR encoding is an arbitrary injective
function of the value, SHA-256 is kept symbolic (equal digests are equal inputs), strkey text is
what it decodes to, and ed25519 is a key pair whose signatures verify. Signers, devices and
contexts are parameters: a signer's answer is a function of what it is asked, a device's answer a
function of everything it was sent, and cancellation an arbitrary observation at each point where
the library looks.

Two facts about the code differ from what its documentation says, and the model follows the code.
`WithMaxWorkers` is documented to default to the number of CPUs (batch_sign.go:16-18); the default is
one worker (batch_sign.go:73-76). The canonical encoding is documented to represent every value
(canonical.go:143-145); a `from_asset` preimage is refused, because a pointer is passed to a helper
that takes values (canonical.go:431 and 795-804), and a zero-length `bytes` value encodes to a
document its own decoder refuses (canonical.go:1690-1693). `EncodesExactly` and `RoundTrip` state
exactly when each happens. The decoder reads more spellings than the encoder writes, and
`ReencodesExactly` states which documents come back unchanged.

`dafny verify dfyconfig.toml` checks the whole project.

## Model

| member | source | states |
|---|---|---|
| `Xdr.FormatAddress` | address.go:103-133 | only account and contract addresses have a strkey form, and parsing that form gives the address back |
| `Xdr.AddressBytesInjective` | authorize.go:131-137 | two addresses have one encoding exactly when they are equal, so comparing encodings compares addresses |
| `Authorization.ValidateAcceptsOrdered` | delegates.go:271-306 | the delegate validation accepts exactly the trees that are strictly ascending by encoded address at every level and within the depth limit |
| `Authorization.ValidateDelegateLevel` | delegates.go:271-306 | the loop with its running previous encoding returns the first violation the specification names, duplicates and misorder told apart |
| `Authorization.WriteNodes` | authorize.go:346-423 | mapping one signature over the tree is mapping it over the flattened list of nodes: every node of the target gets it, no other node changes |
| `Authorization.DelegateNodesOf` | authorize.go:167-188 | the walk returns the pointers to every signature field, depth first, or the depth error |
| `Authorization.CredentialNodes` | authorize.go:195-216 | the pointers of an entry are its top-level field followed by those of its tree |
| `Authorization.CollectMatches` | authorize.go:351-356 | the collected pointers are exactly those of the nodes with the target's encoding |
| `Authorization.CheckPointers` | authorize.go:357-393 | the no-match, expiration and already-signed guards, read through the pointers, in the library's order |
| `Authorization.WriteThrough` | authorize.go:412-423 | assigning through the collected pointers and to the expiration field leaves the copy equal to the recursive map over the tree |
| `Authorization.AuthorizeEntry` | authorize.go:246-424 | the pointer-walking call returns exactly what the recursive specification returns and asks the signer exactly what it says is asked |
| `AuthorizeMeaning.SignedMeans` | authorize.go:113-125 | a value is a placeholder exactly when it is Void, a nil vector or an empty one |
| `AuthorizeMeaning.PreimageMeans` | preimage.go:86-142 | when a preimage exists and what it holds: the account's address on the address-bound arms, and not on the legacy one |
| `AuthorizeMeaning.WritesTheTarget` | authorize.go:287-424 | a successful call puts the signer's answer, over the payload the result rebuilds, on the nodes of the address ForAddress names, or of the signer's own address without it, and on no other node |
| `AuthorizeMeaning.SucceedsExactly` | authorize.go:246-424 | on an address entry a call succeeds exactly under conditions on its arguments, the nodes and the signer's answer that the caller could check beforehand |
| `AuthorizeMeaning.ResignExactly` | authorize.go:95-111 | where AllowResign without a scope lets a signed target be written, any options with the same ForAddress do so exactly when they allow it with no scope or one of whose texts parses to that address |
| `AuthorizeMeaning.ArgumentRefusals` | authorize.go:255-312 | which error a bad expiration, a missing signer, an unusable address or an unusable scope raises, in that order |
| `AuthorizeMeaning.OrderRefusal` | authorize.go:314-345 | a tree out of order is refused, with one of its three errors, before its nodes are looked at |
| `AuthorizeMeaning.FirstViolation` | delegates.go:271-306 | the first delegate of a level not above its neighbour is a duplicate if equal to it and misordered if not |
| `AuthorizeMeaning.NodeRefusals` | authorize.go:351-404 | no matching node, then another expiration, then an already signed target, then an empty passphrase: each raised exactly in its case |
| `SigningRuns.AuthorizeEffect` | authorize.go:395-424 | a successful call asks once, about the preimage whose payload the result rebuilds; every node of the target carries the one answer; address, nonce, invocation, arm and tree shape stay |
| `SigningRuns.RefusalAsksNobody` | authorize.go:246-410 | the signer is asked exactly when every guard passes, so a refusal raised by a guard asks nobody |
| `SigningRuns.StepKeepsCommitted` | authorize.go:363-423 | one UpgradeToV2, WithDelegates or AuthorizeEntry call keeps every signed node committed to the payload its entry rebuilds; values supplied to WithDelegates may be placeholders, not signatures |
| `SigningRuns.RunKeepsCommitted` | authorize.go:246-424 | the same over every run of calls, with any targets, expirations, signers and AllowResign scopes |
| `SigningRuns.RunFromUnsigned` | authorize.go:246-424 | in particular over every run from an unsigned entry |
| `SigningRuns.UnguardedWriteBreaks` | authorize.go:363-382 | without the expiration guard one write at another expiration breaks that invariant for every other signed node |
| `SigningRuns.WrapCommitsExactly` | delegates.go:191-266 | wrapping an unsigned entry leaves it committed exactly when the call fails or no value the caller supplied, at the top or at any depth, is signed: the one thing the invariant cannot cover |
| `SigningRuns.BuildSigned` | delegates.go:118-166 | a built tree carries a signature exactly when some descriptor, at some depth, brought one that is not a placeholder |
| `SigningRuns.UpgradeMovesPayload` | upgrade.go:28-87 | the upgrade moves the payload exactly of a legacy entry, which is why a signed one is refused |
| `SigningRuns.WrapMovesPayload` | delegates.go:177-266 | wrapping keeps the payload exactly of a V2 entry at the expiration it already stores, whatever the delegates |
| `Preimages.GetCredentials` | preimage.go:24-50 | address credentials exist on exactly the three address arms |
| `Preimages.PayloadCommits` | preimage.go:86-142 | one entry under two expirations or two networks never has one payload |
| `Delegates.SortDelegateLevel` | delegates.go:93-108 | sorting a level in place and scanning neighbours finds a repeat exactly when the level has one |
| `Delegates.SortOutcome` | delegates.go:93-108 | the sorted level is a permutation of the level in non-descending order, and repeats an address exactly when the level does |
| `Delegates.BuildDelegateNodes` | delegates.go:118-166 | the recursive build with its append loop returns what the specification returns, first error included |
| `Delegates.BuildAccepts` | delegates.go:118-166 | a build fails for an unparseable address, a repeat within a level or the depth limit and for nothing else, and its output passes the validation |
| `Delegates.BuildRealizes` | delegates.go:118-166 | a built tree has exactly one node per descriptor at every level, at its address, with its signature or Void |
| `Delegates.WithDelegatesOutcome` | delegates.go:191-266 | wrapping succeeds exactly on an unsigned legacy or V2 entry with a non-zero expiration and a buildable tree, keeps address, nonce and invocation, and yields a tree that realizes the descriptors and that AuthorizeEntry's order check accepts |
| `Delegates.UpgradeToV2` | upgrade.go:40-87 | the upgrade succeeds exactly on V2 and unsigned legacy entries, and changes nothing but the arm |
| `Delegates.BuildIsNormalForm` | delegates.go:93-166 | reordering descriptors at any level of the tree gives the same output, or fails as well |
| `Batches.CallOutcome` | authorize.go:246-424 | on an address entry a call succeeds exactly when its conditions hold and the tree is not committed to another expiration, and returns the written entry |
| `Batches.CallsCommute` | authorize.go:246-424 | any two calls at one expiration whose resolved targets differ commute, whatever their signers, ForAddress and AllowResign options: both orders fail or both give one entry |
| `Batches.SignersCommute` | batch.go:266-314 | in particular two signers of a batch with different addresses |
| `Batches.SignersReorder` | batch.go:266-314 | signing with signers of distinct targets gives one result for every ordering, or fails for every ordering |
| `Batches.SignersForEntry` | batch.go:18-57 | the matched signers are those whose address parses and names a node, in the order supplied |
| `Batches.AuthorizeAll` | batch.go:201-340 | the table-filling loops return what the specification returns: plans applied and used, signers matched and used, all entries or an error |
| `Batches.AuthorizeAllReorder` | batch.go:201-340 | AuthorizeAll succeeds for all orderings of signers with distinct addresses or for none, with one result |
| `BatchMeaning.MatchedMeans` | batch.go:18-57 | a signer is matched exactly when it is supplied and its address parses to that of some node |
| `BatchMeaning.AllMeans` | batch.go:201-340 | on success every entry comes back in its place, source-account entries as they were, every other wrapped if a plan names its address; each node of a supplied signer's address holds such a signer's answer over the payload the result rebuilds, every other what it was signed with; every plan is for some entry; with RequireAllSigned no node is unsigned |
| `BatchMeaning.PlanApplied` | batch.go:256-264 | in particular an entry whose address is a plan's key comes back on the delegates arm with the erased tree of that plan and its top signature where no signer wrote, and any other keeps its arm and erased tree |
| `BatchMeaning.UnmatchedMeans` | batch.go:286-300 | a plan that wraps no entry refuses the batch, and the plans so reported are exactly those |
| `BatchMeaning.SignAllFails` | batch.go:302-321 | phase two stops at the first entry that cannot be signed, with its error |
| `BatchMeaning.IncompleteNamesFirst` | batch.go:323-339 | RequireAllSigned reports the first entry that has an unsigned node |
| `BatchSuccess.SignEachExactly` | batch.go:311-314 | signing with one signer after another succeeds exactly when each signer's turn does, a turn being refused once an earlier signer for the same address has signed |
| `BatchSuccess.AllSucceedsExactly` | batch.go:201-340 | AuthorizeAll succeeds exactly when every entry can be planned, matched and signed and every plan wraps some entry; with RequireAllSigned, when no node of that result is unsigned |
| `BatchSigning.AuthorizeOne` | batch_sign.go:144-184 | the worker's loop over signers returns the specified result for one entry |
| `BatchSigning.StepKeepsInv` | batch_sign.go:88-108 | every step of every goroutine, one signer call being a step, keeps the pool's invariant: what is still to be signed completes what signing that entry alone returns, and slots hold that result |
| `BatchSigning.NeverMoreThanWorkers` | batch_sign.go:88-108 | on no schedule are more than maxWorkers entries, or one if that is smaller, being signed at once, and a waiting one can start exactly when fewer are |
| `BatchSigning.SomeStepEnabled` | batch_sign.go:88-108 | until every entry is done some goroutine can step, so the pool never blocks |
| `BatchSigning.TurnOnCourse` | batch_sign.go:144-184 | one turn of authorizeOne's loop keeps the loop invariant of its goroutine |
| `BatchSigning.ScheduleUsesSteps` | batch_sign.go:88-184 | every step uses up one of at most four per entry and one per signer and entry, so every schedule ends |
| `BatchSigning.Collect` | batch_sign.go:114-138 | the final loop reports the number of failures and the smallest failing index, or all results in input order |
| `BatchSigning.FailuresCounted` | batch_sign.go:114-126 | the number reported is that of the entries that failed |
| `BatchSigning.AllIsEachOne` | batch.go:201-340 | AuthorizeAll without options succeeds exactly when every entry alone does, with those results |
| `BatchSigning.AuthorizeBatch` | batch_sign.go:56-138 | for every complete schedule and worker count the batch returns exactly what AuthorizeAll returns, or both fail and the smallest failing index is reported |
| `Verification.ParseSignature` | verify.go:206-246 | the loop over the signature map reads what the specification reads, a later field replacing an earlier one |
| `Verification.ParseWritten` | signer.go:104-111 | what accountSignature writes parses back to the same key and signature |
| `Verification.ParseMeans` | verify.go:206-246 | a value parses to a key and a signature exactly when it is such a map and these are the last values under its two names |
| `Verification.VerdictMeans` | verify.go:377-422 | the four verdicts, each exactly when: Verified iff the address is an account and its value reads as a 32-byte key and a 64-byte signature that the curve accepts for this payload |
| `Verification.ReportMeans` | verify.go:296-359 | the report holds these verdicts, node by node, over the payload the entry rebuilds |
| `Verification.AllVerifiedMeans` | verify.go:102-109 | a report is Verified exactly when every node of the entry is |
| `Verification.VerifyEntry` | verify.go:296-359 | the loop over the nodes gives each its verdict in order, or the first error |
| `Verification.SignThenVerify` | verify.go:377-422 | after a successful ed25519 signing call every node of the target is verified and no other node's verdict changes |
| `Verification.SignThenReport` | verify.go:296-359 | the same for the report VerifyEntry returns, which succeeds after the call exactly when it did before |
| `Verification.SignEachVerifies` | verify.go:296-422 | after signing with one key after another the nodes of those keys are verified and the others keep their verdicts |
| `Verification.FullySignedVerifies` | verify.go:102-109 | an unsigned all-account tree signed once for each of its addresses signs without error and ends Verified |
| `DiffPaths.PathsAreUnique` | diff.go:156-213 | every signature-bearing node of an entry has a path of its own, repeated addresses at one level included |
| `DiffPaths.LevelPathsDistinct` | diff.go:164-191 | the same for one level and everything nested in it, whatever the prefix |
| `DiffPaths.PathsApart` | diff.go:171-180 | paths at or below two nodes with different addresses or different numbers never meet |
| `DiffPaths.DiffNodesOf` | diff.go:164-191 | the walk with its seen counters returns the specified paths, and fails exactly on an unrenderable address or below the depth limit |
| `DiffPaths.DiffNodes` | diff.go:196-213 | the nodes of an entry with their paths, none for source-account credentials |
| `Diffing.ChangeList.DiffInvocation` | diff.go:243-298 | the recursion appends exactly the specified changes, and fails exactly when the compared part is too deep or names an unrenderable contract |
| `Diffing.ChangeList.DiffContractFn` | diff.go:302-337 | the contract, name and argument changes appended are exactly the specified ones |
| `Diffing.InvocationChangesMean` | diff.go:243-337 | two invocation trees show a payload-affecting change exactly when they differ |
| `DiffMeaning.InvocationChangesAre` | diff.go:243-337 | the changes of two invocation trees are exactly those of the pairs of invocations that line up, each at the path its steps spell |
| `DiffMeaning.CredentialChangesAre` | diff.go:433-480 | one change per differing credential field, each with its own kind, path and effect on the payload |
| `DiffMeaning.PathsNameNodes` | diff.go:164-213 | the compared nodes are the credential nodes in order, with their signatures, each path ending in the node's address |
| `Diffing.DiffNodeSets` | diff.go:549-614 | the three loops over maps and order list pair nodes by path as specified |
| `Diffing.NodeChangesMean` | diff.go:567-612 | a path is reported added, removed or re-signed exactly when it is in one entry only, or in both with different signatures; the top-level node is never an added or removed delegate |
| `Diffing.NodeChangesDoNotAffect` | diff.go:581-611 | no change in a delegate tree or a signature is said to affect the payload |
| `Diffing.DiffEntries` | diff.go:418-540 | the report is the specified one, and fails exactly when the entries cannot be compared |
| `Diffing.NoChangeMissed` | diff.go:106-116 | PayloadChanged false implies equal payloads on every network |
| `Diffing.VerdictIsExact` | diff.go:433-520 | PayloadChanged says exactly whether the payloads differ unless a V2 and a delegates entry agree on every signed field, the one case flagged although the preimages are equal |
| `Diffing.SourceAccountVerdict` | diff.go:444-447 | between two source-account entries exactly a changed invocation is flagged |
| `Diffing.StaleListsExactly` | diff.go:121-130 | when the payload changed, the stale list names once each, and nothing but, the nodes signed with identical values in both entries |
| `DiffMeaning.SignaturesChangedExactly` | diff.go:549-614 | SignaturesChanged says exactly whether some node of both entries holds different signatures in them |
| `Text.Uint64RoundTrip` | canonical.go:1718-1727 | the strict decimal decoder reads back every uint64 spelling the encoder writes |
| `Text.Int64RoundTrip` | canonical.go:1729-1738 | the same for int64, the most negative value included |
| `Text.DecodeUint64` | canonical.go:1718-1727 | only the one canonical spelling of a number is accepted |
| `Text.DecodeHex` | canonical.go:1704-1716 | only lower-case hexadecimal of the wanted length is accepted |
| `Text.HexRoundTrip` | canonical.go:1704-1716 | the strict hexadecimal decoder reads back what the encoder writes |
| `Text.DecodeBase64` | canonical.go:1690-1702 | only the padded canonical spelling is accepted, and never the empty text |
| `Text.Base64RoundTrip` | canonical.go:1690-1702 | the strict base64 decoder reads back the encoding of every non-empty byte string |
| `Canonical.AddressRoundTrip` | canonical.go:466-486 | every address, with or without a strkey form, comes back from its document |
| `Canonical.TextRoundTrip` | canonical.go:706-712 | every byte string comes back from its text document, valid UTF-8 or not |
| `Canonical.ExecutableRoundTrip` | canonical.go:441-464 | every executable comes back from its document |
| `CanonicalRoundTrip.ValEncodes` | canonical.go:500-704 | a value encodes exactly when the depth where it stands plus its height is within the limit |
| `CanonicalRoundTrip.ValRoundTrip` | canonical.go:1200-1472 | a value's document decodes at any depth where its height fits to that value, unless a bytes value in it is empty; otherwise it is refused |
| `CanonicalRoundTrip.InvocationRoundTrip` | canonical.go:934-1079 | the same for invocation trees, with the depth counter of the decoder started anywhere |
| `CanonicalRoundTrip.DelegatesRoundTrip` | canonical.go:907-932 | the same for delegate trees |
| `CanonicalRoundTrip.EncodesExactly` | canonical.go:152-344 | an entry has a canonical document exactly when its arm is known, no contract is created from an asset, and both trees are within the depth limit |
| `CanonicalRoundTrip.RoundTrip` | canonical.go:192-234 | an entry that encodes comes back from its document exactly when no bytes value in it is empty, over all credential, function and value arms; otherwise its document is refused |
| `CanonicalRoundTrip.EmptyBytesAreRefused` | canonical.go:1690-1693 | the failing case itself: a zero-length bytes value encodes and its document is refused |
| `CanonicalSpelling.TextSpelling` | canonical.go:1174-1186 | a text that decodes is written back as it was exactly when valid UTF-8 is spelt as utf8 and anything else as base64 |
| `CanonicalSpelling.AddressSpelling` | canonical.go:1131-1172 | an address that decodes is written back as it was exactly when it is not spelt as XDR although it has a strkey form |
| `CanonicalSpelling.ValSpelling` | canonical.go:1200-1472 | a value that decodes at a depth encodes again at that depth, and to the same document exactly when every address and text in it is in the encoder's spelling |
| `CanonicalSpelling.InvocationSpelling` | canonical.go:934-1079 | the same for invocation trees, where an asset preimage is never written back |
| `CanonicalSpelling.DelegatesSpelling` | canonical.go:907-932 | the same for delegate trees |
| `CanonicalSpelling.ReencodesExactly` | canonical.go:192-234 | a document that decodes is what its entry encodes to exactly when it is in the encoder's own spelling throughout, a test of the document alone |
| `CanonicalSpelling.OtherSpellingsAccepted` | canonical.go:1159-1167 | one document for which it is not: an account address spelt as XDR |
| `CanonicalJson.Reader.Scan` | canonical.go:1755-1803 | the token scan accepts a value exactly when no object in it repeats a key and it nests within the limit from where it stands, and then stops exactly after it |
| `CanonicalJson.Reader.ScanMembers` | canonical.go:1766-1786 | the object loop with its set of seen keys |
| `CanonicalJson.RejectDuplicateKeys` | canonical.go:1740-1753 | a document passes exactly when it is one clean value with nothing after it |
| `CanonicalJson.ValWithin` | canonical.go:500-704 | a value's JSON nests at most four levels per level of the value, plus four |
| `CanonicalJson.DocumentWithin` | canonical.go:1755-1759 | every emitted document repeats no key and nests at most 4 * 64 + 5 levels, within the scanner's 512 |
| `Cbor.DecodeItem` | attestation_cbor.go:57-166 | the recursive descent with its array and map loops computes the specified decoding |
| `Cbor.GetFinds` | attestation_cbor.go:36-43 | lookup finds a pair exactly when the key is there |
| `Cbor.DecodeOfEncode` | attestation_cbor.go:57-166 | every allowed spelling, of any argument width, decodes to its value whatever bytes follow |
| `Cbor.DecodesExactlySpellings` | attestation_cbor.go:53-166 | decoding succeeds exactly on inputs that begin with an allowed spelling, and returns its value and the exact remainder |
| `Cbor.SpellingsArePrefixFree` | attestation_cbor.go:53-166 | no allowed spelling is a proper prefix of another |
| `Cbor.NewPairsMeaning` | attestation_cbor.go:139-151 | checking each key against those before it is requiring int or text keys that are all distinct |
| `AuthData.ParseKeyMeaning` | attestation.go:413-445 | the looked-up parameters decide exactly whether the map is an EC2, ES256, P-256 key with these two 32-byte coordinates on the curve |
| `AuthData.ParsesExactlyLayouts` | attestation.go:337-408 | authenticator data is accepted exactly when it is the serialization of some valid layout (sections 6.1 and 6.5.1 of WebAuthn Level 2), with the fields that layout holds |
| `AuthData.LayoutIsUnique` | attestation.go:337-408 | no two valid layouts serialize to the same bytes, so the split is unique and explains every byte |
| `WebAuthn.VerifyChallenge` | webauthn.go:262-282 | the loop over the candidate spellings accepts exactly the six of them |
| `WebAuthn.AcceptsExactlySpellings` | webauthn.go:262-282 | a challenge is accepted exactly when the payload is not empty and it is one of its spellings: base64 in either alphabet with or without padding, hexadecimal in either case |
| `WebAuthn.ChallengeNamesOnePayload` | webauthn.go:262-282 | no challenge string verifies for two payloads of one length, 32 bytes among them, although six encodings are accepted |
| `WebAuthn.UnambiguousUnlessOneByte` | webauthn.go:262-282 | the exact lengths at which no two payloads of that length share a challenge: all but a single byte |
| `WebAuthn.CollidingLengths` | webauthn.go:262-282 | for all m and n, some challenge verifies for two different payloads of m and n bytes exactly when neither is empty and hexadecimal of the one is as long as unpadded base64 of the other |
| `Chains.IsMeansWraps` | chain.go:43-55 | the search of an error graph finds a sentinel exactly when some path of unwraps leads to it |
| `Chains.RefusalIsTerminal` | chain.go:212-222 | an error graph containing a policy refusal is terminal, and stays so marked transient or wrapped further |
| `Chains.TransientMeans` | chain.go:212-222 | a chain may move on exactly when the marker is in the graph and no refusal or rejection is |
| `Chains.MarkingMakesTransient` | chain.go:43-48 | marking an error makes it transient exactly when nothing in it refuses |
| `Chains.SkipFrom` | chain.go:195-199 | every signer from an index on is recorded as skipped, in order |
| `Chains.SignFallback` | chain.go:224-252 | on every path the log has one attempt per signer in index order, each what that signer's must be; a signer is asked exactly when all before it failed transiently without cancellation; the result is that of the first signer not moved past |
| `ChainMeaning.FallbackMeans` | chain.go:212-252 | whom a fallback call asks, what it returns and every log entry, from the answers, the context and what the errors wrap: it goes past a signer exactly when that one failed, the context is alive after the call, and the error is marked transient and wraps no refusal or rejection |
| `ChainMeaning.FallbackSignsExactly` | chain.go:224-252 | a fallback call returns v exactly when the first signer not passed over in that sense signs v |
| `Chains.SignQuorum` | chain.go:266-326 | the same for the quorum chain, with agreement, encodability and reachability |
| `ChainMeaning.QuorumMeans` | chain.go:266-326 | whom a quorum call asks and what it returns, said in the same way: an answer that is neither passed over nor in agreement ends the call there with its error |
| `ChainMeaning.QuorumLogMeans` | chain.go:266-326 | every log entry of a quorum call, said in the same way |
| `Chains.EndsOnce` | chain.go:224-326 | a chain ends at one place only, so the results above are determined |
| `Chains.DisagreesMeans` | chain.go:303-317 | comparing with the last agreed bytes is comparing with every signature so far |
| `Chains.QuorumSignsExactly` | chain.go:266-326 | without cancellation a signature comes back exactly when the answers before the first terminal, unencodable or disagreeing one hold `quorum` successes, so the cut-off loses none |
| `Chains.QuorumIsUnanimous` | chain.go:303-322 | the signature returned is the one exactly `quorum` signers gave, byte for byte |
| `Chains.RefusalEndsChains` | chain.go:86-99 | a refusal ends the chain that meets it, and the error returned for it ends any enclosing chain |
| `Ledger.EncodePath` | ledger.go:301-310 | the loop writes the length byte and four big-endian bytes per segment |
| `Ledger.SignPreimage` | ledger.go:213-265 | the APDUs sent are the 240-byte pieces of path then preimage, first and last flags on the first and last alone, up to the first one refused; a signature comes back exactly when all are accepted and the last answer is not empty; the loop terminates |
| `Ledger.ResponseMeans` | ledger.go:268-296 | data comes back exactly before the word 0x9000, and each refusal exactly from its status words |
| `Ledger.FramesAreFull` | ledger.go:213-259 | every APDU but the last carries 240 bytes of the stream |
| `Ledger.PiecesJoin` | ledger.go:242-259 | the data fields together are path then preimage, nothing lost or repeated |
| `Ledger.DeviceGetsPreimage` | ledger_test.go:82-98 | a device that drops the path and accumulates the chunks holds the whole preimage after the last APDU and is still waiting before it |

## Left out

- Authorization.AuthorizeEntry: hooks and metrics are not modelled, and a context cancelled while the signer runs is that signer's error.
- Batches.AuthorizeAll: cancellation is looked at once, on entry; the context passed down to each signing call is part of the signer.
- BatchSigning.AuthorizeBatch: the context is not cancelled during the batch, which is when the comparison with AuthorizeAll is meaningful.
- Verification.VerifyEntry: the context check between nodes is left out.
- Chains.SignFallback: the reason text of an attempt is left out; its outcome, index and error are kept.
- Diffing.DiffEntries: the From and To texts, the summary and note, and the sort of the finished list of changes are left out, so changes are listed in the order found; comparing encodings is comparing values.
- Delegates.SortDelegateLevel: the library's sort.Slice is modelled by insertion into a sorted list; any sort that keeps the nodes and orders them gives the same result on a level without repeats.
- Canonical.AddressRoundTrip: the canonical encoders and decoders build their lists in append loops; they are modelled as recursive functions on values. Each value object is its type and its list of fields, so that requireScValFields, which counts the fields present, becomes a test of that list.
- CanonicalRoundTrip.RoundTrip: the 8 MiB size limit on documents, JSON lexing and string escaping, and the XDR length limits that make an entry unencodable are left out.
- Nil XDR union arms: an empty address arm is one arm, `EmptyAddressArm`; nil bodies of other unions are not representable. The XDR deep copy is the identity.
- XDR byte layout, strkey base32 and checksums, SHA-256, ed25519 and P-256 arithmetic are library code, used only through injectivity and sign-then-verify.
- VerifyAll, ValidateDelegateOrder, AccountMultiSigner, retries, RequireAllSigned error texts: they repeat loops already modelled.
- Attestation statements, X.509 chains, client-data JSON and DER signatures: library code or plain field checks.
- NewFallbackSigner and NewQuorumSigner argument checks, and the Ledger's public-key request: single tests without a property that spans calls.
- threshold.go, frost, the network and custody clients, adapters, server, tree rendering, risk and policy checks, credential_nodes.go, coordinator.go, equal.go, planner, envelope and caches: input and output around calls that cannot be seen, presentation, or checks that would add only easy members.
