# A verified model of go-spacemesh's consensus and storage cores

go-spacemesh is the full node of the Spacemesh network. This project models, in Dafny, the
parts of it where state is kept consistent over long runs or where a fast form has to agree
with a simple one, and proves what those parts promise.

- **Marriages** (`Marriages`, `MarriageRuns`, `MarriageStore`). Identities marry by
  certificates inside ATXs. Storing an ATX merges marriage classes and spreads malfeasance over
  whole classes. Over every run of store, publish and receive transactions, classes are exactly
  the chains of overlapping marriage ATXs. A class is malicious as a whole or not at all as long
  as received proofs fit the tables, and it is stated exactly when they do.
- **Chain verification** (`ChainVerification`). The memoised, recursive check of an ATX's
  ancestors agrees with reachability: it succeeds exactly when everything reachable is sound,
  unless a PoST check is cut short, when failure need not be right, or an arriving ATX was marked
  valid although its chain is not, when success need not be. Both are stated exactly, over runs of
  arrivals and calls.
- **Beacon** (`VoteCodec`, `BeaconState`, `BeaconVotes`, `BeaconOrder`, `BeaconAgreement`). Margins
  over every run of messages, the vote vector codec, the threshold and coin decision, and agreement
  on the beacon of two nodes that receive messages in different orders.
- **Fetcher** (`FetchRequests`, `FetchBatches`, `FetchHashes`, `Scale`, `FetchStream`,
  `FetchBlobs`). The promise state machine, batching by peer, callback accounting, and the
  streamed writers and readers down to bytes. Lengths follow the section "Length and Compact
  Encoding" of the SCALE codec appendix of the Polkadot Protocol Specification.
- **Checkpoint recovery** (`Recovery`). The depth-first collection of own ATXs and the order in
  which they are preserved.
- **Rewards** (`Rational`, `Rewards`, `BlockRewards`). Building a block's reward list from the
  proposals, checking it, and paying it out.
- **ATX units and weight** (`AtxUnits`). What an accepted version 2 ATX counts, in 32- and
  64-bit arithmetic.
- **ATX index and event ring** (`AtxIndex`, `Ring`).

`Ids`, `Words` and `Sorting` are shared. Identifiers are byte strings of one length per kind; the model
uses the number that the bytes spell, which `Ids.CompareIsNumeric` justifies. Go maps are
enumerated in an arbitrary order (`Sorting.Enumerate`), so every result that must not depend
on that order is proved for all orders.

Objects that the source updates in place are classes whose methods are proved to perform a
step of a pure specification (`View() == Step(old(View()), …)`); what holds over all runs is
proved about that specification. What each step of it does is stated once more in terms of the
tables and messages alone, so that the laws do not rest on the specification's own definitions.

`dafny verify dfyconfig.toml` checks the project.

## Where the code and the promise differ

- A PoST check that is cut short, by a cancelled context or a closed verifier
  (activation/post_verifier.go:334-349), is an error like any other, and any error marks the ATX
  invalid for good (activation/validation.go:544-559).
  `ChainVerification.Validator.VerifyChain` states exactly when an answer is right all the same;
  `ChainVerification.CutShortForGood` is a sound ATX that stays marked invalid.
- A node that verifies PoSTs in full marks an ATX valid as it stores it, without looking at its
  chain (activation/handler_v2.go:139-141, activation/handler_v1.go:261-263).
  `ChainVerification.ArrivalMarkAgreesIff` states exactly when that mark is right,
  `ChainVerification.MarkedOnArrival` is a node restarted in that mode that answers valid for an
  invalid chain, and `ChainVerification.OneModeMarksWell` shows that a node which was always, or
  never, in that mode leaves no wrong mark.
- The chain check verifies every PoST of a merged ATX with the signer's identity and the units of
  the whole ATX (activation/validation.go:544-553), while on arrival each is verified with its own
  identity and units (activation/handler_v2.go:629-641). The model's `posts` are the verdicts of the
  chain check; that what passes on arrival passes there too is a premise of
  `ChainVerification.OneModeMarksWell` and of nothing else.
- A received malfeasance proof for one ID is stored as that of an unmarried node, and the IDs are
  read before the transaction that stores them (malfeasance2/handler.go:274-339).
  `MarriageRuns.ReceiveKeepsInvIff` and `MarriageRuns.ReadFitsIff` state exactly when the tables
  stay in order; `MarriageRuns.SelfMarriedExample` and `MarriageRuns.MergedMeanwhileExample` are
  runs in which they do not.
- The comment on `GetAtxs` (fetch/mesh_data.go:28) says an error is returned when an ATX could
  not be fetched. The code drops the errors of waiters whose context ended:
  `FetchHashes.CancelledLooksFine` shows a case and `FetchHashes.OkIffNoneCancelled` states
  exactly when success means that every hash was obtained.
- `addUnits` reports an overflow that its caller ignores (activation/handler_v2.go:562).
  `AtxUnits.UnitsCanBeDropped` gives an accepted ATX that loses units, and
  `AtxUnits.AcceptedUnits` states exactly when none are lost. `AtxUnits.WeightCanWrap` and
  `AtxUnits.AcceptedWeight` do the same for the unchecked sum of weights.
- A first-round vote list that repeats a proposal counts it repeatedly:
  `BeaconState.OneMessageBound` states exactly when one message stays within its voter's
  weight.
- `Data.Register` writes to a map that may not exist: `AtxIndex.Data.Register` states exactly
  when it panics.
- `collectOwnAtxDeps` copies into a map that does not exist when there is no own ATX:
  `Recovery.CollectOwn` states exactly when it crashes and `Recovery.CrashExample` is a case.
- `Ring.Iterate` on a ring that is not a copy reads every slot when exactly one entry was
  inserted: `Ring.OrderIsRecentIff`. All users iterate copies, for which
  `Ring.RunShowsRecent` holds without condition.
- `organizeRequests` adds an empty batch for a peer all of whose requests need their own
  protocol: `FetchBatches.PeerBatchesWellFormed`.

## Model

| member | source | states |
|---|---|---|
| Ids.CompareIsNumeric | checkpoint/recovery.go:236-238 | on byte strings of one length, lexicographic order and equality are those of the numbers the bytes spell |
| MarriageStore.ValidateMarriages | activation/handler_v2.go:379-410 | succeeds exactly when every certificate resolves, is signed and names a different identity; the result lists the identities in certificate order |
| MarriageStore.Tables.NewMarriageId | sql/marriage/marriages.go:27-42 | one more than the largest ID in use, 1 for an empty table |
| Marriages.NewIdIs | sql/marriage/marriages.go:27-42 | the new ID follows some ID in use, or is 1 |
| MarriageStore.Tables.Add | sql/marriage/marriages.go:44-70 | conflicts exactly when the node has a row with another ID, and then changes nothing |
| MarriageStore.Tables.UpdateMarriageId | sql/marriage/marriages.go:72-85 | renames one ID everywhere and touches nothing else |
| MarriageStore.Tables.AddCertificates | activation/handler_v2.go:983-1017 | new rows for unmarried members only; returns exactly the touched IDs and whether a named member is malicious |
| MarriageStore.Tables.MergeIds | activation/handler_v2.go:1018-1028 | every touched class ends with the smallest touched ID |
| MarriageStore.Tables.SpreadMalice | activation/handler_v2.go:1029-1046 | the whole class is marked, keeping proofs on file; reports whether a member's status changed |
| MarriageStore.Tables.CheckDoubleMarry | activation/handler_v2.go:789-828 | finds the first named node, in certificate order, that is married through another ATX, or none |
| MarriageStore.Tables.StoreAtx | activation/handler_v2.go:977-1073 | the loops over certificates, IDs and class members perform one step of the specification; any error leaves all tables as they were |
| MarriageRuns.StoredIff | activation/handler_v2.go:982-1073 | an ATX is stored, and known from then on, exactly when it is new, names distinct nodes and nothing else fails, and, if it is local, names no malicious node, none married through another ATX, and no proof is found; otherwise nothing changes |
| MarriageRuns.ProofForIs | activation/handler_v2.go:1060-1070 | the proof to publish: none if a named node is malicious, else the first one married through another ATX, else what the other checks found |
| MarriageRuns.RowsWritten | activation/handler_v2.go:995-1028 | a new row has the ATX, the place among the certificates and the signer; an old one keeps all but its marriage ID |
| MarriageRuns.MarkedByStore | activation/handler_v2.go:1029-1046 | storing makes exactly those malicious whom the ATX joins, if it names a malicious node, and keeps the proofs on file |
| MarriageStore.Tables.ProcessAtx | activation/handler_v2.go:75-158 | invalid certificates change nothing; valid ones give the store step for the identities they name |
| MarriageStore.Tables.PublishProof | malfeasance2/publisher.go:48-152 | records the proof for the node and marks every member of its class, keeping rows already there; rolled back for an unmarried node without an ATX to refer to |
| MarriageStore.Tables.ReadClass | malfeasance2/handler.go:274-289 | the node first and then every other member of its class, each once |
| MarriageStore.Tables.ReceiveProof | malfeasance2/handler.go:312-339 | performs the receive step: one ID as an unmarried node, several with the first one's marriage ID, none if that is not married |
| MarriageRuns.PublishedIs | malfeasance2/publisher.go:48-152 | a published proof is recorded, and exactly the node and its class are malicious besides those that were |
| MarriageRuns.ReceivedIs | malfeasance2/handler.go:312-339 | a received proof is recorded, and exactly the IDs read are malicious besides those that were, if there is one or the first is married |
| MarriageRuns.MergeIsExact | activation/handler_v2.go:983-1028 | two nodes share a class after a merge exactly when they did before or the ATX joins both; classes merge whole |
| MarriageRuns.MergeKeepsSmallest | activation/handler_v2.go:1018-1028 | the merged class keeps the smallest ID among those joined, and gets the new ID only when it joins none |
| MarriageRuns.RunKeepsInv | activation/handler_v2.go:977-1073 | over every run in which received proofs fit: classes are chains, malice is class-wide, malfeasance rows name the current class, a proof is on file for each malicious node, and the unique (ATX, index) constraint is never violated |
| MarriageRuns.RunKeepsMarriages | activation/handler_v2.go:983-1028 | over every run, whatever proofs are received: classes are chains and the unique (ATX, index) constraint is never violated |
| MarriageRuns.ReceiveKeepsInvIff | malfeasance2/handler.go:312-339 | storing a received proof keeps all of this exactly when nothing changes, or the node is unmarried, or the IDs are its whole class and more than one |
| MarriageRuns.ReadFitsIff | malfeasance2/handler.go:274-339 | IDs read at one point of a run and stored at a later one fit exactly when the node is malicious by then, or its class is unchanged and not the node alone |
| MarriageRuns.SelfMarriedExample | malfeasance2/handler.go:312-322 | after a marriage of one node to itself, a received proof leaves a row that does not name its class |
| MarriageRuns.MergedMeanwhileExample | malfeasance2/handler.go:274-339 | a marriage stored between reading and storing leaves a class half malicious |
| MarriageRuns.ClassesAreChains | activation/handler_v2.go:983-1028 | in every reachable table, whatever proofs are received, two identities share an ID if and only if a chain of stored marriage ATXs with overlapping members links them |
| MarriageRuns.MaliceIsClassWide | activation/handler_v2.go:995-1046 | in every state reached while received proofs fit, the class of a malicious node is malicious, rows point to it, and a proof against a member exists |
| MarriageRuns.NeverSplit | activation/handler_v2.go:1018-1028 | along every run classes never split and malice is never withdrawn |
| MarriageRuns.RepublishIffStatusChanges | activation/handler_v2.go:1029-1046 | the proof is gossiped again exactly when storing made some node malicious |
| MarriageRuns.DoubleMarriageIsPunished | activation/handler_v2.go:1060-1092 | at any point of any run, storing an ATX that names a married node and, after any other transactions, publishing the proof it yields leaves everyone it joins malicious |
| ChainVerification.ValidIffSoundChain | activation/validation.go:504-600 | the recursive verdict is valid exactly when every ATX reachable through followed references is exempt or has only valid PoSTs |
| ChainVerification.CheckIs | activation/validation.go:504-574 | golden, early or trusted ATXs are valid; others by their PoSTs and then by the verdicts on what they refer to; a missing or unloadable one is another error |
| ChainVerification.AdmissibleIff | activation/handler_v2.go:337-369 | an ATX is stored exactly when it is new and everything it refers to is stored and earlier |
| ChainVerification.Validator.VerifyChain | activation/validation.go:504-574 | with PoST checks cut short at will, and from any marks: no mark is flipped and a cut among this call's checks answers invalid chain; if positive marks are right a valid answer is right and they stay right; if all are, the answer is that of the plain definition exactly when none of this call's checks is cut or the chain is invalid anyway, and without a cut marks agree afterwards; it terminates because references go to earlier epochs |
| ChainVerification.Validator.CheckPosts | activation/validation.go:544-559 | passes exactly when none of its checks is cut short and no PoST is bad; one is cut exactly when a cut comes before any bad PoST |
| ChainVerification.CutShortForGood | activation/validation.go:504-574 | a sound ATX whose single check is cut once: marked invalid, and every later answer is invalid chain |
| ChainVerification.Validator.VerifyDeps | activation/validation.go:576-600 | the same for a list of dependencies |
| ChainVerification.Validator.RunEvents | activation/validation.go:413-429 | over any sequence of arrivals and calls from a consistent state: as long as no arrival left a wrong mark a valid answer means a sound chain, and as long as no check was cut short either every answer is exactly what reachability says; a call with a cut answers invalid chain; marks are never flipped |
| ChainVerification.Validator.Store | activation/handler_v2.go:135-147 | stores an ATX that is new and passes the epoch checks, marked valid in full mode |
| ChainVerification.ArrivalKeepsChecks | activation/validation.go:504-600 | an arrival changes no verdict on a stored ATX |
| ChainVerification.ArrivalMarkAgreesIff | activation/handler_v2.go:139-141 | the mark written on arrival is right exactly when the ATX is exempt, or its PoSTs are good and everything it refers to has a valid chain |
| ChainVerification.OneModeMarksWell | activation/handler_v2.go:139-141 | from a checkpoint on, a node that is always in full mode, or never, leaves no wrong mark on arrival |
| ChainVerification.MarkedOnArrival | activation/handler_v2.go:139-141 | a node restarted in full mode answers valid for a chain that is not |
| ChainVerification.ArrivalsStayClosed | activation/handler_v2.go:337-369 | whatever ATXs arrive after a checkpoint, references stay stored and strictly earlier, thanks to the epoch checks |
| ChainVerification.ReachableVerdicts | activation/validation.go:504-600 | in every database built by arrivals, a check of a stored ATX ends in valid if its chain is sound and in an invalid chain otherwise, never in another error |
| VoteCodec.BytesRoundTrip | beacon/codec.go:10-20 | reading the bytes of a number gives the number |
| VoteCodec.BitIsDigit | beacon/codec.go:10-36 | a bit of the vector is a binary digit of its number |
| VoteCodec.EncodeVotes | beacon/codec.go:10-20 | bit i is set exactly when entry i of the list is supported; at most one byte per eight entries |
| VoteCodec.DecodeVotes | beacon/codec.go:22-36 | support and opposition are the entries at set and unset bits |
| VoteCodec.DecodeEncoded | beacon/codec.go:10-36 | decoding an encoded vector gives the support within the list and opposition to the rest, disjoint, repeats or not |
| VoteCodec.DecodedDisjointWithoutRepeats | beacon/codec.go:22-36 | any vector on a list without repeats decodes to disjoint sides that cover the list |
| VoteCodec.TruncatedIs | beacon/handlers.go:350-356 | the list is the valid and then the potentially valid proposals, up to the limit |
| VoteCodec.SendAndReceive | beacon/handlers.go:350-356 | sender and receiver cut the list to the same limit, so the receiver reads the opinion sent |
| BeaconState.State.AddVote | beacon/state.go:87-99 | moves the margin of one known proposal by the signed weight and ignores unknown ones |
| BeaconState.State.RegisterVoted | beacon/state.go:110-120 | succeeds exactly once per node and round |
| BeaconState.State.HandleProposal | beacon/handlers.go:190-204 | performs the proposal step; registering again resets the margin to zero |
| BeaconState.State.HandleFirstVotes | beacon/handlers.go:298-358 | performs the first-vote step: one message per node, weighted per list entry, list kept up to the limit |
| BeaconState.State.HandleFollowingVotes | beacon/handlers.go:433-497 | performs the following-vote step: one message per node and round, decoded against the node's own list |
| BeaconState.ProposalIs | beacon/handlers.go:190-204 | an active miner's first proposal gets a margin of zero and its category; others are ignored |
| BeaconState.FirstVoteIs | beacon/handlers.go:318-358 | an active miner's first vote moves a known proposal by its weight times valid minus potentially valid listings, and its list is kept; others move nothing |
| BeaconState.FollowingVoteIs | beacon/handlers.go:444-497 | a later vote of a miner with a list moves a known proposal up by its weight if supported, down if opposed; others move nothing |
| BeaconState.RunMargins | beacon/state.go:59-120 | after any run, a proposal's margin is the signed weight of the votes counted since it was last registered |
| BeaconState.RunCountsOnce | beacon/handlers.go:546-571 | in any run each miner is counted in at most one message per round, at its own weight |
| BeaconState.MarginBound | beacon/handlers.go:318-358 | if first-round messages are balanced for a proposal, its margin never exceeds rounds times total weight |
| BeaconState.WithoutRepeatsBalanced | beacon/handlers.go:318-358 | a message without repeats is balanced |
| BeaconState.OneMessageBound | beacon/handlers.go:318-358 | one message stays within its voter's weight exactly when it is balanced or weightless |
| BeaconOrder.ReorderedSame | beacon/handlers.go:318-358 | proposals, or votes, reordered across miners lead to the same state |
| BeaconOrder.SameMargins | beacon/state.go:59-120 | the same proposals and then the same votes, each miner's in sequence, give the same margins |
| BeaconVotes.CalcVotes | beacon/votes_calc.go:11-46 | margins at least the threshold support, at most its negative oppose, the rest are undecided, in any order |
| BeaconVotes.TallyUndecided | beacon/votes_calc.go:57-65 | the coin adds all undecided proposals to one side |
| BeaconVotes.ConsensusPhase | beacon/beacon.go:934-1043 | ends with the votes of the last round exactly when every needed coin is known and the context ends no wait, and sends in each round the votes of the round before |
| BeaconVotes.RoundDecides | beacon/votes_calc.go:26-65 | a proposal is supported from the threshold up, opposed from its negative down, and in between as the coin falls |
| BeaconVotes.FirstRoundDecides | beacon/votes_calc.go:26-39 | the first round has no coin, and unknown proposals are never voted on |
| BeaconVotes.NeverOpposite | beacon/votes_calc.go:26-39 | nodes whose margins differ by less than twice the threshold never decide opposite ways before the coin |
| BeaconVotes.AgreeIffCoinMatches | beacon/votes_calc.go:57-65 | such nodes end a round with equal votes exactly when the shared coin matches every one-sided decision |
| BeaconVotes.PhaseAgreement | beacon/beacon.go:934-1043 | the same for the whole phase, from the last round's margins |
| BeaconVotes.CanonicalOrder | beacon/proposal_list.go:16-22 | whatever order a set is enumerated in, sorting gives the one ascending list |
| BeaconVotes.CalcBeacon | beacon/beacon.go:840-852 | the beacon is the hash of the support set in ascending order |
| BeaconVotes.RunProtocol | beacon/beacon.go:818-838 | no beacon without the coins, without a supported proposal or after the context ended, and otherwise the hash of the ascending support set of the last round |
| BeaconVotes.SameBeacon | beacon/beacon.go:823-852 | close nodes with a matching shared coin never compute different beacons, and the same one, or both none, if the context of neither ends |
| BeaconAgreement.LateVotesStayClose | beacon/handlers.go:444-497 | nodes that received the same proposals and then the same votes, in any orders that keep each miner's messages in sequence, and after that late votes of total weight below twice the threshold, stay close |
| BeaconAgreement.LateVotesSameBeacon | beacon/beacon.go:823-852 | and compute the same beacon when the coin matches every one-sided decision |
| FetchRequests.RunKeepsInv | fetch/fetch.go:628-699 | over every run: queued and ongoing hashes are disjoint, a promise is open exactly when its request is in one of them, none completes twice, none is requeued more than the limit |
| FetchRequests.OutcomesLast | fetch/fetch.go:628-684 | whatever happens later in a run, a completed promise keeps its outcome |
| FetchRequests.CallersShareOnePromise | fetch/fetch.go:982-1033 | asking again for a pending hash changes nothing, and a step keeps its promise or completes it once |
| FetchRequests.PromiseLasts | fetch/fetch.go:982-1033 | at any later point of a run a pending hash still has the same promise, or that promise has completed exactly once |
| FetchRequests.NoReplacement | fetch/fetch.go:628-699 | no step replaces the promise of a pending hash |
| FetchRequests.Fetcher.GetHash | fetch/fetch.go:982-1033 | the get step; returns no promise exactly for local data, and otherwise the one that is pending |
| FetchRequests.Fetcher.GetUnprocessed | fetch/fetch.go:686-699 | moves all queued requests and returns each exactly once with its hint |
| FetchRequests.Fetcher.HashValidationDone | fetch/fetch.go:628-644 | the completion step |
| FetchRequests.Fetcher.FailAfterRetry | fetch/fetch.go:646-684 | the retry step: complete from local data, requeue, or fail after the limit |
| FetchRequests.Fetcher.HandleHashError | fetch/fetch.go:961-980 | fails exactly the ongoing hashes of the batch |
| FetchRequests.GetHashIs | fetch/fetch.go:982-1033 | a hash that is neither local nor pending is queued with its hint and an open promise; otherwise nothing changes |
| FetchRequests.ValidationTells | fetch/fetch.go:628-644 | a promise is fetched exactly if validation had no error and otherwise fails with that error; nothing else is touched |
| FetchRequests.RetryTells | fetch/fetch.go:646-684 | fetched if local, queued again while retries are left, and otherwise failed with the retry error; nothing else is touched |
| FetchRequests.BatchTells | fetch/fetch.go:961-980 | exactly the ongoing hashes named fail, with the cause given |
| FetchRequests.OtherStepsAre | fetch/fetch.go:686-699 | sending moves every queued request as it is, and a step on a hash that is not ongoing does nothing |
| FetchBatches.Compact | fetch/fetch.go:786-802 | in place: plain requests move to the front in order, the others become single batches, none is lost |
| FetchBatches.SplitPeer | fetch/fetch.go:786-814 | a peer's batches are the specified ones |
| FetchBatches.PeerContent | fetch/fetch.go:786-814 | a peer's batches hold exactly its requests |
| FetchBatches.PeerBatchesWellFormed | fetch/fetch.go:786-814 | each batch is one request with its protocol or at most the batch size of plain ones; one is empty exactly when all requests need a protocol |
| FetchBatches.GroupByPeer | fetch/fetch.go:770-782 | each picked peer gets its requests, in order |
| FetchBatches.RequestsForIs | fetch/fetch.go:770-782 | a peer has the requests it was picked for, each at its place in the order, and no other |
| FetchBatches.Organize | fetch/fetch.go:770-816 | exactly the picked peers get batches, each those of its requests |
| FetchBatches.OrganizeConserves | fetch/fetch.go:770-816 | over all peers the batches hold the multiset of requests, whatever peers were picked |
| FetchHashes.GetHashes | fetch/mesh_data.go:74-155 | for every mix of hits, refusals, cancellations and completion orders: one callback per position with its outcome, every slot released, gauge restored, and the errors by hash of exactly the hashes that failed |
| FetchHashes.ToldIs | fetch/mesh_data.go:89-147 | the callback hears no error exactly for an obtained hash, and otherwise the promise's, the context's or the stopping error |
| FetchHashes.OkIffNoneCancelled | fetch/mesh_data.go:123-155 | success means that every hash was obtained exactly when no waiter was cancelled |
| FetchHashes.CancelledLooksFine | fetch/mesh_data.go:123-155 | a cancelled waiter alone yields success without the hash |
| Scale.LenRoundTrip | codec/codec.go:181-189 | an encoded length decodes to itself whatever follows, and takes the computed size |
| Scale.EncodeLenIs | codec/codec.go:181-189 | mode in the low bits, value above it, least significant byte first, in one, two or four bytes, or a marker and four bytes |
| FetchStream.StreamIds | fetch/handler.go:182-227 | writes the response for the IDs, or an error only if nothing was written before |
| FetchStream.ReadIdSlice | fetch/mesh_data.go:567-587 | the loop reads what the byte-level definition says, inside the response frame |
| FetchStream.Frame | p2p/server/server.go:513-539 | a framed body is found at its place and the end after it is accepted |
| FetchStream.DeclaredSizeIsExact | fetch/handler.go:184-199 | the declared size is the body's exactly when that is below two to the 32 |
| FetchStream.IdsRoundTrip | fetch/handler.go:182-227 | the reader gets the same IDs in order, including none, and consumes exactly the response |
| FetchStream.IdsReadIffFits | fetch/mesh_data.go:567-587 | reading succeeds exactly when the body fits the declared size and the list is within the reader's limit |
| FetchStream.ErrorRoundTrip | p2p/server/server.go:507-539 | an error sent before the first ID arrives as sent |
| FetchStream.ErrorTooLong | p2p/server/server.go:513-539 | an error of more than 1024 bytes makes the response malformed |
| FetchBlobs.Measure | fetch/handler.go:405-428 | keeps, per hint, the IDs with a stored non-empty blob; count and size are those of the entries |
| FetchBlobs.FoundIs | fetch/handler.go:405-462 | an ID asked for has an entry exactly when a non-empty blob is stored, once per request and in order |
| FetchBlobs.OrderDoesNotMatter | fetch/handler.go:405-462 | count and size do not depend on the order in which hints are visited |
| FetchBlobs.WriteBlobs | fetch/handler.go:382-465 | although sizes come from one pass and data from another in a different order, what is written is a well-formed response |
| FetchBlobs.ReceiveBatch | fetch/fetch.go:872-940 | the loops read what the byte-level definition says |
| FetchBlobs.BlobsRoundTrip | fetch/fetch.go:872-940 | the client gets the same hashes and blobs in order and consumes exactly the response |
| FetchBlobs.BlobsReadIffFits | fetch/fetch.go:872-940 | for fewer than two to the 32 entries, each with a blob of fewer bytes than that, reading succeeds exactly when the body is below two to the 32 bytes |
| FetchBlobs.OtherBatchRefused | fetch/fetch.go:878-891 | the response to another batch is never accepted |
| Recovery.Collector.Collect | checkpoint/recovery.go:480-543 | success adds a set closed under references, all reached from the start; failure means something reached cannot be preserved; it terminates by epochs |
| Recovery.RefsAre | checkpoint/recovery.go:480-543 | what is followed: the commitment, positioning, previous and marriage ATXs, field by field |
| Recovery.PreservableIs | checkpoint/recovery.go:480-510 | what can be preserved: stored, not golden, with a blob of the first or second version |
| Recovery.NeedsIs | checkpoint/recovery.go:409-459 | what an identity needs: its last ATX or the commitment of a first one, and the positioning ATX of what it builds |
| Recovery.CollectedIsReached | checkpoint/recovery.go:480-543 | the set added is exactly what the start reaches outside what was known |
| Recovery.CollectDeps | checkpoint/recovery.go:464-478 | fails exactly when something reached cannot be preserved or lacks proofs |
| Recovery.ObstructedIs | checkpoint/recovery.go:464-510 | an obstacle is a reached ATX that is missing, golden, without a known blob or without proofs |
| Recovery.CollectOwn | checkpoint/recovery.go:401-462 | fails exactly when something an identity needs is obstructed, crashes exactly when not obstructed and only a new positioning ATX is to be preserved; otherwise preserves exactly what the needs reach, with everything it refers to |
| Recovery.CrashExample | checkpoint/recovery.go:429-459 | a first ATX being built on a positioning ATX outside the checkpoint makes the collection crash |
| Recovery.CollectAll | checkpoint/recovery.go:213-232 | the result is exactly what unobstructed identities reach, complete and enough for each; a crash exactly when some identity's collection crashes |
| Recovery.SortDeps | checkpoint/recovery.go:234-241 | sorting by ID and then stably by epoch lists every dependency once, strictly by (epoch, ID) |
| Recovery.OrderIsDeterministic | checkpoint/recovery.go:234-241 | the list does not depend on the order of the map |
| Recovery.DependenciesComeFirst | checkpoint/recovery.go:234-241 | every ATX follows all preserved ATXs that its commitment, positioning, previous and marriage fields name; other references are golden, empty or in the checkpoint |
| Recovery.Preserve | checkpoint/recovery.go:213-241 | the whole: exactly what unobstructed identities reach, in an order that respects dependencies; a crash exactly when some identity's collection crashes |
| Rewards.SumWeights | genvm/rewards.go:26-30 | the exact sum of the weights as numbers, or a division by zero exactly when a denominator is zero |
| Rational.LowestTerms | genvm/rewards.go:32-34 | a fraction is kept in lowest terms: only one divides both of its terms |
| Rewards.AddRewards | genvm/rewards.go:14-92 | divides by zero exactly under the stated condition and never reports overflow; every recipient gets its weight's part of the whole, rounded down, of total and of subsidy, and every balance grows by its credits modulo two to the 64 |
| Rewards.TotalWeightValue | genvm/rewards.go:26-30 | the total weight is the sum of numerators over denominators |
| Rewards.RewardsPayByWeight | genvm/rewards.go:31-66 | each reward is the amount times the recipient's number over the sum of all, rounded down |
| Rewards.CrashesIff | genvm/rewards.go:28-34 | division by zero exactly for a zero denominator or all-zero numerators |
| Rewards.SharesConserve | genvm/rewards.go:31-40 | shares sum to at most the amount, with less than one unit per recipient left |
| Rewards.BurnIsRounding | genvm/rewards.go:75-90 | rewards sum to at most the total and fewer units than recipients are burnt |
| Rewards.LayerWithinTotal | genvm/rewards.go:36-66 | each layer reward is at most the total reward when subsidy plus fees fit 64 bits |
| Rewards.SoleRecipient | genvm/rewards.go:36-66 | a sole recipient takes everything; for it the condition is exact |
| Rewards.LedgerGrowsByRewards | genvm/rewards.go:67-75 | over any accounts with all coinbases, repeated or not, holdings grow by exactly the rewards if and only if no balance wraps |
| BlockRewards.RewardInfo | blocks/utils.go:233-294 | succeeds exactly when every proposal resolves and no ATX repeats; height is the maximum and the list is strictly sorted with one reward per proposal; otherwise the first refusal is reported |
| BlockRewards.CountIs | blocks/utils.go:248-260 | the eligibility count is the proposal's own or that of the ballot it refers to |
| BlockRewards.WeightOfIs | blocks/utils.go:261-266 | a weight is the ATX's weight over the count, times the proofs |
| BlockRewards.RefusalIs | blocks/utils.go:241-275 | each error exactly under its condition |
| BlockRewards.FirstRefusalIs | blocks/utils.go:241-275 | the error reported is that of the first refused proposal |
| BlockRewards.ListIs | blocks/utils.go:277-293 | one reward per proposal, for its ATX and with its terms where they fit 64 bits, and no other |
| BlockRewards.SameProposalsSameInfo | blocks/utils.go:233-294 | any permutation of the proposals gives the same height and the same list |
| BlockRewards.OrderNeverDecides | blocks/utils.go:233-294 | and the same success or failure |
| BlockRewards.ValidateRewards | blocks/handler.go:121-141 | accepts exactly non-empty lists with non-zero terms and distinct ATXs |
| BlockRewards.GeneratedAcceptedIff | blocks/handler.go:121-141 | a generated list is accepted exactly when there is a proposal and no reduced numerator is zero modulo two to the 64 |
| BlockRewards.StoredExactly | blocks/utils.go:261-289 | for non-zero weight and proofs whose product fits 64 bits, the stored fraction is exactly weight times proofs over count and non-zero |
| BlockRewards.AcceptedNeverCrashes | genvm/rewards.go:28-34 | paying out an accepted list never divides by zero |
| AtxUnits.VerifyUnique | activation/handler_v2.go:496-507 | accepts exactly when no marriage index occurs twice over all NIPoSTs |
| AtxUnits.EquivocationSet | activation/handler_v2.go:413-441 | the signer alone or the members of its class, exactly when the marriage ATX is its own and two epochs old |
| AtxUnits.EquivocationDistinct | activation/handler_v2.go:413-441 | the signer is a member and members are distinct |
| AtxUnits.ValidatePreviousAtx | activation/handler_v2.go:320-335 | at most the previous units, at most the declared ones and one of both, or an error exactly for a bad index or unknown units |
| AtxUnits.EffectiveIs | activation/handler_v2.go:551-562 | an identity counts the lesser of previous and declared units, or the declared ones of a first ATX |
| AtxUnits.AddUnits | activation/handler_v2.go:463-470 | adds exactly when the sum fits 32 bits and otherwise leaves the count |
| AtxUnits.KeptIsTrueIff | activation/handler_v2.go:543-564 | a NIPoST's kept units are its true sum exactly when that fits 32 bits |
| AtxUnits.SumUp | activation/handler_v2.go:478-494 | accepts exactly when every product fits 64 bits and all units fit 32; units exact, weight modulo two to the 64 |
| AtxUnits.MinTicks | activation/handler_v2.go:474-476 | the least ticks of any NIPoST |
| AtxUnits.Validate | activation/handler_v2.go:510-660 | accepts exactly the acceptable ATXs, with the specified units, weight, ticks and identity data |
| AtxUnits.AcceptableIff | activation/handler_v2.go:161-247 | accepted exactly when the rules on its parts, on every post and on the numbers hold and the signer is counted, each in terms of the tables |
| AtxUnits.SizesAre | activation/handler_v2.go:543-602 | a NIPoST stands for the units kept of its identities and for its leaves over the tick size |
| AtxUnits.RecordsPosts | activation/handler_v2.go:606-645 | what is kept of each identity is what its post names |
| AtxUnits.CountedOnce | activation/handler_v2.go:619-645 | an accepted ATX counts no identity twice and records exactly the identities of its posts |
| AtxUnits.AcceptedUnits | activation/handler_v2.go:543-564 | effective units are the sum over identities of min(previous, declared), or declared when initial, exactly when no NIPoST's sum passes 32 bits |
| AtxUnits.AcceptedWeight | activation/handler_v2.go:478-494 | the weight is the exact sum of units times ticks, and at least units times minimum ticks, if that sum fits 64 bits, as it does for ticks up to two to the 32 |
| AtxUnits.UnitsCanBeDropped | activation/handler_v2.go:562 | an accepted ATX that counts fewer units than its identities have |
| AtxUnits.WeightCanWrap | activation/handler_v2.go:478-494 | an accepted ATX of two units and many ticks whose weight is zero |
| AtxIndex.Data.Register | atxsdata/data.go:46-60 | panics exactly when an unregistered node has an ATX in an epoch without lookup; otherwise enters one of its ATXs per epoch |
| AtxIndex.Data.EvictEpoch | atxsdata/data.go:72-91 | drops all epochs up to the given one, from both structures |
| AtxIndex.Data.AddAtx | atxsdata/data.go:111-138 | adds exactly when the epoch is not evicted and the ATX is new, and enters it for a signer |
| AtxIndex.AddIs | atxsdata/data.go:111-138 | an ATX is held as it is exactly if its epoch is not evicted and it is new; all others stay as they were |
| AtxIndex.EvictIs | atxsdata/data.go:72-91 | exactly the later epochs stay, as they were, in both structures |
| AtxIndex.MarkIs | atxsdata/data.go:175-179 | one node more is malicious and nothing else changes |
| AtxIndex.Data.GetByEpochAndNodeID | atxsdata/data.go:205-228 | finds an ATX of the node in the epoch exactly when one exists |
| AtxIndex.RunKeepsInv | atxsdata/data.go:46-138 | in every state of every run the lookup names only held ATXs of signers, covers every signer's epochs, and holds no evicted epoch |
| AtxIndex.EvictedStaysOut | atxsdata/data.go:72-91 | an evicted epoch never reappears |
| AtxIndex.LookupDecides | atxsdata/data.go:205-228 | in every state of every run the quick lookup lists a node exactly when it is a signer for which a scan finds an ATX, and names such an ATX |
| AtxIndex.RegisteredFirstNeverPanics | atxsdata/warmup.go:19-22 | registering a signer before adding its ATXs never panics, in any run |
| AtxIndex.LateRegistrationPanics | atxsdata/data.go:52-59 | registering the owner of the only added ATX panics unless its epoch was evicted |
| AtxIndex.Data.HighTicks | atxsdata/data.go:277-296 | exactly the non-malicious ATXs of the epoch, highest first |
| AtxIndex.Data.FindHighTick | activation/activation.go:1052-1088 | returns a highest ATX among the honest and valid ones; not found exactly when there is none; a cancelled search says so |
| Ring.Buffer.Insert | events/reporter.go:508-517 | the ring stays in step with its history |
| Ring.Buffer.Iterate | events/reporter.go:539-561 | hands over the slots in ring order up to the first refusal |
| Ring.InsertRepresents | events/reporter.go:508-517 | inserting advances first and last so that the ring holds the last entries of the longer history |
| Ring.LengthIsRecent | events/reporter.go:529-537 | the length is the number of entries to show |
| Ring.OrderIsRecentIff | events/reporter.go:539-561 | iterating a ring shows its recent history exactly unless it holds one entry and has room for more |
| Ring.CopyShowsRecent | events/reporter.go:519-527 | iterating a copy shows the recent history, always, and nothing else is copied |
| Ring.RunShowsRecent | events/reporter.go:495-561 | after any insertions into a ring of any size, a copy shows exactly the last of them, oldest first |

## Left out

- SQL, libp2p, gossip, HTTP clients, the filesystem and JSON: tables are maps, streams are byte sequences.
- Signatures, VRF, PoST, PoET and Merkle verification and hashing: fixed verdicts and functions given as parameters.
- Wall-clock waiting, logging, metrics and configuration.
- The beacon's floating-point thresholds, proposal eligibility and timeliness: the voting threshold is a non-negative integer, and a proposal's category is given.
- Beacons learned from ballots (`recordBeacon`, `findMajorityBeacon`).
- Shutdown of the fetcher, and the liveness of requests whose batch response is malformed.
- Hare, tortoise, transaction execution and selection, certificates.
- The parts of `storeAtx` that detect double publishing, double merging and invalid previous ATXs: whether they fail or yield a proof is a parameter of the store step.
- MarriageRuns.RunKeepsInv: runs begin with empty tables; the marriages that a checkpoint restores (checkpoint/recovery.go:299-303) are not modelled.
- MarriageRuns.RunKeepsMarriages: begins with empty tables likewise.
- MarriageStore.Tables.StoreAtx: the rows of posts are not modelled, and of `checkMalicious` only the double-marriage check is; whether the others fail or yield a proof is a parameter.
- MarriageStore.Tables.ProcessAtx: begins with the certificates; the syntactic checks and those of dependencies are not part of it.
- MarriageStore.Tables.ReceiveProof: validating a received proof and fetching what it refers to are not modelled.
- BeaconState.RunCountsOnce: the weights of miners are fixed in a run, whereas `OnAtx` (beacon/beacon.go:309-328) can add a miner during an epoch and replaces its entry, with it the malicious flag.
- BeaconAgreement.LateVotesStayClose: proposals precede votes, and the messages of one miner that both nodes have in common reach them in one order; all others count as late.
- BeaconVotes.RunProtocol: storing the beacon, which can fail, is not modelled.
- ChainVerification.Validator.RunEvents: the options are the same in a run, and an ATX that was stored can be loaded.
- FetchRequests.Fetcher.HandleHashError: error values are numbers; their texts and wrapping are not modelled.
- FetchHashes.GetHashes: each waiter ends in one step, at any point of the loop and in any order; the waiters' own locking is not modelled.
- Scale.LenRoundTrip: covers lengths below two to the 32; the decoder also accepts longer encodings of small numbers.
- FetchBlobs.BlobsReadIffFits: blobs of two to the 32 bytes or more are excluded; the writer cuts their length, and a reader can take the beginning of such a blob for the whole.
- FetchBlobs.WriteBlobs: begins with the IDs grouped by hint; blobs do not change between the two passes and can be loaded.
- FetchBlobs.ReceiveBatch: ends with the entries; handing them to the waiting requests is the completion step of `FetchRequests`.
- Recovery.CollectAll: PoET proofs are only looked up, not collected.
- Rewards.AddRewards: the subsidy comes from a library and is a parameter; errors of the account store are not modelled, and accounts are a map that is returned.
- BlockRewards.RewardInfo: lengths of proof lists are numbers; events are not modelled.
- AtxUnits.Validate: reports acceptance but not which error is returned; positioning, commitment and certificate checks have their own models or none, and the publication of an invalid-PoST proof is not modelled.
- AtxUnits.SizeNiposts: the sizes are built up as values, where the source updates one object per NIPoST.
- AtxIndex.Data.Register: what a panic leaves behind is not described, since the process ends.
- AtxIndex.Data.FindHighTick: the callback is part of the loop, verdicts do not change during a search, and locks are not modelled; what a cancelled search leaves behind in the marks is stated by `ChainVerification`.
- Ring.Buffer.Iterate: the callback is a function of the entry, and the entries it is given are returned.
