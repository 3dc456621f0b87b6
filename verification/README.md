# Verified core of Apohara Themis

A Dafny model of eight algorithmic cores of the repository, with proofs of what they
promise. Each is independent of the others:

- **Canonical JSON and bundle hashes** (Go SDK): `KeyOrder`, `CanonicalJson`, `BundleHash`.
  The printer does not depend on map order and is injective, shown by a parser that
  recovers every value from its text; so a row hash pins down its bundle.
- **Watermark detector** (Go SDK): `Watermark`. Closed-form error of the 32-step Newton
  root, soundness and near-completeness of the z-test, and the number theory of the green list.
- **Band bridge**: `BridgeStats` (lock-free counters), `BridgeHandles` (who owns the pipes),
  `ReplyCorrelation` (caller, reader thread and shim), each over every interleaving or history.
- **Evidence**: `HashChains`, `Retention`, `Evidence`. Appending, verifying, retention and
  sealing over whole runs of a service.
- **Agent guard**: `Glob` (greedy matcher against a declarative glob), `Redaction` with
  `TokenWalk`, `TokenMask` and `SecretNames` (noninterference of the audit log).
- **Prompt compressor**: `Compressor`, `Words`. Top-k under a strict order, nesting in the
  rate, chunking round trip, size bound.
- **Metrics**: `Metrics`. A ring and saturating counters against the full history of calls.
- **BAAAR consensus**: `Consensus`. The v1 gate, the weighted vote around it, and exact
  bounds on adversarial influence.

`Bytes`, `Text`, `Ascii`, `Division` and `Wrappers` hold what several of these share.

Code that updates state in place is a class or a method with a loop, proved against a
specification function; concurrent code is a state machine over its atomic steps. Hash and
signature functions are parameters. Where a result needs a hash without collisions, it is
stated as "or these two distinct inputs collide", so no hash function is excluded.

## Where the code differs from what is said about it

In each case the model follows the code, and the exact condition is proved.

- `HashChain::verify` does not check that entries are linked: it reads the carried hash only
  for an entry numbered 0. An accepted chain is one that appending produced if and only if its
  numbers and links, which a caller can check without hashing, are in order
  (`AcceptedAndLinked`). Otherwise entries of an accepted chain can be dropped, repeated and
  moved, as long as every entry numbered 0 fits where it stands (`RearrangedAccepted`,
  `DroppedEntryUnnoticed`, `UnlinkedEntryAccepted`). It also rejects a chain that appending
  produced if and only if an inner hash is all zeros (`BuiltVerifies`).
- `glob_match` is documented to match the full value. A pattern that does not end in `*`
  is rejected whenever some proper prefix of the text matches too (`GlobMatch`, `GreedyMissesMatch`).
- The redactor's comment lists `--password <val>`; the value is written out if and only if it
  would be copied as a token by itself (`SpacedPasswordCopied`, `SpacedPasswordsDiffer`).
- The same comment lists `-p<password>`. A value that starts with a dash is masked only if the
  whole token looks like an assignment to a secret-shaped name, and is copied otherwise
  (`ShortFlagExposed`, `DashedAssignmentMasked`).
- `requests_total` is documented as the number of `send_request` calls; it is that if and only if
  no call follows the first lost read or shutdown (`RequestsAreAllSends`, `SecondCallUncounted`).
- A finished socket call leaves its reference pending if and only if it returned on a stdin
  failure and was not answered all the same (`FinishedCallPending`, `EarlyReturnLeavesEntry`).
- The mean latency is documented over the last 1024 calls; its numerator sums all calls, so it is
  that mean if and only if the overwritten latencies sum to 0 (`AverageExact`,
  `SteadyLatencyDrifts`).
- A comment in `snapshot` gives the p95 index as floor(0.95 (n - 1)); the code takes
  floor(0.95 n). They agree if and only if n leaves remainder 1 when divided by 20, and are one
  apart otherwise (`P95AsCommented`, `P95OfTwo`).
- The consensus threshold is documented as robust for two faulty agents out of five. With the
  default weights it is, if and only if the fraud auditor is not one of the two (`TwoOfFive`,
  `RefusalOverturned`).
- The watermark comment hashes key and position; the code hashes a 40-byte buffer with four
  trailing zeros, which is never the commented input (`PrngInputPadded`).

No contradiction, but easily taken otherwise: `EvidenceService::verify` checks the packet and the
chain, and does not relate the two. `AcceptedExactly` says which packets it accepts;
`ForeignPacketAccepted` gives some that were never sealed.

## Model

| member | source | states |
|---|---|---|
| `KeyOrder.BeforeIffPrecedes` | sdk/go/verify.go:83 | one key is before another if and only if it is a proper prefix of it or has the smaller code point where they first differ |
| `KeyOrder.SortStringsSorts` | sdk/go/verify.go:83 | sorting distinct keys gives a sequence strictly increasing in that order |
| `KeyOrder.SortedUnique` | sdk/go/verify.go:79-83 | two strictly sorted sequences with the same elements are equal: enumeration order cannot show |
| `KeyOrder.SortedKeysIncrease` | sdk/go/verify.go:83 | of two sorted keys the earlier is a proper prefix of the later or smaller at their first difference |
| `KeyOrder.IncreasingIsSorted` | sdk/go/verify.go:79-83 | every enumeration in increasing order of code points is the sorted one |
| `CanonicalJson.DrawnThenSorted` | sdk/go/verify.go:79-83 | whatever order the map's keys are drawn in, after sorting they are the one sorted key sequence |
| `CanonicalJson.CanonicalMarshal` | sdk/go/verify.go:76-120 | the recursive printer computes one pure function of the value |
| `CanonicalJson.MarshalObject` | sdk/go/verify.go:78-102 | the object loop prints the members in key order, for every enumeration of the map |
| `CanonicalJson.MarshalArray` | sdk/go/verify.go:103-116 | the array loop prints the items in their order |
| `CanonicalJson.ObjectPrinted` | sdk/go/verify.go:78-102 | an object is its members in braces, with commas between them, in increasing order of the code points of their keys |
| `CanonicalJson.ArrayPrinted` | sdk/go/verify.go:103-116 | an array is its items in brackets, with commas between them |
| `CanonicalJson.EscapedExactly` | sdk/go/verify.go:89 | exactly which characters `json.Marshal` escapes, and in which form |
| `CanonicalJson.ParseCanon` | sdk/go/verify.go:76-120 | a recursive-descent parser recovers exactly the value and the rest from its canonical text followed by any delimited rest |
| `CanonicalJson.CanonInjective` | sdk/go/verify.go:76-120 | distinct values never share canonical text, nor is one a delimited prefix of the other |
| `BundleHash.VerifyBundleHash` | sdk/go/verify.go:20-52 | every error case and the verdict, for every decoded bundle, `null` included |
| `BundleHash.ComputeCanonicalHash` | sdk/go/verify.go:60-71 | the digest is the hash of the canonical text |
| `BundleHash.DigestDeterminesValue` | sdk/go/verify.go:54-71 | equal digests come from equal values or exhibit a collision |
| `BundleHash.SignedBundleVerifies` | sdk/go/verify.go:11-52 | a bundle whose row hash is the hash of the rest verifies, whatever the row hash was before |
| `BundleHash.TamperingDetected` | sdk/go/verify.go:11-52 | any other bundle with an accepted bundle's row hash is rejected, or a collision is exhibited |
| `BundleHash.ForeignRowHashRejected` | sdk/go/verify.go:25-51 | replacing an accepted row hash by another string is rejected |
| `Watermark.NewtonStep` | sdk/go/watermark.go:185-187 | from above the root a step stays above, does not increase, and cuts the residual to a quarter |
| `Watermark.Sqrt` | sdk/go/watermark.go:179-189 | for x > 0 the result satisfies 0 <= z*z - x <= (x/4 - 1)^2 / 4^31, otherwise it is 0 |
| `Watermark.PrngInputInjective` | sdk/go/watermark.go:99-101 | different positions are hashed as different inputs |
| `Watermark.PrngInputPadded` | sdk/go/watermark.go:88-103 | the hashed buffer is never the key followed by a position, as the comment has it |
| `Watermark.PrngInputLayout` | sdk/go/watermark.go:99-101 | key, position with its least significant byte first, four zero bytes |
| `Watermark.SeedBytes` | sdk/go/watermark.go:103-104 | the seed is the first four bytes of the digest, least significant first |
| `Watermark.GreenSizeExact` | sdk/go/watermark.go:94-97 | the size is floor(gamma V) if gamma V is at least 1, and 1 otherwise |
| `Watermark.GreenListForPosition` | sdk/go/watermark.go:93-111 | the buffer holds the green sequence of the position's seed, in 32-bit arithmetic |
| `Watermark.GreenEntryIsStride` | sdk/go/watermark.go:107-109 | each entry is the seed with 0x9E3779B1 added i times modulo 2^32, reduced to the vocabulary |
| `Watermark.OddCancels` | sdk/go/watermark.go:108 | an odd multiplier cancels modulo a power of two |
| `Watermark.GreenEntriesDistinct` | sdk/go/watermark.go:106-110 | for a power-of-two vocabulary, entries at different indices differ |
| `Watermark.GreenListCardinality` | sdk/go/watermark.go:94-110 | for every power-of-two vocabulary the green set has exactly floor(gamma V) members, or 1 if gamma V is below 1 |
| `Watermark.GreenEntriesCanCollide` | sdk/go/watermark.go:108 | with a vocabulary of three, wrap-around makes two entries equal |
| `Watermark.OnGreenList` | sdk/go/watermark.go:145-161 | finds the token exactly when it is in vocabulary and on the list of its own position |
| `Watermark.CountGreen` | sdk/go/watermark.go:143-162 | the count is the number of positions whose token is green there |
| `Watermark.GreenExactly` | sdk/go/watermark.go:144-162 | a position counts as green if and only if its token is one of the first wrapping sums of its own seed |
| `Watermark.ZScore` | sdk/go/watermark.go:164-170 | the score is the excess over a near root of the variance, with both directions of the threshold test |
| `Watermark.ExceedsMeans` | sdk/go/watermark.go:164-174 | the detection test and its slack written out in gamma, n, g and T |
| `Watermark.DetectWatermark` | sdk/go/watermark.go:120-176 | the three configuration errors exactly; detected implies (g - gamma n)^2 > T^2 gamma (1 - gamma) n with g > gamma n; conversely once the margin exceeds the Newton residual |
| `BridgeStats.PeakStep` | crates/themis-band-client/src/python_bridge.rs:339-350 | every atomic step keeps: peak never falls, is 0 or a recorded latency, and bounds every call past its loop |
| `BridgeStats.CountersStep` | crates/themis-band-client/src/python_bridge.rs:334-353 | every atomic step keeps the three counters equal to what the calls have contributed, modulo 2^64 |
| `BridgeStats.RunInv` | crates/themis-band-client/src/python_bridge.rs:332-355 | the invariant holds in every state of every interleaving of any number of calls |
| `BridgeStats.PeakMonotone` | crates/themis-band-client/src/python_bridge.rs:337-350 | the peak never decreases along any run |
| `BridgeStats.FinalCounters` | crates/themis-band-client/src/python_bridge.rs:332-355 | when all calls are done the peak is the maximum and the counters are the exact totals modulo 2^64 |
| `BridgeStats.FailedSwapRaises` | crates/themis-band-client/src/python_bridge.rs:341-349 | a failed compare_exchange strictly raises `current` |
| `BridgeStats.WorkDecreases` | crates/themis-band-client/src/python_bridge.rs:340-350 | every step of any call decreases the total remaining work |
| `BridgeStats.RunsTerminate` | crates/themis-band-client/src/python_bridge.rs:332-355 | every interleaving stops within the sum of 2 elapsed + 6 over its calls |
| `BridgeHandles.PythonBandBridge.SendRequest` | crates/themis-band-client/src/python_bridge.rs:229-329 | which handles are back in their slots, what is counted and what is answered, on every path |
| `BridgeHandles.PythonBandBridge.Shutdown` | crates/themis-band-client/src/python_bridge.rs:360-404 | all three handles are gone, the counters stay |
| `BridgeHandles.PythonBandBridge.RecordOutcome` | crates/themis-band-client/src/python_bridge.rs:332-355 | one request is counted, and an error if it failed |
| `BridgeHandles.DeadForever` | crates/themis-band-client/src/python_bridge.rs:246-251 | without one of its handles a bridge never serves or counts a request again |
| `BridgeHandles.ServedRequests` | crates/themis-band-client/src/python_bridge.rs:229-329 | in any history a request reaches the child if and only if no earlier operation lost a read or shut down |
| `BridgeHandles.RequestsCounted` | crates/themis-band-client/src/python_bridge.rs:229-355 | the request counter of any history, exactly |
| `BridgeHandles.ErrorsCounted` | crates/themis-band-client/src/python_bridge.rs:229-355 | the error counter of any history is the number of calls that reached the child and failed |
| `BridgeHandles.AnswersExactly` | crates/themis-band-client/src/python_bridge.rs:229-329 | what each call of any history is answered |
| `BridgeHandles.HandlesExactly` | crates/themis-band-client/src/python_bridge.rs:246-404 | which of the three handles are left after any history |
| `BridgeHandles.FatalExactly` | crates/themis-band-client/src/python_bridge.rs:246-404 | which operations end a bridge: a shutdown, a closed stdout, a timeout, a lost reader |
| `BridgeHandles.RequestsAreAllSends` | crates/themis-band-client/src/python_bridge.rs:94-95 | the counter is the number of calls, as documented, if and only if no call follows the first fatal operation |
| `BridgeHandles.SecondCallUncounted` | crates/themis-band-client/src/python_bridge.rs:94-95 | one timeout and one more call: two calls, one counted |
| `BridgeHandles.NextCallClosesStdin` | crates/themis-band-client/src/python_bridge.rs:246-251 | after a lost read the next call closes stdin too and reports a shutdown that did not happen |
| `ReplyCorrelation.StepInv` | crates/themis-band-client/src/socket.rs:171-317 | every step of caller, reader or shim keeps the protocol invariant |
| `ReplyCorrelation.RunInv` | crates/themis-band-client/src/socket.rs:171-317 | the invariant holds in every state of every interleaving |
| `ReplyCorrelation.SwapRemoveElements` | crates/themis-band-client/src/socket.rs:195-198 | `swap_remove` takes out exactly the found entry |
| `ReplyCorrelation.ReturnsOwnReply` | crates/themis-band-client/src/socket.rs:303-309 | a call returns only a reply carrying its own reference that the reader parsed and dispatched to it |
| `ReplyCorrelation.ReplyIsClaimed` | crates/themis-band-client/src/socket.rs:194-203 | a reply read before its call was swept after a timeout is claimed for it, and only then |
| `ReplyCorrelation.ClaimedReplyAtHand` | crates/themis-band-client/src/socket.rs:199-202 | while a call waits, its claimed reply is in the reader's hand or in its mailbox |
| `ReplyCorrelation.DivertedOnlyAfterTimeout` | crates/themis-band-client/src/socket.rs:280-287 | a reply is in the event channel only if its call timed out, lost only if its call returned without it |
| `ReplyCorrelation.DeliveredReplyFate` | crates/themis-band-client/src/socket.rs:199-202 | a reply dispatched to a call was taken by it, is in its mailbox, or is left there by a call that timed out |
| `ReplyCorrelation.ReplyLostOnlyAfterFailure` | crates/themis-band-client/src/socket.rs:303-316 | once a call is over, its reply was returned by it or the call had failed |
| `ReplyCorrelation.StdinStep` | crates/themis-band-client/src/socket.rs:288-302 | after any action stdin is there if and only if it was and the action is no failed write and no shutdown |
| `ReplyCorrelation.StdinExactly` | crates/themis-band-client/src/socket.rs:288-302 | over any run stdin is there exactly until the first failed write or shutdown |
| `ReplyCorrelation.StdinFailureHasCause` | crates/themis-band-client/src/socket.rs:293-300 | a call fails on stdin only if stdin was missing from the start, some write failed or a shutdown came |
| `ReplyCorrelation.CallServed` | crates/themis-band-client/src/socket.rs:262-309 | whenever nothing is pending an idle call can be served in six steps and leaves everything ready for the next |
| `ReplyCorrelation.AllServed` | crates/themis-band-client/src/socket.rs:262-309 | from any start with stdin, any number of calls in succession all return the replies to their own requests |
| `ReplyCorrelation.LinesConserved` | crates/themis-band-client/src/socket.rs:173-208 | every parsed line is counted once and goes to exactly one destination, in order |
| `ReplyCorrelation.PendingExactly` | crates/themis-band-client/src/socket.rs:281-316 | which references are pending, as an if and only if |
| `ReplyCorrelation.FinishedCallPending` | crates/themis-band-client/src/socket.rs:288-316 | a finished call's reference is still pending if and only if it failed on stdin and is unanswered |
| `ReplyCorrelation.EarlyReturnLeavesEntry` | crates/themis-band-client/src/socket.rs:293-300 | a run of two steps in which that happens |
| `HashChains.EntryHash` | crates/themis-evidence/src/chain.rs:225-231 | an entry hash is 64 characters |
| `HashChains.EncodeLayout` | crates/themis-evidence/src/chain.rs:227-229 | the hashed bytes are eight that spell the number, most significant first, then the previous hash, then the payload |
| `HashChains.EncodeInjective` | crates/themis-evidence/src/chain.rs:225-231 | the hashed encoding determines number, previous hash and payload |
| `HashChains.HashChain.AppendWithTimestamp` | crates/themis-evidence/src/chain.rs:153-173 | the chain grows by the next numbered, linked and hashed entry, which is returned |
| `HashChains.HashChain.Verify` | crates/themis-evidence/src/chain.rs:203-220 | the verdict is the fault of the first faulty entry, or none |
| `HashChains.VerdictMeans` | crates/themis-evidence/src/chain.rs:203-219 | which entry each kind of fault is reported for, and what is wrong with it |
| `HashChains.FirstIntact` | crates/themis-evidence/src/chain.rs:203-220 | the verdict is Ok if and only if no entry is faulty |
| `HashChains.BuiltIffReplayed` | crates/themis-evidence/src/chain.rs:153-173 | numbered, linked, correctly hashed chains are exactly those that appending produces |
| `HashChains.BuiltVerifies` | crates/themis-evidence/src/chain.rs:203-220 | an append-built chain verifies if and only if no entry but the last hashes to all zeros |
| `HashChains.AlteredPayloadsDetected` | crates/themis-evidence/src/chain.rs:203-220 | whatever payloads were altered, verify reports HashMismatch at the smallest altered index, or a collision is exhibited |
| `HashChains.TipDeterminesHistory` | crates/themis-evidence/src/chain.rs:153-173 | append-built chains with equal tips have equal histories, or two of their own entries collide |
| `HashChains.UnlinkedEntryAccepted` | crates/themis-evidence/src/chain.rs:207-217 | verify accepts a second entry with any non-zero previous hash |
| `HashChains.AcceptedAndLinked` | crates/themis-evidence/src/chain.rs:203-220 | over every chain: accepted with numbers and links in order if and only if append-built without an inner all-zero hash |
| `HashChains.RearrangedAccepted` | crates/themis-evidence/src/chain.rs:205-218 | entries of an accepted chain, dropped, repeated or moved, are accepted if and only if every entry numbered 0 carries the hash before it |
| `HashChains.DroppedEntryUnnoticed` | crates/themis-evidence/src/chain.rs:205-218 | cutting any later entry out of an accepted chain leaves it accepted |
| `Retention.WindowExact` | crates/themis-evidence/src/chain.rs:192-193 | the window does not wrap around if and only if months <= 3558399705 |
| `Retention.WrapCongruent` | crates/themis-evidence/src/chain.rs:193-194 | arithmetic wraps by multiples of 2^64 |
| `Retention.MonthsPrecedence` | crates/themis-evidence/src/chain.rs:49-57 | tenant setting before jurisdiction setting before default |
| `Retention.AgeExact` | crates/themis-evidence/src/chain.rs:181-199 | for times after the epoch the check compares the true age with the true window |
| `Retention.ExceededStays` | crates/themis-evidence/src/chain.rs:181-199 | once exceeded, exceeded at every later time |
| `Evidence.EvidenceService.RestoreChain` | crates/themis-evidence/src/packet.rs:229-231 | the chain is replaced, all else stays |
| `Evidence.EvidenceService.Seal` | crates/themis-evidence/src/packet.rs:251-357 | outcome and new chain for every request, in the source's order of effects |
| `Evidence.EvidenceService.Verify` | crates/themis-evidence/src/packet.rs:363-411 | every check in order, then the chain's verdict |
| `Evidence.SealEffect` | crates/themis-evidence/src/packet.rs:285-302 | a retention failure leaves the chain alone, any other outcome leaves it exactly one entry longer |
| `Evidence.SealOutcomeExactly` | crates/themis-evidence/src/packet.rs:285-302 | which outcome a seal has, retention before time stamp |
| `Evidence.RunExtends` | crates/themis-evidence/src/packet.rs:251-357 | any run of seals only extends the chain and keeps it append-built |
| `Evidence.SealedContentsValid` | crates/themis-evidence/src/packet.rs:363-405 | hash, key and signature of a sealed packet always check |
| `Evidence.SealedPacketsVerify` | crates/themis-evidence/src/packet.rs:251-411 | at every later state of any run a sealed packet verifies if and only if no inner hash is all zeros, and its chain length L points at entry L-1 with its payload |
| `Evidence.AcceptedExactly` | crates/themis-evidence/src/packet.rs:363-411 | a packet is accepted if and only if tenant, payload hash and signature under its own key check and the chain verifies by itself |
| `Evidence.RejectedExactly` | crates/themis-evidence/src/packet.rs:363-411 | for which packets each rejection is reported |
| `Evidence.ForeignPacketAccepted` | crates/themis-evidence/src/packet.rs:378-411 | a packet of another key for any payload is accepted exactly when the chain verifies |
| `Evidence.RetentionAbsorbing` | crates/themis-evidence/src/packet.rs:285-291 | with a clock that does not go back, after one RetentionExceeded every later seal fails the same way and the chain never grows |
| `Glob.GlobMatch` | crates/apohara-agentguard/src/config.rs:315-348 | without a star: substring; ending in a star: exactly the declarative glob; otherwise: the glob holds and no proper prefix matches |
| `Glob.PatternKinds` | crates/apohara-agentguard/src/config.rs:316-322 | which patterns are of which of the three kinds |
| `Glob.NextPart` | crates/apohara-agentguard/src/config.rs:331-342 | exchange argument: leftmost placement of each part ends no later than any placement |
| `Glob.MatchesByParts` | crates/apohara-agentguard/src/config.rs:320-323 | the declarative glob holds if and only if the star-free parts can be placed in order |
| `Glob.MatchedTo` | crates/apohara-agentguard/src/config.rs:344-347 | what the final cursor says about the whole text, both ways |
| `Glob.GreedyMissesMatch` | crates/apohara-agentguard/src/config.rs:332-346 | `*a` matches `aba`, but a proper prefix matches too, so the code rejects it |
| `Glob.IsAllowed` | crates/apohara-agentguard/src/config.rs:181-185 | a command is allowed if and only if some entry permits it |
| `SecretNames.SecretNameLength` | crates/apohara-agentguard/src/secrets.rs:11-43 | no secret-shaped name is shorter than three characters |
| `SecretNames.SecretNamesExactly` | crates/apohara-agentguard/src/secrets.rs:11-43 | the 24 table entries amount, in any letter case, to eight beginnings, five endings and two whole names |
| `SecretNames.PasswordFlagIsSecret` | crates/apohara-agentguard/src/secrets.rs:11-43 | the long password flag is itself a secret-shaped name |
| `TokenWalk.WalkTokens` | crates/apohara-agentguard/src/audit.rs:183-209 | the loop masks token after token, carries the flag and keeps all white space |
| `TokenWalk.WalkAppend` | crates/apohara-agentguard/src/audit.rs:190-207 | text is processed piecewise at white space, only the flag passing over |
| `TokenWalk.WalkSwapsToken` | crates/apohara-agentguard/src/audit.rs:190-207 | replacing a token by one masked alike changes nothing else, later state included |
| `TokenMask.AssignmentMasked` | crates/apohara-agentguard/src/audit.rs:312-327 | what a secret assignment becomes, in every state and for every value |
| `TokenMask.ShortFlagMasked` | crates/apohara-agentguard/src/audit.rs:295-309 | what `-pvalue` becomes |
| `TokenMask.ShortFlagExposed` | crates/apohara-agentguard/src/audit.rs:303-327 | what `-pvalue` becomes for every quote-free value: masked without a leading dash, otherwise treated as an assignment, otherwise copied |
| `TokenMask.DashedAssignmentMasked` | crates/apohara-agentguard/src/audit.rs:312-327 | `-p-NAME=value` is masked as an assignment when its name is secret-shaped |
| `TokenMask.TokenCopied` | crates/apohara-agentguard/src/audit.rs:214-246 | a token is copied if and only if, between its quotes, it has none of the masked shapes or is already masked |
| `TokenMask.SecretsMaskedAlike` | crates/apohara-agentguard/src/audit.rs:214-327 | in each of the five places a secret can stand, two values give the same masked token and flag |
| `Redaction.RedactSecrets` | crates/apohara-agentguard/src/audit.rs:183-209 | the redacted text is the walk of the masker from the initial state |
| `Redaction.AssignmentRedacted` | crates/apohara-agentguard/src/audit.rs:312-327 | for any plain value `NAME=value` becomes `NAME=***` if and only if the name has one of those beginnings or endings or is one of those names, and is copied otherwise |
| `Redaction.ShortFlagRedacted` | crates/apohara-agentguard/src/audit.rs:303-307 | `-pvalue` becomes `-p***` |
| `Redaction.HeaderRedacted` | crates/apohara-agentguard/src/audit.rs:265-291 | `Authorization:value` keeps nothing of the value |
| `Redaction.SpacedHeaderRedacted` | crates/apohara-agentguard/src/audit.rs:225-233 | `Authorization: value` likewise |
| `Redaction.BearerRedacted` | crates/apohara-agentguard/src/audit.rs:225-233 | `Authorization: Bearer value` likewise |
| `Redaction.HeaderSpelled` | crates/apohara-agentguard/src/audit.rs:269-270 | the header and the keyword in their usual spelling are such a header and keyword |
| `Redaction.RedactionHides` | crates/apohara-agentguard/src/audit.rs:183-327 | two commands that differ only in one secret value give the same text and the same later state |
| `Redaction.CommandsRedactedAlike` | crates/apohara-agentguard/src/audit.rs:183-209 | the same with the repository's own name tables |
| `Redaction.PasswordFlagHides` | crates/apohara-agentguard/src/audit.rs:296-300 | `--password=value` is one of the hidden places |
| `Redaction.HeaderRaisesFlag` | crates/apohara-agentguard/src/audit.rs:265-279 | after an optionally quoted `Authorization:` and any number of `Bearer` tokens, wherever in a command, the flag is up |
| `Redaction.BearerTokenHidden` | crates/apohara-agentguard/src/audit.rs:178-179 | so `Authorization: <token>` and `Authorization: Bearer <token>` are hidden places |
| `Redaction.SpacedPasswordExposed` | crates/apohara-agentguard/src/audit.rs:177 | `--password` followed by a space leaves what follows to be treated as any text |
| `Redaction.SpacedPasswordCopied` | crates/apohara-agentguard/src/audit.rs:177 | a password after a space is written out in full if and only if it has none of the masked shapes by itself |
| `Redaction.SpacedPasswordsDiffer` | crates/apohara-agentguard/src/audit.rs:177 | two such passwords are told apart in the output |
| `Redaction.PlainValueUntouched` | crates/apohara-agentguard/src/audit.rs:214-246 | any value without quotes, equals sign, header or short flag is one |
| `Redaction.TruncateBytes` | crates/apohara-agentguard/src/audit.rs:163-172 | the loop cuts at the last character boundary within the limit |
| `Redaction.TruncationIsPrefix` | crates/apohara-agentguard/src/audit.rs:161-172 | truncated text is the UTF-8 of a prefix, at most max bytes and at least max - 3 when cut |
| `Redaction.RecordWritten` | crates/apohara-agentguard/src/audit.rs:113-127 | when a record is written, and that its fields are those given |
| `Redaction.RecordHides` | crates/apohara-agentguard/src/audit.rs:113-127 | the written record is the same for two values of a hidden secret |
| `Redaction.RecordBounded` | crates/apohara-agentguard/src/audit.rs:124-127 | a written command was asked for, is at most 512 bytes, at least 509 when cut, and is a prefix of the redacted text |
| `Compressor.KeepCount` | crates/themis-compressor/src/classifier.rs:138 | rounding half away from zero: at most n, within half a word of (1 - rate) n |
| `Compressor.KeepCountMonotone` | crates/themis-compressor/src/classifier.rs:121-138 | a higher rate keeps no more |
| `Compressor.Partition` | crates/themis-compressor/src/classifier.rs:126-139 | forced positions, and the others ranked by length descending and position ascending |
| `Compressor.IndexIsRank` | crates/themis-compressor/src/classifier.rs:139 | a word's place in the sorted list is the number of words that beat it |
| `Compressor.TakeIsTop` | crates/themis-compressor/src/classifier.rs:140-141 | taking k from the sorted list gives the k best |
| `Compressor.TopUnique` | crates/themis-compressor/src/classifier.rs:136-141 | only one set of that size beats all the rest |
| `Compressor.SelectWordsToKeep` | crates/themis-compressor/src/classifier.rs:113-152 | keeps the forced words and the top ones, in document order |
| `Compressor.KeptBeatsDropped` | crates/themis-compressor/src/classifier.rs:126-141 | words with a force character are kept, and of the others every kept one is longer in bytes than every dropped one, or as long and earlier |
| `Compressor.PickAt` | crates/themis-compressor/src/classifier.rs:145-150 | each kept word stands after exactly the kept words before it |
| `Compressor.KeptSize` | crates/themis-compressor/src/classifier.rs:138-151 | how many words are kept, exactly |
| `Compressor.KeptNested` | crates/themis-compressor/src/classifier.rs:138-141 | a higher rate keeps a subset of the positions |
| `Compressor.ChunkingRoundTrip` | crates/themis-compressor/src/classifier.rs:85-100 | the chunks' words concatenate to the text's words |
| `Compressor.ChunksOfText` | crates/themis-compressor/src/classifier.rs:85-100 | for a positive size there are max(1, ceil(n / size)) chunks and each holds the words from its start on, every one but the last full |
| `Compressor.StartIsMultiple` | crates/themis-compressor/src/classifier.rs:96-97 | chunk i starts at word i * size |
| `Compressor.CompressText` | crates/themis-compressor/src/classifier.rs:157-169 | chunk, select and join |
| `Words.JoinAppend` | crates/themis-compressor/src/classifier.rs:166-168 | joining puts one space between |
| `Compressor.CompressedWords` | crates/themis-compressor/src/classifier.rs:164-168 | the output's words are the kept words of the chunks, in order |
| `Compressor.CompressionKeepsOrder` | crates/themis-compressor/src/classifier.rs:157-169 | the output is a subsequence of the input's words with all forced words |
| `Compressor.CompressionNested` | crates/themis-compressor/src/classifier.rs:157-169 | the output at a higher rate is a subsequence of the output at a lower one |
| `Compressor.CompressionSize` | crates/themis-compressor/src/classifier.rs:157-169 | the word count differs from forced + (1 - rate) unforced by at most half of max(1, ceil(n / size)) |
| `Metrics.MetricsState.RecordCall` | crates/themis-compliance/src/aiml_metrics.rs:157-178 | ring and counters stay those of the history with the call appended |
| `Metrics.RingNext` | crates/themis-compliance/src/aiml_metrics.rs:166-171 | overwriting one slot keeps the ring equal to the latest calls, wrapping included |
| `Metrics.RingIsWindow` | crates/themis-compliance/src/aiml_metrics.rs:186-195 | the filled part of the ring is, as a multiset, the last min(n, 1024) latencies |
| `Metrics.RunningIsTotals` | crates/themis-compliance/src/aiml_metrics.rs:159-177 | saturating call by call gives the saturated totals of the history |
| `Metrics.SuccessesCounted` | crates/themis-compliance/src/aiml_metrics.rs:160-162 | the successes are the number of successful calls |
| `Metrics.TokensAreSums` | crates/themis-compliance/src/aiml_metrics.rs:173-174 | the token totals are the sums over the calls |
| `Metrics.FirstModelNamed` | crates/themis-compliance/src/aiml_metrics.rs:176-178 | the model is that of the first call that names one |
| `Metrics.MetricsState.TakeSnapshot` | crates/themis-compliance/src/aiml_metrics.rs:184-214 | every field from the history; p95 is the order statistic of the window at min(floor(0.95 len), len - 1) |
| `Metrics.P95Index` | crates/themis-compliance/src/aiml_metrics.rs:197-201 | the index i satisfies 20 i <= 19 n < 20 (i + 1), so the cap at the last index never matters |
| `Metrics.P95AsCommented` | crates/themis-compliance/src/aiml_metrics.rs:197-201 | code and comment give the same index if and only if n mod 20 = 1, and are one apart otherwise |
| `Metrics.P95OfTwo` | crates/themis-compliance/src/aiml_metrics.rs:197-201 | of two samples the code reports the larger, the comment the smaller |
| `Metrics.OrderStatisticUnique` | crates/themis-compliance/src/aiml_metrics.rs:194-202 | that order statistic is one number |
| `Metrics.AverageExact` | crates/themis-compliance/src/aiml_metrics.rs:83-85 | the reported mean is the window's mean if and only if the overwritten latencies sum to 0 |
| `Metrics.SteadyLatencyDrifts` | crates/themis-compliance/src/aiml_metrics.rs:83-85 | n calls of one millisecond are reported as n / 1024 milliseconds once the ring is full |
| `Metrics.CostIsLinear` | crates/themis-compliance/src/aiml_metrics.rs:238-241 | the running cost is 3.15 and 15.75 dollars per million of the two token totals |
| `Consensus.Check` | crates/themis-agents/src/baaar.rs:208-228 | halts if and only if a condition holds, with the first one as its reason |
| `Consensus.CheckSac` | crates/themis-agents/src/baaar.rs:355-391 | a v1 halt is returned unchanged; approves if and only if v1 does and the weighted average reaches the threshold |
| `Consensus.VerdictReorders` | crates/themis-agents/src/baaar.rs:369-382 | the verdict does not depend on the order of the confidences |
| `Consensus.VerdictMonotone` | crates/themis-agents/src/baaar.rs:369-390 | raising confidences never turns an approval into a halt |
| `Consensus.ApprovalGuaranteed` | crates/themis-agents/src/baaar.rs:231-238 | every adversarial choice is approved if and only if v1 approves and (1 - a) c >= threshold |
| `Consensus.HaltGuaranteed` | crates/themis-agents/src/baaar.rs:231-238 | no adversarial choice is approved if and only if v1 halts, no weight is present, or (1 - a) c + a < threshold |
| `Consensus.DefaultTolerance` | crates/themis-agents/src/baaar.rs:319-334 | with default weights and honest unanimity, exactly which faulty groups cannot change the verdict |
| `Consensus.TwoOfFive` | crates/themis-agents/src/baaar.rs:301-303 | two faulty of five cannot force an approval if and only if the fraud auditor is not one of them, and never force a halt |
| `Consensus.RefusalOverturned` | crates/themis-agents/src/baaar.rs:301-303 | the auditor and one other get approved what three honest agents refuse |

## Left out

- HTTP backends, subprocess spawning, the Python shim, file append and CLI dispatch: plumbing around libraries. The shim is kept only as an environment that answers requests with their reference.
- BLAKE3, Ed25519, RFC 3161 and Rekor: hash and signature are function parameters, the time-stamping authority is an input of each seal.
- IEEE rounding, NaN and infinities: floats are reals throughout.
- Weak memory orderings: atomics are sequentially consistent.
- JSON decoding: the printer starts from decoded values, number leaves are the tokens `json.Marshal` prints, text is code points rather than UTF-8. The short escapes are those of Go 1.21 (`\n`, `\r`, `\t`).
- Watermark.DetectWatermark: does not return the `Confidence` label or the echoed configuration; the write-only `greenSet` cache is dropped.
- BridgeHandles.PythonBandBridge.SendRequest: mutex poisoning and latencies are not modelled here; latencies are in `BridgeStats`.
- BridgeHandles.PythonBandBridge.Shutdown: waiting for and killing the child is reduced to dropping the handle; `stats()` is not modelled.
- ReplyCorrelation.StepInv: the event channel never fills or closes, no mutex is poisoned, and the early refusal of a request that is no JSON object is left out. References are assumed distinct; the source takes them from the clock.
- Evidence.EvidenceService.Seal: serialization cannot fail, the Rekor entry, DSSE envelope, ISO fields and identifiers of the packet are left out, and a chain is assumed shorter than 2^63 entries.
- Redaction.RecordBounded: the JSON line around the command and the write itself are left out.
- Compressor.Partition and Metrics.SortSamples: insertion into a sorted sequence stands for the library's sort.
- Metrics.MetricsState.RecordCall: the `RwLock` makes calls atomic, so calls follow one another.
- Consensus.CheckSac: decoding the assessment from an agent's payload and the builder methods are left out.
- Consensus.VerdictMonotone: weights are non-negative, as in every gate the repository builds; nothing forbids others.
- `featherless_metrics.rs`: the same code as `aiml_metrics.rs`.
- Regex checkers, compliance mappers, reports, agents, prompts, presets and the kill-switch flags: fixed tables and field lists.
