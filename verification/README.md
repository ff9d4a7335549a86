# The fail-closed core of the Nexus SDK, modelled and proved

The SDK talks to a Gateway that runs in an enclave. It verifies which build runs there, encrypts
requests to the attested key, and checks for itself that what comes back is whole. This project
models the five places where that rests on state, order and time, and proves what each promises.

1. **Frames of the encrypted response.** `FrameFormat` says what a well-formed wire is, with a pure
   parser; `FrameGuard` is the resumable reader, as a class over a scripted byte stream
   (`ByteSource`) that may deliver short, empty, or data together with its end. Each call is proved
   to conserve a *debt*: the bytes still to be released and the reports still allowed.
   `FrameGuard.ReadToReport` is the resulting refinement over whole reads. `BoundedReader` is the cap
   on unencrypted problem bodies.
2. **Attestation, policy and sessions.** `TrustPolicy` holds policies as the code does, a header and
   a slice of shared release cells that validation writes to. `Attestation` decides about evidence.
   `PolicyRefresh` and `ConfidentialClient` are the classes around them. `SessionProtocol` is the
   same behaviour with any number of concurrent tasks, as a step system with a clock that never runs
   backwards; `SessionRefinement` shows that the client's methods, a whole exchange included, take steps
   of it, and `Revocation`,
   `Reverification`, `Provenance`, `SessionBooks` and `SessionRefusals` prove properties of all its runs.
3. **The streaming relay.** `DoneTracker` finds the terminating line of an event stream, `Relay`
   forwards the stream, `ProxyHandler` is one whole exchange with its request record,
   `ResponseWriter` is the in-process response writer, `StreamDelivery` interleaves handler, caller
   and cancellation, and `StreamRefinement` shows that the forwarding loop takes steps of it.
4. **The verification ledger.** `LedgerModel` describes it as a value and as a function of the full
   history, `Ledger` and `CappedLog` are the classes, `LedgerFile` the state file, and
   `FlushProtocol` the interleaving of flushes, records, failures and crashes.
5. **Signed releases.** `ReleaseManifest` derives a policy from manifests, `ReleaseOrder` is the
   stable sort by date, `ReleaseSource` the selection, the cache and the fallback.

Times and durations are integers in nanoseconds. Bytes are integers from 0 to 255. Digests,
signatures, the document verifier and the JSON decoder are functions handed in as `Foreign`,
`Signing` and `Codec`; the results hold for all of them. `Witnesses` holds concrete inputs for what is
claimed to happen. A method that draws on the network or the
clock takes what it is given there as parameters (`Attempt`, `Web`, `Try`).

What turned out differently from what one might expect:

- A non-EOF failure of the stream at a frame boundary shows as that failure or as a cut prefix,
  depending on delivery: as the failure exactly if the stream told it along with its last bytes
  (`FrameGuard.ReadSource`, over whole reads), and both happen (`FrameGuard.BoundaryStops`). It never
  shows as a clean end.
- A problem body of exactly 64 KiB is refused when the stream answers the probe for more with an
  empty read, and only then (`BoundedReader.ReadToReport`, `BoundedReader.ExactBodyCanBeRefused`).
- A rejected policy leaves the measurements in force alone exactly if it agrees with them on every
  shared release that its validation reaches (`TrustPolicy.PolicyHolder.SetPolicy`, `TrustPolicy.Reach`).
  So it does when it brings releases of its own, or when no text in force was rewritten behind the
  verifier's back; otherwise it may take them away (`TrustPolicy.RejectedAfterRewrite`). Production
  meets the condition: `ReleaseSource.Source.Policy` always brings new cells.
- Sessions outlive the policy that allowed them, by at most 150 seconds less two nanoseconds
  (`Revocation.RevokedBuildsExpire`), and the bound is met (`Revocation.BoundIsTight`,
  `Witnesses.BoundIsMet`).
- Two flushes at once can leave an older ledger on disk with nothing marked dirty
  (`FlushProtocol.ConcurrentFlushesDoGoBack`); one at a time cannot. The proxy does not keep to one at a
  time: at shutdown it flushes without waiting for the ticker's flush (`cmd/nexus-proxy/main.go:130-159`).
- Two fetched releases that name one revision make the policy fail after they were cached, without
  fallback (`ReleaseSource.Source.Policy`, `ReleaseSource.FetchedFailsOnlyOnDuplicates`,
  `Witnesses.DuplicatesCanBeFetched`).
- The comment at `policy_refresh.go:86-88` says that a refresh reports whether the policy changed;
  the code reports whether one was applied, and so does the model. The package comment of
  `internal/ledger/ledger.go` says that nothing is written to disk; `store.go` writes, and is modelled.

`dafny verify dfyconfig.toml` checks the whole project.

## Model

| member | source | states |
|---|---|---|
| FrameFormat.LengthRoundTrip | internal/confidential/frame_guard.go:179 | Every four-byte prefix is the encoding of the length read from it, so no two prefixes share a length |
| FrameFormat.HeaderOrder | internal/confidential/frame_guard.go:179 | Prefixes are ordered as their lengths are: the first byte in which two differ decides |
| FrameFormat.PayloadSplits | internal/confidential/frame_guard.go:138-142 | Passing part of a frame's ciphertext now and the rest later releases the same bytes with the same verdict |
| FrameFormat.EncodedFramesPass | internal/confidential/frame_guard.go:163-187 | The wire of any list of frames of 1 byte to 64 MiB is released whole and ends at a boundary |
| FrameFormat.FramesRoundTrip | internal/confidential/frame_guard.go:163-187 | The frames read back out of an encoding are the frames that were encoded |
| FrameFormat.ReleasedShape | internal/confidential/frame_guard.go:126-189 | What is released is whole valid frames and at most one cut frame behind its complete valid prefix; no part of a cut, zero or oversized prefix gets out |
| FrameFormat.RestDecides | internal/confidential/frame_guard.go:143-187 | The verdict is that of what follows the whole frames: nothing, a cut prefix, four zero bytes, a length above 64 MiB, or a cut frame |
| FrameFormat.AcceptedExactly | internal/confidential/frame_guard.go:143-187 | A wire is accepted to its end if and only if it is a concatenation of valid frames, and then nothing of it is withheld |
| FrameGuard.Reports | internal/confidential/frame_guard.go:143-186 | A clean end is reported only at a frame boundary of a stream that ended; for a stream that ends, exactly one report is possible |
| FrameGuard.FrameGuardReader.constructor | internal/confidential/frame_guard.go:104-111 | A new guard owes exactly what the reference parser releases of the wire |
| FrameGuard.FrameGuardReader.Read | internal/confidential/frame_guard.go:113-190 | Bytes handed over plus bytes still owed are the bytes owed before, the report is an allowed one, and at a boundary the one that the delivery calls for; the rest of the destination is untouched, and a call with room that reports nothing makes progress |
| FrameGuard.FrameGuardReader.Fill | internal/confidential/frame_guard.go:126-189 | The loop ends for every stream with finitely many empty reads, and stops early only with a report |
| FrameGuard.FrameGuardReader.CopyHeader | internal/confidential/frame_guard.go:128-136 | Releasing part of an accepted prefix pays that part of the debt |
| FrameGuard.FrameGuardReader.PassPayload | internal/confidential/frame_guard.go:138-161 | Ciphertext passes in order and never beyond its frame; an end inside it becomes a truncation report |
| FrameGuard.FrameGuardReader.NextFrame | internal/confidential/frame_guard.go:163-187 | A prefix is taken on only whole and in range; otherwise the matching report is given and nothing released |
| FrameGuard.LastTurns | internal/confidential/frame_guard.go:138-178 | When one read brings all that is left of a breaking stream and of its frame, the failure is reported as itself if that read tells it, and as a cut prefix if a later one does |
| FrameGuard.BoundaryStops | internal/confidential/frame_guard.go:138-178 | Each of the two reports occurs for a concrete stream |
| FrameGuard.ReadSource | internal/confidential/frame_guard.go:113-190 | For every stream and choice of destination sizes the output and the verdict are the reference parser's; where a breaking stream ends at a frame boundary, the report is its own failure exactly if that was told along with its last bytes, and a cut prefix otherwise |
| FrameGuard.ReadToReport | internal/confidential/frame_guard.go:113-190 | For every wire, delivery and choice of destination sizes, the bytes and the verdict are those of the reference parser; clean end if and only if the stream ended and the wire is valid frames |
| BoundedReader.BoundedReadCloser.Read | internal/confidential/frame_guard.go:79-98 | Delivers the stream in order up to the cap, then probes once for one byte more |
| BoundedReader.ReadToReport | internal/confidential/frame_guard.go:79-98 | At most 65536 bytes come through; shorter bodies come whole with the stream's own end, longer ones end in an error, and one of exactly that size is refused if and only if the probe meets an empty read |
| BoundedReader.ExactBodyCanBeRefused | internal/confidential/frame_guard.go:91-97 | That refusal happens for a concrete delivery |
| Hex.CanonicalIsLowerHex | internal/attestation/policy.go:184-187 | "Decodes and encodes back to itself" holds exactly for texts of lower-case digit pairs |
| Hex.CanonicalMeaning | internal/attestation/policy.go:184-187 | Canonical text spells its bytes, two digits for each, the first one counting sixteens |
| Hex.DigitsInOrder | internal/attestation/policy.go:184-187 | The sixteen digits stand for 0 to 15, and either letter case is read |
| Hex.ZeroTextIsZeroBytes | internal/attestation/policy.go:188-190 | A text decodes to zero bytes if and only if it consists of zeros |
| Hex.AllZero | internal/attestation/policy.go:194-200 | Or-ing bytes together detects exactly the all-zero string |
| TrustPolicy.DecodePCR | internal/attestation/policy.go:180-192 | Accepts exactly the 96-digit lower-case texts that are not all zeros |
| TrustPolicy.DecodePCRs | internal/attestation/policy.go:154-168 | Leaves decoded the measurements before the first improper one, and succeeds when there is none |
| TrustPolicy.ReleaseRules | internal/attestation/policy.go:150-192 | A proper release is a 40-digit revision and three 96-digit measurements, lower-case, none of them all zeros |
| TrustPolicy.PolicyRules | internal/attestation/policy.go:107-148 | An acceptable policy has exactly the fixed header values and one to four proper releases of pairwise different revisions |
| TrustPolicy.AfterValidateMeaning | internal/attestation/policy.go:150-168 | An improper revision leaves the decoded field, an improper first measurement empties it, and a proper release has all three of its measurements decoded |
| TrustPolicy.TableEntries | internal/attestation/policy.go:154-168 | Every decoded measurement has 48 bytes, not all zero |
| TrustPolicy.ReleaseCell.Validate | internal/attestation/policy.go:150-168 | Accepts exactly proper releases, and says what is left in the decoded field even when it refuses |
| TrustPolicy.ReachMeaning | internal/attestation/policy.go:136-146 | Validation reaches just past the first release that is improper or repeats a revision, and to the end when there is none |
| TrustPolicy.ReachExactly | internal/attestation/policy.go:107-148 | No release is validated if header or count are refused; otherwise all before the last one validated are proper and new, and that one is not unless it is the very last |
| TrustPolicy.NoneRefused | internal/attestation/policy.go:136-146 | No release is refused exactly in lists of proper releases with pairwise different revisions |
| TrustPolicy.ValidateReleases | internal/attestation/policy.go:136-146 | Accepts exactly lists of proper releases with pairwise different revisions, having validated exactly the releases that are reached; the cells beyond stay as they were |
| TrustPolicy.ValidatePolicy | internal/attestation/policy.go:107-148 | Accepts exactly the acceptable policies, and writes the decoded fields of exactly the cells that are reached, none if header or count are refused |
| TrustPolicy.NewHolder | internal/attestation/verifier.go:132-142 | A verifier exists only with an acceptable policy whose measurements are decoded |
| TrustPolicy.SharedCellsDecide | internal/attestation/verifier.go:371-374 | Validating one slice changes what another one holds exactly if it changes a cell that both share |
| TrustPolicy.PolicyHolder.SetPolicy | internal/attestation/verifier.go:367-379 | Replaces the policy if and only if it is acceptable; a rejected one leaves policy in force, and its measurements too if and only if, before the call, it agrees with them on the shared releases it reaches |
| TrustPolicy.RejectedAfterRewrite | internal/attestation/verifier.go:371-374 | Where it does not agree, rejecting a policy removes measurements that are in force |
| Attestation.FindRelease | internal/attestation/policy.go:171-178 | Finds the first release that names the revision, and nothing when none does |
| Attestation.ValidateInForce | internal/attestation/verifier.go:267-358 | Comparing against the measurements decoded when the policy was set gives the verdict that the policy's text calls for |
| Attestation.OnlyAccepts | internal/attestation/verifier.go:281-334 | The policy of one release alone accepts exactly what names that release, with the same evidence |
| Attestation.UnionLaw | internal/attestation/verifier.go:281-334 | A policy accepts evidence if and only if exactly one of its releases alone does: measurements of different releases never mix |
| Attestation.LargerPolicyAcceptsMore | internal/attestation/policy.go:136-146 | Acceptance survives adding a release with a new revision, and does not depend on the order of releases |
| Attestation.AcceptedExactly | internal/attestation/verifier.go:267-358 | Evidence is accepted if and only if it proves one pinned release: shared claims, digest, nonce, key, trusted chain, freshness, and the three measurements of that release |
| Attestation.AcceptedEvidence | internal/attestation/verifier.go:286-357 | Accepted evidence is the document, manifest, nonce, key and module that were fetched and signed, is fresh within 150 s, and shows all three measurements of the pinned release it names |
| Attestation.UnpinnedExactly | internal/attestation/verifier.go:277-284 | An unpinned release is reported exactly when digest and shared claims fit and no release names the revision; the signed document plays no part |
| Attestation.RejectionNamesAFault | internal/attestation/verifier.go:286-334 | Each rejection of a signed document names a fault that it has: chain or root, nonce, digest, key, date, or a measurement |
| PolicyRefresh.RefreshingVerifier.AllowRefresh | policy_refresh.go:62-70 | Grants and remembers a refresh unless one was granted less than five minutes before; a refusal changes nothing |
| PolicyRefresh.RefreshingVerifier.Refresh | policy_refresh.go:89-103 | Applies a policy if and only if the attempt was granted and brought an acceptable one; the policy in force changes in no other case |
| PolicyRefresh.RefreshingVerifier.Verify | policy_refresh.go:72-84 | At most one refresh and two verifications; any error but an unpinned release causes neither; the second verification is against the refreshed policy |
| PolicyRefresh.RefreshesAreSpaced | policy_refresh.go:62-70 | Consecutive granted attempts of any callers lie five minutes apart or more |
| PolicyRefresh.RefreshRate | policy_refresh.go:28-70 | Any stretch of length d holds at most 1 + d / 5 min attempts, failed ones included |
| PolicyRefresh.RefusedOnlyWhenRecent | policy_refresh.go:62-70 | Whoever passes the gate starts a refresh, or one was started less than five minutes before |
| PolicyRefresh.AcceptedInTime | internal/attestation/verifier.go:317-344 | Evidence accepted with the production limits is at most 120 s old or dated 30 s ahead, and expires 120 s after its date |
| ConfidentialClient.Client.SessionFor | internal/confidential/client.go:147-196 | Hands out the cached session while fresh, changing nothing; otherwise exactly one ledger entry, and a new session if and only if the evidence is still valid and usable; failure leaves the cache |
| ConfidentialClient.Client.RecordOutcome | internal/confidential/client.go:155-183 | Exactly one ledger entry, verified if and only if the evidence is still valid and its key usable |
| ConfidentialClient.Client.Adopt | internal/confidential/client.go:155-195 | A verified outcome becomes the session, any other leaves the cache; the policy in force is not touched |
| ConfidentialClient.Client.Reverify | internal/confidential/client.go:98-103 | Success means a session that did not exist before the call; failure leaves no session cached |
| ConfidentialClient.Client.Do | internal/confidential/client.go:108-145 | Names the key that was used, also on failure; after a key configuration error no session is cached, after any other exchange all is as the call for the session left it; no second attempt |
| ConfidentialClient.Client.Invalidate | internal/confidential/client.go:198-204 | Removes the session that failed and no other |
| ConfidentialClient.SessionForMeaning | internal/confidential/client.go:147-196 | A fresh session is handed out with nothing changed; otherwise the call yields a session exactly on usable, still valid evidence, and the newest ledger entry names that very session with its evidence, or is a rejection |
| ConfidentialClient.DoMeaning | internal/confidential/client.go:108-145 | After a key configuration error no session is cached; after any other exchange all is as the call for the session left it; the key named is that session's |
| SessionRefinement.SessionForRefines | internal/confidential/client.go:147-196 | What an uninterrupted call does to the client is what a run of the protocol's steps does: session, policy and ledger totals keep matching, and the task gets a session when the call yields one |
| SessionRefinement.ReverifyRefines | internal/confidential/client.go:98-103 | The same for a re-verification, which clears the protocol's cache first |
| SessionRefinement.InvalidateRefines | internal/confidential/client.go:198-204 | Giving up the session just handed out empties the protocol's cache as it does the client's |
| SessionRefinement.WarmUpRefines | internal/confidential/client.go:90-93 | A warm-up is the run of an ordinary call that starts from what is cached |
| SessionRefinement.WarmUpLeavesNoRecord | internal/confidential/client.go:90-103 | A warm-up or re-verification ends without a request record and leaves the session |
| SessionRefinement.FailedFetchRefines | internal/attestation/verifier.go:185-196 | A response that does not arrive ends the call with one rejection and leaves the session, in the protocol as in the client |
| SessionRefinement.DoRefines | internal/confidential/client.go:108-145 | Sending an envelope is a run that starts the request and asks for a session, and gives it up exactly if its key is refused, the cache being empty then; the task names the key the method returns |
| SessionRefinement.ExchangeRefines | internal/proxy/handler.go:183-226 | A whole exchange is a run that ends with one request record of the same request, key and outcome, all ledger totals matching |
| SessionRefinement.StepsEnd | internal/confidential/client.go:155-195 | That run, with its refresh and second verification if they happen, ends as the client's contract says |
| Revocation.RevokedBuildsExpire | internal/confidential/client.go:147-204 | In every run, a build not pinned since T is never handed out later than two nanoseconds before T + 150 s |
| Revocation.BoundIsTight | internal/attestation/verifier.go:317-344 | Given evidence dated as far ahead as is tolerated, a run hands the build out at exactly that moment |
| Witnesses.BoundIsMet | internal/attestation/verifier.go:317-344 | Such a run exists, for concrete policies, evidence and clock |
| Revocation.HandOutsAreFresh | internal/confidential/client.go:151-163 | Every session handed out was unexpired when checked |
| Reverification.ReverifiedSessionIsNew | internal/confidential/client.go:98-103 | A successful re-verification holds a session whose verification began after that call cleared the cache, whoever verified it |
| Provenance.OnlyGoodBuilds | internal/confidential/client.go:147-196 | Whatever holds of all builds pinned by the policies of a run holds of every session handed out, through policy changes and refreshes |
| Provenance.OnlySignedBuilds | internal/release/verify.go:81-122 | With policies from signed releases, sessions are only handed out for builds whose manifest the release workflow signed |
| Provenance.SourcePoliciesQualify | internal/release/source.go:133-143 | The policies of a release source, fetched or cached, are such policies |
| SessionBooks.EncryptedMeansAttested | internal/proxy/handler.go:183-202 | Every encrypted request record names an attestation recorded as verified earlier in the same history |
| SessionBooks.OneRecordPerRequest | internal/proxy/handler.go:190-193 | A finished request has exactly one record, an unfinished one none |
| SessionBooks.SessionsAreRecorded | internal/confidential/client.go:179-195 | Distinct sessions handed out and verified entries are equal in number |
| SessionBooks.InvalidateRemovesOnlyItsOwn | internal/confidential/client.go:198-204 | Whatever other tasks did meanwhile, giving up a session removes only that very session |
| SessionRefusals.RefusalsAreRecorded | internal/confidential/client.go:155-177 | Failed calls for a session and rejected entries are equal in number |
| Lines.ClosedLineByte | internal/proxy/handler.go:445-461 | One more byte adds a good closed line exactly if it is an LF that ends one |
| TextTrim.SpacesExactly | internal/proxy/handler.go:469-475 | Of all code points below 2^16, exactly Unicode's white space is trimmed, CR included |
| DoneTracker.DoneTextMeaning | internal/proxy/handler.go:469-475 | Exactly the marker between white space counts, on a line of at most 2^20 bytes |
| DoneTracker.MarkerText | internal/proxy/handler.go:469-475 | The marker is the text `data: [DONE]` |
| DoneTracker.CrLfEndsTheMarker | internal/proxy/handler.go:469-475 | A marker line that CR and LF end is recognised, wherever lines before it ended |
| DoneTracker.SSEDoneTracker.Write | internal/proxy/handler.go:445-461 | The tracker's state depends on the bytes so far and not on how they were split; the line kept is at most 2^20 bytes |
| DoneTracker.SSEDoneTracker.FinishLine | internal/proxy/handler.go:469-475 | Ends the line as an LF would |
| DoneTracker.SSEDoneTracker.Finish | internal/proxy/handler.go:463-467 | `done` holds if and only if some line of all that was written is the terminator |
| Relay.ForwardEventStream | internal/proxy/handler.go:297-363 | Encrypted if and only if no local write failed and the bytes hold a terminating line; aborted if and only if no write failed and they hold none; bytes relayed in order, all bytes read counted |
| Relay.RelayOnce | internal/proxy/handler.go:307-322 | One turn tracks and relays exactly what it read |
| ProxyHandler.ForwardNormal | internal/proxy/handler.go:271-295 | Only a body that, trimmed, is one complete JSON object reaches the local client and counts as encrypted |
| ProxyHandler.Forward | internal/proxy/handler.go:209-226 | Encrypted exactly for complete answers with a status that may carry a body; its bytes are counted and were written, whole unless the local side broke |
| ProxyHandler.BodyStatuses | internal/proxy/handler.go:211-218 | The statuses with a body are 200 to 599 without the 3xx, 204 and 205 |
| ProxyHandler.MillisecondsMeaning | internal/proxy/handler.go:190-193 | A duration is cut to whole milliseconds towards zero |
| ProxyHandler.Conclude | internal/proxy/handler.go:190-226 | One request record is the last thing written, on every way out |
| ProxyHandler.ServeExchange | internal/proxy/handler.go:183-226 | The ledger gains what the session attempt wrote and then one request record; it counts as encrypted exactly when session, exchange and answer were good, and names the key used |
| ResponseWriter.InProcessResponseWriter.WriteHeader | client.go:619-625 | The first call stores its status and the headers of that moment; later ones change neither |
| ResponseWriter.InProcessResponseWriter.Finish | client.go:636-649 | Only the first finish counts; an error before any status becomes the caller's error, a return before any gives status 200 |
| ResponseWriter.CallsKeepSound | client.go:596-649 | Under any sequence of calls the caller is woken once, with a status or an error but not both, and the pipe stays closed as first closed |
| StreamDelivery.StreamVerdict | client.go:533-594 | Over all interleavings, a caller who reads an event stream to a clean end received all that was relayed and a terminating line in it |
| StreamDelivery.StatusIsTheFirst | client.go:533-649 | Over all interleavings, a caller that reads has the status and kind the handler answered with first, or 200 if it returned without an answer |
| StreamDelivery.AnswerIsRead | client.go:564-588 | The first answer wakes an uncancelled caller, who may then read unless the status is zero |
| StreamDelivery.WritesArrive | client.go:627-630 | What the handler writes or relays is what its reader gets next, and the handler goes on |
| StreamDelivery.PlainVerdict | client.go:533-594 | A response of another kind read to its end was received whole, and ends cleanly unless the handler panicked |
| StreamDelivery.ReturnEnds | client.go:558-561 | A handler that returns ends its plain or unanswered response cleanly at the next read |
| StreamDelivery.TerminatorEnds | internal/proxy/handler.go:342-346 | An upstream stream that is over with a terminating line in it ends the body cleanly, however it stopped |
| StreamDelivery.ClosedBodyEndsRelay | internal/proxy/handler.go:307-322 | Once the caller closed the body, the next data ends the relay and none of it is relayed |
| StreamDelivery.FailureSticks | client.go:636-649 | Once the pipe is closed with a failure, its reader can see no other end |
| StreamDelivery.PanicSurfaces | client.go:550-560 | Whenever the handler panics, the body can only end in that panic, and a caller reading it sees it at its next read |
| StreamDelivery.PanicRefuses | client.go:550-593 | A caller still waiting for an unanswered handler that panics gets the panic as its error, or the cancellation of its own request |
| StreamDelivery.AbortSurfaces | internal/proxy/handler.go:342-361 | When upstream is over before a line was the terminator, with or without last data still to be taken, the body can only end in the abort; without, a caller reading it sees the abort at its next read |
| StreamDelivery.CancellationSurfaces | client.go:589-592 | A caller that gives up a cancelled request gets the cancellation, no bytes and no end, ever after |
| StreamDelivery.CancelReleasesTheCaller | client.go:589-592 | Cancelling a request lets its waiting caller give up at once, which closes the pipe |
| StreamDelivery.CancelledIsNotAnswered | client.go:564-593 | A request cancelled while its caller waits ends in that cancellation, even if a response was ready |
| StreamDelivery.RefusedCallersSeeNothing | client.go:564-593 | A caller that got an error gets no bytes, ever after |
| StreamRefinement.RelayIsARun | internal/proxy/handler.go:307-361 | The turns of the forwarding loop are a run of the delivery system that ends clean, aborted or closed by its reader as the loop does |
| StreamRefinement.RelayToCaller | internal/proxy/handler.go:297-361 | The caller has received what was written, and next sees a clean end exactly if the exchange counts as encrypted and the abort exactly if it is aborted |
| CappedLog.CappedLog.Append | internal/ledger/ledger.go:234-241 | Keeps the newest items in order, shifting in place once full |
| CappedLog.CappedLog.Restore | internal/ledger/store.go:93-100 | Keeps the last items of an over-long list |
| CappedLog.Reversed | internal/ledger/ledger.go:243-249 | The copy is the exact reverse |
| LedgerModel.ReplayKeepsTheLatest | internal/ledger/ledger.go:113-164 | After any run of records, the last 64 attestations and last 256 requests of the full history are held and the totals count all of it, modulo 2^64 |
| LedgerModel.ApplyMeaning | internal/ledger/ledger.go:113-164 | What each record call appends, field by field, and that it leaves the other list and the other totals alone |
| LedgerModel.ShownRejectionsDiffer | internal/ledger/ledger.go:134-149 | Rejections still retained never share an identifier, although identifiers wrap around at 2^16 and counters at 2^64 |
| Ledger.Ledger.constructor | internal/ledger/store.go:59-71 | A new ledger is empty or what its file restores |
| Ledger.Ledger.LoadFrom | internal/ledger/store.go:75-100 | Restores what the file holds, or nothing if it is missing, empty, too long or of another version |
| Ledger.Ledger.RecordVerified | internal/ledger/ledger.go:113-130 | The in-place state moves as the value model says, and the store becomes dirty |
| Ledger.Ledger.RecordRejected | internal/ledger/ledger.go:134-149 | The same for a rejection and its numbered identifier |
| Ledger.Ledger.RecordRequest | internal/ledger/ledger.go:151-164 | The same for a request, counted by its outcome |
| Ledger.Ledger.TakeSnapshot | internal/ledger/ledger.go:183-210 | Newest first, evidence removed from the copy only; the ledger's own state is untouched |
| Ledger.Ledger.Document | internal/ledger/ledger.go:212-222 | The evidence of the newest record with the identifier that has any, found if and only if one exists |
| Ledger.WithoutEvidence | internal/ledger/ledger.go:226-232 | Drops the evidence of every item in place and nothing else |
| Ledger.Ledger.SnapshotForDisk | internal/ledger/store.go:138-160 | The persisted form holds every record with its evidence |
| Ledger.Ledger.Flush | internal/ledger/store.go:114-136 | Writes the file and is clean, or fails with the file untouched and stays dirty |
| LedgerFile.RoundTrip | internal/ledger/store.go:75-136 | A written ledger loads back as itself if and only if its text is within 32 MiB and its manifests are already in encoded form |
| LedgerFile.PersistedFields | internal/ledger/store.go:138-160 | What is written of each record, field by field, its evidence beside it |
| LedgerFile.LoadFields | internal/ledger/store.go:75-100 | What a file restores, field by field, or nothing; lists are cut to their last 64 and 256 |
| LedgerFile.EncodeFails | internal/ledger/store.go:126-129 | Writing fails to encode exactly if some manifest that is there is no JSON |
| FlushProtocol.FileIsAlwaysAPastLedger | internal/ledger/store.go:103-136 | At every step, crashes included, the file loads to a state the ledger really had, unless the encoding does not preserve that state |
| FlushProtocol.CleanMeansWritten | internal/ledger/store.go:114-136 | With nothing dirty and no flush running, the current state has been written, however many flushes ran at once |
| FlushProtocol.CleanFileIsTheLedger | internal/ledger/store.go:114-136 | With one flush at a time, the file is then an encoding of the ledger in memory or loads to it; where it is an encoding, it loads to it exactly if the ledger survives encoding |
| FlushProtocol.LoneFlush | internal/ledger/store.go:114-136 | A flush of a dirty ledger that nothing comes in between starts, and writes the ledger or leaves it dirty and the file alone |
| FlushProtocol.MemoryFollowsRecords | internal/ledger/store.go:103-136 | Between crashes the ledger in memory is what the records make of it, whatever is flushed or fails |
| FlushProtocol.RestartResumes | internal/ledger/store.go:59-100 | After a crash it goes on from what was on disk, and stays clean until the next record |
| FlushProtocol.ConcurrentFlushesCanGoBack | internal/ledger/store.go:118-136 | For any two events there is a run of two flushes that ends clean with the older state on disk |
| FlushProtocol.ConcurrentFlushesDoGoBack | internal/ledger/store.go:118-136 | Such a run exists for a concrete codec |
| ReleaseManifest.VersionExactly | internal/release/manifest.go:38 | A version passes if and only if it is a `v` and three numbers with dots between |
| ReleaseManifest.TenDigits | internal/release/manifest.go:38 | The digits of a version number are 0 to 9 |
| ReleaseManifest.MakeCells | internal/release/verify.go:148-163 | One new release per manifest, in order and with its own values, unless one is missing |
| ReleaseManifest.DerivePolicy | internal/release/verify.go:148-189 | A policy results if and only if the document made of the manifests is acceptable; it is that document, shares nothing, and is decoded |
| ReleaseManifest.ManifestReleaseIsOk | internal/release/manifest.go:91-125 | A manifest is valid exactly if schemas, environment and version are right and its revision and measurements are ones that the policy validator accepts |
| ReleaseManifest.VerifiedIsVouchedFor | internal/release/verify.go:81-136 | A release that verifies has a bundle signing a production manifest of the Gateway repository with the demanded encryption, for exactly that build |
| ReleaseManifest.VerifiedExactly | internal/release/verify.go:81-136 | A release verifies if and only if its bundle signs a text of at most 64 KiB that is a valid production manifest of the Gateway repository with the demanded encryption |
| ReleaseManifest.RefusalNamesAFault | internal/release/manifest.go:91-125 | Each refusal of a manifest names a fault that it has |
| ReleaseManifest.ValidatorsAgree | internal/release/verify.go:148-189 | Valid manifests make a policy if and only if there are 1 to 4 of them with pairwise different revisions |
| ReleaseManifest.AcceptedEvidenceIsReleased | internal/release/verify.go:148-189 | Evidence accepted under a derived policy shows the measurements of the signed manifest whose revision it claims |
| ReleaseOrder.SortIsStable | internal/release/source.go:289-292 | Newest first, candidates of one date in listing order, none lost |
| ReleaseOrder.BeforeExactly | internal/release/source.go:289-292 | One date comes before another exactly if it is a proper prefix or has the smaller character where they first differ |
| ReleaseOrder.StableSortIsUnique | internal/release/source.go:289-292 | Any two stable sorts of the same candidates agree |
| ReleaseSource.AssetURLs | internal/release/source.go:265-273 | Picks the last asset with each suffix; a bundle is never taken for a manifest |
| ReleaseSource.SuffixMeaning | internal/release/source.go:265-273 | A name has a suffix exactly if it is some front followed by it |
| ReleaseSource.CandidateExactly | internal/release/source.go:261-282 | A listed release is a candidate exactly if it is no draft or prerelease, has at most 32 assets, and the last asset with each suffix has an address |
| ReleaseSource.CandidatesExactly | internal/release/source.go:261-282 | Every such release is a candidate once, in listing order |
| ReleaseSource.ListReleases | internal/release/source.go:244-293 | The eligible releases in sorted order, an error when there is none |
| ReleaseSource.NewSource | internal/release/source.go:93-116 | A source fetches one to four releases, three by default, and any other count is refused |
| ReleaseSource.Cache.Store | internal/release/source.go:218-226 | Replaces the entries as a whole or leaves them |
| ReleaseSource.Source.Select | internal/release/source.go:150-177 | Stopping at the count chooses the first so many of all that verify, with their pairs in step |
| ReleaseSource.VerifiesExactly | internal/release/source.go:153-177 | A candidate is passed over exactly if one of its files cannot be had or the two do not verify |
| ReleaseSource.ChosenAreDownloaded | internal/release/source.go:153-177 | Each chosen pair is what the two addresses of one candidate brought, and it verifies |
| ReleaseSource.Source.Fetch | internal/release/source.go:145-186 | Returns the chosen manifests and stores exactly their signed pairs |
| ReleaseSource.Source.Cached | internal/release/source.go:188-216 | Every entry read is verified anew; one failure refuses the cache |
| ReleaseSource.ReplayExactly | internal/release/source.go:188-216 | The cache yields manifests exactly if it holds something and every one of the first `count` entries verifies as the manifest at its place; one failure refuses all |
| ReleaseSource.Source.Policy | internal/release/source.go:133-143 | Fetched releases decide when there are any; the cache stands in only when there are none |
| ReleaseSource.NewestAreChosen | internal/release/source.go:153-177 | A verifying release left out is no newer than any chosen one |
| ReleaseSource.CacheReplays | internal/release/source.go:188-226 | Replaying what a fetch stored yields the same manifests in the same order |
| ReleaseSource.OnlineThenOffline | internal/release/source.go:118-143 | A later start that can fetch nothing that verifies comes to the same policy or the same failure |
| ReleaseSource.FetchedFailsOnlyOnDuplicates | internal/release/source.go:133-186 | Fetched releases make a policy if and only if no two name one revision, and it pins them in order |
| Witnesses.DuplicatesCanBeFetched | internal/release/source.go:133-143 | Fetched releases that make no policy exist: two that name one revision |

## Left out

- Cryptography and foreign verifiers (Nitro documents, Sigstore, SHA-256, SHA-384, EHBP/HPKE): functions without a known body.
- JSON text: decoded structures stand for it. The state file keeps two of its effects, the length of the text and the rewriting of embedded manifests; strings are taken to be valid UTF-8.
- HTTP servers and clients, TLS, redirects, download checks and their size limits: their results are parameters.
- The fetch of an attestation response up to its decoded fields (`internal/attestation/verifier.go:197-265`), and the 64 KiB limit of a policy document, which four releases do not reach.
- Header copying, the model catalog, the verification page, flag and configuration checks, endpoint checks, `describe.go`: branch by branch, with nothing deep.
- The error body the proxy writes to the local client when an exchange fails; its record is modelled.
- The 4 KiB buffered reader in front of the stream relay, which a 32 KiB read bypasses.
- `internal/release/cache.go`: the cache is a cell that is replaced as a whole.
- The methods of a nil ledger, which do nothing.
- Go data races, scheduling and liveness: a step is what one lock protects, and a blocked step may wait for ever.
- Backward jumps of the clock, a clock that reads Go's zero time when a refresh is granted, randomness of nonces and request identifiers, overflow of time arithmetic.
- Errors as values: causes are told apart, message texts are not.
- The background refresh of the policy on a timer: in the session protocol it is one more source of `SetPolicy`.
- FrameGuard.FrameGuardReader.Read: says nothing about calls after the first report, because errors of framing are not sticky and the code goes on reading; and it assumes a source that writes only the bytes it reports.
- ConfidentialClient.Client.Do: the lock is not modelled in the class; what other tasks may do between the hand-out and the invalidation is in `SessionProtocol`.
- SessionRefinement.ExchangeRefines: matches ledger totals and the final record's request, key and outcome, not the texts and sizes in ledger entries, which the protocol's history leaves blank.
- ProxyHandler.ForwardNormal: the error body written to the local client for a refused answer is not modelled, only that nothing of the answer is written.
- ReleaseSource.NewSource: the checks of the repository name and of the embedded trusted root are not modelled.
- ReleaseOrder.SortIsStable: the in-place library sort is represented by an insertion sort on values; uniqueness of stable sorts makes them equal.
- StreamRefinement.RelayToCaller: follows the loop on one schedule of the caller, which takes each write as it comes; the delivery system itself lets it take bytes in any portions.
