# Verified models of the knowledge platform

Dafny models of the platform's self-contained algorithms and state machines, with proofs of the
properties they exist for. The Node/TypeScript services are the reference. Each module follows one
component: code that works by loops and mutable state is a method or a class proved against a
specification function, and the theorems are lemmas about that function, over all inputs, all runs,
or all interleavings.

| module | component |
|---|---|
| `Chunking`, `ChunkPacking`, `ChunkOverlap` | recursive chunker: the loops and their tiling, where texts are cut and how pieces are packed, what the chunks are |
| `Pricing`, `Ingest`, `IngestText` | prices, document ingestion with failing and crashing attempts, and which text gets indexed |
| `Sse` | the server's event-stream writer and the web page's incremental reader |
| `Bits`, `Decimals`, `Base32`, `Totp` | 32-bit words, decimal printing, Base32 and one-time codes |
| `Sessions`, `Auth`, `AuthServices`, `AuthServer` | session table, sign-in, refresh, sign-out and MFA: operations, the service objects, and the objects under a run |
| `AuthRuns`, `SessionLives`, `SignIn` | what holds over runs of them: chains and gates, the life of a refresh token by the clock, every answer of sign-in and MFA |
| `Budget`, `UsageRuns` | spend caps: check, log and increment as steps that interleave; a call alone, and runs that reach the bound |
| `Registry`, `CircuitBreaker` | provider failover with circuit breakers, and when a provider is skipped, by the clock |
| `Fusion`, `Acl`, `Search`, `SearchAnswers`, `Sorting` | rank fusion, document access, the retrieval pipeline and what it answers, stable sorting |
| `Paging` | cursor paging of the audit trail and the document list |
| `Pii`, `Ip`, `Redact`, `Idempotency` | PII splicing and Luhn, CIDR allowlists, log redaction on object graphs, idempotency keys |
| `Text`, `Arithmetic` | string operations of the host language, quotients |

`dafny verify dfyconfig.toml` checks the whole project.

## How the models read the code

- Concurrency: `Budget`, `Registry` and `Idempotency` have one step per stretch of code between two
  awaits. The theorems of `Budget` and `Idempotency` hold for every interleaving. In `Registry`
  `OpenWindowsEnd`, `NeverThrows`, `RunsNeverThrow`, `FirstAnswerWins` and `SomebodyAnswers` do, and in
  `CircuitBreaker` all but `CooldownOverCalls` allow overlapping requests; `FailoverOrder`,
  `StatesBetweenCalls`, `FailureOpensExactly` and `CooldownOverCalls` are about calls that do not overlap,
  and `OverlapUnsettles` shows that the first three have to be. `Ingest` has one statement per awaited call and a
  fault at any of them. `Auth` treats each request as atomic, and its theorems are about sequential
  runs.
- Numbers: JavaScript's 32-bit shifts are bit-vectors with the accumulator left unmasked as in the
  code; scores are reals; costs and counters are integers.
- Hashes, HMAC, password and code checks, JSON, case folding, redaction before ingestion and the
  embedding provider are parameters. HMAC returns 20 bytes; the JSON text of an answer's own
  payloads has no raw newline and parses back. Clocks, fresh tokens and fresh codes are arguments of each request.
- Definitions and facts: a specification function says what the code computes; what that means is said
  beside it without the function's own name (`SplitPacks`, `RedactedTextIsIndexed`, `TokenRefreshesExactly`,
  `CooldownOverCalls`, `SearchIsComplete`, and the lemmas named `...Exactly`).
- A user's, session's or challenge's id is its position in its table. An id in `Paging` is its
  position in the database's ordering of ids.

## Where code and comments disagree

The models follow the code.

- `registry.ts`: the half-open reset also runs on closed circuits, so the failure threshold is not
  counted: `FailureOpensExactly` gives the exact rule, `ThresholdIsNotCounted` an instance.
- `pii.ts:81-82` says that the longest match wins; findings are sorted by start only, and the first
  listed wins a tie (`FirstListedWins`). A longest match wins if it is listed first at every start, and
  where different starts do not overlap only then (`LongestWinsExactly`); `LongestIsNotPreferred` has a
  text where it loses.
- `auth.service.ts:107-108` speaks of revoking a session family; all live sessions of the user are
  revoked (`ReuseEndsAllSessions`).
- The comment on `replacedById` in `schema.prisma` says that it points at the replaced session; it
  points at the replacement (`SessionLineage`).
- `redact.ts` speaks of cycles; an object met a second time is replaced also when it is only shared
  (`SharedIsCalledCircular`; `SeenMattersExactly` has the exact condition).
- `idempotency.ts:6-10` says that a retry replays the stored response; while the first request is in
  progress, or if its response had no body, the handler runs again (`OverlapRunsTwice`,
  `EmptyReplyRunsTwice`; `HandlerCanRunAgainExactly` has the exact condition).
- `ingest.ts:36-43`: a completed job means an indexed document only while completed jobs are not run
  again (`RerunOfCompletedJob` is exact).

## Model

| member | source | states |
|---|---|---|
| `Chunking.SplitText` | packages/ai/src/chunking.ts:57-85 | The loops that merge pieces and recurse compute the splitting function; `SplitPacks`, `PiecesStayWhole` and `WordIsSliced` say what it returns |
| `ChunkPacking.SplitPacks` | packages/ai/src/chunking.ts:57-85 | A text longer than `maxChars` is cut at the first of paragraph break, line break, sentence end and space that occurs in it; its parts are those of a greedy packing of the pieces: runs that fit and that the next piece would overflow, with a piece that is itself too long cut further |
| `ChunkPacking.PiecesStayWhole` | packages/ai/src/chunking.ts:69-82 | If every piece fits, no piece is cut: each part is a run of whole pieces joined by the separator, in the greedy packing |
| `ChunkPacking.NextPieceDoesNotFit` | packages/ai/src/chunking.ts:71-79 | Between neighbouring runs the first one, the separator and the next piece exceed `maxChars` |
| `ChunkPacking.PackingIsUnique` | packages/ai/src/chunking.ts:69-82 | There is only one such packing of given pieces |
| `ChunkPacking.WordIsSliced` | packages/ai/src/chunking.ts:61-67 | A long text without any separator becomes slices of exactly `maxChars` characters and a rest |
| `ChunkPacking.PiecesHoldNoSeparator` | packages/ai/src/chunking.ts:69-70 | The pieces join back to the text and none of them contains the separator |
| `ChunkOverlap.ChunksAreOverlappedParts` | packages/ai/src/chunking.ts:28-55 | The text with CRLF turned into LF and its ends trimmed is split, and every part in order gives one chunk: the last `overlapChars` characters of the part before it, and the part, trimmed; unless only blanks would be left |
| `Chunking.ComputeChunks` | packages/ai/src/chunking.ts:28-55 | The chunk loop, with its running index and skipped blanks, computes the chunk list |
| `Chunking.EstimateTokens` | packages/ai/src/chunking.ts:24-26 | The estimate is at least 1 and the least number of four-character tokens that covers a non-empty text |
| `Chunking.SplitTiles` | packages/ai/src/chunking.ts:57-85 | For every text and part size of at least 1 the parts are contiguous, ordered, disjoint substrings of at most `maxChars`, with gaps made only of the four separators |
| `Chunking.SplitConserves` | packages/ai/src/chunking.ts:57-85 | Every character other than newline, period and space survives splitting, in order |
| `Chunking.SliceNeverCuts` | packages/ai/src/chunking.ts:40-44 | The final slice of a chunk to `maxChars + overlapChars` never removes a character |
| `Chunking.ChunkShape` | packages/ai/src/chunking.ts:28-55 | Chunks are numbered 0..n-1, non-empty, trimmed, at most `maxChars + overlapChars` long, with the estimated token count |
| `Chunking.ChunksCoverText` | packages/ai/src/chunking.ts:28-55 | The normalised text is tiled by the parts and each non-blank part ends one of the chunks: nothing is lost between text and chunks |
| `Sse.WriteAnswer` | apps/api-node/src/modules/chat/chat.routes.ts:128-146 | The writer emits one frame per 24-character slice, per citation, and a final one, in that order |
| `Sse.ReadStream` | apps/web/src/app/app/chat/page.tsx:53-91 | The read loop with its carry-over buffer computes the fold of the parser over the reads |
| `Sse.FragmentationIndependent` | apps/web/src/app/app/chat/page.tsx:57-60 | However the stream is cut into reads, the page ends up as if it had come in one piece |
| `Sse.SplitFrames` | apps/api-node/src/modules/chat/chat.routes.ts:128-130 | Splitting the written stream at blank lines gives back exactly the written frames and an empty rest |
| `Sse.HandleBodies` | apps/web/src/app/app/chat/page.tsx:61-85 | Parsing the frames of a list of events has the effect of the events |
| `Sse.TokensAssemble` | apps/api-node/src/modules/chat/chat.routes.ts:131-135 | The token slices of an answer assemble to its whole content |
| `Sse.SlicesOf24` | apps/api-node/src/modules/chat/chat.routes.ts:131-135 | Slice k holds the characters from 24k up to 24k + 24 or the end |
| `Sse.CitationsAppear` | apps/api-node/src/modules/chat/chat.routes.ts:136-138 | The citations with a title are shown, all of them, in order |
| `Sse.RoundTrip` | apps/web/src/app/app/chat/page.tsx:53-91 | For every answer whose payloads the JSON library prints on one line and parses back, and every fragmentation of its stream, the reader shows exactly the content and titled citations, and its buffer ends empty |
| `Sse.EveryAnswerHasACodec` | apps/api-node/src/modules/chat/chat.routes.ts:129-130 | That demand on the JSON library can be met for every answer |
| `Base32.EncodeLoop` | apps/api-node/src/lib/totp.ts:14-30 | The loop with its unmasked 32-bit accumulator computes the encoding of the bit string in groups of five |
| `Base32.DecodeLoop` | apps/api-node/src/lib/totp.ts:32-48 | The loop with its unmasked 32-bit accumulator computes the bytes of the symbols' bits, or the error |
| `Base32.EncodedLength` | apps/api-node/src/lib/totp.ts:14-30 | n bytes encode to ceil(8n/5) symbols (section 6 of RFC 4648, no padding) |
| `Base32.TextBitsOfEncodeBits` | apps/api-node/src/lib/totp.ts:14-30 | The bits of the symbols are the bits of the input, followed by the zeros that fill the last group |
| `Base32.DecodeRejects` | apps/api-node/src/lib/totp.ts:37-39 | Any character outside the alphabet, after cleaning, is an error |
| `Base32.RoundTrip` | apps/api-node/src/lib/totp.ts:14-48 | Decoding the encoding of any byte string gives it back |
| `Base32.TypedSecretDecodes` | apps/api-node/src/lib/totp.ts:32-48 | A secret is read back also in lower case, with white space anywhere, and padded |
| `Totp.CounterBytesValue` | apps/api-node/src/lib/totp.ts:56-59 | The 8 counter bytes are the counter, big-endian |
| `Totp.TruncateIsBigEndian` | apps/api-node/src/lib/totp.ts:60-66 | The dynamic truncation stays inside the 20-byte digest and is the 31-bit big-endian number at the offset (section 5.3 of RFC 4226) |
| `Totp.HotpShape` | apps/api-node/src/lib/totp.ts:55-68 | A code is exactly `digits` decimal characters that write the truncated value modulo 10^digits |
| `Totp.VerifyLoop` | apps/api-node/src/lib/totp.ts:86-108 | The loop over the window, with its early returns and errors, computes the specified verdict |
| `Totp.AcceptsExactlyTheWindow` | apps/api-node/src/lib/totp.ts:86-108 | Acceptance holds exactly when some counter in the window produces the token |
| `Totp.CounterIs` | apps/api-node/src/lib/totp.ts:79-84 | The counter is c exactly from the start of period c until the next period starts |
| `Totp.AcceptedByTheClock` | apps/api-node/src/lib/totp.ts:86-108 | In period c a token is accepted exactly when, without its spaces, it is a number of one to `digits` digits that equals the truncated digest modulo 10^digits of a counter at most `window` from c |
| `Totp.SkewTolerance` | apps/api-node/src/lib/totp.ts:79-108 | A code generated at t is accepted at every t' within `window` periods of t (section 5.2 of RFC 6238) |
| `Sessions.SessionRepository.Create` | apps/api-node/src/modules/sessions/session.repository.ts:19-30 | A session is added unrevoked at the end, unless its token hash is taken |
| `Sessions.SessionRepository.FindByTokenHash` | apps/api-node/src/modules/sessions/session.repository.ts:32-34 | Finds the session with a token hash |
| `Sessions.SessionRepository.Revoke` | apps/api-node/src/modules/sessions/session.repository.ts:36-41 | Sets exactly the two revocation fields of one session |
| `Sessions.SessionRepository.RevokeAllForUser` | apps/api-node/src/modules/sessions/session.repository.ts:44-50 | Revokes exactly the user's sessions that were not revoked |
| `Sessions.LineageKept` | apps/api-node/src/modules/sessions/session.repository.ts:19-50 | Every change the services make keeps the sessions in disjoint chains |
| `Sessions.ChangesExtend` | apps/api-node/src/modules/sessions/session.repository.ts:19-50 | Every change keeps revoked sessions untouched and loses none |
| `Sessions.ChainHasOneUser` | apps/api-node/src/modules/auth/auth.service.ts:314-321 | All sessions of a chain belong to one user, and it starts with a session that replaced none |
| `Sessions.OnlyTheTailLives` | apps/api-node/src/modules/auth/auth.service.ts:314-321 | Of two sessions in one chain the earlier is revoked and replaced, so at most the last one is live |
| `AuthServices.AuthService.IssueSession` | apps/api-node/src/modules/auth/auth.service.ts:461-495 | Mints an unrevoked session for the user or fails on a taken token |
| `AuthServices.AuthService.Register` | apps/api-node/src/modules/auth/auth.service.ts:115-138 | Registration as a change of the whole state |
| `AuthServices.AuthService.LoginWithGoogle` | apps/api-node/src/modules/auth/auth.service.ts:150-201 | The three ways through a Google sign-in as a change of the whole state |
| `AuthServices.AuthService.Login` | apps/api-node/src/modules/auth/auth.service.ts:240-279 | Password login with and without an inline factor as a change of the whole state |
| `AuthServices.AuthService.FinishLogin` | apps/api-node/src/modules/auth/auth.service.ts:373-398 | The shared gate: a challenge for accounts with MFA, else a session |
| `AuthServices.AuthService.CompleteMfa` | apps/api-node/src/modules/auth/auth.service.ts:208-237 | The answer to a challenge as a change of the whole state |
| `AuthServices.AuthService.Refresh` | apps/api-node/src/modules/auth/auth.service.ts:285-332 | Rotation, reuse detection and expiry as the change of the whole state that `RefreshExactly` and `TokenRefreshesExactly` are about |
| `AuthServices.AuthService.Logout` | apps/api-node/src/modules/auth/auth.service.ts:335-353 | Sign-out revokes exactly the presented session, if live |
| `AuthServices.AuthService.AssertFactor` | apps/api-node/src/modules/mfa/mfa.service.ts:179-199 | Succeeds exactly on a valid current code or a stored recovery code, and consumes the code if that was what matched |
| `AuthServices.AuthService.BeginEnrollment` | apps/api-node/src/modules/mfa/mfa.service.ts:59-87 | Stores an unconfirmed secret on an account without MFA |
| `AuthServices.AuthService.Activate` | apps/api-node/src/modules/mfa/mfa.service.ts:90-123 | Enables MFA on a valid code and mints recovery codes |
| `AuthServices.AuthService.Disable` | apps/api-node/src/modules/mfa/mfa.service.ts:126-150 | Disables MFA after a factor check and clears its fields |
| `AuthServices.AuthService.Regenerate` | apps/api-node/src/modules/mfa/mfa.service.ts:153-165 | Replaces the recovery codes after a code check |
| `AuthServer.Serve` | apps/api-node/src/modules/auth/auth.service.ts:115-353 | Requests served one after the other take the service objects through the states and outcomes of a run, so the claims about runs are about the objects |
| `SessionLives.RefreshExactly` | apps/api-node/src/modules/auth/auth.service.ts:285-332 | In every run a refresh is issued exactly when the token's session is there, unrevoked and before its expiry, its user exists and is a member, and the new token is free |
| `SessionLives.ExpiredIsRefused` | apps/api-node/src/modules/auth/auth.service.ts:305-307 | In every run an unrevoked session at or after its expiry is refused as expired, and nothing changes |
| `SessionLives.IssuedIsMinted` | apps/api-node/src/modules/auth/auth.service.ts:461-475 | Every issued session is a new row for that user with the hash of the fresh token, unrevoked, expiring `refreshTtl` seconds later |
| `SessionLives.TokenLifetime` | apps/api-node/src/modules/auth/auth.service.ts:285-332 | A token minted at one request and presented at a later one: which of the six answers it gets, from whether it is revoked, the clock against minting time plus `refreshTtl`, the user and the new token |
| `SessionLives.RevokedExactlyWhenEnded` | apps/api-node/src/modules/auth/auth.service.ts:293-353 | Between two points of a run a session becomes revoked exactly by a refresh with its token, a sign-out with its token, or the reuse of a revoked token of its user |
| `SessionLives.TokenRefreshesExactly` | apps/api-node/src/modules/auth/auth.service.ts:285-332 | In every run a minted token refreshes exactly when it is presented before minting time plus `refreshTtl`, no request in between ended its session, its user is an active member, and the new token is free |
| `SessionLives.LogoutExactly` | apps/api-node/src/modules/auth/auth.service.ts:335-353 | Sign-out revokes the presented session if it is live, and changes no other row |
| `SignIn.AccountsAreUnique` | apps/api-node/src/modules/auth/auth.service.ts:115-201 | In every run no two accounts share an email address or a Google identity |
| `SignIn.RegisterExactly` | apps/api-node/src/modules/auth/auth.service.ts:115-138 | A known address is refused; any other becomes an account without a second factor that is signed in |
| `SignIn.GoogleSignsInToItsAccount` | apps/api-node/src/modules/auth/auth.service.ts:150-201 | A verified identity signs in to the account that has it |
| `SignIn.GoogleLinksByAddress` | apps/api-node/src/modules/auth/auth.service.ts:161-175 | An unknown identity is linked to the account with its address, unless another identity is linked there |
| `SignIn.GoogleSignsUp` | apps/api-node/src/modules/auth/auth.service.ts:151-191 | An unverified address is refused; an identity and address nobody has make a new account |
| `SignIn.WrongPasswordFails` | apps/api-node/src/modules/auth/auth.service.ts:240-255 | A password that is not the one of the account with that address signs nobody in and changes nothing |
| `SignIn.LoginExactly` | apps/api-node/src/modules/auth/auth.service.ts:240-279 | The right password: which answer and which state follow, for every combination of membership, second factor and what was entered |
| `SignIn.CompleteMfaExactly` | apps/api-node/src/modules/auth/auth.service.ts:208-237 | The answer to a challenge: which answer and which state follow, the five-minute limit included |
| `SignIn.EnrollExactly` | apps/api-node/src/modules/mfa/mfa.service.ts:59-87 | Enrolling stores a secret that does not count yet, and no recovery codes |
| `SignIn.ActivateExactly` | apps/api-node/src/modules/mfa/mfa.service.ts:90-123 | Only the authenticator's code for the stored secret enables the second factor, with the hashes of the ten new codes |
| `SignIn.DisableExactly` | apps/api-node/src/modules/mfa/mfa.service.ts:126-150 | Only an authenticator code or a stored recovery code disables it, and then nothing of it is left |
| `SignIn.RegenerateExactly` | apps/api-node/src/modules/mfa/mfa.service.ts:153-165 | New recovery codes ask for the authenticator's code |
| `SignIn.MfaSwitchesExactly` | apps/api-node/src/modules/mfa/mfa.service.ts:59-199 | A request changes whether a user has a second factor exactly if it is such an activation or such a disabling |
| `SignIn.EnabledExactlySinceActivation` | apps/api-node/src/modules/mfa/mfa.service.ts:59-199 | In every run an account has a second factor exactly when some activation enabled it and nothing disabled it since |
| `AuthRuns.OpChanges` | apps/api-node/src/modules/auth/auth.service.ts:115-353 | Every request makes one of the allowed changes to the session table, and only a refresh replaces a session |
| `AuthRuns.SessionLineage` | apps/api-node/src/modules/auth/auth.service.ts:285-353 | After any run of requests the `replacedById` edges form disjoint chains to strictly later sessions of the same user |
| `AuthRuns.SessionsPersist` | apps/api-node/src/modules/auth/auth.service.ts:285-353 | Between any two points of a run sessions are not lost and revocation is permanent |
| `AuthRuns.RefreshSucceedsOnce` | apps/api-node/src/modules/auth/auth.service.ts:285-332 | In any run each refresh token succeeds at most once |
| `AuthRuns.ReuseEndsAllSessions` | apps/api-node/src/modules/auth/auth.service.ts:293-303 | After a revoked token is presented, no session its user has at that moment ever refreshes again |
| `AuthRuns.MintsAreGated` | apps/api-node/src/modules/auth/auth.service.ts:115-279 | Every request that starts a chain creates the account, or proves the primary factor of an account without MFA, or verifies a second factor |
| `AuthRuns.ChainStartsAreGated` | apps/api-node/src/modules/auth/auth.service.ts:115-279 | In any run, a session that replaced none was minted by such a request for its user |
| `AuthRuns.EverySessionIsGated` | apps/api-node/src/modules/auth/auth.service.ts:115-332 | In any run every session descends, through sessions of the same user, from a gated one |
| `AuthRuns.ChallengesProvePrimaryFactor` | apps/api-node/src/modules/auth/auth.service.ts:373-386 | In any run every challenge was issued by a request that proved the primary factor of its user |
| `AuthRuns.MfaFieldsAgree` | apps/api-node/src/modules/mfa/mfa.service.ts:59-165 | In any run enabled means secret and date are set, disabled means no recovery codes, and there are at most ten |
| `AuthRuns.CodesStep` | apps/api-node/src/modules/mfa/mfa.service.ts:59-199 | One request mints new codes, or removes the code that let it through, or drops all, or leaves them alone |
| `AuthRuns.TenPerMinting` | apps/api-node/src/modules/mfa/mfa.service.ts:153-199 | Over any part of a run, acceptances plus codes left are at most the codes at its start plus ten per minting |
| `AuthRuns.RecoveryCodesAreSingleUse` | apps/api-node/src/modules/mfa/mfa.service.ts:187-197 | A stored recovery code is accepted at most once until new ones are minted |
| `UsageRuns.Usage.AssertWithinBudget` | apps/api-node/src/modules/billing/billing.service.ts:128-162 | The check alone: its verdict, the row it creates and the hard stop it sets |
| `UsageRuns.Usage.RecordSpend` | apps/api-node/src/modules/billing/billing.service.ts:164-179 | The increment alone, nothing for costs that are not positive |
| `UsageRuns.Usage.Record` | apps/api-node/src/modules/usage/usage.service.ts:24-41 | An uninterrupted call does what the steps of the interleaving model do |
| `UsageRuns.AloneRuns` | apps/api-node/src/modules/usage/usage.service.ts:24-41 | The state in which an uninterrupted call ends, as a run of the step machine |
| `Budget.StepAddsNothing` | apps/api-node/src/modules/billing/billing.service.ts:128-179 | The only step that raises spent plus pending cost of a month is a passed check against it, and it stays within the budget read |
| `Budget.CheckExactly` | apps/api-node/src/modules/billing/billing.service.ts:128-162 | A check passes exactly if the month is not stopped and its spend with this cost stays within the budget; otherwise the month ends up stopped and nothing is charged |
| `Budget.OvershootBound` | apps/api-node/src/modules/usage/usage.service.ts:24-41 | Within a month, with at most k calls between check and increment and costs of at most c, spent plus pending stays within B + (k-1)c in every run; for k = 1 within B |
| `Budget.OvershootBoundAcrossMonths` | apps/api-node/src/modules/billing/billing.service.ts:128-179 | With months rolling over under the calls, each month stays within B + (k-1)c or k*c |
| `UsageRuns.OvershootIsAttained` | apps/api-node/src/modules/usage/usage.service.ts:24-41 | For every k there is a run that reaches the bound |
| `Budget.StoppedMonthOnlyDrains` | apps/api-node/src/modules/billing/billing.service.ts:150-161 | Once hard-stopped, only calls already past their check can add spend, whatever else starts |
| `Budget.SpendIsConserved` | apps/api-node/src/modules/usage/usage.service.ts:24-41 | In every run, months rolling over and requests dying included, the rows' total plus logged but unincremented cost is what the events charge |
| `Budget.ChargedIsSum` | apps/api-node/src/modules/billing/billing.service.ts:164-165 | What the events charge is their plain sum exactly when none is negative |
| `Registry.AiProviderRegistry.Create` | packages/ai/src/registry.ts:32-41 | An empty provider list is refused; the limits default to 3 and 30 seconds |
| `Registry.AiProviderRegistry.CheckOpen` | packages/ai/src/registry.ts:97-105 | The circuit check with its half-open reset |
| `Registry.AiProviderRegistry.RecordSuccess` | packages/ai/src/registry.ts:107-109 | A success closes the circuit |
| `Registry.AiProviderRegistry.RecordFailure` | packages/ai/src/registry.ts:111-118 | A failure counts and opens the circuit at the threshold |
| `Registry.AiProviderRegistry.WithFailover` | packages/ai/src/registry.ts:76-95 | The provider loop, with other requests taking any steps while it awaits a provider, returns the specified result or combined error and leaves the specified circuits; `CircuitBreaker` says by the clock whom it asks |
| `CircuitBreaker.OpenIsSkipped` | packages/ai/src/registry.ts:76-118 | If a provider's failure at f reached the threshold and only earlier checks of it happened since, a call that would check it before f + cooldown does not ask it, and its answer plays no part |
| `CircuitBreaker.OpenIsTheReason` | packages/ai/src/registry.ts:76-94 | If such a call throws, it reports that provider's circuit as open |
| `CircuitBreaker.CooledIsAsked` | packages/ai/src/registry.ts:76-118 | A call that reaches it at f + cooldown or later asks it: its answer is the result, or its error the reason |
| `CircuitBreaker.SuccessIsAsked` | packages/ai/src/registry.ts:76-109 | After a success, and until it fails again, a provider is asked by every call that reaches it |
| `CircuitBreaker.NewIsAsked` | packages/ai/src/registry.ts:97-100 | So is a provider that never failed |
| `CircuitBreaker.CooldownOverCalls` | packages/ai/src/registry.ts:76-118 | Over runs of calls that do not overlap: a known provider that was asked and failed at f is asked again exactly by a call that comes at f + cooldown or later |
| `CircuitBreaker.FailedCallReports` | packages/ai/src/registry.ts:76-94 | A call that throws gives for every provider, in order, the open circuit or the error it failed with |
| `Registry.FirstAnswerWins` | packages/ai/src/registry.ts:76-95 | If a provider answers after all earlier ones were open or failed in this call, its result is returned |
| `Registry.SomebodyAnswers` | packages/ai/src/registry.ts:76-95 | A returned result has such a provider |
| `Registry.FailoverOrder` | packages/ai/src/registry.ts:76-95 | With distinct names and no overlapping request, who answers is decided by the circuits before the call, exactly |
| `Registry.StatesBetweenCalls` | packages/ai/src/registry.ts:97-118 | After any run of calls that do not overlap each circuit is absent, (0,0), (1,0) if the threshold exceeds 1, or (threshold, until) |
| `Registry.EveryFormOccurs` | packages/ai/src/registry.ts:97-118 | Each of those forms is reached by some run |
| `Registry.FailureOpensExactly` | packages/ai/src/registry.ts:97-118 | Between calls that do not overlap a failure opens the circuit exactly unless it is the provider's first contact and the threshold exceeds 1 |
| `Registry.ThresholdIsNotCounted` | packages/ai/src/registry.ts:101-104 | With threshold 3 two failures already open the circuit |
| `Registry.OpenWindowsEnd` | packages/ai/src/registry.ts:97-118 | Under any interleaving an open window ends within the cooldown of the latest failure, which set it |
| `Registry.CallIsItsSteps` | packages/ai/src/registry.ts:76-118 | A call and the requests that overlap it are one run of steps, so that claims about runs of steps are about overlapping calls |
| `Registry.OverlapUnsettles` | packages/ai/src/registry.ts:97-118 | With overlapping calls those forms are lost: two failures leave (2,0) under threshold 3 |
| `Registry.NeverThrows` | packages/ai/src/registry.ts:76-95 | If the last provider never fails, no call throws, whatever other requests do before it and at each of its awaits |
| `Registry.RunsNeverThrow` | packages/ai/src/registry.ts:76-95 | The same over whole runs of calls, each with requests that overlap it |
| `Pricing.CeilingOfSum` | packages/ai/src/pricing.ts:30-33 | Splitting a bill never makes it cheaper and costs at most one micro-USD more |
| `Pricing.EmbeddingPrice` | packages/ai/src/pricing.ts:5-33 | Embeddings cost 130, 20 or 0 micro-USD per thousand tokens, rounded up; an unknown model costs 130 |
| `Pricing.ChatPrice` | packages/ai/src/pricing.ts:11-43 | Chats cost the listed rates for tokens read and written, rounded up once; an unknown model costs what gpt-4o costs |
| `Pricing.BatchingCosts` | packages/ai/src/pricing.ts:30-33 | The sum of n rounded bills lies between the single bill and that plus n - 1 |
| `Pricing.ChatsAddUp` | packages/ai/src/pricing.ts:35-43 | The two-rate chat price rounds up once per call: splitting a chat costs at most one micro-USD more and never less |
| `Ingest.Worker.InsertBatch` | apps/worker-node/src/ingest.ts:67-84 | The inner loop inserts the rows of a batch, wherever it breaks off |
| `Ingest.Worker.StoreBatches` | apps/worker-node/src/ingest.ts:56-100 | The batch loop performs the specified statements and adds up the cost, wherever it breaks off |
| `Ingest.Worker.Work` | apps/worker-node/src/ingest.ts:45-109 | The guarded part, wherever it breaks off |
| `Ingest.Worker.Fail` | apps/worker-node/src/ingest.ts:116-125 | The error handler, wherever it breaks off |
| `Ingest.Worker.Ingest` | apps/worker-node/src/ingest.ts:29-127 | One attempt, with any statement crashing or throwing and the error handler itself breaking off, computes the specified outcome and database; a completed one leaves exactly the rows of the chunks of the redacted text if redaction is on, else of the stored text, each row with its own content's token count and embedding |
| `Ingest.AttemptLeaves` | apps/worker-node/src/ingest.ts:29-127 | Whatever happens in an attempt: the document's rows are the old ones or those of an initial part of the chunks, other documents and jobs are as before, and only success completes the job |
| `Ingest.RetryRecovers` | apps/worker-node/src/ingest.ts:45-115 | After any failed or crashed attempts one undisturbed attempt leaves exactly the rows of the chunks, indexed 0..n-1, other documents as they were, and no insert ever met an existing row |
| `Ingest.ChunksAreNumbered` | apps/worker-node/src/ingest.ts:46-51 | The chunks of the stored, possibly redacted text carry the indices 0..n-1 |
| `Ingest.StoredTextIsIndexed` | apps/worker-node/src/ingest.ts:45-115 | So after any failed attempts an undisturbed one leaves exactly the chunks of the stored, possibly redacted text, on an indexed document with a completed job |
| `IngestText.RedactedTextIsIndexed` | apps/worker-node/src/ingest.ts:45-115 | With redaction on, whatever earlier attempts did, an attempt completes exactly if as many statements succeed as there are (seven, one per chunk, two per 32 chunks), and then the document has exactly the rows of the chunks of the redacted text |
| `IngestText.PlainTextIsIndexed` | apps/worker-node/src/ingest.ts:45-115 | With redaction off the same holds for the stored text |
| `IngestText.OnlyRedactedTextIsStored` | apps/worker-node/src/ingest.ts:46-84 | With redaction on no attempt, however it breaks off, leaves a row that was not made from a redacted text |
| `IngestText.RedactedRunsAreEqual` | apps/worker-node/src/ingest.ts:46-115 | With redaction on, runs of attempts on texts with equal redactions leave equal databases |
| `IngestText.CompletedIsBilled` | apps/worker-node/src/ingest.ts:56-100 | A completed attempt logs one event per 32 chunks; together they bill the tokens of all chunks and the returned cost |
| `IngestText.AttemptsAreCounted` | apps/worker-node/src/ingest.ts:40-43 | The job counts one attempt for each that got as far as starting it |
| `IngestText.MissingDocumentIsLeft` | apps/worker-node/src/ingest.ts:29-34 | A document that is missing, of another organization or without a source stops the attempt before it changes anything |
| `IngestText.ForeignRowsStay` | apps/worker-node/src/ingest.ts:52-54 | No attempt, in whatever state it finds the tables, touches a chunk row of another organization |
| `Ingest.CompletedMeansIndexed` | apps/worker-node/src/ingest.ts:102-109 | When a job is retried until completed, a completed job means an indexed document with exactly the right rows |
| `Ingest.RerunOfCompletedJob` | apps/worker-node/src/ingest.ts:36-43 | Retrying an already completed job breaks that implication exactly when the attempt stops after its second statement |
| `Ingest.FailureIsRecorded` | apps/worker-node/src/ingest.ts:116-127 | A failure in the guarded part is recorded on document and job when the handler runs |
| `Ingest.BatchesFlatten` | apps/worker-node/src/ingest.ts:57-59 | The batches concatenate to the chunk list; there are ceil(n/32), each of 1 to 32 chunks, all but the last of 32 |
| `Ingest.PlanFollowsSlices` | apps/worker-node/src/ingest.ts:58-99 | An attempt embeds, inserts and logs exactly those batches, in order |
| `Ingest.BatchingLoss` | apps/worker-node/src/ingest.ts:56-65 | The summed per-batch cost lies between the one-call cost and that cost plus batches - 1 |
| `Fusion.ReciprocalRankFusion` | packages/ai/src/fusion.ts:22-43 | The two loops over an insertion-ordered map, the sort and the slice compute, per id, the sum of its shares and its last ranks |
| `Fusion.FusedShape` | packages/ai/src/fusion.ts:27-40 | Fused ids are distinct, exactly those of the two lists, each with the exact sum of 1/(60+rank) |
| `Fusion.EntryOfRanked` | packages/ai/src/fusion.ts:24-40 | In rankings, place i of a list earns 1/(61 + i) and the entry keeps the rank i + 1 of each list the id is in |
| `Fusion.TopShape` | packages/ai/src/fusion.ts:42 | The output is a prefix of min(limit, number of ids) of the stable descending sort |
| `Fusion.BothScoreHigher` | packages/ai/src/fusion.ts:20-40 | With distinct ids, ranks 1..n and n <= 61, an id in both lists scores strictly above any id in only one |
| `Fusion.BothComeFirst` | packages/ai/src/fusion.ts:42 | So it precedes it in the output |
| `Fusion.SixtyTwoIsTooMany` | packages/ai/src/fusion.ts:20-40 | With n = 62 there are lists where the two tie |
| `Acl.AccessRule` | apps/api-node/src/modules/documents/document-acl.ts:16-37 | Access holds exactly for administrators where a bypass is asked for, where nothing is listed, or by a grant |
| `Acl.OneEntryGrants` | apps/api-node/src/modules/documents/document-acl.ts:26-36 | A user entry grants to that user, a team entry to its members, a role entry to that role and those above |
| `Acl.EntriesGrantOneByOne` | apps/api-node/src/modules/documents/document-acl.ts:24-38 | Several entries grant what one of them grants |
| `Acl.AccessIsMonotone` | apps/api-node/src/modules/documents/document-acl.ts:16-37 | A higher role or further teams never lose access, nor does a further grant on a restricted document take it away |
| `Acl.ListingRestricts` | apps/api-node/src/modules/documents/document-acl.ts:24-36 | A document without entries is open, and any non-empty list of entries restricts it to exactly the subjects of some entry |
| `Search.GroupByDocument` | apps/api-node/src/modules/search/search.service.ts:128-133 | The grouping loop yields, per document, its entries in table order |
| `Search.RowsById` | apps/api-node/src/modules/search/search.service.ts:121-122 | The loop yields the last row with each id |
| `Search.AllowedRows` | apps/api-node/src/modules/search/search.service.ts:124-140 | Checking per candidate document on grouped entries selects the chunks that a direct check of each chunk selects |
| `Search.Search` | apps/api-node/src/modules/search/search.service.ts:115-172 | The whole pipeline computes the reranked, thresholded answer over the candidates; `CandidatesAreTheReadable`, `AnswerIsTheVerdict` and `SearchIsComplete` say what that is |
| `Search.SearchIsSafe` | apps/api-node/src/modules/search/search.service.ts:115-172 | Results have distinct chunk ids, are at most `limit`, do not increase in score, reach `minScore`, and come from rows of documents the principal may read without a bypass |
| `SearchAnswers.CandidatesAreTheReadable` | apps/api-node/src/modules/search/search.service.ts:115-140 | The candidates are, in fused order, exactly the fused chunks whose last row belongs to a document the principal may read |
| `SearchAnswers.AnswerIsTheVerdict` | apps/api-node/src/modules/search/search.service.ts:144-172 | The reranker sees the candidates' contents in order, and the answers are its picks, in order, that reach `minScore`: each is the row it picked with the score it gave to that row's content |
| `SearchAnswers.SearchIsComplete` | apps/api-node/src/modules/search/search.service.ts:115-172 | With a reranker that scores texts every answer carries the score of its own content, and every readable fused chunk that reaches `minScore` is answered unless `limit` answers score at least as much |
| `SearchAnswers.FakeRerankRanks` | packages/ai/src/providers/fake.ts:67-86 | The built-in reranker is such a reranker: it returns the best `topN` of all documents, each with its own score |
| `Search.FakeRerankIsTrusted` | packages/ai/src/providers/fake.ts:67-86 | So it meets what the pipeline demands of a reranker |
| `Search.FakeRerankIsHonest` | packages/ai/src/providers/fake.ts:67-86 | The built-in reranker returns distinct in-range indices with non-increasing scores, at most `topN` |
| `Paging.AuditRepository.Create` | apps/api-node/src/modules/audit/audit.repository.ts:17-31 | Appends a row and changes nothing else |
| `Paging.AuditRepository.List` | apps/api-node/src/modules/audit/audit.service.ts:93-117 | One page and its next cursor |
| `Paging.RestAfterRow` | apps/api-node/src/modules/audit/audit.repository.ts:34-45 | After a cursor come exactly the older rows of the organization, in order |
| `Paging.TrailExactly` | apps/api-node/src/modules/audit/audit.repository.ts:34-45 | The list holds the organization's rows that are not deleted, by creation time and then id, both descending |
| `Paging.PagesExactly` | apps/api-node/src/modules/audit/audit.service.ts:93-117 | A page is the next `limit` rows of the list, or what is left; it has a cursor, its last id, exactly if more is left; an unknown cursor gives an empty page |
| `Paging.WalkDescends` | apps/api-node/src/modules/audit/audit.service.ts:93-117 | Following cursors yields rows in strictly descending order, none twice, whatever is appended between the fetches |
| `Paging.WalkMeetsEverything` | apps/api-node/src/modules/audit/audit.service.ts:93-117 | A completed walk has met every row listed at the first fetch, whatever is appended |
| `Paging.WalkIsTheTrail` | apps/api-node/src/modules/audit/audit.service.ts:93-117 | If only newer rows are appended, the pages are exactly the trail of the first fetch, and one fetch per `limit` rows completes them |
| `Paging.ListDocuments` | apps/api-node/src/modules/documents/document.service.ts:165-187 | One page of documents: page first, access filter after |
| `Paging.VisibleExactly` | apps/api-node/src/modules/documents/document.service.ts:165-187 | Administrators see every document; others see those without entries and those with an entry that grants to them |
| `Paging.DocumentsAreComplete` | apps/api-node/src/modules/documents/document.service.ts:165-187 | On a table that stays as it is, the pages together are the access filter of the whole list, even when single pages are empty |
| `Pii.Checksum` | packages/core/src/security/pii.ts:38-48 | The loop from the last digit, with its toggling flag, computes the sum of Annex B of ISO/IEC 7812-1 |
| `Pii.LuhnLoop` | packages/core/src/security/pii.ts:35-50 | Exactly the digit strings of 13 to 19 digits whose sum is a multiple of 10 are accepted |
| `Pii.SingleDigitErrorsAreCaught` | packages/core/src/security/pii.ts:35-50 | Changing any single digit of an accepted number makes it rejected |
| `Pii.AdjacentSwapsAreCaught` | packages/core/src/security/pii.ts:35-50 | Swapping two adjacent digits of an accepted number goes unnoticed exactly when they are equal or 0 and 9 |
| `Pii.OneCheckDigit` | packages/core/src/security/pii.ts:35-50 | Every 12 to 18 digits are completed to an accepted number by exactly one last digit |
| `Pii.OnlyDigitsCount` | packages/core/src/security/pii.ts:36-37 | Characters other than digits do not matter, and fewer than 13 or more than 19 digits are rejected |
| `Pii.DetectedFindings` | packages/core/src/security/pii.ts:61-78 | Detection drops exactly the implausible card numbers and orders the rest by start |
| `Pii.KeepIsOrdered` | packages/core/src/security/pii.ts:88-96 | The kept findings are ordered and disjoint |
| `Pii.OverlapsResolved` | packages/core/src/security/pii.ts:88-96 | Every dropped finding starts inside a kept one |
| `Pii.Resolve` | packages/core/src/security/pii.ts:88-96 | The loop with its cursor keeps a finding exactly when it starts at or after the end of the last kept one |
| `Pii.RedactPii` | packages/core/src/security/pii.ts:84-107 | The two loops compute the kept findings and the spliced text |
| `Pii.RedactionReplacesExactlyTheSpans` | packages/core/src/security/pii.ts:98-106 | Text and output have the same gaps, with values in one and tokens in the other; the lengths differ accordingly |
| `Pii.RedactionIsReversible` | packages/core/src/security/pii.ts:98-106 | Putting the kept values back restores the text |
| `Pii.TokensExactly` | packages/core/src/security/pii.ts:98-104 | The token of each kept finding names its type |
| `Pii.FirstListedWins` | packages/core/src/security/pii.ts:80-96 | Of the findings at one start only the first listed can be kept, whatever the lengths |
| `Pii.LongestFirstIsEnough` | packages/core/src/security/pii.ts:80-96 | If a longest finding is listed first at every start, every kept finding is a longest at its start |
| `Pii.LongestWinsExactly` | packages/core/src/security/pii.ts:80-96 | Where findings at different starts do not overlap, the longest is kept at every start exactly when it is listed first at every start |
| `Pii.LongestIsNotPreferred` | packages/core/src/security/pii.ts:77-96 | A text with a valid card number found at the same place as a shorter social security number: through detection and resolution the shorter one is kept |
| `Ip.ParseIpv4` | apps/api-node/src/lib/ip.ts:7-19 | The octet loop with its 32-bit accumulator computes the address or nothing |
| `Ip.DottedIsRead` | apps/api-node/src/lib/ip.ts:7-19 | Four numbers of one to three digits up to 255 with dots between them are read as their 32-bit number |
| `Ip.OnlyDottedIsRead` | apps/api-node/src/lib/ip.ts:7-19 | Nothing else is read as an address |
| `Ip.IpMatchesAllowlist` | apps/api-node/src/lib/ip.ts:35-47 | The early-return scan decides membership in the allowlist |
| `Ip.AddressEntry` | apps/api-node/src/lib/ip.ts:35-47 | An entry without a slash allows exactly the address it is, spaces around it aside |
| `Ip.RangeEntry` | apps/api-node/src/lib/ip.ts:21-47 | A written range a.b.c.d/n allows exactly the addresses that agree with it after division by 2^(32-n) |
| `Ip.PrefixIsQuotient` | apps/api-node/src/lib/ip.ts:21-32 | Under signed 32-bit shifts a range matches exactly when both addresses agree after division by 2^(32-bits) (section 3.1 of RFC 4632) |
| `Ip.ShorterPrefixKeepsMatch` | apps/api-node/src/lib/ip.ts:21-32 | Shortening a prefix never loses a match |
| `Ip.WiderAllowlistKeepsAccess` | apps/api-node/src/lib/ip.ts:35-47 | Widening entries of an allowlist never locks anyone out |
| `Ip.ParseInvertsPrint` | apps/api-node/src/lib/ip.ts:7-19 | Parsing inverts dotted-quad printing for every 32-bit address |
| `Redact.Redactor.RedactInternal` | packages/core/src/redact.ts:36-51 | The recursion with its mutable set of seen objects computes the specified output and set |
| `Redact.RedactValue` | packages/core/src/redact.ts:32-34 | The entry point starts with nothing seen |
| `Redact.ExpandedOnce` | packages/core/src/redact.ts:38-39 | On any graph, cyclic or shared, no object is expanded twice |
| `Redact.OutputIsBounded` | packages/core/src/redact.ts:36-51 | The output has no more arrays and objects than the graph |
| `Redact.OutputIsMasked` | packages/core/src/redact.ts:45-48 | The output nests at most `maxDepth` deep and every sensitive key holds the marker |
| `Redact.SensitiveExactly` | packages/core/src/redact.ts:6-25 | A key is sensitive exactly if it contains one of the eleven words, in capitals or not |
| `Redact.MarkersExactly` | packages/core/src/redact.ts:36-51 | Which markers stand for objects below the depth, objects met before, and values of sensitive keys; other plain values are kept |
| `Redact.NonInterference` | packages/core/src/redact.ts:36-51 | Graphs that differ only below sensitive keys and in object identity have the same output |
| `Redact.SeenMattersExactly` | packages/core/src/redact.ts:36-51 | The output is the masked value cut off at the depth exactly when that value meets no object twice above the cut |
| `Redact.SharedIsCalledCircular` | packages/core/src/redact.ts:39 | In a graph without cycles the second mention of a shared array is written as circular |
| `Redact.TreesAreMaskedStructurally` | packages/core/src/redact.ts:36-51 | On trees within the depth limit the output is the plain structural masking |
| `Idempotency.Plugin.PreHandler` | apps/api-node/src/plugins/idempotency.ts:22-50 | The look-up decides conflict, replay, pass or a fresh record |
| `Idempotency.Plugin.OnSend` | apps/api-node/src/plugins/idempotency.ts:52-65 | Sending a reply completes a record that is in progress and no other |
| `Idempotency.RecordsPersist` | apps/api-node/src/plugins/idempotency.ts:22-65 | In every interleaving a record keeps its request hash, and a completed one never changes |
| `Idempotency.RecordsAreTheCreators` | apps/api-node/src/plugins/idempotency.ts:38-65 | In every interleaving a record was made by exactly one request and holds what that request's handler replied |
| `Idempotency.LookUpExactly` | apps/api-node/src/plugins/idempotency.ts:22-37 | A look-up refuses exactly a different body, replays exactly a stored response with a body, and lets the handler run otherwise |
| `Idempotency.RepliesBelongToTheBody` | apps/api-node/src/plugins/idempotency.ts:22-65 | In every interleaving a handler runs only for the body on record, and a request is answered by its own handler or with what is stored for the same body |
| `Idempotency.CompletedKeysAreReplayed` | apps/api-node/src/plugins/idempotency.ts:28-36 | Once a response with a body is stored the handler never runs again for the key, and every look-up replays it or conflicts |
| `Idempotency.HandlerCanRunAgainExactly` | apps/api-node/src/plugins/idempotency.ts:28-36 | From any state with a record, some continuation runs the handler again exactly when no response with a body is stored |
| `Idempotency.OverlapRunsTwice` | apps/api-node/src/plugins/idempotency.ts:28-36 | Two overlapping requests both run the handler |
| `Idempotency.EmptyReplyRunsTwice` | apps/api-node/src/plugins/idempotency.ts:28-36 | A retry after a completed reply without a body runs the handler again, with no overlap |
| `Sorting.SortIsStable` | packages/ai/src/fusion.ts:42 | The library sort, as an insertion sort: ordered, a permutation, stable |
| `Sorting.StableSortIsUnique` | packages/ai/src/fusion.ts:42 | Any ordered stable permutation is that one, so nothing depends on the algorithm |

## Left out

- Routing, schemas, SQL text, Redis, queues, storage and provider clients, metrics and configuration: input and output around the modelled logic.
- Hashing, HMAC, JWT signing, encryption of the MFA secret and password hashing themselves: parameters, with the facts listed above.
- Byte-level decoding of the event stream (`TextDecoder`) and slices that cut a surrogate pair: reads are cut between characters.
- The web proxy between writer and reader, and page rendering.
- Regular expressions of PII detection and prompt guard: findings are given; `toUpperCase`/`toLowerCase` on alphabets and keys is the ASCII folding.
- Keys named `__proto__` in redacted objects, and getters: entries are plain key-value pairs.
- `Number()` coercion of CIDR prefix lengths: a parameter of `Ip`.
- Floating-point rounding of fusion scores, prices and similarities: exact reals and integers.
- Concurrency of sign-in and refresh: two overlapping refreshes of one token can both succeed, since the code reads, issues and then revokes.
- Organization, role, avatar, last-login and audit fields around sign-in, and slug allocation: they decide nothing about sessions; a user is a member of some organization or of none.
- Deletion of users and sessions: no service does it.
- Other organizations' budget rows (every statement names one organization), the `budgetMicros` copy in a row, plan changes other than as a change of the budget read, and usage events written by the ingest worker, which bypass the spend counter.
- Timestamps of documents and jobs, and statements that take effect although their acknowledgement is lost: in `Ingest` a statement that throws has not happened.
- Soft deletion of a document while it is ingested, and two attempts at the same document at once: attempts do not overlap.
- Reading the stored file, and a provider that returns fewer vectors than texts: both are failures of a statement.
- The fake reranker's scoring of a document: any scoring function.
- Rows updated while documents are paged: the claim is for a table that stays as it is.
- Expiry of idempotency records by the retention sweep, and the method and path stored in them, which the look-up ignores.
- Rerank prices, the encryption envelope, OAuth state, role administration, identifiers: they would add only easy members.
- The Python port.
