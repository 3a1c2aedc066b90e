# Patchli: verified protocol models

A Dafny model of the stateful protocols of Patchli (a Go server and agent for
patching a fleet of machines) with machine-checked properties of them.
`dafny verify dfyconfig.toml` checks everything.

## What is modelled

| modules | part of Patchli |
|---|---|
| `Enrollment`, `EnrollmentHistory`, `TokenLines` | the four enrollment tables, the three transactions on them, and what every run keeps |
| `Transactions`, `NodeSerializability`, `Serializability`, `OvertakenCommit`, `ConcurrentEnrollment`, `ConcurrentLines`, `LateRotation` | the same transactions interleaved statement by statement under the per-node lock |
| `Database`, `MemoryBackend` | the SQL path with failing statements, and the in-memory path, as classes |
| `Registration`, `AuthHandlers` | the signed registration message, the login, refresh and revoke handlers, expiry arithmetic |
| `Json`, `Decimals`, `ReplayCache`, `Commands` | command signing, JSON transport, verification and the replay cache |
| `WorkerPool`, `WorkerPoolProofs`, `WorkerPoolSafety`, `WorkerPoolGate`, `WorkerPoolStop`, `WorkerPoolLimits` | the worker pool as a step system over its goroutines |
| `Fleet` | the agent registry as a class, and the connection handlers that share it |
| `RateLimiting` | the fixed-window rate limiter |
| `Versions`, `ShellQuoting` | the version order guarding self-update, and shell quoting of script parameters |

The main results, in the order of their difficulty:

* **Serializability.** In every statement-level interleaving of enroll, rotate
  and revoke transactions, the claims, tokens and nodes, and every answer that is
  not a refused nonce, are those of a serial run in lock order; this needs no
  hypothesis (`NodeSerializability.NodeSerializable`). The nonce table, which all
  nodes share, and the refused nonces follow the same serial run as long as no
  enrollment is *overtaken*: committed with a nonce expiry that lies before the
  start of an open enrollment that has already pruned and is not itself about to
  be refused (`Serializability.Serializable`). The condition is needed:
  the first overtaken commit of any run has a continuation that is not serial
  (`PromptIsNeeded`); `OvertakenIsNotSerial` is one with concrete times. The five
  minutes of slack between the login handler's freshness check and the commit
  exclude it (`SlackRunsAreTimely`, `TimelyIsPrompt`).
* **Token safety over whole runs**, for serial runs and for every interleaving.
  Whatever the order of the start times, every token is redeemed at most once, a
  genuine token rotates exactly until its stored expiry, and after a detected
  reuse or a revocation no token of the node survives. When tokens outlive the
  start of their transaction, an enrollment is refused exactly while an earlier
  grant stands. A node has one live token, on the line of its latest enrollment,
  if and only if no rotation redeems a token older than that enrollment.
* **One grant, one enrollment**, in every interleaving whose logins stay within
  the slack, whatever colons the presented group and nonce contain.
* **Worker pool.** Conservation and order of jobs, two jobs per group, one job per
  node, no job past the gate of a paused group, window checks, absence of
  deadlock and termination after `Stop`.
* **Signed commands.** The canonical message is injective, the `omitempty`
  transport keeps it, the pruned cache decides like a full history, and a signed
  command is accepted once, by the node it was signed for and by no other.

Where the code does not meet a property as first stated, the model keeps the
code, gives the input, and proves the exact condition:

* A refresh token whose expiry passes between the handler's check and the start
  of the transaction is treated as stolen (`LateTransactionIsAlarm`); a genuine
  token rotates if and only if the transaction starts before its stored expiry
  (`GenuineTokenRotatesIff`).
* The in-memory backend keeps nanoseconds and reads the clock twice, the database
  keeps microseconds. Over a whole run they answer alike if and only if at no call
  the node's claim runs out later in the microsecond of the call, nor the
  presented nonce between the two readings (`BackendsAgreeIff`; `ClaimsDiffer`
  and `NoncesDiffer` are runs on which they differ).
* A rotation can start before its token expires and get the node's lock after a
  new enrollment that found the token expired; two tokens are then live
  (`LateRotationKeepsTwoTokens`, for all such calls). For tokens that are fresh
  and expire after the latest enrollment started, this is the only way: one live
  token in every state of a run is equivalent to no rotation redeeming a
  token handed out before the latest enrollment (`InterleavedOneTokenIff`), and
  it holds when no rotation starts before the latest enrollment that finished
  before it (`InterleavingsKeepOneToken`).
* A deferred job whose timer wins against `Stop` can be queued after the last
  worker has left (`RequeuedJobCanBeStranded`). The queue is empty at the moment
  the last worker exits; from then on a job can be stranded in it if and only if
  some goroutine has a deferred job to put back (`CanStrandIff`).
* A `PauseGroup` between the two parts of `Stop` can block the pool until some
  group is resumed (`PauseDuringStopBlocks`). A pool that got the stop signal is
  blocked if and only if all its goroutines sleep or have ended and one sleeps
  (`BlockedIff`), and some goroutine can go on, now or later, if and only if one
  neither sleeps nor has ended (`NoDeadlock`).
* Unregistering a node while a job holds it admits a second job
  (`UnregisterAdmitsSecondJob`, reached in `TwoJobsHoldNode`); one job per node
  holds in all other runs.
* The repository's README.md (line 51) promises ten minutes for redeeming a
  setup script, the login handler enforces five (auth_handlers.go:60). The model
  follows the handler; `GrantAge` shows a grant of seven minutes, valid and
  refused.

## Assumptions

* Times are integers in nanoseconds. A transaction has one `now`, its start time
  (`CURRENT_TIMESTAMP`), and the driver stores times cut to microseconds. Server
  and database share one clock. Where the backends are compared, the transaction
  time is cut to microseconds as well, as PostgreSQL keeps it.
* A statement of the interleaved model reads the committed tables at the moment
  it takes effect. PostgreSQL takes the snapshot of the pruning `DELETE` before
  the statement waits for rows of other transactions, so there a `DELETE` that is
  still waiting can overtake a commit too. The results that need no hypothesis do
  not depend on what the nonce table holds.
* SHA-256 and HMAC-SHA-256 are injective and unforgeable. Ed25519 is an
  uninterpreted scheme with one valid signature per message and one message per
  signature (`Commands.Sound`). Newly signed tokens are distinct (`Fresh`).
* No order is assumed between the start times of transactions and the order in
  which they take a lock, except where a row says so. Where a result needs that
  tokens outlive the start of their transaction (`Outliving`), `CallsOutlive`
  derives it from the handlers for transactions that start within a week.
* Rows of `refresh_tokens` form a set, since the statements only ask whether any
  row matched. The node lock is per node: hash collisions of
  `hashtextextended` would only make transactions wait longer.
* A failed commit is a rollback.
* The server's `Message` and the agent's `commandMessage` are the same encoding
  and are modelled once.

## Model

| member | source | states |
|---|---|---|
| `Common.StoredKeepsSeconds` | server/internal/auth/auth.go:86-97 | cutting an expiry to whole seconds never passes a later expiry cut to microseconds |
| `Common.InstantsAreCut` | server/internal/auth/auth.go:86-97 | stored instants are whole microseconds and signed ones the whole seconds they lie in |
| `Enrollment.ExecuteElsewhere` | server/internal/db/db.go:180-206 | a call on one node leaves the claim and the tokens of every other node as they were |
| `EnrollmentHistory.CoverageKept` | server/internal/db/db.go:242-303 | from any state whose live tokens are outlived by the node's claim, every run in the order of its times keeps that |
| `EnrollmentHistory.OneLiveToken` | server/internal/db/db.go:242-303 | coverage and at most one live token per node are kept together, from any such state, by every run in the order of its times |
| `EnrollmentHistory.FullCoverageKept` | server/internal/db/db.go:255-303 | when tokens outlive the start of their transaction, no stored token, expired or not, outlasts the claim, in whatever order the times stand |
| `EnrollmentHistory.CoverageKeptByOutliving` | server/internal/db/db.go:255-303 | the same, from any state, for the tokens unexpired at a fixed time |
| `EnrollmentHistory.TokensReferenceNodes` | server/internal/db/db.go:260-267 | every token row belongs to a node row in every reachable state |
| `EnrollmentHistory.NonceOrigin` | server/internal/db/db.go:354-367 | every recorded nonce was redeemed by an earlier successful enrollment with that expiry |
| `EnrollmentHistory.NoncePersists` | server/internal/db/db.go:354-367 | a redeemed nonce stays recorded while no later call starts after its expiry |
| `EnrollmentHistory.NonceRefusedIff` | server/internal/db/db.go:242-255 | an unclaimed node is refused for its nonce exactly when an earlier enrollment redeemed it and its expiry has not passed, if no earlier enrollment started later |
| `EnrollmentHistory.ClaimPersists` | server/internal/db/db.go:213-217 | a live claim survives every run of calls without a revocation of its node, unless an enrollment starts after the time in question and claims the node for a time before it |
| `EnrollmentHistory.ClaimOrigin` | server/internal/db/db.go:255-258 | a claim's expiry was set by an enrollment or rotation of the node that was not revoked since |
| `EnrollmentHistory.ClaimedIffStands` | server/internal/db/db.go:242-258 | at any time a node is claimed exactly while some earlier grant of it is unexpired and not revoked since |
| `EnrollmentHistory.EnrollRefusedIff` | server/internal/db/db.go:241-249 | when tokens outlive the start of their transaction, an enrollment is refused as already enrolled exactly when an earlier grant of the node is unexpired and not revoked since |
| `EnrollmentHistory.EnrollmentsSeparated` | server/internal/db/db.go:213-269 | two enrollments of a node are separated by a revocation or by the passing of every expiry set from the first to the second |
| `EnrollmentHistory.RowOrigin` | server/internal/db/db.go:266-296 | every stored token row was handed out by an earlier successful call with that token and expiry |
| `EnrollmentHistory.RedeemedIsSpent` | server/internal/db/db.go:281-296 | once redeemed, a token never has a live row again in the run |
| `EnrollmentHistory.RedeemedAtMostOnce` | server/internal/db/db.go:271-306 | a second presentation of a redeemed token is answered as reuse, in whatever order the two requests started |
| `EnrollmentHistory.WipeLocksOut` | server/internal/db/db.go:290-324 | after a reuse or a revocation the node stores no token and rotates none until its next successful enrollment |
| `EnrollmentHistory.ReuseKeepsClaim` | server/internal/db/db.go:213-217 | the claim survives a detected reuse and still refuses every enrollment it outlives |
| `EnrollmentHistory.RowPersists` | server/internal/db/db.go:281-324 | a handed-out token stays stored until it is presented, its node is revoked or a reuse is detected |
| `EnrollmentHistory.GenuineTokenRotatesIff` | server/internal/db/db.go:281-303 | a token neither presented nor revoked since it was handed out rotates if and only if the transaction starts before its stored expiry |
| `EnrollmentHistory.Latest` | server/internal/db/migrations/000006_node_enrollments.up.sql:11 | MAX(expires_at): an expiry of one of the rows that no row exceeds |
| `EnrollmentHistory.MigratedClaims` | server/internal/db/migrations/000006_node_enrollments.up.sql:10-15 | exactly the nodes with a live token are claimed, each until the largest expiry of its live tokens, and no other table changes |
| `EnrollmentHistory.MigratedStaysCovered` | server/internal/db/migrations/000006_node_enrollments.up.sql:10-15 | in every run from a migrated database each token unexpired at the migration is covered by a claim at least as long, when tokens outlive the start of their transaction |
| `EnrollmentHistory.MigratedStaysCoveredInOrder` | server/internal/db/migrations/000006_node_enrollments.up.sql:10-15 | the same without that condition in every run in the order of its times |
| `TokenLines.TokensFromEmpty` | server/internal/db/db.go:218-324 | from empty tables, when no rotation that succeeds started before the latest enrollment preceding it, one token per node is live since that enrollment and each stored token ends no later than the claim |
| `TokenLines.MonotoneIsInOrder` | server/internal/db/db.go:276-306 | runs in the order of their times meet that condition |
| `TokenLines.OneTokenSinceEnrollment` | server/internal/db/db.go:242-303 | one token per node is live since its latest enrollment as long as no rotation redeems a row which that enrollment found expired |
| `TokenLines.LiveTokenDescends` | server/internal/db/db.go:276-306 | under the same condition every such token is reached by a chain of rotations from the latest enrollment |
| `TokenLines.ExpiredIsOlder` | server/internal/db/db.go:281-303 | for lasting tokens, a row that the latest enrollment found expired is one that was handed out before it |
| `TokenLines.ExpiredRedemptionDoubles` | server/internal/db/db.go:281-303 | redeeming such a row leaves the node with two live tokens |
| `TokenLines.OneLiveTokenIff` | server/internal/db/db.go:242-303 | one live token per node at every point of a run if and only if no rotation redeems a token handed out before the latest enrollment |
| `TokenLines.DescentIff` | server/internal/db/db.go:276-306 | every live token descends from the latest enrollment, at every point of a run, under exactly the same condition |
| `Database.DB.ConsumeNonce` | server/internal/db/db.go:354-367 | a nonce is new unless an unexpired record exists; the remaining records are the unexpired ones plus this one; errors exactly when a statement fails |
| `Database.DB.EnrollNode` | server/internal/db/db.go:241-269 | succeeds only if each of its nine statements does, fails only if one fails, and then leaves all tables unchanged; otherwise does what the serial call does |
| `Database.DB.RotateRefreshToken` | server/internal/db/db.go:280-306 | rotates or wipes only if each statement on that way succeeds, and otherwise leaves all tables unchanged; then does what the serial call does |
| `Database.DB.RevokeEnrollment` | server/internal/db/db.go:317-324 | fails exactly when one of its statements fails, and then leaves all tables unchanged; otherwise does what the serial call does |
| `NodeSerializability.StatementKeepsRows` | server/internal/db/db.go:241-324 | one statement keeps an open transaction in step with the rows of its node, and refuses an enrollment as already enrolled exactly when its node is claimed |
| `NodeSerializability.CommitIsRowExecute` | server/internal/db/db.go:189-206 | committing the accumulated writes of a transaction leaves the rows and the answer of the call, executed at once on tables with the same rows and a free nonce |
| `NodeSerializability.CommitKeepsRows` | server/internal/db/db.go:180-206 | a commit for another node leaves what an open transaction has read of its own node in place |
| `NodeSerializability.ExclusiveKept` | server/internal/db/db.go:180-186 | no two open transactions ever hold the same node or the same nonce row |
| `NodeSerializability.InLockOrderKept` | server/internal/db/db.go:180-186 | the calls on a node finish in the order in which they took its lock |
| `NodeSerializability.NodeSerialKept` | server/internal/db/db.go:189-206 | every step keeps rows and answers equal to a serial run of the calls not refused for their nonce |
| `NodeSerializability.RefusedUnclaimedKept` | server/internal/db/db.go:241-255 | a call refused for its nonce is an enrollment of a node that the serial run finds unclaimed |
| `NodeSerializability.NodeSerializable` | server/internal/db/db.go:180-324 | in every interleaving, without hypothesis, claims, tokens, nodes and every answer but a refused nonce are those of a serial run in lock order |
| `Serializability.StatementKeepsGood` | server/internal/db/db.go:241-324 | one statement keeps an open transaction in step with the committed tables, nonces included, or refuses exactly as the serial call would |
| `Serializability.CommitIsExecute` | server/internal/db/db.go:189-206 | committing the accumulated writes of a finished transaction equals executing its call at once on the committed tables |
| `Serializability.CommitKeepsGoodIff` | server/internal/db/db.go:354-367 | a commit of another node leaves what an open transaction has read of rows and nonces in place if and only if it is not overtaken |
| `Serializability.AllGoodKept` | server/internal/db/db.go:189-206 | every step without an overtaken commit keeps all open transactions in step with the committed tables |
| `Serializability.SerialKept` | server/internal/db/db.go:189-206 | every step keeps tables and answers equal to a serial run of the finished calls |
| `Serializability.Serializable` | server/internal/db/db.go:180-324 | every interleaving without an overtaken commit has the tables and all answers, refused nonces included, of a serial run in lock order |
| `Serializability.OvertakenContinues` | server/internal/db/db.go:354-367 | from any serial state that meets the invariants, an overtaken commit has a continuation that is not serial |
| `Serializability.PromptIsNeeded` | server/internal/db/db.go:354-367 | the first overtaken commit of any run can be continued to a state that is not serial |
| `Serializability.TimelyIsPrompt` | server/internal/db/db.go:354-367 | when enrollments commit by their nonce expiry, none is overtaken |
| `Serializability.NoncesKeptOnce` | server/internal/db/db.go:354-367 | every step keeps redeemed nonces recorded until they expire and never redeems one again with an earlier or equal expiry |
| `Serializability.NonceEnrollsOnce` | server/internal/db/db.go:241-269 | in every timely interleaving, enrollments with one nonce record strictly later expiries |
| `ConcurrentEnrollment.NodeHistory` | server/internal/db/db.go:189-206 | in every interleaving the committed rows and the answers are those of the serial history of the decided calls |
| `ConcurrentEnrollment.InterleavingsKeepOneToken` | server/internal/db/db.go:241-306 | in every interleaving in which no rotation that succeeds started before the latest enrollment that finished before it, one token per node is live since that enrollment and all are covered by the claim |
| `ConcurrentEnrollment.InterleavingsRedeemOnce` | server/internal/db/db.go:271-306 | of several requests racing to redeem one token, however they were timed, only the first to take the lock rotates it |
| `ConcurrentEnrollment.NoReplacementSurvives` | server/internal/db/db.go:271-275 | no token issued by a concurrent request survives a detected reuse or a revocation |
| `ConcurrentEnrollment.InterleavedEnrollRefusedIff` | server/internal/db/db.go:241-249 | in every interleaving whose tokens outlive the start of their transaction, an enrollment is refused as already enrolled exactly when an earlier grant of the node is unexpired and not revoked since |
| `ConcurrentEnrollment.InterleavedEnrollmentsSeparated` | server/internal/db/db.go:213-269 | in every such interleaving an enrollment comes after a revocation or after the passing of every expiry that an earlier enrollment or rotation of the node set |
| `ConcurrentEnrollment.InterleavedTokenDescends` | server/internal/db/db.go:276-306 | in every interleaving as for one token, a token live since the latest enrollment is reached from it by a chain of rotations |
| `ConcurrentEnrollment.InterleavedTokenRotatesIff` | server/internal/db/db.go:281-303 | in every interleaving a token neither presented nor revoked since it was handed out rotates if and only if the transaction starts before its stored expiry |
| `ConcurrentLines.InterleavedOneTokenIff` | server/internal/db/db.go:241-306 | one live token per node in every state of an interleaving if and only if no rotation redeems a token handed out before the latest enrollment |
| `LateRotation.LateRotationKeepsTwoTokens` | server/internal/db/db.go:276-303 | for every rotation that starts in its token's lifetime and every enrollment that starts after it, the interleaving in which the enrollment takes the lock first is reachable and leaves two live tokens |
| `Serializability.CompletesAlone` | server/internal/db/db.go:189-206 | a transaction whose rivals wait for their locks runs to its end with the tables and the answer of the serial call |
| `OvertakenCommit.OvertakenIsNotSerial` | server/internal/db/db.go:354-367 | a reachable interleaving with an overtaken commit whose answers neither serial order gives |
| `Registration.GroupNameCharacters` | server/internal/api/handlers.go:24-38 | a group name is valid exactly when it is not empty and each character alone is; which characters are |
| `Registration.IssuedWithoutColons` | server/internal/api/handlers.go:24-38 | an issued group name and nonce contain no colon |
| `Registration.GroupsAgree` | server/internal/auth/auth.go:69-73 | two readings of one message have groups of equal length when one of them has no colon in group and nonce |
| `Registration.RestDetermines` | server/internal/auth/auth.go:69-73 | timestamp and nonce are determined by the rest of the message for arbitrary nonces |
| `Registration.MessageDetermines` | server/internal/auth/auth.go:69-73 | a presented request with the message of a grant without colons in group and nonce is that grant, whatever colons the request contains |
| `Registration.MessageDeterminesGrant` | server/internal/auth/auth.go:181-190 | a presented request with the message of an issued grant is that grant |
| `Registration.StampOfParts` | server/internal/auth/auth.go:181-190 | date, time, fraction or none and zone make a timestamp that is accepted as RFC 3339 |
| `Registration.SlackIsTimely` | server/internal/api/auth_handlers.go:58-77 | the freshness check leaves five minutes (less a microsecond) until the recorded nonce expiry |
| `Registration.SlackRunsAreTimely` | server/internal/api/auth_handlers.go:58-77 | a run whose logins pass the freshness check and commit within the slack after it commits every enrollment by its nonce expiry |
| `Registration.EnrollmentsHaveRequests` | server/internal/api/auth_handlers.go:53-77 | every enrollment logged in such a run carries the nonce and the nonce expiry of its request |
| `Registration.GrantEnrollsOnce` | server/internal/api/auth_handlers.go:53-77 | one grant without colons, so every issued one, enrolls at most once over all nodes in every interleaving whose logins stay within the slack |
| `AuthHandlers.SignedExpiryIsStored` | server/internal/auth/auth.go:86-118 | a time that passes the signed expiry lies before the stored expiry |
| `AuthHandlers.NoFalseAlarm` | server/internal/api/auth_handlers.go:115-142 | a genuine token that is unexpired when the transaction starts rotates and raises no alarm |
| `AuthHandlers.LateTransactionIsAlarm` | server/internal/api/auth_handlers.go:115-142 | a token that expires between the check and the transaction counts as reused and wipes the node's tokens |
| `AuthHandlers.GrantAge` | server/internal/api/auth_handlers.go:53-63 | a genuine grant is valid up to ten minutes of age and accepted up to five; at seven it is valid and refused |
| `AuthHandlers.LoginIsCalledFor` | server/internal/api/auth_handlers.go:53-77 | the call made by the login handler carries the nonce, the nonce expiry and the freshness check of its request |
| `AuthHandlers.CallsOutlive` | server/internal/api/auth_handlers.go:65-77 | tokens of login and refresh outlive the start of their transaction if it starts within a week |
| `AuthHandlers.IssuedTokenIsValid` | server/internal/auth/auth.go:86-166 | an issued refresh token is accepted for its own node alone, never unsigned, until less than a second before its seven days end; its stored expiry lies within a microsecond of them |
| `AuthHandlers.NonceLifetime` | server/internal/api/auth_handlers.go:77 | the recorded nonce expiry lies ten minutes after the timestamp, cut to microseconds |
| `AuthHandlers.NodeIdCharacters` | server/internal/api/auth_handlers.go:19-21 | every MAC address is a node id; an id has one to fifty characters, each valid alone, and no separator of paths, commands or markup |
| `AuthHandlers.HandleAgentLogin` | server/internal/api/auth_handlers.go:40-100 | 401 without change for a bad signature, an empty nonce, a missing, stale or future timestamp or a used nonce; the exact condition of every status; with 200 the returned token, the claim and the nonce are stored with their expiries |
| `AuthHandlers.HandleAgentRefresh` | server/internal/api/auth_handlers.go:102-154 | the exact condition of every status in terms of signature, expiry, subject and stored row; tables change only by a committed rotation or wipe; with 200 the returned token is stored for seven days |
| `AuthHandlers.HandleRevokeEnrollment` | server/internal/api/auth_handlers.go:156-177 | 204 exactly when the revocation was committed, after which the node has no claim and no token and all other rows are unchanged |
| `MemoryBackend.MemoryStore.PruneClaims` | server/internal/db/db.go:222-227 | exactly the claims ahead of the clock remain |
| `MemoryBackend.MemoryStore.ConsumeNonce` | server/internal/db/db.go:334-352 | a nonce is unused exactly when no unexpired record exists; the map holds the unexpired records and this one |
| `MemoryBackend.MemoryStore.EnrollNode` | server/internal/db/db.go:218-240 | state and answer are those of the in-memory specification |
| `MemoryBackend.MemoryStore.RevokeEnrollment` | server/internal/db/db.go:310-316 | state and answer are those of the in-memory specification |
| `MemoryBackend.MemoryIsRecord` | server/internal/db/db.go:218-240 | one call on the eagerly pruned memory answers as on a record that prunes nothing, and keeps holding its live entries |
| `MemoryBackend.MemoryAnswersAsRecord` | server/internal/db/db.go:218-240 | in every run with a monotone clock the pruned memory answers every call as the unpruned record |
| `MemoryBackend.SameAnswerIff` | server/internal/db/db.go:241-269 | the database, which keeps microseconds, answers a call as the record if and only if neither the claim nor the presented nonce runs out within the readings |
| `MemoryBackend.AgreementKept` | server/internal/db/db.go:241-324 | after such a call the tables still hold the record's claims and live nonces, cut to microseconds |
| `MemoryBackend.FirstDifference` | server/internal/db/db.go:218-352 | up to the first straddling expiry, a call is answered alike exactly when its expiries do not straddle |
| `MemoryBackend.BackendsAgreeIff` | server/internal/db/db.go:218-352 | from empty stores with a monotone clock, both backends answer all calls of a run alike if and only if no claim or nonce straddles the readings of a call |
| `MemoryBackend.ClaimsDiffer` | server/internal/db/db.go:222-258 | a run on which a claim expiring within a microsecond counts in memory but not in the database |
| `MemoryBackend.NoncesDiffer` | server/internal/db/db.go:334-367 | a run on which a nonce expiring between the two readings is refused by the database and accepted in memory |
| `RateLimiting.RateLimiter.Allow` | server/internal/api/middleware.go:77-99 | decision and windows are those of the specification; other clients keep their unexpired windows, and expired ones go only above 10000 clients |
| `RateLimiting.SameWindows` | server/internal/api/middleware.go:77-99 | at every later time the pruned and the unpruned limiter hold the same unexpired windows |
| `RateLimiting.PruningChangesNothing` | server/internal/api/middleware.go:81-87 | every request is decided as by a limiter that never prunes |
| `RateLimiting.AdmissionsByWindow` | server/internal/api/middleware.go:88-99 | admissions in an interval are bounded by where the current window starts |
| `RateLimiting.SlidingWindowBound` | server/internal/api/middleware.go:73-99 | an interval of one window length admits at most 2·limit − 1 requests of a client |
| `RateLimiting.SlidingWindowBoundIsTight` | server/internal/api/middleware.go:73-99 | for every limit some run admits exactly that many |
| `RateLimiting.WindowCounts` | server/internal/api/middleware.go:88-99 | the count of a current window is at most the number of admissions of its client since the window started |
| `RateLimiting.RefusedAfterLimit` | server/internal/api/middleware.go:94-98 | a refused request is preceded by as many admissions of its client as the limit, all less than one window earlier |
| `RateLimiting.BelowLimitAllowed` | server/internal/api/middleware.go:88-99 | a request whose client was admitted less often than the limit within the last window is admitted |
| `Decimals.DecimalReadsBack` | agent/cmd/patchli-agent/main.go:736-740 | the decimal text of a number consists of digits and reads back as the number |
| `Json.StringReadsBack` | server/internal/cmdsign/cmdsign.go:79-98 | an escaped JSON string (section 7 of RFC 8259) followed by any text reads back as the string and that text |
| `Json.ItemsReadBack` | server/internal/models/models.go:28-40 | an array of strings reads back |
| `Json.IntReadsBack` | server/internal/models/models.go:28-40 | an integer reads back unless a digit follows it |
| `Json.ValueReadsBack` | server/internal/models/models.go:28-40 | a string, array or number value reads back |
| `Json.FieldReadsBack` | server/internal/models/models.go:28-40 | a key with its value reads back |
| `Json.ObjectReadsBack` | server/internal/models/models.go:28-40 | an object followed by any text reads back as its fields, in order, and that text |
| `Json.ObjectTextInjective` | server/internal/cmdsign/cmdsign.go:79-98 | objects with the same text have the same fields |
| `Json.ObjectTextSafe` | server/internal/cmdsign/cmdsign.go:79-98 | the text of an object has no control character and none of the characters that are escaped for HTML |
| `ReplayCache.CacheIsHistory` | agent/cmd/patchli-agent/command_auth.go:87-110 | an unexpired signature is in the pruned cache exactly when it was accepted before |
| `ReplayCache.AcceptsIffNew` | agent/cmd/patchli-agent/command_auth.go:87-110 | a presentation is accepted exactly when it is valid and was not accepted before |
| `Commands.MessageInjective` | server/internal/cmdsign/cmdsign.go:67-98 | two commands have the same canonical message if and only if their signed fields agree, nil and empty packages identified |
| `Commands.OmitsEmpty` | server/internal/models/models.go:28-40 | id and action are always sent, every other field exactly when it is not its zero value, and nothing else |
| `Commands.WireFieldsStore` | server/internal/models/models.go:28-40 | storing the fields left by omitempty gives the command with empty packages read as nil |
| `Commands.TransportKeepsCommand` | server/internal/models/models.go:28-40 | the received command is the sent one up to empty packages, and its canonical message is unchanged |
| `Commands.TrailingTextRefused` | agent/cmd/patchli-agent/main.go:451-462 | a command followed by other text is refused |
| `Commands.SignKeepsOrder` | server/internal/cmdsign/cmdsign.go:102-118 | signing keeps id, action, packages and scripts, sets the addressee and an expiry of 15 minutes cut to seconds, and without a key changes nothing |
| `Commands.Agent.VerifyCommand` | agent/cmd/patchli-agent/command_auth.go:65-111 | without a key everything is accepted; with one, acceptance is exactly a valid signature, the agent's own node id, an expiry ahead and no unexpired cache entry, and each refusal names the first check that failed |
| `Commands.Agent.PruneSeen` | agent/cmd/patchli-agent/command_auth.go:101-105 | exactly the unexpired cache entries stay, unchanged |
| `Commands.SignatureIdentifiesOrder` | agent/cmd/patchli-agent/command_auth.go:73-92 | valid presentations carry the same signature if and only if they carry the same order |
| `Commands.PresentationsConsistent` | agent/cmd/patchli-agent/command_auth.go:65-111 | in a run with a monotone clock, valid presentations of one signature share one expiry ahead of their time |
| `Commands.VerdictByHistory` | agent/cmd/patchli-agent/command_auth.go:65-111 | a verdict is that of the checks, or a replay exactly when the order was accepted earlier in the run |
| `Commands.RememberedIsAccepted` | agent/cmd/patchli-agent/command_auth.go:87-110 | an agent with an unpruned history of its own remembers exactly the orders accepted by the pruning one |
| `Commands.PruningChangesNothing` | agent/cmd/patchli-agent/command_auth.go:87-110 | every verdict equals that of an independently defined agent that remembers all commands it accepted forever |
| `Commands.AcceptedAtMostOnce` | agent/cmd/patchli-agent/command_auth.go:87-110 | an accepted order is never accepted again in the run |
| `Commands.CacheHoldsLiveEntries` | agent/cmd/patchli-agent/command_auth.go:93-110 | right after an acceptance the cache holds only unexpired entries |
| `Commands.SignedCommandPasses` | server/internal/cmdsign/cmdsign.go:102-118 | a command signed for a node arrives intact and passes its checks exactly until its expiry, which is at least 15 minutes less a second away |
| `Commands.FirstDeliveryAccepted` | agent/cmd/patchli-agent/main.go:327-348 | the first delivery of a signed command before its expiry is accepted in every run |
| `Commands.SoundSchemeExists` | server/internal/cmdsign/cmdsign.go:102-118 | the assumptions made on the signing key can be met by a scheme whose decoder refuses texts |
| `Commands.ObeyedOnce` | agent/cmd/patchli-agent/command_auth.go:65-111 | of two deliveries of a valid order the first is accepted unless the order was accepted before, and the second never |
| `Commands.SignedOrderObeyedOnce` | agent/cmd/patchli-agent/main.go:451-462 | the same from signing on: a signed command delivered within 15 minutes less a second is obeyed at its first delivery and never again |
| `Commands.AcceptedIsSigned` | agent/cmd/patchli-agent/command_auth.go:65-92 | in every run an accepted command carries the signature of its own message, names the agent's node and has not expired |
| `Commands.OtherNodeNeverAccepts` | agent/cmd/patchli-agent/command_auth.go:87-89 | a command signed for one node is accepted by no other node in any run |
| `Commands.AlteredNeverAccepted` | agent/cmd/patchli-agent/command_auth.go:73-86 | under the signature of a signed command nothing but that command is accepted |
| `WorkerPoolProofs.StepConserves` | server/internal/orchestration/workers.go:67-204 | every step keeps the count of each job: accepted equals queued, carried and finished together |
| `WorkerPoolProofs.JobsConserved` | server/internal/orchestration/workers.go:67-204 | in every run each accepted job is in exactly one of queue, goroutine or outcome |
| `WorkerPoolSafety.SemaphoresStay` | server/internal/orchestration/workers.go:162-168 | a group's semaphore is never replaced and never shared with another group |
| `WorkerPoolSafety.SectionStaysSlots` | server/internal/orchestration/workers.go:170-171 | every step keeps the jobs in a group's dispatch section equal to the slots taken in its semaphore |
| `WorkerPoolSafety.AtMostTwoPerGroup` | server/internal/orchestration/workers.go:162-171 | at most two jobs of a group are in the dispatch section, and they are exactly the slots taken |
| `WorkerPoolSafety.NodeSlotKept` | server/internal/orchestration/workers.go:117-122 | every step but unregistering a held node keeps its holders equal to its job slot |
| `WorkerPoolSafety.OneJobPerNode` | server/internal/orchestration/workers.go:117-122 | at most one job is between AcquireJob and ReleaseJob of a node in runs that do not unregister it while held |
| `WorkerPoolSafety.WindowsRespected` | server/internal/orchestration/workers.go:130-160 | a job is deferred at most once, and any job past the check was checked within [start, end − 15 min] |
| `WorkerPoolSafety.MoveJustified` | server/internal/orchestration/workers.go:117-204 | a finished job has the reason its outcome names; a job skipped as busy frees nothing |
| `WorkerPoolSafety.EveryOutcomeJustified` | server/internal/orchestration/workers.go:130-204 | in every run each recorded outcome is justified by the job's window and the pool's state |
| `WorkerPoolSafety.SleepersArePaused` | server/internal/orchestration/workers.go:76-128 | no wake-up is lost: a worker sleeps at the gate only while its group is paused |
| `WorkerPoolGate.QueueIsFifo` | server/internal/orchestration/workers.go:67-107 | in every run jobs leave the queue in the order in which they entered it |
| `WorkerPoolGate.SubmitAcceptedIff` | server/internal/orchestration/workers.go:67-74 | a job is accepted exactly while fewer than 100 jobs are queued |
| `WorkerPoolGate.QueueBounded` | server/internal/orchestration/workers.go:31-39 | the queue never holds more than 100 jobs |
| `WorkerPoolGate.GateDecides` | server/internal/orchestration/workers.go:124-128 | at the gate a job of a paused group goes to sleep and any other goes on |
| `WorkerPoolGate.OnlyThroughGate` | server/internal/orchestration/workers.go:124-128 | a job gets past the gate only from the gate and only while its group is not paused |
| `WorkerPoolGate.PauseHolds` | server/internal/orchestration/workers.go:76-89 | from PauseGroup on, through every run that does not resume the group, none of its jobs gets past the gate |
| `WorkerPoolGate.PausedIff` | server/internal/orchestration/workers.go:50-89 | in every run a group is paused exactly when it was paused and not resumed since |
| `WorkerPoolGate.ResumeReleases` | server/internal/orchestration/workers.go:83-89 | resuming a group lets its sleeping workers go on |
| `WorkerPoolGate.WindowDecides` | server/internal/orchestration/workers.go:130-160 | a job passes, is skipped or is put off exactly by where the clock stands to its window and the last 15 minutes of it |
| `WorkerPoolGate.SemaphoreAdmitsIff` | server/internal/orchestration/workers.go:162-171 | a waiting job gets in exactly while fewer than two jobs of its group are in the dispatch section |
| `WorkerPoolGate.TimerDue` | server/internal/orchestration/workers.go:142-148 | a deferred job is due at the start of its window, but no sooner than in ten seconds |
| `WorkerPoolGate.RequeueTries` | server/internal/orchestration/workers.go:67-74 | a requeue fires when due, is dropped no sooner than 30 seconds later and cancelled only by the stop signal |
| `WorkerPoolStop.MoveUsesWork` | server/internal/orchestration/workers.go:91-204 | every goroutine step of an unpaused pool uses up remaining work |
| `WorkerPoolStop.RankFalls` | server/internal/orchestration/workers.go:50-60 | after Stop, the rank falls with every effective step and never rises without Submit or PauseGroup |
| `WorkerPoolStop.StopTerminates` | server/internal/orchestration/workers.go:50-65 | after Stop every run without Submit or PauseGroup has at most as many effective steps as the rank |
| `WorkerPoolStop.RunsAreSafe` | server/internal/orchestration/workers.go:20-204 | every reachable state satisfies the invariants that the progress results rely on |
| `WorkerPoolStop.WorkersNeverStuck` | server/internal/orchestration/workers.go:91-171 | after the stop signal, while some worker is awake, some worker can step |
| `WorkerPoolStop.RequeuesNeverStuck` | server/internal/orchestration/workers.go:142-158 | after the stop signal a requeue goroutine can step once enough time has passed |
| `WorkerPoolStop.NoDeadlock` | server/internal/orchestration/workers.go:91-171 | after the stop signal some goroutine can step, now or after some time, if and only if one neither sleeps at the gate nor has ended |
| `WorkerPoolStop.StoppedNeverStuck` | server/internal/orchestration/workers.go:50-60 | with no group paused, unless all goroutines have ended, one can step now or later |
| `WorkerPoolStop.FinalAccount` | server/internal/orchestration/workers.go:67-204 | when all goroutines have ended, each accepted job has an outcome or is still queued |
| `WorkerPoolStop.LastExitFindsEmptyQueue` | server/internal/orchestration/workers.go:91-107 | the queue is empty when the last worker exits |
| `WorkerPoolStop.OnlyRequeuedLeft` | server/internal/orchestration/workers.go:91-160 | jobs left in the queue after the last worker are deferred ones that were put back |
| `WorkerPoolLimits.StopSettles` | server/internal/orchestration/workers.go:50-60 | without a PauseGroup between its two parts, Stop leaves the pool stopped with no group paused |
| `WorkerPoolLimits.AcquiringTakesNode` | server/internal/orchestration/workers.go:117-122 | a worker about to acquire a node adds a holder if and only if the node's slot is free |
| `WorkerPoolLimits.UnregisterAdmitsSecondJob` | server/internal/fleet/fleet.go:63-64 | in every state, unregistering a node lets a worker about to acquire it add a holder, whatever job holds it |
| `WorkerPoolLimits.TwoJobsHoldNode` | server/internal/fleet/fleet.go:63-64 | a reachable state of a pool with two workers in which two jobs hold one node |
| `WorkerPoolLimits.SleepsOn` | server/internal/orchestration/workers.go:124-128 | a sleeping worker of any pool stays asleep through every run that resumes no group |
| `WorkerPoolLimits.BlockedIff` | server/internal/orchestration/workers.go:50-128 | a pool that got the stop signal is blocked, through every run that resumes no group, if and only if all its goroutines sleep or have ended and one sleeps |
| `WorkerPoolLimits.PauseDuringStopBlocks` | server/internal/orchestration/workers.go:50-60 | a pause between the two parts of Stop leads to a reachable blocked pool; resuming the group frees it |
| `WorkerPoolLimits.RequeuedJobCanBeStranded` | server/internal/orchestration/workers.go:142-158 | a reachable stopped state without workers whose queue holds a job |
| `WorkerPoolLimits.CanStrandIff` | server/internal/orchestration/workers.go:142-158 | after the last worker left an empty queue, a continuation without Submit puts a job into it if and only if some goroutine has a deferred job to put back |
| `Fleet.AgentManager.Register` | server/internal/fleet/fleet.go:26-42 | the entry points to this connection, a different one is closed, details are renewed, job slots untouched |
| `Fleet.AgentManager.Unregister` | server/internal/fleet/fleet.go:44-52 | entry and job slot are gone, the details are marked offline |
| `Fleet.AgentManager.UnregisterConn` | server/internal/fleet/fleet.go:54-69 | removes the entry exactly when it is this connection's and changes nothing otherwise |
| `Fleet.AgentManager.PruneStaleAgents` | server/internal/fleet/fleet.go:71-83 | exactly the nodes whose last heartbeat is not before the cutoff keep their details; the others lose details, entry and job slot, and nothing else changes |
| `Fleet.AgentManager.AcquireJob` | server/internal/fleet/fleet.go:138-146 | acquires exactly when no job holds the node |
| `Fleet.RegistryIsLive` | server/internal/websocket/websocket.go:114-171 | in every interleaving an entry points to a running handler authenticated as its node |
| `Fleet.NoHandlerNoEntry` | server/internal/websocket/websocket.go:114-171 | a node whose handlers have all ended has no entry |
| `Fleet.ExitRemovesOwnEntry` | server/internal/websocket/websocket.go:116-126 | a handler's exit removes its own entry and no other connection's |
| `Fleet.ReplacedConnectionsClosed` | server/internal/fleet/fleet.go:26-32 | in every run a running connection that registered owns its entry, was closed for a successor, or had its entry evicted by Unregister, PruneStaleAgents or Reset |
| `Fleet.HeartbeatRegisters` | server/internal/websocket/websocket.go:141-160 | a heartbeat gives its node to the connection it came from and is recorded in whole seconds |
| `Fleet.MismatchEndsHandler` | server/internal/websocket/websocket.go:148-156 | a heartbeat naming another node ends its handler, registers nothing and takes no other connection's entry |
| `Fleet.HeartbeatsAreKept` | server/internal/websocket/websocket.go:141-160 | in every run the registry holds the second of each node's last heartbeat |
| `Fleet.PruneEvictsIff` | server/internal/fleet/fleet.go:71-83 | in every run pruning evicts a node's connection exactly when the second of its last heartbeat lies before the cutoff |
| `Versions.ParseVersion` | agent/cmd/patchli-agent/main.go:724-742 | the loop computes the specified parse, including all refusals |
| `Versions.IsNewerVersion` | agent/cmd/patchli-agent/main.go:746-768 | the loop decides whether the first differing component is larger; unparseable candidates lose, unparseable current versions give way |
| `Versions.ReleaseVersionParses` | agent/cmd/patchli-agent/main.go:723-742 | dotted numbers, with or without `v`, leading spaces, and a suffix or trailing spaces, parse to those numbers |
| `Versions.ParseIff` | agent/cmd/patchli-agent/main.go:724-742 | a text parses to some numbers exactly when what trimming, `v` and suffix leave of it is their digits with dots between them |
| `Versions.NewerIsAsymmetric` | agent/cmd/patchli-agent/main.go:746-768 | no two versions are newer than each other |
| `Versions.NewerIsTransitive` | agent/cmd/patchli-agent/main.go:746-768 | newer is transitive |
| `Versions.NewerOrSame` | agent/cmd/patchli-agent/main.go:746-768 | two versions are incomparable exactly when they agree up to trailing zeros |
| `Versions.NewerIsLexicographic` | agent/cmd/patchli-agent/main.go:746-768 | newer is the lexicographic order of the versions without trailing zeros |
| `Versions.VerifyManifest` | agent/cmd/patchli-agent/main.go:704-719 | a manifest is accepted exactly for this platform, a size of 1 byte to 256 MiB, a hash of 64 characters and a newer version |
| `Versions.UpdatesIncrease` | agent/cmd/patchli-agent/main.go:708-721 | a chain of accepted updates from a release build strictly increases and never repeats a version |
| `ShellQuoting.QuotedReadsBack` | server/internal/api/handlers.go:40-42 | inside single quotes the escaped text reads back as the text |
| `ShellQuoting.SingleQuotedIsOneWord` | server/internal/api/handlers.go:188-197 | the single-quoted escaped text is exactly one shell word equal to the input, for every string (sections 2.2.1 and 2.2.2 of the POSIX Shell Command Language) |

## Left out

- The static user interface, package managers, disk checks, the watchdog and the identity and token files: process execution and I/O.
- Webhooks, the proxy scheme, the origin check and endpoint selection: branch tables around library calls.
- HTTP methods and encoding, body limits, TLS, logging, WebSocket framing and reconnect timers.
- JWT parsing, access tokens, audiences and legacy untyped refresh tokens; a token is its subject, identity and expiry.
- `StoreRefreshToken`, `VerifyRefreshToken`, `DeleteRefreshToken` and `DeleteAllRefreshTokens`: not called by the handlers.
- `ConsumeRegistrationNonce` on a database outside a transaction: only its in-memory path is reached through enrollment.
- Migrations other than 000006, and token rows without a MAC address in the migrated state.
- `monitorJobExpiration`, audit logs and the persisted online or offline status of nodes.
- `GetNodes`, `GetStats`, `SetStatus` and the writing half of `SendCommand`: reads and one-field updates of the registry, and output.
- `escapePowerShell` and the remaining script text.
- An invalid `COMMAND_PUB_KEY`, which refuses every command, and the Base64 form of signatures.
- JSON outside what the encoder emits: white space, case-insensitive keys, surrogate escapes, unknown fields and invalid UTF-8; strings are sequences of Unicode scalar values.
- 64-bit overflow of expiry times and 32-bit platforms; version components are bounded as on 64-bit platforms.
- Goroutines and connection handlers are step systems on values, not classes: several share the state, and each step is one atomic access. Resetting or pruning the registry appears in the pool model as unregistering nodes.
- SlidingWindowBoundIsTight: needs windows of at least two time units, because a half-open interval of one unit holds one instant; the limiter is used with windows of a minute.
- Serializable: excludes overtaken commits for the nonce table and the refused nonces, because PromptIsNeeded shows that each of them can be continued to a state that is not serial.
- NoFalseAlarm: asks for the signed expiry to lie after the start of the transaction, because LateTransactionIsAlarm shows an alarm otherwise.
- InterleavingsKeepOneToken: excludes rotations that started before the latest enrollment, because LateRotationKeepsTwoTokens shows two live tokens otherwise; InterleavedOneTokenIff has the exact condition.
- OneJobPerNode: excludes unregistering a node while a job holds it, because UnregisterAdmitsSecondJob shows a second job then.
- StopTerminates: bounds the effective steps and, with NoDeadlock and StoppedNeverStuck, excludes getting stuck; liveness under a fair scheduler is not stated.
