# Verified model of the chat gateway's stateful kernels

Five pieces of state sit under the gateway's network code: the rotation of the load balancer, the
allocator of message sequence numbers, the presence store, the table of websocket connections, and
the generator of snowflake IDs. This project models each of them, with the small stores and key
formats they rely on, and proves what they promise over whole runs. Where a promise fails, it
proves exactly when it holds and gives a run or an input on which it does not.

`dafny verify dfyconfig.toml` checks everything.

## How the model is laid out

| Files | What they hold |
|---|---|
| `Swrr`, `Registry` | Smooth weighted round robin: one rotation as arithmetic on counters, its fairness, and the `SWRR` object that follows it. |
| `SeqConversation` | The stored watermarks of one conversation: atomic updates of a document whose fields may be missing, and the object that applies them in place. |
| `SeqAllocator`, `SeqSafety`, `SeqOrder`, `SeqRuns` | Any number of `Malloc` calls interleaved command by command on the store and the cached segment. Any command may be executed with its reply lost, never executed, or executed once at any time after its sender gave up; the cached segment may expire at any moment; the stored watermarks may be changed in between. |
| `SeqMalloc`, `SeqProgress` | The retry loop of one call, with others active between its commands, shown to be a run of that system, and what it achieves alone and under contention. |
| `Presence`, `PresenceIndex`, `PresenceIdentity`, `OnlineStore` | The scripts of the presence store as atomic steps on session keys and indexes with their own expiries, runs over a clock that never goes back, and the API object. |
| `ConnSpec`, `ConnManager`, `ConnRuns` | The connection table: what each operation does as a relation on values, the object with its three maps over shared mutable connections, and whole runs. |
| `Snowflake` | The generator over an arbitrary stream of clock readings. |
| `ShadowRows`, `Names` | Per-user shadows of the conversation watermark; conversation IDs and key texts. |

A locked section, a script, a transaction and a single-document update are each one atomic step.
Code that updates state in place is a class or a method, proved against a specification on values;
the run theorems are about that specification. In `ConnManager` every operation ensures the step
relation `ConnSpec.Next` that `ConnRuns` runs; in `OnlineStore` every operation ensures
`Presence.Effect`; in `SeqMalloc` the loop, over the stored record of `SeqConversation` and the
cached segment, ensures `Drive`, which `SeqProgress` shows to be a run of the interleaved system.

Results that may surprise a reader of the code:

- **The user index can lose a live session**, and does not if and only if
  `TTL <= 3600` and either `UserIndexTTL >= TTL`, or `UserIndexTTL` is off and `TTL` is one second.
  The sweeps and queries set the index to expire in an hour whatever the session lifetime
  (`service/storage/online.go:143-145`), and without `UserIndexTTL` heartbeats extend a session but
  not its index (`service/storage/online.go:272-282`).
- **Order of sequence numbers survives exactly as long as no stale segment is stored**, that is, none
  below a number already handed out. Overlapping calls and late commands can do that, and then a
  later call gets smaller numbers until the stale segment has expired, is used up or is overwritten;
  calls strictly one after another cannot. Uniqueness survives everything.
- **A floor is stored as it is when `issued_seq` is absent** (`module/chat/seq/db.go:79-91`); a
  negative one there, and only there, leads to numbers below one.
- **`Add` with a connection ID in use for another user**, and **`BindUser` on a connection that is
  already authorised**, can leave the connection indexes disagreeing; the exact conditions are in
  the contracts of both methods. Rebinding a connection to the user it already belongs to, at the
  cap, also costs that user another connection.
- **A user paired with themself** (`userA == userB`) does not get the promised new row of 0: the
  second pass finds the row the first one made (`module/chat/seq/index.go:195-203`).
- **Conversation IDs collide** exactly when one pair of user IDs can be cut out of the other at a
  different underscore.

Where comments and code disagree the code is followed: the comment on `EvictOldest` speaks of an
error where the code panics (`service/chat/conn_manager.go:20`, `service/chat/conn_manager.go:665-668`);
`Add` never looks at the cap; and new shadow rows are said to be always 0
(`module/chat/seq/index.go:149`).

## Model

| member | source | states |
|---|---|---|
| SwrrFairness.CountersCancel | service/registry/registry.go:105-118 | Conservation: after any number of calls on a fresh list the counters sum to 0. |
| SwrrFairness.Ledger | service/registry/registry.go:97-120 | After k calls the counter of position i is k times its weight minus the total weight times the number of calls it received. |
| SwrrFairness.DebtBelowOneRound | service/registry/registry.go:97-120 | No counter ever falls to minus the total weight or below. |
| SwrrFairness.CounterBounds | service/registry/registry.go:97-120 | At every point each counter lies above -W and at most (m-1)(W-1) for m instances of total weight W. |
| SwrrFairness.FairAtEveryPoint | service/registry/registry.go:97-120 | In calls: at every point an instance is less than one call ahead of its due share, and its shortfall is bounded by (m-1)(W-1)/W calls. |
| SwrrFairness.ExactShares | service/registry/registry.go:83-120 | W calls after a fresh Update give position i exactly its weight in calls and bring every counter back to 0. |
| SwrrFairness.Periodic | service/registry/registry.go:97-120 | The rotation repeats with period W from every point. |
| SwrrFairness.AnyRoundIsExact | service/registry/registry.go:97-120 | Any W consecutive calls, aligned or not, contain position i exactly its weight times. |
| SwrrFairness.NoStarvation | service/registry/registry.go:97-120 | From any moment on, every instance is chosen within W calls. |
| Registry.ParseWeight | service/registry/registry.go:57-81 | The loop over the characters gives 1 without metadata, without an entry, for the empty text, for any text with a character that is not a digit, and for digits of value 0; any other digits give their value. |
| Registry.DecimalNotation | service/registry/registry.go:65-75 | What the value of digits is: 0 for none, and each further digit adds its value to ten times what stands before it. |
| Registry.WeightRoundTrip | service/registry/registry.go:57-81 | Every positive weight written in decimal is read back as itself, and its negative as 1. |
| Registry.SWRR.Update | service/registry/registry.go:83-95 | The list carries the given instances with parsed weights and the rotation starts afresh, whatever came before. |
| Registry.SWRR.Pass | service/registry/registry.go:103-114 | The loop over the items raises every counter in place by its weight, totals the weights and finds the leftmost largest counter. |
| Registry.SWRR.Turn | service/registry/registry.go:103-118 | After the leader has paid the total the items hold the counters of one rotation step. |
| Registry.SWRR.Next | service/registry/registry.go:97-120 | Each call returns the instance the fair schedule prescribes for its turn, so the fairness lemmas hold of the object; an empty list gives none. |
| SeqConversation.OrderKeptIffSafe | module/chat/seq/db.go:18-91 | One operation keeps 0 <= min_seq <= max_seq <= issued_seq if and only if the stated guard on its argument held before it. |
| SeqConversation.WatermarksOnlyRise | module/chat/seq/db.go:18-91 | Under any sequence of guarded operations the order of the watermarks holds and none of them is ever lowered. |
| SeqConversation.NegativeFloorIssuesBelowOne | module/chat/seq/db.go:79-91 | A negative floor on a new conversation is stored, and the next segment starts below one. |
| SeqConversation.ConvStore.EnsureSeqConversation | module/chat/seq/index.go:20-55 | An existing record is untouched; a missing one is created with all three watermarks stored as 0; the flag says which. |
| SeqConversation.ConvStore.AllocSegment | module/chat/seq/db.go:18-48 | The returned segment is the numbers directly above the old issued_seq up to the new one, as many as asked for or 256 when the size is not positive; the other two watermarks stay. |
| SeqConversation.ConvStore.AdvanceCommit | module/chat/seq/db.go:51-61 | A stored max_seq never falls and reaches the committed number; an absent one becomes that number, whatever it is; the other two watermarks stay. |
| SeqConversation.ConvStore.AdvanceMin | module/chat/seq/db.go:64-76 | If the record has a max_seq at least the new minimum, min_seq is stored and reaches it; otherwise nothing changes; so min_seq never passes max_seq. |
| SeqConversation.ConvStore.RaiseIssuedFloor | module/chat/seq/db.go:79-91 | A stored issued_seq never falls and reaches the floor; an absent one becomes the floor, even a negative one; the other two watermarks stay. |
| SeqConversation.ConvStore.UpdateMaxSeq | module/chat/seq/index.go:57-79 | The larger value is stored and returned, in the tenant's record if the tenantless filter hits it and otherwise in a stray one. |
| SeqSafety.IssueKeeps | module/chat/seq/seq.go:13-37 | Issuing inside the cached segment hands the front of it to one new grant and keeps every number under one owner. |
| SeqSafety.AllocKeeps | module/chat/seq/db.go:18-48 | A new segment lies above everything allocated before and gets one owner. |
| SeqSafety.InstallKeeps | module/chat/seq/seq.go:40-48 | Storing a segment over any other moves it from its one holder to the cache; the overwritten rest is abandoned, never issued again. |
| SeqSafety.StepKeeps | module/chat/seq/seq.go:86-140 | Every step of the interleaved system, faults and late commands included, keeps single ownership of every number. |
| SeqSafety.GrantedAsAsked | module/chat/seq/seq.go:86-100 | What the script handed to a finished call is exactly as many numbers as the call asked for (one if it asked for none or fewer), from its result on. |
| SeqSafety.NothingIssuedTwice | module/chat/seq/seq.go:86-140 | In every run the numbers two finished calls may use, as many as each asked for from its result on, are disjoint, whatever the interleaving, expiry, lost replies, late commands and floors. |
| SeqSafety.IssuedWithin | module/chat/seq/seq.go:86-140 | In every run the numbers asked for, from the result on, are at most issued_seq, and start at 1 or more unless a negative floor was stored while issued_seq was absent. |
| SeqOrder.OrderKeptIffNotStale | module/chat/seq/seq.go:94-139 | In the interleaved system with all its faults, a step keeps the grants rising and the cache above them if and only if it does not store a segment that lies below a number already handed out. |
| SeqOrder.FreshKeptIffNotStale | module/chat/seq/seq.go:94-139 | From a cache whose remaining numbers lie above everything handed out, a step hands out only larger numbers, and leaves such a cache if and only if it stores no stale segment. |
| SeqOrder.PromiseHoldsIffFresh | module/chat/seq/seq.go:94-139 | The exact condition, after any run whatever, stale stores included: every call that begins later gets only numbers above everything handed out, in every continuation without stale stores, if and only if nothing is left in the cache that lies below a number handed out. |
| SeqOrder.LaterCallsGetLargerNumbersIff | module/chat/seq/seq.go:94-139 | After any run at whose end that promise holds, the next step keeps it if and only if the step stores no stale segment. |
| SeqOrder.LaterCallsGetLargerNumbers | module/chat/seq/seq.go:94-139 | After any run that leaves a fresh cache, and without a stale store from then on, overlapping calls, faults and late commands included, a call that begins after another has returned receives numbers strictly above that one's. |
| SeqOrder.StaleFreeRunsRise | module/chat/seq/seq.go:94-139 | In a run without stale stores all numbers are handed out in increasing order, and the cache is fresh at the end. |
| SeqOrder.SequentialRunsAreStaleFree | module/chat/seq/seq.go:94-139 | Calls strictly one after another, with no command arriving late, never store a stale segment, so the order holds of them across expiry, lost replies and abandoned segments. |
| SeqRuns.OverlapBreaksOrder | module/chat/seq/seq.go:107-135 | A fault-free run of three calls: call 2 begins after call 1 returned 257 and gets 2, because call 0 overlapped both. |
| SeqRuns.LateCommandBreaksOrder | module/chat/seq/seq.go:118-122 | A run of calls strictly one after the other in which a late store of an old segment makes the second call get 1 after the first got 257. |
| SeqRuns.WatermarksHoldInEveryRun | module/chat/seq/db.go:18-91 | In every interleaved run from the start, with all faults, 0 <= min_seq <= max_seq <= issued_seq holds at every point if and only if every other use of the store met the guard of its operation; and then no step of the run lowers any of the three. |
| SeqRuns.CommitsOfIssuedNumbersAreSafe | module/chat/seq/db.go:51-61 | Committing any number that was handed out meets that guard, whenever it is done. |
| SeqRuns.FloorSafeIff | module/chat/seq/db.go:79-91 | After any run whose numbers start at 1, storing a floor keeps it so in every continuation if and only if the floor is not negative or issued_seq is present. |
| SeqRuns.FloorIsServed | module/chat/seq/db.go:79-91 | From any state without issued_seq, a stored floor is followed by a call that receives the number just above it. |
| SeqMalloc.DefaultBlock | module/chat/seq/seq.go:62-70 | The default block covers the request: never less than it, 256 for requests below 32 and eightfold from there. |
| SeqMalloc.Allocator.Ensure | module/chat/seq/seq.go:73-83 | Missing settings become the default block and ten retries; given ones are kept. |
| SeqMalloc.Allocator.Malloc | module/chat/seq/seq.go:86-140 | Whatever the other parties do between any two of its commands, and whatever becomes of the commands, the retry loop leaves the backend, and returns success and start, exactly as the call automaton of the interleaved system; and a result means that as many numbers as asked for, from it on, were handed to this call while it ran. |
| SeqMalloc.FaultyTurn | module/chat/seq/seq.go:94-129 | A failed allocation ends the call; a failed store or issue costs one round; a failed first try starts the rounds. |
| SeqMalloc.Backend.InSegment | module/chat/seq/seq.go:13-37 | The script succeeds exactly when a segment is cached, is the one asked for, and has room; then the returned start is the number after the cached position, which advances by the request; on refusal nothing changes. |
| SeqProgress.DriveIsARun | module/chat/seq/seq.go:86-140 | What the loop does, with everything the others do in between, is a run of the interleaved system; so uniqueness and order hold of it. |
| SeqProgress.FailsIffAlwaysRefused | module/chat/seq/seq.go:109-139 | Among other calls and for any block size, a call without faults of its own that may retry fails if and only if in every one of its MaxRetry rounds the issuing script refuses it on the cell the others have left. |
| SeqProgress.ContendedCall | module/chat/seq/seq.go:109-139 | With a block that covers the request such a call fails only if in every one of its rounds others changed the cached segment between its storing and its issuing. |
| SeqProgress.LoneCall | module/chat/seq/seq.go:94-139 | Without faults or interference a call succeeds if and only if the cached segment has room, or it may retry and the block covers the request; it takes no segment, one segment, or fails after exactly MaxRetry. |
| SeqProgress.RoundsRunOut | module/chat/seq/seq.go:109-139 | With a block below the request every remaining round spends one segment and the call fails. |
| SeqProgress.DefaultBlockSuffices | module/chat/seq/seq.go:62-70 | With the default block and at least one retry a lone call always succeeds. |
| PresenceIndex.BindKeeps | service/storage/online.go:42-72 | Authorising keeps index and session keys in agreement for every user. |
| PresenceIndex.HeartbeatKeeps | service/storage/online.go:230-285 | An authorised heartbeat keeps the agreement when the lifetimes fit together. |
| PresenceIndex.SweepKeeps | service/storage/online.go:133-147 | A sweep keeps the agreement when sessions live at most the hour it grants the index. |
| PresenceIndex.OfflineKeeps | service/storage/online.go:108-114 | Taking one session offline keeps the agreement. |
| PresenceIndex.LogoutKeeps | service/storage/online.go:119-127 | Forced logout keeps the agreement and leaves the user no live session. |
| PresenceIndex.IndexAgreesInEveryRun | service/storage/online.go:30-285 | With fitting lifetimes, after every run and at any later moment, each user's index members ahead of the clock are exactly the live sessions with their expiries, and the index outlives each of its members. |
| PresenceIndex.QueriesAreScans | service/storage/online.go:155-228 | On an agreeing store the sweep in front of a query removes no live session of anyone, and what the query then lists is exactly a scan of all session keys. |
| PresenceIndex.UnfittingLosesASession | service/storage/online.go:133-147 | For every choice of lifetimes that do not fit, a run of at most five events (one login is two) leaves a live session its index has lost. |
| PresenceIndex.IndexSafeIffFitting | service/storage/online.go:30-285 | No run ever loses a live session from its user index if and only if TTL <= 3600 and UserIndexTTL >= TTL (or UserIndexTTL off and TTL one second). |
| PresenceIdentity.OnlyTwoBirths | service/storage/online.go:371-543 | A session key comes alive only by Connect or by a successful Authorize; no heartbeat, sweep or query revives one. |
| PresenceIdentity.AuthorisedAtMostOnce | service/storage/online.go:512-543 | In every run a snow ID is authorised at most once, its unauthorised and authorised keys are never both alive, and it is never alive for two users. |
| PresenceIdentity.DeadStaysDead | service/storage/online.go:252-262 | A key that expired, went offline or was replaced stays dead in every continuation. |
| OnlineStore.OnlineStore.Connect | service/storage/online.go:374-398 | The new session is stored with the unauthorised lease and its index entry with the same expiry, and nothing else changes; refused without effect when the stage is off. |
| OnlineStore.OnlineStore.HeartbeatUnauth | service/storage/online.go:401-421 | The session is alive afterwards exactly if it was before, then with the new expiry; the index entry is present either way; no other session key and no user index changes. |
| OnlineStore.OnlineStore.Authorize | service/storage/online.go:513-543 | Succeeds exactly on a live unauthorised session not yet authorised for this user, which is replaced, with its index entry, by an authorised one with the session lease; conflict, absence and a disabled stage are told apart and change no session. |
| OnlineStore.OnlineStore.HeartbeatAuthorized | service/storage/online.go:427-466 | True exactly when the session is alive, which is then extended with its index entry; otherwise nothing changes. |
| OnlineStore.OnlineStore.SweepIndex | service/storage/online.go:133-147 | Exactly the due members and their keys are removed, one at a time in any order, and returned; other keys and indexes stay, and an index with members left is kept for an hour. |
| OnlineStore.OnlineStore.SweepUnauth | service/storage/online.go:469-485 | The sweep applied to the unauthorised index, or nothing when that stage is off. |
| OnlineStore.OnlineStore.SweepAuthedUser | service/storage/online.go:589-603 | The sweep applied to the user's index. |
| OnlineStore.OnlineStore.OfflineUnauth | service/storage/online.go:488-510 | The session key and its index entry are gone and nothing else has changed; the flag says whether a live session was there. |
| OnlineStore.OnlineStore.Offline | service/storage/online.go:548-571 | The session key and its entry in the user's index are gone and nothing else has changed, so the user loses exactly this session and nobody else any; with a blank user the same for the unauthorised session. |
| OnlineStore.SpacesAre | service/storage/online.go:549 | The characters that make a user blank are those trimmed as white space. |
| OnlineStore.OnlineStore.ForceLogoutUser | service/storage/online.go:574-586 | Exactly the listed sessions and the user's index are removed; on an agreeing store these are all live sessions of the user, and other users keep theirs. |
| OnlineStore.OnlineStore.IsOnline | service/storage/online.go:608-640 | The count is the number of live sessions found by a scan of all keys, on an agreeing store; online means it is positive. |
| OnlineStore.OnlineStore.GetActiveSessions | service/storage/online.go:690-699 | Exactly the live sessions of the user, on an agreeing store. |
| OnlineStore.OnlineStore.GetNewestSession | service/storage/online.go:702-714 | A live session that expires last, and none exactly when there is none, on an agreeing store. |
| ConnSpec.DroppedKeeps | service/chat/conn_manager.go:491-537 | Taking any one connection out, with the repair of the old index, leaves that index right for every user. |
| ConnSpec.WithoutOneMore | service/chat/conn_manager.go:611-647 | One more removal during a pass keeps the pass a filter, even if it removes a connection the old index was repaired with earlier in the pass. |
| ConnSpec.UnlinkIndexed | service/chat/conn_manager.go:500-533 | Removing one connection from the main and the user's map, with the user's map if it empties, keeps the two in agreement. |
| ConnSpec.AlwaysBindableIff | service/chat/conn_manager.go:368-415 | Before the call: whatever connection the eviction chooses, the indexes will agree after the bind, if and only if the connection is unauthorised; or is another user's whose old-index entry points at another of their connections; or is the user's own and the user is below the cap or has an older one. |
| ConnSpec.RebindOutcome | service/chat/conn_manager.go:382-415 | Moving an authorised connection to another user keeps the old index right if and only if the former user's entry points at another connection of that user. |
| ConnSpec.BindOutcome | service/chat/conn_manager.go:368-415 | For each choice the eviction can make: all three indexes agree after the bind if and only if the connection was unauthorised, or another user's and not the one their old-index entry needs, or the user's own and not the one evicted. |
| ConnSpec.AddOutcome | service/chat/conn_manager.go:120-154 | After Add the indexes agree if and only if the connection ID was not in use for another user. |
| ConnManager.ConnManager.AddUnauth | service/chat/conn_manager.go:313-329 | Registers a new unauthorised connection, made now and with the short lease, exactly when the ID and socket are given and the ID is free; keeps the indexes. |
| ConnManager.ConnManager.Heartbeat | service/chat/conn_manager.go:460-476 | Renews exactly this connection's lease by its current lifetime; keeps the indexes. |
| ConnManager.ConnManager.RemoveBySnow | service/chat/conn_manager.go:491-537 | Removes this connection from all indexes, repairing the old one with any connection the user has left; keeps the indexes. |
| ConnManager.ConnManager.SweepOnce | service/chat/conn_manager.go:611-651 | In any visiting order, keeps exactly the connections with expiry not before now, and keeps every old-index entry that pointed at none of the removed ones; keeps the indexes. |
| ConnManager.ConnManager.KickAllUnauth | service/chat/conn_manager.go:540-553 | Exactly the authorised connections are left, and the count is that of the others; keeps the indexes. |
| ConnManager.ConnManager.Remove | service/chat/conn_manager.go:232-247 | A named user is left with no connection and no entry in any index, and exactly the connections not owned by that user stay, as do the other old-index entries; keeps the indexes. |
| ConnManager.ConnManager.Close | service/chat/conn_manager.go:100-114 | Empties all three indexes. |
| ConnManager.ConnManager.Add | service/chat/conn_manager.go:120-154 | The user keeps this connection only; the indexes agree afterwards if and only if the ID was not in use for another user. |
| ConnManager.ConnManager.FindOldest | service/chat/conn_manager.go:670-676 | The map loop finds a connection with the smallest creation time. |
| ConnManager.ConnManager.EnsureRoom | service/chat/conn_manager.go:656-694 | A user at the cap loses exactly one connection, none of theirs with an earlier creation time, with the old index repaired; below the cap, or without one, nothing changes. |
| ConnManager.ConnManager.AddAuthorized | service/chat/conn_manager.go:418-457 | Exactly when the arguments are given and the ID is free, makes room as EnsureRoom says and registers a connection made now, for the user, with the long lease; the old index gets it only if the user had no entry; keeps the indexes. |
| ConnManager.ConnManager.BindUser | service/chat/conn_manager.go:368-415 | Makes room, moves the connection to the user and starts the long lease; under the guard of AlwaysBindableIff the indexes agree afterwards, and for each eviction they agree if and only if BindOutcome says so. |
| ConnManager.ConnManager.Get | service/chat/conn_manager.go:201-229 | With an ID, that connection of that user or none; without one, some connection of the user, and none exactly when there is none. |
| ConnRuns.ConsistentInEveryRun | service/chat/conn_manager.go:120-694 | In every run the old index has an entry for exactly the users with connections, pointing at one of theirs. |
| ConnRuns.CreatedWhenMade | service/chat/conn_manager.go:288-310 | In every run the creation time of a connection is the time of the call that made it; binding and heartbeats never change it. |
| ConnRuns.FirstMadeGoes | service/chat/conn_manager.go:669-675 | In every run, by the history of calls, a user at the cap who gets a connection loses exactly one, and none of the user's connections was made before that one; below the cap nobody loses any. |
| ConnRuns.OneOutOneIn | service/chat/conn_manager.go:391-400 | A bind or authorised add at the cap removes exactly one connection, one of the user's oldest and not the joining one; below the cap none; no connection but the joining one changes hands, and every other user's old-index entry stays. |
| ConnRuns.CapHoldsInEveryRun | service/chat/conn_manager.go:656-694 | With a positive cap no user ever has more connections than the cap. |
| ConnRuns.LeaseInEveryRun | service/chat/conn_manager.go:402-408 | In every run the stored expiry is the time of the last call that made or renewed the connection plus the lifetime of its present authorisation. |
| ConnRuns.SweepIsExact | service/chat/conn_manager.go:611-651 | In every run a sweep removes a connection if and only if more than its lifetime has passed since the last call that made or renewed it. |
| ConnRuns.RenewedInTimeIsKept | service/chat/conn_manager.go:460-476 | On a clock that does not run backwards, a connection that is made or renewed, then attempted to be renewed with every sweep in between within one lease of the attempt before it, and not taken out by anyone, is in the table throughout, whatever happens to other connections; so the last attempt succeeds. |
| ConnRuns.NoOtherWayOut | service/chat/conn_manager.go:120-694 | A connection leaves only by a sweep past its expiry, its own removal, its user's removal or an Add of another connection for its user, eviction as an oldest one at the cap, a kick while unauthorised, or Close. |
| ConnRuns.OnlyConnectionIsNotBindable | service/chat/conn_manager.go:382-389 | A user's only connection can never be moved to another user without leaving the old index stale. |
| ConnRuns.RebindingLeavesStaleEntry | service/chat/conn_manager.go:382-413 | A concrete table on which that happens. |
| Snowflake.PackBitsIsPack | tools/ids/snowid.go:76-78 | The masks, shifts and ors of the program put timestamp, node and sequence side by side, also for readings before the epoch. |
| Snowflake.Unpack | tools/ids/snowid.go:76-78 | Timestamp, node and sequence can be read back from an ID, which is a nonnegative 64-bit integer. |
| Snowflake.PackInjective | tools/ids/snowid.go:76-78 | While readings are within 2^41 ms of the epoch an ID determines its reading, node and number, so IDs of different nodes never collide. |
| Snowflake.PackOrdered | tools/ids/snowid.go:76-78 | Within that range and on one node, later readings or numbers give larger IDs. |
| Snowflake.PackCollision | tools/ids/snowid.go:76-78 | Two IDs coincide if and only if node and number do and the readings lie a multiple of 2^41 ms apart. |
| Snowflake.EraMatters | tools/ids/snowid.go:76-78 | So the range is needed: readings 2^41 ms apart give the same ID. |
| Snowflake.IdsDistinctAndOrdered | tools/ids/snowid.go:52-80 | All IDs of one generator within the range are distinct, whatever the clock did and however often the node was changed; those of one node strictly increase. |
| Snowflake.NextMark | tools/ids/snowid.go:56-74 | The next ID's place is strictly after the last one, on a reading of the clock or on the next number of the same millisecond. |
| Snowflake.FirstUsableDecides | tools/ids/snowid.go:56-74 | It is decided by the first reading that is later, or equal with numbers left. |
| Snowflake.EpochIs2020 | tools/ids/snowid.go:26 | The epoch is the start of 2020 in milliseconds since 1970. |
| Snowflake.Generator.SetNodeID | tools/ids/snowid.go:43-49 | The node is the given one within 0 to 1023 and 1 otherwise. |
| Snowflake.Generator.Tick | tools/ids/snowid.go:56-74 | The waiting loops over stalls, backward jumps and full milliseconds end on exactly that next place. |
| Snowflake.Generator.Next | tools/ids/snowid.go:52-80 | Every ID returned is the packing of a place after all earlier ones, so the ordering lemma applies to all IDs of the generator. |
| ShadowRows.FastPathAgrees | module/chat/seq/index.go:104-118 | With both rows present, the single update of both has the effect of the row-by-row path. |
| ShadowRows.RowsOnlyRise | module/chat/seq/index.go:120-203 | Under any interleaving of the updates of any number of calls no row is lost or lowered, and none rises above the largest number given. |
| ShadowRows.Conversations.EnsureTwoSides | module/chat/seq/index.go:84-206 | Both rows exist afterwards, old rows hold the larger of old and given, new rows hold 0 (if and only if the users differ or the number is not positive), others are untouched, and the flags name the new ones. |
| Names.StrLeIsTextOrder | module/chat/seq/util.go:12-17 | The order of user IDs is text order: one text starts the other, or is smaller where they first differ. |
| Names.ConvIDForm | module/chat/seq/util.go:19-23 | The conversation ID names the smaller user ID first, whichever way round the two are given. |
| Names.ConvIDSymmetric | module/chat/seq/util.go:12-23 | The conversation ID does not depend on the order of the users. |
| Names.ConvIDCollision | module/chat/seq/util.go:19-23 | Two pairs share an ID if and only if they are the same unordered pair or one can be cut out of the other at a different underscore. |
| Names.ConvIDInjective | module/chat/seq/util.go:19-23 | Among user IDs without underscores an ID determines its unordered pair. |
| Names.ConvIDCollides | module/chat/seq/util.go:19-23 | With underscores it need not: ("a", "b_c") and ("a_b", "c") give one ID. |
| Names.SessionKeysDistinct | service/storage/online.go:334-359 | On one node the tagged session keys of different users or connections differ, and differ from every unauthorised key. |
| Names.KeyForms | service/storage/online.go:230-231 | The key texts have the documented forms. |
| Names.NoGateway | service/storage/online.go:674-679 | A text without both braces, or with nothing between the first of each, names no gateway. |
| Names.GatewayRoundTrip | service/storage/online.go:672-687 | The gateway is read back from a user index key if and only if its name holds neither a colon nor a closing brace. |

## Where the definitions come from

- `SeqConversation.Apply`: `module/chat/seq/db.go:18-91` and `module/chat/seq/index.go:20-79`.
- `SeqAllocator.Exec`: the two scripts, `module/chat/seq/seq.go:13-48`, and `AllocSegment`. `Sends`,
  `OnReply`, `OnError`: the control flow of `module/chat/seq/seq.go:86-140` between commands.
- `Presence.Connect` to `Presence.LogoutAll`: the scripts and transactions of
  `service/storage/online.go:42-147`, `:230-285`, `:385-393` and `:411-418`.
- `ConnSpec.Next`: the operations of `service/chat/conn_manager.go:100-694`, on values.
- `ShadowRows.Apply`: the updates of `module/chat/seq/index.go:104-189`.

## Left out

- ConnManager.ConnManager.BindUser: `EvictOldest = false` at the cap panics by design; the call is excluded by precondition, as for AddAuthorized, whose message asks callers to check first.
- ConnManager.ConnManager.Get: the fallback search of the user's own map is omitted, because with agreeing indexes the old index has an entry whenever that search could find anything.
- Sockets: registration refuses a missing socket, so the later checks for one (`service/chat/conn_manager.go:377`, `:469`) are not modelled; a socket is only its identity.
- Registry.SWRR.Next: the test for items that are not effective or weigh nothing is kept, but no code ever makes such items, so the result "no best item" on a nonempty list does not arise.
- SeqMalloc.Allocator.Malloc: does not return the millisecond stamp or the error text, and leaves out the sleeps between rounds and the reply codes the script never gives.
- OnlineStore.OnlineStore.GetActiveSessions: the results are sets; the order of the returned arrays is not modelled, nor which of several equally new sessions GetNewestSession picks.
- Snowflake.Generator.Next: needs the stream to hold a usable reading, later than the last one used or equal to it with numbers left; without one the program waits for ever.
- SeqAllocator.Run: all calls of a run share one MaxRetry, while each command may ask for its own block size.
- Integer widths: 64-bit overflow of counters, weights and watermarks, and the floating-point numbers of the scripts, are not modelled; the packing of snowflake IDs is.
- Redis Cluster slots, failover, lost data and client-side resends, and concurrent upserts that would create two records of one key: each command is one atomic step, executed at most once.
- Time in the presence store is in whole seconds, positive lifetimes, on one clock shared by the gateway and the server; the keys carry the cluster tag and the gateway is the node itself. The untagged key forms are not part of this model.
- The unauthorised index is not claimed to agree with the keys: an unauthorised heartbeat may leave a member without a session.
- One tenant and one conversation at a time; `KeyFn` and the default key text are not modelled.
- The sweeper's ticks and the table's clock are taken to be the same clock.
- Closing sockets, sending queues, reuse of released connection objects, goroutines, tickers, publishing of events, logging and all transport.
- `GetAll`, `GetClient`, `GetUnAuthClient`, `Send`, `SendOne`, `BroadcastUser`, `ListUserConns`, `BatchListOnlineConnList` and `GetUserGateway`: look-ups and broadcasts that would add easy members.
- The filtered `Pick` of the registry manager, which builds a new rotation on every call; `EnsureIndexes`; plain data models; the offline message queue.
- Errors of the store inside `EnsureTwoSidesByKnownConvID`, which end the call between two of its updates; the theorem on interleaved updates covers the rows such a call leaves.
