# Sixb infrastructure: a verified model

Dafny 4.11 models of the parts of the Sixb repository whose correctness spans several functions, several
processes or an interrupted run, with proofs of what they promise. `dafny verify dfyconfig.toml` checks everything.

| area | files |
|---|---|
| Redis Streams broker: scripts, retention, deduplication | `StreamLog`, `Retention`, `StreamState`, `StreamInvariant`, `RedisStream`, `StreamTheorems`, `RetentionTheorems`, `DedupeTheorems`, `AppendTheorems` |
| Redis Streams broker: paging, subscriptions, shared client | `Records`, `Paging`, `BrokerReads`, `ReadTheorems`, `TailTheorems`, `SubscriptionPump`, `CommandClient` |
| NATS broker paging | `NatsLog`, `NatsBroker`, `NatsTail` |
| Release train | `Names`, `Packages`, `TopologicalOrder`, `WorkspacePolicy`, `ReleasePlan`, `ReleaseTheorems`, `PlanTheorems`, `PromotionPlan` |
| Google resumable upload | `ChunkBody`, `ResumableUpload` |
| ACE timeseries cursors | `TimeseriesCursor` |
| Magic-link rate limiter | `RateLimiter` |
| Shared | `Wrappers`, `Decimals` |

## How the models are built

**Redis broker.** `StreamLog` is a physical Redis stream as a sorted sequence of entries with `XRANGE`, `XREVRANGE`,
`XTRIM` and `XDEL`. `StreamState` gives each script's effect as one step on a state; a run is any interleaving of
ENSURE, APPEND, TRIM, AGE, clock ticks and the expiry of deduplication keys. The state also remembers the history of
everything ever appended, which no script reads. `RedisStream` is the imperative form: a class whose methods are the Lua
scripts with their 256-entry paged loops, each proved to take exactly its step. The theorems are about all runs.
`Paging` scans such a history through windows that move forward while other processes append and trim; `BrokerReads`
has the `read` and `tail` loops on top, and `SubscriptionPump` the reconnecting subscription.

**NATS broker.** A stream is a list of numbered messages; a filtered consumer delivers the matching ones, and may deliver
fewer than asked when it times out. `read` and the doubling window of `tail` are proved to compute one filter of that list.

**Release train.** The registry is a map of versions, manifests and tags. Planning is a method proved equal to a
function of workspace and registry; publishing and promoting are the registry writes a plan prescribes, one at a time,
so a run may stop after any of them. Semantic versioning is a parameter.

**Upload.** An upload session persists any prefix of each PUT that continues what it has, or refuses; one marked generous
persists all it may and never fails on its own. The class records the PUTs it received.

## What turned out not to hold as described

* **Resuming a publish run** (`ReleaseTheorems.StoppedRunResumes`, `ForeignSiblingBreaksResume`). Re-planning after a
  stopped run yields the rest of the plan exactly when no release already published names, in a shipped field, a
  workspace package that is neither `@sixb/…` nor `create-sixb`. The compatibility check looks at every published name
  that is a workspace package, while workspace entries are collected for internal names only, so such a release can
  never be re-planned. Every package in the repository today has an internal name.
* **Declared upload size** (`ResumableUpload.ResumableUpload`, `DeclaredSizeCutsTheBody`). Unless the session itself
  fails it, an upload completes exactly when the declared size is right, or is too small and a multiple of the chunk
  size; in the second case it reports success with the body cut to that size. A too small size that is no such multiple
  ends in a refused PUT. The comment in `connectors/google/src/http.ts:308-311` only covers streams that are too short. A
  stream declared empty is sent as an empty body (`ResumableUpload.PathCarriesBody`).
* **NATS reads that time out** (`NatsBroker.ShortFetchSkips`). When a fetch delivers less than it was asked for,
  `read` still returns the stream's last sequence as its cursor, so the records that had not arrived are skipped. A
  page skips records exactly when part of its window had not arrived (`NatsBroker.TimedOutReadSkips` is the smallest case).
* **NATS tails that time out** (`NatsTail.TailMissesExactlyWhenShort`). `tail` takes the last `limit` of whatever was
  fetched from its last window, so a fetch that stops early makes it answer with older records than the newest. Its page
  is that of the whole range exactly when that fetch delivered all it was asked for.
* **Retried appends** (`AppendTheorems.RetryThrowsExactlyWhenGone`). Deduplication keys outlive trims, so a retry of a
  record inside its window, which should give that record back, throws exactly when the record has been trimmed in the
  meantime.
* **NATS subject filters** (`NatsLog.TokensFilterTexts`). A record without a name (or key) is published under the token
  `_`, so a filter that asks for `_` also gets those records. Apart from that, subject filters select what the record
  filters select.
* **Page fingerprints** (`TimeseriesCursor.IterateTimeseriesPages`, `BarredWalkStalls`). A walk reports a stall exactly
  when two consecutive pages have the same fingerprint. Different pages can: `BarredWalkStalls` is a walk over four
  readings, with vertical bars in the names, that stops half-way. It cannot happen when no name has a vertical bar and no
  time has one or an at sign (`DistinctRowsNeverLookRepeated`).
* **Rate limiter on a clock that goes back** (`RateLimiter.HourRightExactlyUnlessMissed`). Pruning loses times the full
  history would still count. The limiter has the last hour right at every request, whatever its limits, exactly when no
  request falls within an hour after an earlier one that a request in between had found to be older than that. A clock
  that does not go back is enough; `ClockSetBackAdmitsMore` is a request admitted on one that does.
* **Zero byte limit** (`Retention`). With `maxBytes` 0 the trim empties the stream, while the append boundary does not
  hide entries with empty bodies; both are modelled as written.
* `broker/redis/README.md:141` says trimming happens during append; reads, tails and subscriptions also enforce
  the age limit, which the model includes as a step of its own.

## Model

| member | source | states |
|---|---|---|
| StreamLog.XRangeSlice | broker/redis/src/scripts.ts:97 | an exclusive-bounded `XRANGE … COUNT` is the slice of the stream from the first id above its start, cut at the first id beyond its end and at the count |
| StreamLog.XRevRangeSlice | broker/redis/src/redis-broker.ts:579-599 | `XREVRANGE … COUNT` is the reverse of the newest slice between its bounds |
| StreamLog.XTrimMinIdDrops | broker/redis/src/scripts.ts:221 | exact `XTRIM MINID` removes precisely the prefix of older ids |
| StreamLog.XDelPrefix | broker/redis/src/scripts.ts:251-252 | deleting the ids collected from the head removes exactly that prefix |
| Retention.OverLimitIsLeast | broker/redis/src/scripts.ts:359-392 | a suffix of the stream meets the record and byte limits exactly when it starts at or behind the prefix APPEND marks |
| Retention.AgePrefixIsLeast | broker/redis/src/scripts.ts:73-114 | a suffix is young enough, every entry's time plus the limit not yet past, exactly when it starts at or behind the prefix AGE removes |
| Retention.ExpendableIsLeast | broker/redis/src/scripts.ts:185-258 | the three rules of TRIM compose to the least prefix whose removal meets all of them |
| Retention.OverLimitWithinExpendable | broker/redis/src/scripts.ts:265-267 | the prefix APPEND marks never exceeds the one TRIM would remove now |
| Retention.OverLimitGrows | broker/redis/src/scripts.ts:359-392 | appending entries never moves the required prefix back |
| Retention.OverLimitTail | broker/redis/src/scripts.ts:185-258 | once a prefix is gone, what is still required shrinks by exactly that much |
| StreamInvariant.RemovePrefixKeepsInv | broker/redis/src/scripts.ts:163-168 | removing any prefix with its bytes and boundary keeps log, boundary, byte count and deduplication consistent |
| StreamInvariant.AppendKeepsInv | broker/redis/src/scripts.ts:268-395 | a whole append batch keeps them, the logical boundary landing exactly on the mark of the physical stream |
| StreamInvariant.NextKeepsInv | broker/redis/src/scripts.ts:1-395 | every script, tick and key expiry keeps the invariant |
| StreamInvariant.EveryRunKeepsInv | broker/redis/src/scripts.ts:1-395 | the invariant holds after every interleaving of steps |
| RedisStream.RedisStream.constructor | broker/redis/src/scripts.ts:1-31 | a stream nobody has ensured is the initial state |
| RedisStream.RedisStream.Ensure | broker/redis/src/scripts.ts:2-31 | takes the ENSURE step: limits are fixed once, the reply says whether this call fixed them |
| RedisStream.RedisStream.AdvanceBoundary | broker/redis/src/scripts.ts:53-71 | the boundary only moves to a newer id |
| RedisStream.RedisStream.NewestId | broker/redis/src/scripts.ts:82-86 | the id fetched before a stream is emptied is its last one |
| RedisStream.RedisStream.RecordRemoved | broker/redis/src/scripts.ts:163-168 | one page's bytes, which the count always covers, are subtracted in full, and its last id is remembered |
| RedisStream.Clamped | broker/redis/src/scripts.ts:112-114 | the subtraction every script clamps at zero; each use shows that it never goes below, so the clamp never acts |
| RedisStream.RedisStream.EnforceAgeRetention | broker/redis/src/scripts.ts:35-118 | takes the AGE step and replies with the last id removed, or the not-ensured error |
| RedisStream.RedisStream.ScanOlder | broker/redis/src/scripts.ts:96-109 | the paged scan ends having counted the bytes of exactly the entries older than the bound |
| RedisStream.RedisStream.TrimRetention | broker/redis/src/scripts.ts:122-263 | takes the TRIM step and replies with the last id removed, or the not-ensured error |
| RedisStream.RedisStream.TrimRecords | broker/redis/src/scripts.ts:185-193 | after the record rule exactly its prefix is gone, counted and remembered |
| RedisStream.RedisStream.ScanPrefix | broker/redis/src/scripts.ts:170-183 | the paged scan counts the bytes of exactly the first `count` entries |
| RedisStream.RedisStream.TrimAge | broker/redis/src/scripts.ts:195-223 | after the age rule the longer of both prefixes is gone |
| RedisStream.RedisStream.ScanExpired | broker/redis/src/scripts.ts:209-220 | the paged scan records exactly the entries older than the bound |
| RedisStream.RedisStream.TrimBytes | broker/redis/src/scripts.ts:225-258 | after the byte rule the longest of the three prefixes is gone |
| RedisStream.RedisStream.DeleteOverBytes | broker/redis/src/scripts.ts:236-256 | the page-by-page deletion ends having removed the least prefix that makes the bytes fit |
| RedisStream.RedisStream.AppendRecords | broker/redis/src/scripts.ts:268-395 | takes the APPEND step and gives its replies, or the not-ensured error |
| RedisStream.RedisStream.AppendRecord | broker/redis/src/scripts.ts:318-352 | one turn of the loop: a duplicate changes nothing and carries the stored body, a new record gets the next id |
| RedisStream.RedisStream.MarkBoundary | broker/redis/src/scripts.ts:359-392 | moves only the boundary, to the mark of both limits |
| RedisStream.RedisStream.MarkOverRecords | broker/redis/src/scripts.ts:359-368 | the record rule moves the boundary to the end of its prefix |
| RedisStream.RedisStream.MarkOverBytes | broker/redis/src/scripts.ts:370-392 | the byte rule moves the boundary to the end of its prefix |
| RedisStream.RedisStream.ScanOverBytes | broker/redis/src/scripts.ts:373-390 | the paged scan finds the end of the least prefix whose removal makes the bytes fit |
| RedisStream.RedisStream.Forget | broker/redis/src/scripts.ts:344-346 | a deduplication key may go from its expiry on, and not before |
| StreamTheorems.BoundarySplits | broker/redis/src/scripts.ts:307-312 | the boundary separates the history at exactly one position |
| StreamTheorems.VisibleIsLongestWithinLimits | broker/redis/src/scripts.ts:265-267 | in every reachable state, between an append and its trim too, readers see exactly the longest part of the stream within `maxRecords` and `maxBytes` |
| StreamTheorems.TrimLeavesTheNewer | broker/redis/src/scripts.ts:122-263 | after a TRIM in any run the physical entries are exactly those newer than `lastTrimmedId`, and all three limits hold |
| StreamTheorems.RunExtends | broker/redis/src/scripts.ts:35-395 | histories only grow and the boundary and clock never go back |
| StreamTheorems.NoUnreportedGap | broker/redis/src/scripts.ts:35-395 | a record ever appended and newer than the boundary is still in the stream, at every later time |
| StreamTheorems.AcceptedExactlyWhenNothingIsMissing | broker/redis/src/redis-broker.ts:609-628 | the retained-range check rejects a cursor exactly when some record after it has left the retained range |
| StreamTheorems.LatestStartsAtTheEnd | broker/redis/src/redis-broker.ts:565-577 | "latest" lies before exactly the records appended later, even on a stream trimmed empty, and is an accepted cursor |
| StreamTheorems.EarliestStartsAtTheBoundary | broker/redis/src/redis-broker.ts:407-412 | "earliest" lies before exactly the visible records |
| StreamTheorems.BytesAreExact | broker/redis/src/scripts.ts:82-114 | `retainedBytes` is the sum of the physical bodies after every step of every run |
| RetentionTheorems.IdsAreTimes | broker/redis/src/scripts.ts:344 | in every run an id is the millisecond its record was stored in, and its place among the records of that millisecond |
| RetentionTheorems.AgeRemovesExactlyTheOld | broker/redis/src/scripts.ts:35-118 | AGE removes a record exactly when more than `maxAgeMs` has passed since it was stored, or that limit is zero |
| RetentionTheorems.TrimRemovesTheLeast | broker/redis/src/scripts.ts:122-263 | TRIM in any run removes the shortest prefix that leaves the stream within all three limits |
| RetentionTheorems.LimitsAreTheFirst | broker/redis/src/scripts.ts:2-31 | a stream is ensured exactly from the first ENSURE on, and keeps that one's limits whatever later ones ask for |
| RetentionTheorems.ClockAddsUp | broker/redis/src/scripts.ts:90-91 | no script moves the clock |
| DedupeTheorems.SameKeyStoredOncePerWindow | broker/redis/src/scripts.ts:325-346 | two entries stored under one key are at least the first one's window apart |
| DedupeTheorems.RetryNamesTheFirstEntry | broker/redis/src/scripts.ts:325-342 | inside the window every append of the key, anywhere in any batch, is answered with the first entry's id |
| DedupeTheorems.RepeatsInBatchShareTheId | broker/redis/src/scripts.ts:318-352 | repeats inside one batch are duplicates of the key's first record |
| DedupeTheorems.DuplicateExactlyWhileOpen | broker/redis/src/scripts.ts:325-346 | once a key that may expire has, a record of it is a duplicate exactly while a window of it is open, else it is stored |
| DedupeTheorems.RepliesAccountForTheHistory | broker/redis/src/scripts.ts:314-356 | replies match inputs one for one, and the stored ones are exactly what the history gained |
| DedupeTheorems.DuplicateCarriesTheStoredBody | broker/redis/src/scripts.ts:329-341 | a duplicate carries the first entry's body while it is physically held, else none |
| AppendTheorems.AppendedRecords | broker/redis/src/redis-broker.ts:147-179 | one record for each reply, under the reply's cursor: the caller's content if it was stored, else what the carried or fetched body decodes to; or the error of the first reply that has none |
| AppendTheorems.AppendReturnsWhatItStored | broker/redis/src/redis-broker.ts:105-179 | in every run the records an append says it stored are, in order, those readers will find in the entries by which the stream grew |
| AppendTheorems.FetchFinds | broker/redis/src/redis-broker.ts:502-520 | fetching a record by its cursor finds it exactly while it is physically there |
| AppendTheorems.RetryReply | broker/redis/src/scripts.ts:325-342 | the reply to a retry inside the window, anywhere in any batch: the first entry's id, and its body while that is there |
| AppendTheorems.RetryThrowsExactlyWhenGone | broker/redis/src/redis-broker.ts:152-167 | a retry inside the window gives the first record's cursor and content back, or throws exactly when that record is gone, which the boundary then reports, or its body does not decode |
| Records.PassesExactly | broker/redis/src/redis-broker.ts:660-669 | a filter passes the texts it names; an absent or empty text passes none |
| Records.GatherIsMatches | broker/redis/src/redis-broker.ts:233-255 | on decodable entries the loop gathers all matches, or exactly the first `target` of them |
| Records.GatherFails | broker/redis/src/redis-broker.ts:237-242 | a body that does not decode fails the page unless the target was met before it |
| Records.MatchesIncrease | broker/redis/src/redis-broker.ts:660-669 | matches keep the order of the entries, without duplicates |
| Paging.RoundTrip | broker/redis/src/redis-broker.ts:226-231 | a round trip returns the slice from the cursor, or from the head when trims overtook it, and a short one reached the end |
| Paging.ScanIsSound | broker/redis/src/redis-broker.ts:225-261 | while other processes append and trim, a scan increases strictly and passes over an entry only if it had been trimmed |
| Paging.ScanWhenStill | broker/redis/src/redis-broker.ts:225-261 | on a still stream a scan is contiguous |
| BrokerReads.Read | broker/redis/src/redis-broker.ts:181-270 | the empty and expired cases, else the page of what its round trips showed, for any moves of other processes between them |
| BrokerReads.ReadFrom | broker/redis/src/redis-broker.ts:223-269 | the loop ends at the first round trip that brings enough records, a failure or a short page, and makes its page of what was scanned |
| BrokerReads.GatherPage | broker/redis/src/redis-broker.ts:233-255 | the loop over one page of entries continues the gathering |
| BrokerReads.Tail | broker/redis/src/redis-broker.ts:272-350 | the empty and expired cases, else the page of what its round trips showed, for any moves of other processes between them |
| BrokerReads.TailFrom | broker/redis/src/redis-broker.ts:302-349 | the backward loop ends at the first round trip that brings enough records, a failure or a short page, and makes its page of what was scanned, turned around |
| ReadTheorems.RunsMoveWindows | broker/redis/src/redis-broker.ts:203-230 | whatever others do between two moments of a run, the held part of the history only moves forward, and what it passed the boundary reported |
| ReadTheorems.ReadOfStillStream | broker/redis/src/redis-broker.ts:181-270 | on a still stream a read is the page of everything behind its cursor, for every batch size |
| ReadTheorems.PageOfDecodable | broker/redis/src/redis-broker.ts:263-269 | first `limit` matches, `hasMore` exactly when there are more, cursor at the last record or the last entry |
| ReadTheorems.ReadReturnsTheUnread | broker/redis/src/redis-broker.ts:216-221 | whatever others do meanwhile, every record `read` returns lies behind its cursor and behind the boundary |
| ReadTheorems.ReadIsFirstUnread | broker/redis/src/redis-broker.ts:181-270 | on a still stream `read` returns the first `limit` matches of exactly the entries behind its cursor, or without one behind the boundary |
| ReadTheorems.ReadChainIsComplete | broker/redis/src/redis-broker.ts:181-270 | chaining reads, each from the cursor of the last, returns every matching record behind the cursor or boundary once, in order |
| ReadTheorems.PageUnderInterference | broker/redis/src/redis-broker.ts:181-270 | under concurrent appends and trims a page increases strictly, lies behind its cursor, and misses a match only if it had been trimmed |
| TailTheorems.TailPageOfDecodable | broker/redis/src/redis-broker.ts:343-349 | last `limit` matches ascending, `hasMore` exactly when there are more before them |
| TailTheorems.TailReturnsWhatIsInFront | broker/redis/src/redis-broker.ts:304-306 | whatever others do meanwhile, every record `tail` returns lies behind the boundary and before its cursor |
| TailTheorems.TailIsLastInFront | broker/redis/src/redis-broker.ts:272-350 | on a still stream `tail` returns the last `limit` matches of exactly the entries between boundary and cursor |
| TailTheorems.TailChainIsComplete | broker/redis/src/redis-broker.ts:272-350 | chaining tails, each before the cursor of the last, prepends to exactly the matching records between boundary and cursor |
| TailTheorems.TailRefusesExactlyTheTrimmed | broker/redis/src/redis-broker.ts:630-645 | in every run `tail` refuses a cursor exactly when the record there, or a later one, has left the retained range; then nothing readable lies before it |
| TailTheorems.TailOfStillStream | broker/redis/src/redis-broker.ts:272-350 | on a still stream a tail is the page of the span between boundary and cursor, for every batch size |
| TailTheorems.TailUnderInterference | broker/redis/src/redis-broker.ts:304-349 | under concurrent appends and trims a page increases strictly, lies between boundary and cursor, and of the matches its first round trip could see misses one it reaches to only if it had been trimmed by the last |
| SubscriptionPump.RedisSubscriptionPump.Start | broker/redis/src/subscription-pump.ts:41-46 | starts once, and not after a stop |
| SubscriptionPump.RedisSubscriptionPump.Stop | broker/redis/src/subscription-pump.ts:48-52 | marks the end and closes the current client, once |
| SubscriptionPump.RedisSubscriptionPump.Run | broker/redis/src/subscription-pump.ts:58-94 | handles exactly the replies its environment's answers allow; through timeouts, failures, reconnects and handler errors, deliveries are the matches of the scan those replies make, one client is open at a time, and none after an abort |
| SubscriptionPump.RedisSubscriptionPump.HandleReply | broker/redis/src/subscription-pump.ts:81-89 | delivers a reply's matches and moves the cursor behind it, unless the subscriber left |
| SubscriptionPump.RedisSubscriptionPump.Reconnect | broker/redis/src/subscription-pump.ts:96-122 | tries until a client connects or the subscriber leaves, and ends with one fresh open client or none |
| SubscriptionPump.Decode | broker/redis/src/subscription-pump.ts:168-190 | decodable matching records in order, the rest passed over |
| SubscriptionPump.DeliversEverything | broker/redis/src/subscription-pump.ts:58-122 | with nothing trimmed, what was read is exactly the history from the start up to the cursor |
| SubscriptionPump.ShortReplyCatchesUp | broker/redis/src/subscription-pump.ts:124-140 | a reply that is not full leaves nothing unread of what it was shown |
| SubscriptionPump.DeliversInOrder | broker/redis/src/subscription-pump.ts:58-94 | with trims, deliveries increase strictly and miss a match only if it had been trimmed |
| CommandQueue.OneAtATimeInCallOrder | broker/redis/src/connection.ts:125-144 | while one operation holds the client all earlier ones have released and no later one has started |
| CommandQueue.StartedInCallOrder | broker/redis/src/connection.ts:125-145 | the operations that have held the client are the first ones called, in call order; before close, all that no longer wait |
| CommandQueue.CallsJoinUntilClose | broker/redis/src/connection.ts:125-145 | exactly the calls made before close join the queue |
| CommandQueue.OperationsMoveOn | broker/redis/src/connection.ts:125-145 | an operation whose predecessor released runs next, or is released unrun on a closed manager; a finished one is released |
| CommandQueue.NeverStuck | broker/redis/src/connection.ts:130-143 | some operation at or before an unreleased one can always move on, even after close |
| CommandQueue.CloseWaitsForAll | broker/redis/src/connection.ts:220-236 | the promise close awaits resolves only after every operation released |
| CommandQueue.NothingStartsAfterClose | broker/redis/src/connection.ts:136-139 | however a run goes on after close, nothing starts any more and no later call joins the queue |
| CommandClient.RedisConnectionManager.Connect | broker/redis/src/connection.ts:138-140 | keeps the shared client, or takes a fresh one |
| CommandClient.RedisConnectionManager.Discard | broker/redis/src/connection.ts:213-218 | a discarded client is never the shared one again |
| CommandClient.RedisConnectionManager.Execute | broker/redis/src/connection.ts:186-210 | one logged execution; a client that timed out is discarded |
| CommandClient.RedisConnectionManager.RunCommand | broker/redis/src/connection.ts:147-178 | a command executes once or twice, every execution but the last proven unsent; a retry happens only on the shared client, and then always unless the manager closed or no connection could be had |
| CommandClient.RedisConnectionManager.RunOperation | broker/redis/src/connection.ts:125-178 | an operation's executions are its commands' in order; it answers exactly when each command's last execution did, and fails only on a closed manager, without a connection, or with its last command |
| CommandClient.NoReplay | broker/redis/src/connection.ts:148-150 | no command is applied twice and no earlier command is executed after a later one |
| NatsLog.TokensFilterTexts | broker/nats/src/subjects.ts:22-58 | a token filter passes a present text exactly when it asks for it; it passes just the records the filter asks for exactly when it does not ask for `_` |
| NatsLog.SubjectsFilterRecords | broker/nats/src/subjects.ts:37-58 | filtering by subject is filtering records by name and key |
| NatsLog.RangeSplits | broker/nats/src/nats-broker.ts:413-436 | the matches of a range of sequences split at any number |
| NatsLog.MatchesBefore | broker/nats/src/nats-broker.ts:236-285 | a match's sequence as end bound leaves exactly the matches before it |
| NatsLog.MatchesAfter | broker/nats/src/nats-broker.ts:191-206 | a match's sequence as cursor leaves exactly the matches after it |
| NatsBroker.OrderedConsumer.Fetch | broker/nats/src/nats-broker.ts:459-465 | delivers the next matches, all it is asked for when it is prompt |
| NatsBroker.ConsumeBatch | broker/nats/src/nats-broker.ts:467-495 | one batch stops at the range's end, the last match or the record limit, and counts what was pending |
| NatsBroker.FetchWindow | broker/nats/src/nats-broker.ts:413-507 | the first `maxRecords` matches of the range; a prefix of them when a fetch times out; an error when one of them does not decode |
| NatsBroker.Read | broker/nats/src/nats-broker.ts:158-208 | the empty, expired and undecodable cases, else the page of its window |
| NatsBroker.ReadIsExact | broker/nats/src/nats-broker.ts:186-207 | first `limit` of the matches numbered behind the cursor, `hasMore` exactly when there are more, and a cursor that lies in front of exactly the others |
| NatsBroker.CursorNeverOvertakes | broker/nats/src/nats-broker.ts:200-206 | even after a short fetch the returned cursor is not behind the received one, and every message numbered later lies behind it |
| NatsBroker.RefusedExactlyWhenOneIsLost | broker/nats/src/nats-broker.ts:509-529 | an accepted cursor has lost no message to a purge; one that a purge of a gapless stream made refused has |
| NatsBroker.ShortFetchSkips | broker/nats/src/nats-broker.ts:200-206 | the returned cursor passes unreturned matches exactly when part of the window had not arrived |
| NatsBroker.TimedOutReadSkips | broker/nats/src/nats-broker.ts:200-206 | a stream of one message, read by a consumer that times out first: an empty page whose cursor lies behind the message |
| NatsBroker.PageLeavesTheRest | broker/nats/src/nats-broker.ts:200-206 | a page that says there is more leaves exactly the matches behind its cursor |
| NatsBroker.ReadChainIsComplete | broker/nats/src/nats-broker.ts:158-208 | chaining reads of a fixed stream returns every match after the cursor once, in order |
| NatsTail.DoublingSpans | broker/nats/src/nats-broker.ts:254-276 | the first span is the larger of 1000 and four times the target, the others are powers of two times that, and all add up to less than twice the last |
| NatsTail.WindowsAreFew | broker/nats/src/nats-broker.ts:254-276 | logarithmically many windows in the range, all of them together less than twice the last |
| NatsTail.FetchEnd | broker/nats/src/nats-broker.ts:254-276 | the doubling loop ends with what arrived of an end of the range, decoded, and that is enough records or the end is all of it; with prompt fetches all of it arrived |
| NatsTail.Tail | broker/nats/src/nats-broker.ts:210-285 | the empty and expired cases, else the page of what arrived of its last window; with prompt fetches exactly the page of the whole range |
| NatsTail.TailMissesExactlyWhenShort | broker/nats/src/nats-broker.ts:260-284 | the page is the last `limit` matches of the whole range exactly when all of the last window arrived |
| NatsTail.WholePageIsExact | broker/nats/src/nats-broker.ts:278-284 | such a page holds the last `limit` of the matches numbered below the cursor, `hasMore` exactly when there are more, and the cursor of its first record |
| NatsTail.TailRefusedExactlyWhenGone | broker/nats/src/nats-broker.ts:531-550 | a tail before a message is refused exactly once that message is gone, unless the whole stream is |
| NatsTail.TailLeavesTheRest | broker/nats/src/nats-broker.ts:278-284 | a page that says there is more leaves exactly the matches before its cursor |
| NatsTail.TailChainIsComplete | broker/nats/src/nats-broker.ts:210-285 | chaining tails of a fixed stream returns every match before the start once, in order |
| Packages.ByNameFinds | scripts/publishable-packages.ts:123 | with distinct names every package is found under its own |
| Packages.ByNameUnordered | scripts/publishable-packages.ts:123 | the lookup does not depend on the order of the packages |
| Names.SortedNamesIncrease | scripts/publishable-packages.ts:138 | a wave is published in ascending name order |
| Names.PrecedesAtFirstDifference | scripts/publishable-packages.ts:138 | the order of names is that of their first difference, a name before its extensions |
| TopologicalOrder.WaveIsDepth | scripts/publishable-packages.ts:134-154 | a package's wave is the length of its longest dependency chain |
| TopologicalOrder.LongChainClosesCycle | scripts/publishable-packages.ts:140-144 | a chain longer than the workspace contains a cycle |
| TopologicalOrder.AllPlacedUnlessCyclic | scripts/publishable-packages.ts:140-144 | everything is placed exactly when there is no cycle |
| TopologicalOrder.DependenciesComeFirst | scripts/publishable-packages.ts:115-121 | every package comes after everything it depends on |
| TopologicalOrder.OrderIsTopological | scripts/publishable-packages.ts:122-157 | the order holds every package once, dependencies first |
| TopologicalOrder.OrderIgnoresInputOrder | scripts/publishable-packages.ts:122-157 | the order is the same for any order of the input |
| TopologicalOrder.PlaceReady | scripts/publishable-packages.ts:146-150 | moves one wave from pending to ordered |
| TopologicalOrder.DropDependencies | scripts/publishable-packages.ts:151-153 | removes the placed names from every pending set |
| TopologicalOrder.TopologicalPublishOrder | scripts/publishable-packages.ts:122-157 | returns that order, or throws with the unplaced names, exactly when there is a cycle |
| WorkspacePolicy.ExpectedWorkspaceDependency | scripts/workspace-dependency-policy.ts:71-109 | an edge is a peer exactly when it leads to the core from a companion or an extension, and exact exactly for model protocols, among the core and its companions, and from the command line to what it runs |
| WorkspacePolicy.WorkspaceDependencyPolicyErrors | scripts/workspace-dependency-policy.ts:125-166 | the errors are exactly those of the internal dependencies, and there are none exactly when the package meets the policy |
| WorkspacePolicy.RootIsFirstSegment | scripts/workspace-dependency-policy.ts:103 | the root of a directory is its first path segment |
| PlanTheorems.PolicyOnManifests | scripts/workspace-dependency-policy.ts:125-166 | a package meets the policy exactly when each edge inside the family is declared in one field, the expected one, with the expected range, and every peer is also a `workspace:*` development dependency |
| ReleasePlan.CreatePackageReleasePlan | scripts/release-plan.ts:38-85 | the planner computes the plan function: the first error in its order, or the classified releases |
| ReleasePlan.AssertPublishedCompatible | scripts/release-plan.ts:99-155 | fails for the first published package with an edge today's workspace would resolve incompatibly |
| ReleasePlan.AssertDependenciesAvailable | scripts/release-plan.ts:222-261 | fails for the first release that needs a version neither on the registry nor earlier in the plan |
| ReleasePlan.RegistryVersions | scripts/release-plan.ts:228-236 | the starting set holds exactly the workspace versions already on the registry |
| ReleaseTheorems.PlanExists | scripts/release-plan.ts:38-85 | there is a plan exactly when every package is classified and compatible and every release's dependencies are ready |
| PlanTheorems.ClassByVersionAndTags | scripts/release-plan.ts:47-74 | a package fails for a missing version or registry or a tag it would move back, and otherwise is published, deferred, staged or skipped by its version and tags alone |
| PlanTheorems.StaleIsIncompatible | scripts/release-plan.ts:99-155 | the compatibility check passes exactly when every edge of a published version is declared once in the same field as in the workspace, names today's version for `workspace:*`, and is a caret range today's version satisfies for `workspace:^` |
| PlanTheorems.PlanOnManifests | scripts/release-plan.ts:38-85 | there is a plan exactly when every package classifies, no published version is stale and every release is supplied; it publishes, defers and stages exactly the packages whose versions and tags say so, in order |
| ReleaseTheorems.OnlyReleasesChange | scripts/publish.ts:76-82 | a run stopped after k releases has changed exactly the registries of those packages |
| ReleaseTheorems.ClassAfter | scripts/release-plan.ts:60-73 | only what is out changes class: skipped next time, or staged while `latest` is elsewhere |
| ReleaseTheorems.PackedEdge | scripts/release-plan.ts:119-137 | an edge that meets the policy, packed today, is compatible with today's workspace |
| ReleaseTheorems.PackedCompatible | scripts/release-plan.ts:99-155 | a package packed today passes the compatibility check exactly when it names no foreign sibling |
| ReleaseTheorems.CompatibleAfter | scripts/release-plan.ts:99-155 | after a stopped run the check fails exactly for what is out and names a foreign sibling |
| ReleaseTheorems.ReadyAfter | scripts/release-plan.ts:222-261 | the rest of a plan is still ready once its first k releases are on the registry |
| ReleaseTheorems.StoppedRunResumes | scripts/publish.ts:15-17 | re-planning after any prefix gives exactly the remaining suffix and the same deferrals, if and only if nothing published names a foreign sibling |
| ReleaseTheorems.StagedAfter | scripts/release-plan.ts:70-73 | what becomes staged is what was put under another tag while `latest` was elsewhere |
| ReleaseTheorems.EveryReleaseResolves | scripts/publishable-packages.ts:115-121 | when a release goes out, and ever after, each internal dependency is on the registry at its workspace version |
| ReleaseTheorems.NothingMovesBackwards | scripts/release-plan.ts:157-183 | at any point of a run no tag of any package has moved backwards and no published version changed |
| ReleaseTheorems.OrderPutsDependenciesFirst | scripts/publish.ts:40 | the computed order of the packages is dependencies first |
| ReleaseTheorems.MissingExactlyWhenDeferred | scripts/release-plan.ts:222-261 | in such an order a dependency is missing exactly when it is deferred or no workspace package |
| ReleaseTheorems.ForeignSiblingBreaksResume | scripts/release-plan.ts:114-147 | a two-package workspace that publishes and can then never be planned again |
| PromotionPlan.PreviewIsTheZeroZeroLine | scripts/release-policy.ts:5-8 | a preview is a version `0.0` or one starting `0.0.` |
| PromotionPlan.NothingBlocks | scripts/promotion-plan.ts:31-66 | the planner succeeds exactly when no package is blocked |
| PromotionPlan.CreatePackagePromotionPlan | scripts/promotion-plan.ts:19-69 | computes the promotion plan, or the first error before any write |
| PromotionPlan.StoppedPromotionResumes | scripts/promotion-plan.ts:12-18 | re-planning after any executed prefix gives exactly the rest |
| PromotionPlan.FinishedPromotionIsComplete | scripts/promotion-plan.ts:12-18 | a finished promotion has every package's workspace version under the target tag |
| PromotionPlan.PromotionsAreForward | scripts/promotion-plan.ts:45-65 | everything promoted is published, staged under the source, no preview, and not behind the target |
| PromotionPlan.OnlyTargetMoves | scripts/promote.ts:50-56 | promoting changes nothing but the target tag, and that only to a promoted version |
| ChunkBody.SlicesCover | connectors/google/src/upload.ts:97-103 | slices lose nothing, none is empty, and all but the last are full |
| ChunkBody.SlicesAt | connectors/google/src/upload.ts:118-120 | slice i starts at i chunks |
| ChunkBody.ChunkBuffered | connectors/google/src/upload.ts:108-121 | the loop over a buffered body yields its slices |
| ChunkBody.Concat | connectors/google/src/upload.ts:173-181 | the buffer is the parts one after another |
| ChunkBody.SliceKeepingTail | connectors/google/src/upload.ts:140-156 | a full buffer yields slices and keeps one piece of at most a chunk that later bytes may still join |
| ChunkBody.ChunkStream | connectors/google/src/upload.ts:124-164 | however a stream is split into reads it yields the slices of the whole, buffering at most one chunk between reads |
| ResumableUpload.RangeRoundTrip | connectors/google/src/upload.ts:167-171 | the persisted count survives the `Range` header |
| ResumableUpload.HeaderStatesCount | connectors/google/src/upload.ts:167-171 | a header states a count exactly when it is `bytes=0-` with at least one digit behind it and nothing else |
| ResumableUpload.UploadSession.Receive | connectors/google/src/upload.ts:11-17 | an honest session persists a prefix of a PUT that continues what it has, or refuses; a generous one persists all of a PUT it may |
| ResumableUpload.SendChunk | connectors/google/src/http.ts:266-305 | one chunk, re-sent from where the session is: each PUT starts at the persisted count, three PUTs in a row without a new byte give up |
| ResumableUpload.ResumableUpload | connectors/google/src/http.ts:213-312 | the stored bytes are always a prefix of the body; unless the session fails it, an upload completes exactly when the declared size is right or too small and a multiple of the chunk size, and what is stored is the body exactly when it is right; at most three PUTs a byte; PUT lengths are multiples of 256 KiB when acknowledgements are |
| ResumableUpload.DeclaredSizeCutsTheBody | connectors/google/src/http.ts:213-312 | a stream declared as any smaller number of whole chunks is uploaded with success and stored cut to that size |
| ResumableUpload.PathCarriesBody | connectors/google/src/http.ts:156-187 | the chosen upload can carry the whole body exactly unless a stream declares a wrong size |
| TimeseriesCursor.RepairTimeseriesCursor | connectors/ace-iot/src/pagination.ts:92-115 | the backward count computes the repaired cursor |
| TimeseriesCursor.RepairIsExact | connectors/ace-iot/src/pagination.ts:77-91 | the repaired cursor stands exactly where the page ended |
| TimeseriesCursor.AceLosesGround | connectors/ace-iot/src/pagination.ts:80-91 | the server's cursor is too early by what the incoming one had counted in the bucket, equals the repaired one exactly otherwise, and is the incoming one when the page was that long |
| TimeseriesCursor.FingerprintTells | connectors/ace-iot/src/pagination.ts:119-128 | for names without a vertical bar and times without that or an at sign, fingerprints are equal exactly when the pages have as many rows and the same natural keys first and last |
| TimeseriesCursor.IterateTimeseriesPages | connectors/ace-iot/src/pagination.ts:130-170 | for any page sizes the server chooses, the walk returns the pages of the window in order, each row once, within `maxPages`, leaves a cursor to resume from, and reports a stall exactly when two consecutive pages have one fingerprint |
| TimeseriesCursor.DistinctRowsNeverLookRepeated | connectors/ace-iot/src/pagination.ts:123-128 | with natural keys, names without a vertical bar and times without that or an at sign, no two consecutive pages look alike |
| TimeseriesCursor.BarredWalkStalls | connectors/ace-iot/src/pagination.ts:150-156 | a walk over four rows with distinct natural keys that reports a stall after the first page |
| RateLimiter.ResolveRateLimitOptions | auth/magic-link/src/rate-limit.ts:59-84 | a setting is accepted exactly when it names positive whole limits, the hourly one not below the minute's, and is returned unchanged; only `false` turns the limiter off |
| RateLimiter.PrunedDecidesAsFull | auth/magic-link/src/rate-limit.ts:40-56 | while no request looks back at a time an earlier request has dropped, the pruned history decides as the full one |
| RateLimiter.HourRightExactlyUnlessMissed | auth/magic-link/src/rate-limit.ts:40-56 | the pruned history has the last hour right at every request, whatever the limits, exactly when no request looks back at a dropped time |
| RateLimiter.SteadyClockNeverMisses | auth/magic-link/src/rate-limit.ts:50 | on a clock that does not go back no request does |
| RateLimiter.KeepsAtMostPerHour | auth/magic-link/src/rate-limit.ts:35-37 | a key never keeps more than `perHour` times |
| RateLimiter.EveryWindowIsLimited | auth/magic-link/src/rate-limit.ts:20-38 | no 60-second or 3600-second window, wherever it ends, holds more accepted requests than its limit |
| RateLimiter.ClockSetBackAdmitsMore | auth/magic-link/src/rate-limit.ts:50 | a clock set back over a dropped time admits a request the full history would refuse |
| RateLimiter.MagicLinkRateLimiter.GetRecentAttempts | auth/magic-link/src/rate-limit.ts:40-56 | the last hour's times, and the last minute's among them |
| RateLimiter.MagicLinkRateLimiter.CanConsume | auth/magic-link/src/rate-limit.ts:11-18 | whether a request would be admitted, changing nothing |
| RateLimiter.MagicLinkRateLimiter.TryConsume | auth/magic-link/src/rate-limit.ts:20-38 | admits exactly when neither window is full, records the time, and leaves other keys alone |
| RateLimiter.ConsumeAll | auth/magic-link/src/rate-limit.ts:20-38 | over a key's whole life every answer is the one the full history gives, while no request looks back at a dropped time |

## Left out

- Lua numbers, stream sequence numbers, timestamps and byte counts are unbounded integers; 64-bit and double limits are not modelled.
- Redis and JetStream internals: ids are strictly increasing, `XTRIM`, `XDEL` and `XRANGE` exact, scripts atomic. Entries carry one `body` field; other writers to the stream key are not modelled.
- The JSON and base64 codecs: decoding a body is a partial function, a timeseries cursor is its decoded pair, and a cursor that does not decode is treated as absent.
- Timers, back-off delays, abort signals and logging; a timeout is an outcome the environment chooses.
- ReadTheorems.PageUnderInterference: the boundary is checked once, before the loop, so a multi-page read or tail during concurrent trims may miss trimmed records without an error; only what is stated there and in `TailTheorems.TailUnderInterference` holds.
- Option, stream-id and cursor validation, and the encoding of appended records.
- Retries of connecting a subscription's first client, and the registry of active subscriptions.
- NATS `append`, `subscribe`, and the joining of project and stream ids to a stream name, which is not injective.
- TopologicalOrder.TopologicalPublishOrder: names are ordered lexicographically; the source uses the locale's order, of which only totality matters.
- WorkspacePolicy.WorkspaceDependencyPolicyErrors: the order of the error messages; manifests are maps, so the order of their entries is not modelled.
- ReleasePlan.CreatePackageReleasePlan: error messages are reduced to a kind and a package; `trim` knows four white-space characters; `name@version` ids are pairs.
- ReleaseTheorems.StoppedRunResumes: assumes distinct package names, no policy errors, and that a version is not below itself and is in its own caret range; semantic versioning itself is a parameter.
- The rule that previews are published under `next` only, lockfile checks, the propagation delay of the registry, and `verifyPromotions`.
- ResumableUpload.ResumableUpload: a session that acknowledges bytes it does not have is not modelled; neither are the initiation request, the one-shot streaming PUT and the multipart body's text.
- TimeseriesCursor.IterateTimeseriesPages: the rows do not change during the walk, and a page has at least one row while there are any.
- The other cursor walkers and page lists, typed REST connectors, webhook signatures, OIDC and magic-link completion, documentation and build scripts: one-branch facts or input and output.
