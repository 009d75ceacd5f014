# learn-redis-stream, modelled in Dafny

This project models the core of `learn-redis-stream`, a small Go library and demo built on
Redis Streams:

- **streamer** (`libs/streamer/redis.go`). `Consume` bootstraps a consumer group: it lists the
  groups, creates the group when it is missing, then runs the read/emit/acknowledge loop.
  `Publish` stamps a message with a millisecond `timestamp` and appends it to the stream.
  `GetStreamTopics` scans the keyspace for keys of type `stream`. `RetainStreams` and
  `trimLast` delete expired entries, walking from the newest entry back.
- **stream** (`subscriber/libs/stream/redis.go`). The subscriber's copy of the loop. It blocks
  for 5 s per read and does no group bootstrap. Its `Publish` does not stamp the message.
- **subscriber** (`subscriber/main.go`). `consumeMessages` is a third copy of the loop. `main`
  creates the group and drives the channel, stopping fatally at the first error message.
- **redis_client mock** (`subscriber/libs/redis_client/mock.go`). An in-memory store that maps
  keys to lists or scalars, with `LPush`, `RPush`, `BLPop`, `BRPop`, `Set`, `Get`, `Del` and
  `Clear`.

The Redis server is modelled as an oracle. Each operation is given the replies it receives as
a parameter:

- a read script: one outcome per `XREADGROUP`, where each delivered entry carries the reply its
  `XACK` will get;
- the `SCAN` replies in call order, each page's keys carrying the reply their `TYPE` query
  gets; `GetStreamTopics` returns the cursor each `SCAN` call is sent with;
- the `XREVRANGE` reply for each topic position of a retention cycle;
- the `XDEL` reply, carried by each stored entry.

A goroutine feeding an output channel becomes a method that returns the trace of events it
performs: `Read`, `Sent`, `Ack`, `Closed`, `ListGroups`, `CreateGroup` and `Exit`. The
channel's contents are then a function `Channel` of that trace. Each imperative operation is a
method proved equal to a specification function. Its properties are proved as lemmas about
that function.

Modules:

- `Common` (common.dfy): messages, failures, field values, the `FieldMap` class and
  nanosecond-to-millisecond truncation.
- `Decimal` (decimal.dfy): the base-10 signed 64-bit parse and format used for timestamps.
- `ConsumeLoop` and `ConsumeLoopProperties` (consume_loop.dfy): the shared read/emit/ack loop
  and its protocol and channel properties.
- `Streamer` (streamer.dfy), `Discovery` (discovery.dfy) and `Retention` (retention.dfy):
  `libs/streamer/redis.go`.
- `Stream` (stream.dfy) and `Subscriber` (subscriber.dfy): the subscriber side.
- `RedisClient` (redis_client.dfy): the mock store.

Behaviour of the code worth knowing:

- **Read timeouts.** A read that times out (`redis.Nil`) is treated by the code like any other
  read error. It sends an error message and closes the channel; there is no silent re-read.
- **Trim walk.** The walk visits entries newest first. It stops at the first entry that is
  still fresh, and at the first delete that fails. Two conditions make it all or nothing:
  the range read (at most 100 newest entries) is ordered by time, and every entry has a
  readable stamp. If, in addition, no delete fails, the walk deletes either none of those
  entries or all of them (`MonotoneAllOrNothing`). A failing delete leaves the expired
  entries before it, and the failing one, as the XDEL calls made (`WalkStopsAtFailure`).
- **Worked example.** Take entries aged 2, 4, 6, 8 and 10 minutes, newest first, with a
  5-minute retention. The walk deletes nothing (`ScenarioDeletesNothing`), even though the
  6-, 8- and 10-minute entries are expired (`ScenarioExpired`).
- **Group creation.** Creation is not idempotent. Only a `redis.Nil` reply is tolerated; any
  other error, such as BUSYGROUP, is fatal.
- **Missing stream.** An error listing the groups of a stream that does not exist is fatal.

## Model

| member | source | states |
|---|---|---|
| Common.MillisOf | libs/streamer/redis.go:79 | Go's truncating division of nanoseconds by 10^6: the result brackets the input within one millisecond, rounding toward zero on both signs, and stays in int64 range |
| Common.MillisMonotone | libs/streamer/redis.go:79 | a later clock reading never yields a smaller millisecond stamp |
| Common.FieldMap.constructor | libs/streamer/redis.go:78 | the mutable message map starts with exactly the given entries |
| Decimal.ParseInt64 | libs/streamer/redis.go:171 | a successful parse yields an int64 value from a nonempty text, with a leading '-' on any negative result |
| Decimal.FormatNat | libs/streamer/redis.go:79 | the decimal text of a natural number is a nonempty string of digits |
| Decimal.FormatNatValue | libs/streamer/redis.go:79 | reading back the digits of a formatted number gives the number |
| Decimal.ParseFormatRoundTrip | libs/streamer/redis.go:171 | for every int64, parsing its decimal text (as the stored timestamp reads back) returns that value |
| ConsumeLoop.FirstFailure | libs/streamer/redis.go:46-73 | index of the first read that fails or whose batch has a failing ack; every earlier read succeeded with all acks |
| ConsumeLoop.LoopUnfold | libs/streamer/redis.go:46-73 | one loop iteration: a read error emits Read, an error message and Closed; a read batch is emitted, then the loop continues unless an ack failed |
| ConsumeLoop.BatchUnfold | libs/streamer/redis.go:62-71 | one batch step: send the entry, ack it, and stop with an error message and Closed when that ack fails |
| ConsumeLoop.BatchAppend | libs/streamer/redis.go:62-71 | a batch whose acks all succeed composes with whatever follows it |
| ConsumeLoop.BatchStopsAt | libs/streamer/redis.go:67-70 | entries after a failing ack are never sent or acknowledged |
| ConsumeLoop.SendBatch | libs/streamer/redis.go:62-71 | the batch loop performs exactly the batch trace and reports closing exactly when some ack fails |
| ConsumeLoop.LoopStep | libs/streamer/redis.go:46-73 | the loop trace splits at each iteration, for a read error and for a read batch |
| ConsumeLoop.Consume | libs/streamer/redis.go:46-73 | for any read arguments, and successful replies that each hold exactly one stream with at most `count` entries, the read loop performs exactly the specified loop trace; the callers fix the arguments (10 entries at cursor ">") |
| ConsumeLoopProperties.DataOfAll | libs/streamer/redis.go:63 | each delivered entry becomes one data message with its ID and values, in order |
| ConsumeLoopProperties.ChannelAppend | libs/streamer/redis.go:46-73 | the channel contents of a concatenated trace are the concatenated contents |
| ConsumeLoopProperties.ProtocolShift | libs/streamer/redis.go:46-73 | the per-event protocol holds at the same event after a prefix |
| ConsumeLoopProperties.ProtocolPrefix | libs/streamer/redis.go:46-73 | the protocol is kept when the trace is extended past a non-terminal event |
| ConsumeLoopProperties.BatchProtocol | libs/streamer/redis.go:62-71 | in a batch trace every Sent data message is followed by its Ack on the same stream and group, every Ack follows its Sent, and an error message is followed by Closed |
| ConsumeLoopProperties.LoopProtocol | libs/streamer/redis.go:46-73 | the whole loop trace begins with a Read and satisfies the send-then-ack protocol at every event |
| ConsumeLoopProperties.ChannelPair | libs/streamer/redis.go:62-65 | only Sent events contribute to the channel |
| ConsumeLoopProperties.TerminalPrepend | libs/streamer/redis.go:46-73 | prefixing data messages keeps the "at most one error, and only as the last message" shape |
| ConsumeLoopProperties.DataOfAllAppend | libs/streamer/redis.go:62-71 | conversion of deliveries distributes over concatenation |
| ConsumeLoopProperties.BatchChannel | libs/streamer/redis.go:62-71 | a batch puts well-shaped messages on the channel with an error only last, exactly when an ack fails; with no failure it sends all entries in order |
| ConsumeLoopProperties.LoopChannel | libs/streamer/redis.go:46-73 | the channel holds data messages followed by at most one error, which is present exactly when the loop fails; without failure it holds every delivered entry in order |
| ConsumeLoopProperties.LoopAppend | libs/streamer/redis.go:46-73 | a prefix of reads that succeed composes with the rest of the script |
| ConsumeLoopProperties.ReadErrorIsFinal | libs/streamer/redis.go:57-60 | after a read error the loop ends: later reads are never made and the channel ends in that read failure |
| ConsumeLoopProperties.AckFailureEndsBatch | libs/streamer/redis.go:67-70 | a failing ack ends the batch; the channel gets the acknowledged entries, the failing one, then the ack failure |
| ConsumeLoopProperties.FailingBatchSplit | libs/streamer/redis.go:46-73 | a batch with a failing ack is the last iteration of the loop |
| ConsumeLoopProperties.AckErrorIsFinal | libs/streamer/redis.go:67-70 | after a failing ack nothing else from the batch or later reads is performed |
| ConsumeLoopProperties.AckErrorChannel | libs/streamer/redis.go:67-70 | the channel after a failing ack ends with the failing entry and the ack failure |
| Streamer.GroupExists | libs/streamer/redis.go:29-35 | the group search finds a match exactly when some listed group has the name |
| Streamer.Consume | libs/streamer/redis.go:22-76 | bootstrap and loop perform exactly the specified trace: list groups, create if absent, exit on fatal replies, then read with Block 0 |
| Streamer.CreateIffAbsent | libs/streamer/redis.go:37-43 | CreateGroup (start "0") is issued exactly when listing succeeded or returned nil and no listed group has the name |
| Streamer.NilTolerated | libs/streamer/redis.go:24-27 | a nil listing behaves like an empty one, and a nil creation reply is not fatal |
| Streamer.FatalSetupNeverReads | libs/streamer/redis.go:24-43 | a fatal listing or creation error ends in Exit and never reads the stream |
| Streamer.SetupThenLoop | libs/streamer/redis.go:22-76 | with a non-fatal setup the trace is the setup events followed by the read loop over the topic |
| Streamer.Stamped | libs/streamer/redis.go:79 | the stamped message keeps every other field and sets "timestamp" to the truncated millisecond clock |
| Streamer.Publish | libs/streamer/redis.go:78-89 | mutates the caller's map to the stamped map, appends it to the topic, and wraps an append error as a publish failure |
| Streamer.StampOverwrites | libs/streamer/redis.go:79 | publishing the same map twice keeps only the later stamp, which is never smaller |
| Discovery.ScanEnd | libs/streamer/redis.go:96-122 | index of the first page that is an error or has cursor 0; all earlier pages continue |
| Discovery.PrefixedEmpty | libs/streamer/redis.go:93 | prefixing no topics leaves a result unchanged |
| Discovery.PrefixedPrefixed | libs/streamer/redis.go:114 | prefixing twice is prefixing with the concatenation |
| Discovery.PageStep | libs/streamer/redis.go:106-116 | one key: a type error aborts, a stream key is collected, any other type is skipped |
| Discovery.ProbePage | libs/streamer/redis.go:106-116 | the per-key type loop returns exactly the page's specified result |
| Discovery.ScanStep | libs/streamer/redis.go:96-122 | one scan iteration: a scan error aborts, a failing type aborts, cursor 0 ends, otherwise continue |
| Discovery.GetStreamTopics | libs/streamer/redis.go:92-124 | the scan loop returns exactly the specified discovery result; the first SCAN is sent with cursor 0 and each later one with the cursor the previous reply returned; every reply but the last continues the scan (nonzero cursor, no TYPE error) and the last does not; a successful scan makes one call per page up to the one returning cursor 0 |
| Discovery.StreamKeys | libs/streamer/redis.go:113-115 | a key is listed exactly when one of the probes has type "stream" for it |
| Discovery.StreamKeysAppend | libs/streamer/redis.go:106-116 | stream keys of concatenated pages are concatenated |
| Discovery.PageTopicsMeaning | libs/streamer/redis.go:106-116 | a page succeeds exactly when no TYPE call fails, and then yields exactly its stream keys in scan order |
| Discovery.DiscoverMeaning | libs/streamer/redis.go:92-124 | discovery succeeds exactly when no SCAN or TYPE call up to the final page fails, and then returns every stream key scanned, in order; failures are transport failures |
| Discovery.TypeFailsAppend | libs/streamer/redis.go:106-116 | a TYPE failure in concatenated pages is one in either part |
| Discovery.FirstTypeError | libs/streamer/redis.go:108-111 | the cause of a failing TYPE query, present exactly when one fails, with every earlier query succeeding |
| Discovery.FirstTypeErrorAppend | libs/streamer/redis.go:106-116 | the first TYPE failure of concatenated pages is the first part's, if it has one, else the second's |
| Discovery.PageTopicsError | libs/streamer/redis.go:108-111 | a page fails exactly when a TYPE query fails, and returns the error of the first one unwrapped |
| Discovery.DiscoverError | libs/streamer/redis.go:101-111 | a failing discovery returns the error of the first failing TYPE query among the keys scanned, or else the SCAN error that ended the scan, unwrapped |
| Discovery.OneStreamOnePlainKey | libs/streamer/redis.go:113-115 | one stream key and one string key yield just the stream key |
| Retention.DelEvents | libs/streamer/redis.go:176-180 | one XDEL on the topic for each deleted ID, in order |
| Retention.WalkStep | libs/streamer/redis.go:166-184 | one entry: a missing or unparsable stamp is skipped, a fresh one stops the walk, an expired one is deleted or aborts on a delete error |
| Retention.DelEventsSnoc | libs/streamer/redis.go:176-180 | deleting one more ID appends one XDEL |
| Retention.TrimLast | libs/streamer/redis.go:159-187 | the trim performs exactly the specified range read, deletes and outcome |
| Retention.Boundary | libs/streamer/redis.go:181-183 | index of the first fresh entry; no earlier entry is fresh |
| Retention.ExpiredIds | libs/streamer/redis.go:176 | never more expired IDs than entries |
| Retention.ExpiredIdSource | libs/streamer/redis.go:176 | every listed ID belongs to an expired entry of the range |
| Retention.CandidatesUnfold | libs/streamer/redis.go:166-184 | the IDs before the first fresh entry are the expired ones, in order |
| Retention.WalkMeaning | libs/streamer/redis.go:166-184 | the walk's XDEL calls go to a prefix of the expired entries in front of the first fresh one: all of them when the walk reports no error; when it reports one, at least one XDEL was made and the error is a delete failure |
| Retention.WalkFailsIff | libs/streamer/redis.go:176-180 | the walk reports an error exactly when the XDEL of some expired entry in front of the first fresh one fails |
| Retention.WalkStopsAtFailure | libs/streamer/redis.go:176-180 | at the first failing XDEL the walk returns at once: its XDEL calls are the expired entries up to and including that one, and the error is that delete's |
| Retention.DeletesOnlyExpired | libs/streamer/redis.go:176-180 | every deleted ID is that of an expired entry with a readable stamp |
| Retention.FreshNewestDeletesNothing | libs/streamer/redis.go:181-183 | when the newest entry is fresh nothing is deleted |
| Retention.UnusableIsSkipped | libs/streamer/redis.go:167-175 | an entry without a usable string stamp changes nothing in the walk |
| Retention.Ids | libs/streamer/redis.go:166 | the IDs of the entries, in order |
| Retention.AllExpiredAllDeleted | libs/streamer/redis.go:166-184 | when every entry is expired and deletes succeed, every entry is deleted |
| Retention.MonotoneAllOrNothing | libs/streamer/redis.go:166-184 | on a time-ordered range with no delete failure the walk deletes nothing or everything, decided by the newest entry |
| Retention.ReadErrorDeletesNothing | libs/streamer/redis.go:161-164 | a failed range read deletes nothing and reports a read failure |
| Retention.AsStored | libs/streamer/redis.go:80-83 | stored values keep their keys, with numbers turned into their decimal text |
| Retention.PublishedStampReadsBack | libs/streamer/redis.go:79 | the stamp written by Publish reads back as the same millisecond value |
| Retention.WithinRetentionIsFresh | libs/streamer/redis.go:145 | an entry published within the retention window is not below the threshold |
| Retention.PastRetentionIsExpired | libs/streamer/redis.go:145 | an entry published a millisecond or more before the window is below the threshold |
| Retention.RecentEntryStopsWalk | libs/streamer/redis.go:181-183 | the walk never passes an entry published within the window |
| Retention.StampedAtReadsBack | libs/streamer/redis.go:167-171 | a stored int64 stamp parses back to itself |
| Retention.ScenarioDeletesNothing | libs/streamer/redis.go:166-184 | entries aged 2, 4, 6, 8 and 10 minutes with a 5-minute retention: the walk deletes nothing |
| Retention.ScenarioAge | libs/streamer/redis.go:145 | in that scenario an entry is expired exactly when it is older than 5 minutes |
| Retention.ScenarioExpired | libs/streamer/redis.go:176 | in that scenario the 6-, 8- and 10-minute entries are the expired ones |
| Retention.HasWildcard | libs/streamer/redis.go:128-133 | the wildcard flag is set exactly when some topic is "*" |
| Retention.TrimAllStep | libs/streamer/redis.go:147-152 | one topic: a trim error stops the cycle wrapped with that topic, otherwise go on to the next |
| Retention.RetainStreams | libs/streamer/redis.go:127-156 | one cycle performs exactly the specified discovery, threshold and trims |
| Retention.RangeTopicsAppend | libs/streamer/redis.go:147-152 | topics read in concatenated traces are concatenated |
| Retention.RangeTopicsOfDels | libs/streamer/redis.go:176-180 | deletes read no topic |
| Retention.RangeTopicsOfTrim | libs/streamer/redis.go:161 | each trim reads exactly its own topic once |
| Retention.TrimAllInOrder | libs/streamer/redis.go:147-152 | a cycle without error reads every topic once, in order; a failing cycle reads a nonempty prefix and names its last topic in the error |
| Retention.TrimAllFailsIff | libs/streamer/redis.go:147-152 | a cycle fails exactly when the trim of one of its topics fails |
| Retention.TrimAllStopsAtFailure | libs/streamer/redis.go:148-151 | the first failing trim ends the cycle, whose error wraps that trim's error with the topic's name |
| Retention.TrimOutcomeTopic | libs/streamer/redis.go:161-178 | every call of one trim, the read and each delete, names the trimmed topic |
| Retention.TrimsUpToTopics | libs/streamer/redis.go:147-152 | the calls of the first n trims name only the first n topics |
| Retention.TrimsUpToCons | libs/streamer/redis.go:147-152 | the calls of the first n trims are the first topic's trim followed by the next n - 1 trims |
| Retention.TrimAllEventsWithoutFailure | libs/streamer/redis.go:147-152 | a cycle without error makes exactly the calls of every topic's trim, one topic after another, in order |
| Retention.TrimAllEventsUpToFailure | libs/streamer/redis.go:147-152 | when the k-th trim is the first to fail, the cycle's calls (reads and deletes) are exactly those of the trims up to and including the k-th, so no call names a later topic |
| Retention.TrimAllReadsUpToFailure | libs/streamer/redis.go:147-152 | when the k-th trim is the first to fail, the cycle reads exactly the topics up to and including the k-th, in order |
| Stream.Consume | subscriber/libs/stream/redis.go:20-52 | the loop reads 10 entries at ">" with a 5000 ms block and performs exactly the shared loop trace |
| Stream.NoGroupSetup | subscriber/libs/stream/redis.go:20-52 | this variant never lists, creates or exits, and its first event is the read |
| Stream.Publish | subscriber/libs/stream/redis.go:54-64 | appends the caller's map unchanged, without stamping, and wraps an append error |
| Subscriber.ConsumeMessages | subscriber/main.go:22-54 | the demo's loop performs exactly the shared loop trace with Count 10 and Block 5000 ms |
| Subscriber.FirstErrorAt | subscriber/main.go:72-77 | index of the first error message; all earlier messages are data |
| Subscriber.Drive | subscriber/main.go:72-77 | the driver handles every message before the first error and stops fatally with that error |
| Subscriber.DriveOverLoop | subscriber/main.go:72-77 | over the loop's channel the driver fails exactly when the loop fails, on its last message; otherwise it handles every delivered entry in order |
| Subscriber.Run | subscriber/main.go:56-81 | a creation error other than nil is fatal before any message; otherwise handled messages are the channel's prefix and the run is fatal exactly when the loop fails; the fatal exit carries the error of the channel's last message |
| RedisClient.FirstReady | subscriber/libs/redis_client/mock.go:70-82 | index of the first key holding a nonempty list; no earlier key does |
| RedisClient.Popped | subscriber/libs/redis_client/mock.go:66-90 | a timeout exactly when no key holds a nonempty list, with the store unchanged; otherwise [key, head] of the first ready key in the given order, whose list loses its head while other keys stay unchanged |
| RedisClient.Reversed | subscriber/libs/redis_client/mock.go:21-26 | the i-th element is the i-th from the end |
| RedisClient.ReversedInvolution | subscriber/libs/redis_client/mock.go:21-26 | reversing twice gives back the keys |
| RedisClient.Reverse | subscriber/libs/redis_client/mock.go:21-26 | the swap loop reverses the array in place |
| RedisClient.KeysUpToMembers | subscriber/libs/redis_client/mock.go:124 | the keys visited so far are exactly those in the prefix |
| RedisClient.KeySetMembers | subscriber/libs/redis_client/mock.go:124 | the key set holds exactly the listed keys |
| RedisClient.PopAfterLPush | subscriber/libs/redis_client/mock.go:28-43 | popping right after LPush returns the first pushed value and leaves the rest followed by the old list |
| RedisClient.PopCommutesWithRPush | subscriber/libs/redis_client/mock.go:45-60 | on a nonempty list, popping before or after an RPush returns the same head, and the resulting stores agree |
| RedisClient.BRPopTakesLastReady | subscriber/libs/redis_client/mock.go:62-64 | BRPop pops from the last ready key of the caller's order |
| RedisClient.LeftMember | subscriber/libs/redis_client/mock.go:124-130 | after n keys, a key is left exactly when it was stored and not among them |
| RedisClient.LeftMembers | subscriber/libs/redis_client/mock.go:124-130 | after n keys the remaining keys keep their values |
| RedisClient.LeftIsSubtract | subscriber/libs/redis_client/mock.go:124-130 | after n keys the store is the old store minus those keys |
| RedisClient.CountOne | subscriber/libs/redis_client/mock.go:129 | a newly seen stored key raises the count by one |
| RedisClient.CountNone | subscriber/libs/redis_client/mock.go:125-127 | a missing or repeated key leaves the count unchanged |
| RedisClient.GoneIsCount | subscriber/libs/redis_client/mock.go:124-130 | the counter equals the number of distinct stored keys among the first n, and is at most n |
| RedisClient.DeleteKeys | subscriber/libs/redis_client/mock.go:119-132 | the deletion loop removes exactly the listed keys and counts the distinct ones that were present, at most one per argument |
| RedisClient.DelCountsDistinctPresentKeys | subscriber/libs/redis_client/mock.go:119-132 | deleting ["a", "a", "b"] from a store holding only "a" empties it and counts 1 |
| RedisClient.MockRedis.constructor | subscriber/libs/redis_client/mock.go:15-19 | a new store is empty |
| RedisClient.MockRedis.LPush | subscriber/libs/redis_client/mock.go:28-43 | a scalar key is an error that leaves the store unchanged; otherwise the values are put in front of the list, creating it if missing |
| RedisClient.MockRedis.RPush | subscriber/libs/redis_client/mock.go:45-60 | a scalar key is an error that leaves the store unchanged; otherwise the values are put after the list, creating it if missing |
| RedisClient.MockRedis.BLPop | subscriber/libs/redis_client/mock.go:66-90 | result and new store are the specified pop: the first ready key's head, or a timeout with nothing changed |
| RedisClient.MockRedis.BRPop | subscriber/libs/redis_client/mock.go:62-64 | reverses the caller's key array in place, then pops as BLPop on the reversed order |
| RedisClient.MockRedis.Set | subscriber/libs/redis_client/mock.go:92-100 | the key now holds the value and no other key is added or removed |
| RedisClient.MockRedis.Get | subscriber/libs/redis_client/mock.go:109-117 | a stored key returns its rendering; a missing one the "key not found" error |
| RedisClient.MockRedis.Del | subscriber/libs/redis_client/mock.go:119-132 | removes exactly the listed keys and returns the number of distinct listed keys that were present |
| RedisClient.MockRedis.Clear | subscriber/libs/redis_client/mock.go:134-139 | the store becomes empty |

## Left out

- Goroutines, channels and the mock's mutex: each loop is a method returning the events it
  performs, and the channel is a function of that trace. Interleavings with other goroutines
  are not modelled.
- Clocks and sleeps: the current time is a parameter. `time.Sleep` between retention cycles and
  BLPop's 10 ms polling are not modelled. With no concurrent writer, a later polling pass sees
  the same store, so BLPop's outcome is a pop on the first pass or the timeout.
- `RetainStreams` runs forever; the model is one cycle. Discovery for "*" happens once before
  the loop, as in the code.
- `expireKey` and `Set`'s optional expirations: they need a timer goroutine; `Set` is modelled
  without them.
- Log output (`log.Printf`, `log.Fatalf`): a fatal log is an `Exit` event or a fatal result; an
  unparsable stamp is skipped silently.
- `fmt.Sprintf("%v")` rendering: only strings and lists of strings are rendered. Other Go values
  stored in the mock are not modelled.
- LPush's `append(values, list...)` may share the caller's backing array; values are copied in
  the model.
- The int64 range of `time.Now().UnixNano()` and of the retention arithmetic: time values are
  unbounded integers. Only the stamp's parse round trip requires an int64 value.
- Each successful read reply holds exactly one stream, the one requested, with at most `count`
  entries. The count and the single stream are a precondition (`WellFormedReads`) of the read
  loops. The stream's name is not checked.
- SCAN's COUNT 100 is only a hint to Redis, and the model does not rely on any page size. The
  match pattern "*" and the COUNT are the same on every call and are not recorded; the cursor
  is.
- `Retention.RetainStreams`: the cycle's events are the trims' XREVRANGE and XDEL calls. The
  SCAN cursors of its discovery are stated by `Discovery.GetStreamTopics` and are not repeated
  in the cycle's events.
- The at most 100 entries of an XREVRANGE reply are not checked either. The walk handles a
  reply of any length.
- `Stream.Publish`, `Streamer.Publish`: `messageID` is accepted and unused, as in the code.
- `RedisClient.MockRedis.Del`: the error result is always nil and is not returned.
- `subscriber/libs/redis_client/client.go` (the real client, which drops the key from BLPop and
  BRPop results) is not part of this model. Neither are the demo programs `main.go` and
  `publisher/main.go`, nor the interface files.
- `Discovery.GetStreamTopics`, `Retention.RetainStreams`: both require that the SCAN replies
  reach cursor 0 or an error. Without that the Go loop never ends, and a terminating model
  cannot represent it.
- `Streamer.Publish`: stamping a nil map panics in Go. The model's message map always exists,
  so that panic is not represented.
- `select {}` at the end of the subscriber's `main` blocks forever; it is not modelled.
