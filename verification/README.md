# A verified model of the rpkirtr2 cache

rpkirtr2 serves validated route origin data (ROAs) and AS provider authorisations (ASPAs) to routers over the
RPKI-to-Router protocol (RFC 8210, and its successor draft for ASPA). It holds one versioned data set, a window of the
last ten diff records and a wrapping 32-bit serial, and it keeps any number of routers in step by answering Reset
Queries with everything and Serial Queries with the net changes since the router's serial.

The model follows the data through the program:

| file | what it holds |
|---|---|
| `Words`, `Slices`, `Tables` | machine words; sorting and in-place filtering; the two loops ROAs and ASPAs share, over any sorted and grouped kind of entry |
| `Roas`, `Aspas` | orders, validity, normalisation, expiry and diff of the two object kinds |
| `History` | the cache as a value, the trace of all versions it has held, and the invariant that ties the two |
| `Aggregation` | cancelling the records since a serial by counting |
| `Caching` | the cache object on real arrays, and which arrays a refresh may write |
| `Pdus`, `Codec`, `Streams` | the eleven PDUs, encoding and decoding, buffers, partial writes and framing |
| `Layout` | the wire format byte by byte, in numbers, against the encoder and the decoder |
| `Routers`, `Runs` | a router that applies PDUs, and whole interleaved runs of one cache and many routers |
| `Hazards` | where the code does less than the protocol's plain reading, each with its exact condition and a concrete run |
| `Sessions` | one connection: negotiation, dispatch, write lock, the steps of other threads, and the trace of blocks on the wire |
| `Answers` | what a session's blocks and endings mean to the router at the other end |

A run (`Runs`) is any sequence of refreshes, Reset Queries, Serial Queries, deliveries and dropped connections. A Serial
Query is two steps, because its handler reads the cache under two separate locks. The steps are values; `Sessions` and
`Caching` hold the mutable objects whose methods are proved to perform them (`Sessions.AnswerIsRunStep`,
`Sessions.Client.HandleSerialQuery`, `Caching.Cache.UpdateCache`).

Main results:

- In every run in which the two reads of each Serial Query agree (and no router asks across a whole cycle of the 32-bit
  serial), no router ever sees a duplicate announcement or an unknown withdrawal, and every serial a router is given
  labels a version whose ROAs are exactly the router's.
- In every run without a query across a whole serial cycle, a router's serial names what the router holds after each of
  the Serial Queries since its last Reset Query if and only if each of them read the same content twice. The first that
  did not leaves exactly the version of its second read, newer than the serial. Two reads at different serials can still
  see the same content; a concrete run goes there and back.
- After that first torn query the protocol does not recover by itself. From any table whatever, a version 1 router reaches the current ROAs by a Serial Query without
  an error iff its ROAs were those of the version its serial labels. Version 2 needs the same of the ASPA customers,
  those about to be announced aside, and the providers come out right under a further exact condition. A concrete run
  ends with a withdrawn ROA held under the current serial, with no error.
- The counted reply to a Serial Query is the set difference of two full versions for ROAs. For ASPAs, which cancel by
  customer alone, it rebuilds the current table if and only if an explicit condition on the records holds.
- Over all runs, through serial wrap-around, a Serial Query is answered from the window exactly when the asked serial is
  at most the window's length behind.
- A periodic refresh never writes an array that a reader may hold. `UpdateROAs` and `UpdateASPAs` filter the cache's own
  array in place and then diff against it: for normalised arguments the cache stays a record of its versions if and only
  if no live entry of that array follows an expired one.
- A refresh normalises exactly what all successful upstreams delivered and drops exactly what has expired.
- The decoder accepts a buffer as a PDU if and only if the buffer spells that PDU in the standard's numbers, for all
  eleven kinds, and the encoder writes such a buffer.
- PDUs survive encoding, partial writes and framing if and only if all of them are within the protocol's limit; any
  accepted buffer decodes, encodes and decodes to the same PDU.
- How a session ends, how many PDUs it serves and which blocks its handler sends are functions of the input and of what
  its reads of the cache saw, under every schedule of other threads. The handler's blocks are the answers to the queries
  in order, then the Error Report that is due; all of them, if the server does not close the connection, only queries
  came and the connection could carry every byte, and otherwise the first of them. A Reset Query's answer leaves any
  router with exactly the version read; a Serial Query's answer takes a router that holds the asked version to the
  version of the second read, or is a Cache Reset exactly when session, serial 0 or the window call for one.
- Under every schedule of other threads, what a connection has sent is what it could carry of whole blocks, without ASPA
  PDUs below version 2. There is at most one Error Report; it is the handler's last block, and only Serial Notify blocks
  can follow it. On a connection that still carries bytes it is the last block if and only if no `notify` that found the
  connection open gets the write lock before the connection is closed; a concrete schedule has one that does.

Integers are unbounded in the model, so every 32-bit wrap-around is written out (`Wrap32`). The clock, the fetched data,
the order in which upstreams answer, how many bytes a connection carries before it fails and the schedule of other
threads are parameters or free choices. `sort.Slice` is modelled by its contract, any ascending permutation, with an
insertion sort as witness. A `hide` statement at the head of a proof only keeps function bodies the proof does not need
away from the verifier.

Where the code and the repository's own README differ, the model follows the code. README.md:77 says a failed upstream
keeps the previous data; `loadASPAs` never returns an error, so a refresh in which every ASPA fetch fails withdraws all
ASPAs. README.md:75 says expiry is enforced on cold start; `Start` stores what it loads unfiltered.

## Model

| member | source | states |
|---|---|---|
| Slices.SortSlice | internal/server/roa.go:88-90 | the array ends as some ascending permutation of itself, with no promise about ties |
| Slices.CompactInPlace | internal/server/roa.go:255-264 | the kept elements come first in order, and behind them stay exactly the stale ones |
| Slices.StaleTail | internal/server/roa.go:255-264 | the stale tail is free of kept elements iff no kept element followed a dropped one |
| Tables.Distil | internal/server/aspa.go:73-87 | on any lawful order, the first places hold a least valid entry of each group that has a valid entry, and nothing else, ascending |
| Tables.DistillationIsUnique | internal/server/aspa.go:68-88 | two results of rearranged input agree position by position up to ties |
| Tables.MergeDiff | internal/server/cache.go:233-268 | the two-pointer loop with its trailing copies computes the merge walk, on any two lists |
| Tables.DiffIsDifference | internal/server/cache.go:233-268 | on strict tables the walk returns exactly the entries the other side does not cover, as strict tables |
| Tables.OwnArrayDiff | internal/server/cache.go:202-208 | diffing against the very list that was filtered in place reports the dropped groups iff no kept entry followed a dropped one, and otherwise reports something that was not dropped |
| Roas.KeyOrder | internal/server/roa.go:59-70 | `Less` is a strict total order whose ties are exactly equal keys |
| Roas.LessIsByRank | internal/server/roa.go:59-70 | `Less` orders keys as one number made of family, address, prefix length, ASN and maxLength |
| Roas.ValidityIsTheRule | internal/server/roa.go:110-130 | the byte-wide test is the rule of section 3.3 of RFC 6482 over integers together with a maxLength other than 0, the zero prefix included |
| Roas.DroppedByTheCache | internal/server/roa.go:113-115 | what that rule allows and the cache drops is exactly a prefix of length 0 with maxLength 0; 0.0.0.0/0 is one |
| Roas.GetSetOfValidatedRoas | internal/server/roa.go:82-107 | the result holds each valid key of the input once, strictly sorted, and only entries of the input |
| Roas.ArrivalOrderIsIrrelevant | internal/server/roa.go:319-337 | any two normalised lists of rearranged input carry the same keys in the same order |
| Roas.FilterExpired | internal/server/roa.go:255-264 | keeps, in order, exactly the entries with expiry 0 or with expiry seconds times 10^9 beyond the clock's nanoseconds, and says what the rest of the array holds |
| Roas.FilterKeepsNormal | internal/server/roa.go:255-264 | expiry filtering keeps a list sorted and valid |
| Roas.MakeDiff | internal/server/roa.go:137-174 | the loop computes the merge walk on any two lists |
| Roas.DiffIsSetDifference | internal/server/roa.go:137-174 | on sorted lists the additions are new minus old, the deletions old minus new, both sorted, and applying them to old gives new |
| Roas.OwnArrayRefresh | internal/server/cache.go:280-285 | the withdrawals `UpdateASPAs` computes against its own filtered ROA list are the expired keys iff no live entry follows an expired one |
| Aspas.ProviderOrder | internal/server/aspa.go:40-45 | the provider comparison is a strict total order on lists of one length, agreeing with position-wise equality |
| Aspas.AspaOrder | internal/server/aspa.go:33-61 | `Less` is a strict total order up to expiry, and its ties are exactly what `aspasEqual` accepts |
| Aspas.LessIff | internal/server/aspa.go:33-46 | `Less` compares customers, then provider counts, then providers at the first place where they differ |
| Aspas.DeduplicateAspasInPlace | internal/server/aspa.go:68-88 | one entry for each customer other than 0 listed with providers, in customer order: of the fewest providers, and at equal count smaller at the first differing place |
| Aspas.ArrivalOrderIsIrrelevant | internal/server/aspa.go:228-240 | the deduplicated customers and providers do not depend on arrival order |
| Aspas.FilterExpiredAspas | internal/server/aspa.go:91-100 | keeps, in order, exactly the entries with expiry 0 or with expiry seconds times 10^9 beyond the clock's nanoseconds, and says what the rest of the array holds |
| Aspas.FilterKeepsNormal | internal/server/aspa.go:91-100 | expiry filtering keeps a list customer-sorted and valid |
| Aspas.MakeAspaDiff | internal/server/cache.go:233-268 | the loop computes the merge walk on any two lists |
| Aspas.DiffIsMapDifference | internal/server/cache.go:233-268 | on sorted lists each side lists exactly the entries the other table lacks or lists differently |
| Aspas.DiffRebuilds | internal/server/cache.go:238-246 | delete then add turns the old table into the new one, and a customer is in both lists iff its providers changed |
| Aspas.OwnArrayRefresh | internal/server/cache.go:272-277 | the withdrawals `UpdateROAs` computes against its own filtered ASPA list are the expired customers iff no live entry follows an expired one |
| History.DiffsDescribe | internal/server/cache.go:207-210 | the four diff lists are the difference of two contents, each change once, and are all empty iff the contents agree |
| History.PushTracks | internal/server/cache.go:47-63 | a pushed record extends both the window and the version trace, evicting only beyond ten |
| History.RefreshTracks | internal/server/cache.go:202-217 | every refresh keeps the trace invariant, leaves the new content, and moves the serial iff the content changed |
| History.RunTracks | internal/server/cache.go:186-217 | the trace invariant holds after every run of refreshes, however often the serial wraps |
| History.HistoryChains | internal/server/cache.go:47-63 | the window has min(10, updates) records, ten as a number, they chain to the current serial, and no serial starts two of them |
| History.IndexFrom | internal/server/cache.go:84-90 | the first record from a serial, or none |
| History.KnownIffInWindow | internal/server/cache.go:79-94 | a serial is found iff it is at most the window's length behind in serial arithmetic, and which records are then used |
| Aggregation.UpToDate | internal/server/cache.go:79-81 | a router at the current serial is told nothing |
| Aggregation.Tally | internal/server/cache.go:105-122 | one inner loop adds its step to each listed group once and remembers the entry |
| Aggregation.Collect | internal/server/cache.go:125-138 | walking the count map in any order lists each group once, on the side of its net count |
| Aggregation.Aggregate | internal/server/cache.go:96-140 | the reply holds each key and customer with a nonzero net count once, with the providers seen last |
| Aggregation.NetTelescopes | internal/server/cache.go:96-123 | the counts over a chain of records depend only on its two end versions |
| Aggregation.WindowChains | internal/server/cache.go:83-94 | the records since any serial in the window lead, one version at a time, from the version that many steps back to the current one |
| Aggregation.ReplyIsVersionDifference | internal/server/cache.go:96-140 | nets are -1, 0 or 1; the ROA reply is the set difference of the two versions and the ASPA customers the customer-set difference |
| Aggregation.DifferenceIsReply | internal/server/cache.go:96-140 | conversely, any lists of those differences, each item once and with the remembered providers, are an answer |
| Aggregation.MapOrderIsIrrelevant | internal/server/cache.go:125-138 | two answers for the same records are permutations of each other, list by list, providers included |
| Aggregation.LastProvidersMeaning | internal/server/cache.go:115-122 | the remembered providers of a present customer are the current ones iff its last record is not a change of providers |
| Aggregation.WithdrawnProviders | internal/server/cache.go:119-122 | a withdrawn customer carries the providers the cache listed for it last |
| Aggregation.AspaReplyRebuildsIff | internal/server/cache.go:115-138 | the ASPA reply rebuilds the current table iff customers at both ends kept their providers and no new customer was last touched by a change |
| Aggregation.AspaReplyOnAnyTable | internal/server/cache.go:115-138 | from any table: the reply withdraws nothing unknown and yields the current customers iff the table had the start version's, those announced aside; and then the whole table iff the providers are right |
| Caching.Combine | internal/server/roa.go:320-329 | a newly allocated array that holds exactly what the successful fetches delivered, as long as all of them together |
| Caching.CombinedAround | internal/server/roa.go:326-329 | each delivered list is there whole, between those that arrived before it and those after it |
| Caching.Cache.constructor | internal/server/cache.go:31-37 | an empty cache at serial 1 whose trace is one version |
| Caching.Cache.Replace | internal/server/server.go:82-85 | before any refresh, the initial data becomes the first version |
| Caching.Cache.UpdateDiffs | internal/server/cache.go:47-63 | the lists are stored and the record appended, the oldest dropped beyond ten |
| Caching.Cache.IncrementSerial | internal/server/cache.go:71-73 | the serial moves by one, from 4294967295 to 0 |
| Caching.Cache.DiffAndStore | internal/server/cache.go:207-216 | the locked update is the refresh of the cache value |
| Caching.Cache.UpdateLocked | internal/server/cache.go:206-217 | the locked part is the refresh of the cache value, and the trace grows iff the content differs |
| Caching.Cache.UpdateCache | internal/server/cache.go:202-226 | on any lists, new or the cache's own: the exact content of both argument arrays afterwards and the refresh of the possibly overwritten cache value; on normalised lists the trace invariant holds afterwards iff no own array had a live entry behind an expired one, and then the content is exactly what the unexpired entries say |
| Caching.Cache.UpdateRoas | internal/server/cache.go:272-277 | the cache's own ASPA array is overwritten before it is diffed; given normalised ROAs, the cache still tracks its versions iff no live ASPA follows an expired one |
| Caching.Cache.UpdateAspas | internal/server/cache.go:280-285 | the same for the cache's own ROA array and normalised ASPAs |
| Caching.OwnArrays | internal/server/cache.go:202-217 | an update over own arrays keeps the trace invariant iff harmless, and otherwise pushes a record that is not the difference between old and new content |
| Caching.OwnArrayWithdrawsLive | internal/server/cache.go:272-277 | a concrete `UpdateROAs` on real arrays whose record withdraws the live customer that the cache keeps |
| Caching.Cache.TriggerRefresh | internal/server/cache.go:186-200 | fails, changing nothing, iff upstreams are configured and none delivered a ROA; otherwise the keys are those of all delivered ROAs that are valid, each customer has its first delivered entry in order, the content is what of these has not expired, and no array that existed before is written |
| Caching.Cache.GetState | internal/server/cache.go:151-161 | hands out the current arrays, which show the version its serial labels |
| Caching.Cache.GetDiffsFrom | internal/server/cache.go:75-141 | found iff the serial is in the window, and then an answer whose ROAs and ASPA customers are the differences between the current version and the one that many versions back |
| Caching.HistoryMovesIff | internal/server/cache.go:210-216 | the window itself changes iff the content did, also when it is full |
| Caching.SnapshotSurvives | internal/server/cache.go:151-161 | a snapshot still shows its own version after any number of later refreshes |
| Pdus.RoaPduRoundTrip | internal/server/client_handler.go:211-217 | a router reads back from a prefix PDU the key the cache meant |
| Routers.ReplyApplies | internal/server/client_handler.go:196-275 | a router holding the start version applies the whole reply without error 6 or 7 and ends with the ROAs and ASPA customers of the end version |
| Routers.FullDataApplies | internal/server/client_handler.go:289-342 | all data announced to an empty table gives exactly the version read, ASPAs only from version 2 |
| Routers.ReceiveBlock | internal/server/client_handler.go:202-268 | a block commits its payload's outcome with the session and serial of its End of Data |
| Runs.SinceChains | internal/server/cache.go:83-94 | within one serial cycle the records since a version lead from it to the current one, and exist iff it is in the window |
| Runs.SecondReadOutcome | internal/server/client_handler.go:176-184 | a router whose table has the content its serial labels moves to the version of the second read, providers included when the reply is faithful |
| Runs.StepInv | internal/server/client_handler.go:126-187 | every step keeps what is known of every router, whatever falls between the two reads |
| Runs.RunInv | internal/server/client_handler.go:126-187 | that invariant holds after every run |
| Runs.AtomicRunsConverge | internal/server/client_handler.go:159-187 | in every run whose double reads agree and no query spans a whole serial cycle, no router sees an error and each serial labels a version with exactly the router's ROAs and ASPA customers |
| Runs.FaithfulRunsConverge | internal/server/client_handler.go:159-187 | if every ASPA reply is also faithful, version 2 routers hold the whole version of their serial |
| Runs.RunLog | internal/server/client_handler.go:159-187 | in every run, what is known of a table follows exactly from the log of the versions each query since the last Reset Query read |
| Runs.LastQueryMayLead | internal/server/client_handler.go:159-187 | in every run in which all queries since the last Reset Query but perhaps the last read one content twice, the table is exactly the version of the last second read, not older than the labelled one, and has the labelled content iff the last query read one content twice |
| Runs.LabelsHoldIff | internal/server/client_handler.go:159-187 | in every run, the serial named what the router held after every query since the last Reset Query iff each read one content twice, and failed first at the first that did not |
| Hazards.NoChangeNoVersion | internal/server/cache.go:210-217 | a run of refreshes adds no version iff none of them changes the content |
| Hazards.QueryLandsOnSecondRead | internal/server/client_handler.go:159-187 | with any refreshes between the reads, an in-step router ends with the ROAs and ASPA customers of the second read under the serial of the first; the serials agree iff no refresh changed the content, and the serial names what is held iff the two reads saw the same content |
| Hazards.ReplyOnAnyTable | internal/server/client_handler.go:196-275 | for any table and version: when a router takes a reply without error, and exactly what it then holds |
| Hazards.QueryRightIff | internal/server/client_handler.go:159-187 | for any table and version, exactly when a Serial Query ends without error on the current ROAs and ASPA customers, and exactly when on the providers too |
| Hazards.StaleSerialRun | internal/server/client_handler.go:162-184 | a concrete legal run from the start, with its replies, that ends with the current serial, no error and a withdrawn ROA still held |
| Hazards.ThereAndBack | internal/server/client_handler.go:162-184 | a concrete legal run whose two reads see serials 1 and 3 and whose router still holds what its serial names |
| Hazards.ProviderChangeIsLost | internal/server/cache.go:115-122 | a concrete change of providers whose only answer is empty, so that the old providers stay |
| Codec.BodyLength | internal/protocol/types.go:37-47 | the size of every PDU |
| Codec.EncodedLength | internal/protocol/marshal.go:24-218 | the header states exactly the bytes written whenever they fit 32 bits |
| Codec.ErrorReportAcceptedIff | internal/protocol/decode.go:108-139 | an Error Report is accepted iff its two lengths add up over the integers; wrap-around lets no other in |
| Codec.RoundTrip | internal/protocol/decode.go:62-243 | decoding the bytes of any PDU gives it back, for all eleven types and every size the 32-bit lengths allow |
| Codec.DecodeEncodeDecode | internal/protocol/decode.go:62-243 | for every accepted buffer, re-encoding never grows it and decodes to the same PDU |
| Codec.ReencodesIff | internal/protocol/decode.go:73-238 | an accepted buffer comes back unchanged iff it had the canonical size and zero ignored bytes |
| Layout.DecodesIff | internal/protocol/decode.go:62-243 | a buffer decodes to a PDU iff it spells it: the type code of each of the eleven kinds as a number, every field from its bytes, most significant first |
| Layout.EncodeSpells | internal/protocol/marshal.go:24-218 | what is written for a PDU spells it, with zero in every unused byte |
| Layout.ReadsFrame | internal/protocol/decode.go:23-59 | what one read makes of any input: which bytes are the length, the bounds 8 and 65535, each error and what is left |
| Layout.RoaBytes4 | internal/server/client_handler.go:211-217 | the twenty bytes of a valid IPv4 ROA, flag 1 announced and 0 withdrawn |
| Layout.RoaBytes6 | internal/server/client_handler.go:211-217 | the 32 bytes of a valid IPv6 ROA |
| Layout.AspaHead | internal/protocol/marshal.go:249-268 | the first twelve bytes of an ASPA, its flag at byte 2 |
| Streams.FillShort | internal/protocol/marshal.go:24-79 | the buffer of a short fixed-size PDU is its encoding |
| Streams.FillPrefix | internal/protocol/marshal.go:81-118 | the object writer's buffer of a prefix PDU is its encoding |
| Streams.FillRouterKey | internal/protocol/marshal.go:152-169 | the buffer of a Router Key is its encoding |
| Streams.PanicsIff | internal/protocol/marshal.go:189-189 | writing panics on a slice bound exactly for an Error Report whose 32-bit PDU length is within 12 of 2^32, never for a PDU within the limit |
| Streams.FillErrorReport | internal/protocol/marshal.go:171-199 | panics iff its 32-bit slice bound wraps; otherwise the buffer is its encoding, clipped to its 32-bit length fields |
| Streams.FillAspa | internal/protocol/marshal.go:201-218 | the object writer's buffer of an ASPA is its encoding |
| Streams.Fill | internal/protocol/marshal.go:24-218 | the buffer of any PDU is its encoding, unless writing it panics |
| Streams.WriteFull | internal/protocol/marshal.go:9-22 | writes all of the buffer or reports an error after a prefix of it; a progressing writer gets all of it |
| Streams.WritePdu | internal/protocol/marshal.go:24-218 | what reaches the writer is the encoding, or a prefix of it and an error, or nothing and a panic |
| Streams.WriteIpv4Prefix | internal/protocol/marshal.go:221-232 | the direct writer emits the bytes of the object writer |
| Streams.WriteIpv6Prefix | internal/protocol/marshal.go:235-246 | the direct writer emits the bytes of the object writer |
| Streams.WriteAspa | internal/protocol/marshal.go:249-268 | the direct writer emits the bytes of the object writer from both its buffers, for every size that fits 32 bits |
| Streams.GetPdu | internal/protocol/decode.go:10-59 | a successful read consumes at least a header, so reading always ends |
| Streams.Reader.ReadFull | internal/protocol/decode.go:36-39 | all the bytes asked for, or an error that has used up the input; a network error hides how much was there |
| Streams.Reader.GetPduBytes | internal/protocol/decode.go:23-59 | reads one frame of legal length, or the error the framing function and the connection give |
| Streams.Reader.Get | internal/protocol/decode.go:10-20 | one PDU or error, and what is left of the input |
| Streams.Reader.Cut | internal/server/client_handler.go:370-378 | once this side has closed the connection, a front part of the input is left to read, what was peeked at least, and then a network error |
| Streams.StreamRoundTrip | internal/protocol/decode.go:10-59 | any sequence of PDUs, encoded and read back, is the same sequence with nothing left over iff all of them are within the limit |
| Streams.FramesThen | internal/protocol/decode.go:10-59 | whole frames followed by any other input are read as those frames and then the other input |
| Streams.Transmit | internal/protocol/marshal.go:9-22 | through any schedule of partial writes that keeps progressing, the reader gets exactly the PDUs written, then a clean end |
| Sessions.FirstPduMatches | internal/protocol/negotiate.go:13-26 | the first PDU has the negotiated version, because negotiation consumes nothing |
| Sessions.Client.EmitChunks | internal/server/client_handler.go:196-275 | the write loop sends what the connection can carry of its bytes, and fails iff that is not all |
| Sessions.Client.Emit | internal/server/client_handler.go:196-342 | a block joins the trace iff the connection worked when it began, and nothing is sent otherwise |
| Sessions.Client.StartNotify | internal/server/client_handler.go:384-389 | one more PDU waits for the write lock, unless the connection is closed |
| Sessions.Client.FinishNotify | internal/server/client_handler.go:391-397 | the waiting PDU becomes a block iff the connection works then, whatever was tested before; the connection is closed iff the write failed or it was closed |
| Sessions.Client.Interfere | internal/server/client_handler.go:384-398 | any steps of other threads: the cache goes through exactly their refreshes, and Serial Notify blocks are added, some iff a waiting `notify` gets the lock in time |
| Sessions.Client.SendAndCloseError | internal/server/client_handler.go:344-357 | one Error Report, claiming version 2 before negotiation, then a closed connection; it is the last block iff no waiting `notify` gets the lock between its unlock and the close |
| Sessions.NotifyAfterReport | internal/server/client_handler.go:351-356 | a concrete schedule whose last block on the wire is a Serial Notify behind the Error Report |
| Sessions.Client.SendData | internal/server/client_handler.go:262-274 | one data block; the connection is closed iff a write failed, so it still works if every byte could be carried |
| Sessions.Client.SendCacheReset | internal/server/client_handler.go:277-287 | one Cache Reset; a failed write leaves the connection open |
| Sessions.Client.HandleSerialQuery | internal/server/client_handler.go:159-187 | the handler's next block is the one its two reads call for; between the reads the cache goes through exactly the refreshes scheduled there |
| Sessions.ReadDiffs | internal/server/client_handler.go:164-184 | a Cache Reset or a diff block, labelled by the first read and filled by the second |
| Sessions.Client.Dispatch | internal/server/client_handler.go:126-157 | a version mismatch, and only that, is an error and ends in a code 8 Error Report; otherwise the handler's next block is the answer to the PDU after its reads, and anything but a query closes the connection |
| Sessions.Client.Wait | internal/server/client_handler.go:108-110 | other threads while the handler waits: all the input is still there unless the connection is closed, and then a front part of it |
| Sessions.Client.Open | internal/server/client_handler.go:82-92 | the input decides: the session takes the version of the first byte, consuming nothing, or ends with an Unsupported Version report |
| Sessions.Client.ServeFirst | internal/server/client_handler.go:94-105 | ends the session iff the first read fails, with an Invalid Request report; otherwise the first PDU, never a mismatch, is consumed and answered |
| Sessions.Client.Finish | internal/server/client_handler.go:111-119 | a clean end or a network error is silent, any other read error ends in a Corrupt Data report |
| Sessions.Client.ServeOne | internal/server/client_handler.go:108-123 | each turn ends as its input says, a mismatch or read error with the matching report as the handler's last block; otherwise it consumes one PDU and answers it |
| Sessions.Client.Handle | internal/server/client_handler.go:77-124 | for every input and schedule: the ending, the number of PDUs served and the handler's blocks are those the input calls for (`Tells`), all of them when the connection stays usable; whole well-formed blocks, no ASPA PDU below version 2, at most one Error Report with only notifications behind it |
| Sessions.EndingAndVersion | internal/server/client_handler.go:77-124 | no input makes the first PDU a version mismatch; negotiation and the first read have their own endings, each iff it fails |
| Sessions.AnswerIsRunStep | internal/server/client_handler.go:159-187 | the handler's answer is the block, or the Cache Reset, of the two Serial Query steps of a run |
| Answers.ResetAnswer | internal/server/client_handler.go:134-137 | a Reset Query gets one data block, framed with session, serial and intervals 3600, 600, 7200, that leaves any router with exactly the version read, providers included |
| Answers.ResetIsRunStep | internal/server/client_handler.go:134-137 | that block is the one of the Reset Query step of a run |
| Answers.SerialQueryAnswer | internal/server/client_handler.go:159-187 | a Serial Query gets a Cache Reset iff it names another session or serial 0 or is more than ten versions or the whole trace behind; otherwise a data block under the first read's serial that takes a router from the asked version to the second read's |
| Answers.EndingsIff | internal/server/client_handler.go:77-124 | every ending from the input: the versions 1 and 2, the first PDU of another version, and which ends of input are silent |
| Answers.ReportIs | internal/server/client_handler.go:344-357 | the codes 4, 3, 8 and 0 and the texts of the four Error Reports, with version 2 before negotiation |
| Sessions.DiffBlockSurvivesWire | internal/server/client_handler.go:196-275 | the bytes of a diff block, read back, are the block again iff no ASPA in it has more than 16380 providers |
| Sessions.FullBlockSurvivesWire | internal/server/client_handler.go:289-342 | the bytes of a full block, read back, are the block again iff no ASPA in it has more than 16380 providers |

## Left out

- HTTP fetching, JSON decoding and `asnToUint32`: a refresh takes what each upstream delivered, or that it failed, in order of arrival.
- The fallback to previous ASPAs in `TriggerRefresh` (internal/server/cache.go:192-197): unreachable, since `loadASPAs` never fails.
- Expiry at cold start: `Start` stores what it loads unfiltered, so expiry is claimed for `updateCache` only.
- `LoadROAs`, and `replaceRoas` after a refresh: they change data without a record and are used for testing; `Caching.Cache.Replace` is for an empty history only.
- Which of two duplicates with different expiry times survives normalisation: the sort is unstable, so the code does not determine it.
- Very large `expires` values: Unix seconds are multiplied as integers, without the overflow of `time.Unix`.
- Serial Notify values: `notify` reads version and serial without the write lock, so their order on the wire and the version byte of one sent before negotiation are not constrained.
- Serial Notify in `Runs`: it carries no data, and a router there may query at any time.
- Router behaviour is that of RFC 8210, not code of this repository: it commits at End of Data, rejects duplicates and unknown withdrawals, and restarts after an error.
- The guarded type assertion in `dispatchPDU` (internal/server/client_handler.go:140-145) and the error result of `handleSerialQuery`, which is always nil: neither can be reached.
- Steps of other threads inside a block: `writeMu` is held for the whole of a block, so only a close can fall there, and it acts like a connection that fails at that byte.
- Deadlines: a reader is told whether its input ends cleanly or in a network error, not when.
- gRPC statistics, configuration, logging, listener and the test client; of shutdown only that it may close a connection at any time.
- Caching.Cache.UpdateCache: an argument is either a new array or exactly the cached slice, not another part of the cached array; whether the trace invariant survives is stated for normalised lists, which the merge walk assumes.
- Caching.Cache.UpdateRoas: the same, for the ROAs handed in.
- Caching.Cache.UpdateAspas: the same, for the ASPAs handed in.
- Sessions.Client.EmitChunks: the buffered writer may flush early at any point; its buffer size is not modelled.
- Codec.RoundTrip: an Error Report whose fields exceed 4 GiB in memory comes back clipped to what its length fields let it write.
- Caching.Cache.GetDiffsFrom: history lists are immutable sequences here, so their arrays are not part of the aliasing argument.
