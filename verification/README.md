# Verified model of the enimul cores

A Dafny 4.11 model of the parts of the proxy whose behaviour is hardest to see from reading them, with
proofs that they do what they are for. `dafny verify dfyconfig.toml` checks all of it.

* **The index-linked LRU cache** (`Ring`, `Recency`, `LruState`, `Lru`, and `Bits`, `Slice`). `Recency` says
  what a cache is: a list of entries from oldest to newest. `LruState` holds the array with its two families
  of rings as a value and proves what every group of writes does to them; the class `LRU` performs the same
  writes on slices of shared arrays, and every method equates its new state with the old one. Adding and
  looking up are then exactly the list's `Put` and `Look`, so the theorems of `Recency` about whole runs hold
  of the array.
* **The sharded cache** (`ShardedLru`): the sizes in 32-bit arithmetic, the carving of two arrays into
  disjoint slices, and the isolation of the shards over whole runs, answers included.
* **The TLS path** (`Bytes`, `ClientHello`, `Fragment`, `Tunnel`): the parser against an encoder of
  ClientHello records (sections 4.1.2 and 4.2 of RFC 8446, section 3 of RFC 6066), and the fragmenter against
  a receiver that parses records (section 5.1 of RFC 8446). `Tunnel` joins the two under handleTLS's choice
  of what to refuse, forward or split.
* **The JSONC stripper** (`Jsonc`): the loop, run with the source as its own destination or not, against a
  forward automaton.
* **Two concurrent protocols** (`DialParallel`, `SingleFlight`) as transition systems over any number of
  goroutines, with safety and freedom from deadlock in every reachable state.
* **The tries** (`IpTrie`, `DomainTrie`): mutable tries against linear scans over what was inserted.
* **The weighted rotation** (`IpPool`), **the TTL search** (`TtlProbe`) and **the TTL rule language**
  (`TtlRules`).

How the code is represented:

* The hash function is an arbitrary function into 32 bits. The clock is a parameter of every operation that
  reads it. Lifetimes are natural numbers of nanoseconds; a deadline of 0 means that an entry never expires.
* `Perform` and `FindAfter` stand for a caller that makes any sequence of calls; the code has no such loop. They
  carry the theorems about sequences over to the mutable objects.
* A mutex-protected section is one step. The methods of a shard are therefore sequential, and in
  `SingleFlight` marking a call done and removing it from the map is one step.
* A connection is a log of writes, each with an optional urgent byte. Of several urgent bytes the last is out
  of band and those before it are ordinary stream data, which is what the code counts on when it sends byte
  15 as urgent and then a filler. A connection accepts some number of writes, acknowledges some number, and
  fails from then on; a write that fails adds nothing to the log.
* A dial of the TTL search is an oracle that may answer differently each time it is asked. Timers, the end
  of a context and the outcome of a dial in `DialParallel` are nondeterministic steps.
* The two IP tries share one class; an address is one 32-bit word or two 64-bit words and bits are taken from
  it as each file does.
* The parser looks for extension type 0x00fe as the code does; published drafts of Encrypted Client Hello use
  0xfe0d.

Where a property does not hold of the code, the exact condition is proved:

* The capacity asked of the sharded cache fits the shards exactly if it is at most 2^31 (`ChooseSizes`). Above
  that a shard's capacity exceeds its size, unless the 32-bit rounding wraps and leaves one entry a shard.
* A fragment of a ClientHello is empty, which section 5.1 of RFC 8446 forbids, exactly if there are two or more
  records and the host name is empty and ends the record (`EmptyFragmentIff` in what the parser reports,
  `EmptyFragmentOfHello` in what was encoded); `EmptyFragmentIsSent` is a ClientHello of this kind.
* On a connection that lasts, `SendRecords` panics exactly for a single record with a negative segment count and
  succeeds otherwise. Settings of `segments` other than those of `Handled` then never deliver the whole record,
  and a filler byte enters the stream exactly under `Clash`, both urgent modes together.
* The rotation of the pool is exact from every counter value exactly if the total weight divides 2^32 or
  there is nothing to rotate (`ExactIff`).
* The TTL search makes progress exactly if there is at least one attempt (`RoundStalls`). It finds the minimum
  exactly if, in each of its rounds, the first dial above the minimum is answered and some dial at it is
  (`ProbeIsExactIff`); one lost probe that makes it miss is in `LostProbeMissesMinimum`.
* A dial that succeeds is returned by `dialParallel` exactly if the caller's context does not end the select
  first and the goroutine that closes the channels never drains the winner under it (`WinnerReturnedIff`).
  Whatever the number of addresses, from two on, some run drains it (`WinnerMayBeDrained`). The connection is
  closed then.
* A pattern "*.x" covers x exactly if x is empty or begins with a dot (`StarDotCovers`): the loops do not read an
  empty first label.

## Model

| member | source | states |
|---|---|---|
| Recency.RunKeepsWellFormed | internal/freelru/lru.go:356-471 | after any adds and gets the list has distinct keys and at most cap entries |
| Recency.EntriesAreLatestAdds | internal/freelru/lru.go:360-439 | every entry held after a run is the one made by the latest add of its key |
| Recency.HitIsLatestAdd | internal/freelru/lru.go:305-327 | whatever the run, a hit returns the value of the key's latest add, strictly before that add's deadline |
| Recency.AnswersAreLatestAdds | internal/freelru/lru.go:459-471 | the same for every answer given anywhere in a run that starts empty |
| Recency.UnexpiredKeyHits | internal/freelru/lru.go:360-471 | an unexpired key hits as long as fewer than cap distinct other keys were touched since its last touch |
| Recency.RecentEntryStays | internal/freelru/lru.go:409-416 | only keys touched later are newer than an entry, so it survives fewer than cap of them |
| Recency.LargerHoldsMore | internal/freelru/lru.go:409-416 | after the same operations a larger capacity holds every entry of a smaller one, in the same order, for arbitrary lifetimes |
| Recency.StepKeepsInclusion | internal/freelru/lru.go:360-471 | one operation keeps that inclusion, whether it hits, misses, expires or evicts |
| Recency.HoldsMostRecent | internal/freelru/lru.go:360-471 | with lifetime 0 throughout, the keys held are exactly the cap most recently touched distinct keys, in order |
| Recency.StepMembers | internal/freelru/lru.go:360-439 | an operation changes no entry but the one it adds |
| Ring.UnlinkRing | internal/freelru/lru.go:206-223 | the two writes that unlink a slot leave a ring of the remaining slots in the old order |
| Ring.LinkRing | internal/freelru/lru.go:424-430 | the four writes that link a slot in front of a ring's first slot leave a ring with that slot added |
| Ring.RelabelRing | internal/freelru/lru.go:253-261 | the writes that let one slot take the place of another leave the same ring renamed |
| Ring.RotateRing | internal/freelru/lru.go:220-222 | a ring may be listed from any of its slots |
| Ring.RingIsClosed | internal/freelru/lru.go:213-218 | links never leave their ring, and a slot is its own neighbour exactly if it is alone |
| Lru.BucketPosInRange | internal/freelru/lru.go:169-179 | every hash selects one of the size buckets, and the hash modulo size when size is a power of two |
| LruState.EvictLinked | internal/freelru/lru.go:226-241 | evicting a slot deletes exactly its list entry; a bucket emptied by it leaves a stale self reference |
| LruState.EvictOldest | internal/freelru/lru.go:366-373 | the slot after head is the oldest, and evicting it drops the first list entry |
| LruState.LinkBucketRing | internal/freelru/lru.go:417-430 | linking in front of the bucket's first element, or of the just evicted sole element through its stale prevBucket, makes the same ring |
| LruState.InsertLinked | internal/freelru/lru.go:272-286 | linking and filling a free slot for a new key keeps the whole invariant and appends to the list |
| LruState.UpdateIsPut | internal/freelru/lru.go:387-400 | overwriting a present key in place and relinking it as newest is what the list does |
| LruState.TouchIsLook | internal/freelru/lru.go:459-467 | relinking a found element as newest is what the list does on a hit |
| LruState.TouchLinked | internal/freelru/lru.go:461-464 | relinking a slot as newest moves its list entry to the end and keeps the invariant |
| LruState.MoveLinked | internal/freelru/lru.go:245-268 | moving a slot keeps both ring families, the buckets' first slots and the list |
| LruState.FillHole | internal/freelru/lru.go:537-539 | moving the last slot into the hole makes the slots dense again |
| LruState.RemoveIsDrop | internal/freelru/lru.go:537-544 | evicting a slot and closing the gap removes one entry from the list and nothing else |
| LruState.AbsentFromBucket | internal/freelru/lru.go:321-326 | a key that is not in its own bucket's ring is nowhere in the cache |
| LruState.ClearFree | internal/freelru/lru.go:543-543 | wiping the freed slot changes nothing that is stored |
| LruState.ListIsDistinct | internal/freelru/lru.go:360-439 | no two slots hold the same key |
| Lru.LRU.Init | internal/freelru/lru.go:149-166 | a new cache satisfies the invariant and is empty; it writes nothing outside its own slices |
| Lru.LRU.SetHead | internal/freelru/lru.go:189-203 | the four writes and the new head; the caller guarantees pos differs from head, so the panic is unreachable |
| Lru.LRU.UnlinkElement | internal/freelru/lru.go:206-209 | exactly the unlinking of the time ring |
| Lru.LRU.UnlinkBucket | internal/freelru/lru.go:212-223 | exactly the unlinking of the bucket ring, a lone slot empties its bucket |
| Lru.LRU.Evict | internal/freelru/lru.go:226-241 | head, both rings and len after an eviction |
| Lru.LRU.Move | internal/freelru/lru.go:245-268 | the whole state after a relocation, nothing for a move onto itself |
| Lru.LRU.Insert | internal/freelru/lru.go:272-286 | the whole state after an insertion, into an empty or a non-empty ring |
| Lru.LRU.FreeOldest | internal/freelru/lru.go:366-373 | a full cache loses its oldest entry and the freed slot is known to be in no ring |
| Lru.LRU.AttachSlot | internal/freelru/lru.go:374-430 | both insert paths link the slot into the ring of its bucket |
| Lru.LRU.AddNew | internal/freelru/lru.go:409-439 | adding an absent key, evicting if full, is Put on the list, with the evicted flag |
| Lru.LRU.Update | internal/freelru/lru.go:387-400 | adding a present key is Put on the list and evicts nothing |
| Lru.LRU.AddWithLifetime | internal/freelru/lru.go:356-439 | the cache and the evicted flag are what Put makes of the recency list; the shared arrays are untouched elsewhere |
| Lru.LRU.SearchBucket | internal/freelru/lru.go:311-326 | the bucket walk ends and finds the slot of the key exactly if the cache holds it |
| Lru.LRU.FindKey | internal/freelru/lru.go:305-327 | it finds the live slot of the key and changes nothing, or removes an expired one and reports a miss |
| Lru.LRU.RemoveAt | internal/freelru/lru.go:537-544 | the list loses exactly the entry of that slot |
| Lru.LRU.Get | internal/freelru/lru.go:455-471 | the cache and the answer are what Look makes of the recency list |
| Lru.LRU.Perform | internal/freelru/lru.go:356-471 | any sequence of adds and gets leaves the list of Run and gives the answers of the list |
| Slices.DisjointWindows | internal/freelru/shardedlru.go:106-112 | windows of one array that do not overlap keep out of each other |
| Bits.OnesCountOne | internal/freelru/shardedlru.go:45-50 | a population count of one means a power of two |
| Bits.NextPowerOfTwoIsLeast | internal/freelru/shardedlru.go:45-50 | the least power of two that is at least the argument up to 2^31, and 0 above |
| Bits.MaskIsModulo | internal/freelru/lru.go:169-172 | masking with 2^k - 1 is the remainder modulo 2^k |
| Bits.FastRangeBound | internal/freelru/lru.go:177-179 | fastRange(x, n) is below n |
| ShardedLru.ShardCount | internal/freelru/shardedlru.go:83-90 | the shard count is a power of two that divides the table size and leaves every shard 16 slots unless it is the only one |
| ShardedLru.ShardCapacity | internal/freelru/shardedlru.go:97-100 | the rounded capacity fits a shard exactly if the capacity is at most 2^31 or the 32-bit sum wraps, which leaves one entry; up to 2^31 it covers what was asked for with an excess below the shard count |
| ShardedLru.ChooseSizes | internal/freelru/shardedlru.go:67-100 | both error cases, and all sizes in uint32 arithmetic, with the exact condition under which the capacity fits |
| ShardedLru.ShardInRange | internal/freelru/shardedlru.go:138-139 | every hash selects a shard that exists |
| ShardedLru.ShardRunsAlone | internal/freelru/shardedlru.go:136-175 | over any run a shard is the LRU that has seen only the operations of its own keys |
| ShardedLru.LatestAddOfShard | internal/freelru/shardedlru.go:136-175 | the latest add of a key in a run is its latest add among the operations of its shard |
| ShardedLru.ShardAnswersAreLatestAdds | internal/freelru/shardedlru.go:136-175 | every hit anywhere in a run from empty is the value of the key's latest add before it, in time |
| ShardedLru.StepKeepsPlaced | internal/freelru/shardedlru.go:136-146 | an entry lies only in the shard of its key |
| ShardedLru.ShardedLRU.AddWithLifetime | internal/freelru/shardedlru.go:136-146 | one shard's list changes by Put, every other shard's list stays |
| ShardedLru.ShardedLRU.Get | internal/freelru/shardedlru.go:166-175 | one shard's list changes by Look, every other shard's list stays |
| ShardedLru.ShardedLRU.Perform | internal/freelru/shardedlru.go:136-175 | after any run from empty, every shard holds what its own operations leave, and the answers given are those of ShardAnswers |
| ShardedLru.ShardedLRU.OutsideKeepsState | internal/freelru/shardedlru.go:106-112 | a write inside one shard's slices leaves another shard's state as it was |
| ShardedLru.CarveShards | internal/freelru/shardedlru.go:102-112 | the slices handed to the shards are disjoint stretches of the two arrays and every bucket starts empty |
| ShardedLru.NewShardedWithSize | internal/freelru/shardedlru.go:67-121 | for every uint32 input: the two errors; up to 2^31, empty shards whose joint capacity c satisfies capacity <= c < capacity + shards; above, shards of one entry if the sum wraps and otherwise sizes that do not fit |
| ClientHello.ScanExtensions | internal/core/tunnel.go:424-470 | the loop computes the recursive reading of the extension block, with every error |
| ClientHello.ParseClientHello | internal/core/tunnel.go:351-471 | no index is out of range for any input of at least 5 bytes, and the result is Parse of the input |
| ClientHello.ParsedSniInRange | internal/core/tunnel.go:358-470 | a host name that was found starts at 58 or later and ends inside the data, whatever the input |
| ClientHello.ReadEncodedExt | internal/core/tunnel.go:427-468 | one encoded extension is read back, a second server_name is refused |
| ClientHello.ReadEncodedExts | internal/core/tunnel.go:426-469 | any list of encoded extensions is read back |
| ClientHello.ReadEncodedFields | internal/core/tunnel.go:384-411 | session id, cipher suites and compression methods are walked over exactly |
| ClientHello.ParseEncoded | internal/core/tunnel.go:351-471 | for every well-formed ClientHello the parse succeeds unless server_name is repeated, the flags are true exactly if the extensions are there, and sniStart is the position of the host name in its own extension, sniLen its length |
| Fragment.LastIndexIsLast | internal/core/fragment.go:15-18 | the last dot, or none |
| Fragment.CutInName | internal/core/fragment.go:14-20 | the cut lies in the host name; it is at the end of the data exactly if the name is empty and there, and strictly inside the name exactly for the names of CanBeCut |
| Fragment.PartsFacts | internal/core/fragment.go:164-191 | splitting loses nothing, makes n parts or one, and no empty part of non-empty data |
| Fragment.ParseMadeRecords | internal/core/fragment.go:193-199 | records that were framed parse to the same header and payloads |
| Fragment.SplitAndAppend | internal/core/fragment.go:164-191 | the loop appends exactly those parts, framed or not, and refuses n <= 0 |
| Fragment.SendUrgentPrelude | internal/core/fragment.go:37-46 | the two urgent sends put exactly the first 35 bytes into the stream |
| Fragment.SendPackets | internal/core/fragment.go:63-77 | what the packets add to the stream, and a prefix of it on failure |
| Fragment.SendSingle | internal/core/fragment.go:36-78 | one record: the stream is the record, in any number of writes |
| Fragment.SendChunks | internal/core/fragment.go:88-119 | one write per record: the stream is all records |
| Fragment.SendSegments | internal/core/fragment.go:143-161 | equal segments deliver the merged bytes; a negative count sends nothing |
| Fragment.SendMerged | internal/core/fragment.go:121-161 | merged records in segments: the stream is all records |
| Fragment.SendMany | internal/core/fragment.go:80-161 | two or more records, all settings |
| Fragment.SendRecords | internal/core/fragment.go:22-162 | the in-band bytes are the re-framed record for every handled setting, a proper prefix on failure, one filler byte too long exactly if both urgent modes clash; it fails only if the connection does, and on a connection that lasts it panics exactly for a single record with negative segments and succeeds otherwise |
| Fragment.ChunksFacts | internal/core/fragment.go:80-86 | the parts are at least two, at most the number asked for, and none is empty exactly if the cut is before the end |
| Fragment.StreamMeansRecord | internal/core/fragment.go:80-86 | the stream parses as records with the original type and versions whose payloads add up to the original payload; none is empty exactly if the cut is before the end or one record is asked for |
| Fragment.EmptyFragmentIff | internal/core/fragment.go:80-86 | in what a caller passes: a record is empty exactly if there are two or more and the name is empty and ends the data |
| Fragment.NoRecordHoldsName | internal/core/fragment.go:83-86 | with the cut strictly inside the name, no record contains the whole name |
| Tunnel.MinorIsIgnored | internal/core/tunnel.go:351-363 | rewriting the minor version does not change the parse |
| Tunnel.SameHello | internal/core/fragment.go:22-162 | whatever the settings, the receiver reassembles a record that parses like the original |
| Tunnel.SplitIff | internal/core/tunnel.go:155-299 | in what was encoded: a ClientHello is fragmented exactly if it names one host, the mode is tls-rf, the TLS 1.3 requirement is met and ECH does not exempt it |
| Tunnel.StreamCarries | internal/core/fragment.go:80-86 | the records sent reassemble to a record that parses like the original, one is empty exactly if an empty name ends it, and with two or more no record holds a name that can be cut |
| Tunnel.EmptyFragmentOfHello | internal/core/fragment.go:80-86 | in what was encoded: a fragment is empty exactly if there are two or more, the host name is empty and nothing follows it |
| Tunnel.EmptyFragmentIsSent | internal/core/fragment.go:80-86 | a ClientHello that parses and is sent with an empty fragment |
| Tunnel.ForwardClientHello | internal/core/tunnel.go:155-299 | from the bytes read to the stream sent: the route of RouteOf; a refused record sends nothing, a direct one is sent as it is, a split one in records with all of StreamCarries; on a connection that lasts it succeeds, but for the panic |
| Jsonc.OutputShape | internal/jsonx/jsonc.go:5-12 | length and line breaks are kept, strings untouched, comments blank, an unclosed block comment keeps its opener, and only trailing commas change besides |
| Jsonc.ParityIsEscape | internal/jsonx/jsonc.go:70-78 | counting backslashes backwards decides as a forward escape bit does |
| Jsonc.BracketErases | internal/jsonx/jsonc.go:81-91 | erasing the last significant comma before a bracket makes exactly the commas before it trailing |
| Jsonc.BlankWrittenIsBlank | internal/jsonx/jsonc.go:82-85 | erased commas never hide an earlier significant byte |
| Jsonc.StringEndsWithQuote | internal/jsonx/jsonc.go:66-80 | a string that ended left a quote behind, so no comma inside a string is ever the last significant byte |
| Jsonc.BlankLine | internal/jsonx/jsonc.go:23-37 | a line comment, through its line feed, with source and destination possibly the same array |
| Jsonc.BlankInside | internal/jsonx/jsonc.go:43-54 | the inside of a block comment and whether it closed |
| Jsonc.BlankBlock | internal/jsonx/jsonc.go:38-61 | a block comment, with its opener restored if it never closes |
| Jsonc.ClosesString | internal/jsonx/jsonc.go:69-78 | the backward count finds whether a quote ends the string, and stays inside the string |
| Jsonc.CopyString | internal/jsonx/jsonc.go:65-80 | a string is copied byte for byte |
| Jsonc.EraseComma | internal/jsonx/jsonc.go:81-91 | the backward loop erases the one comma that has become trailing |
| Jsonc.StripInto | internal/jsonx/jsonc.go:18-94 | for every input, aliased or not, the result is the output of the forward automaton |
| Jsonc.ToJSON | internal/jsonx/jsonc.go:12-12 | the copy |
| Jsonc.ToJSONInPlace | internal/jsonx/jsonc.go:16-16 | the same bytes in place |
| DialParallel.StepInv | internal/dial/dial.go:93-172 | every step of any goroutine keeps the invariant |
| DialParallel.ConnectionsConserved | internal/dial/dial.go:126-161 | each connection ever opened is in exactly one place: with its dialer, in the channel, with the caller, or closed once |
| DialParallel.SendsAreSafe | internal/dial/dial.go:128-148 | nothing is sent on a closed channel and no sender of an error waits for room |
| DialParallel.SomeoneMoves | internal/dial/dial.go:99-172 | until everything has finished, some goroutine can move |
| DialParallel.StepDecreasesRank | internal/dial/dial.go:93-172 | every step uses up a finite budget |
| DialParallel.RunIsShort | internal/dial/dial.go:93-172 | so every run is bounded in length for every number of addresses |
| DialParallel.NothingLeaks | internal/dial/dial.go:145-161 | when all has ended, each connection was either returned or closed, once |
| DialParallel.AllErrorsJoined | internal/dial/dial.go:167-171 | if nothing opened, the joined error holds one error per address |
| DialParallel.WinnerReturnedIff | internal/dial/dial.go:110-161 | at the end of a run in which a dial succeeded, the caller holds a connection if and only if its context did not end the select and the closer never drained the channel under it; a context error means the context ended |
| DialParallel.WinnerMayBeDrained | internal/dial/dial.go:145-161 | for every number of addresses from two on, a reachable finished run in which a dial succeeded, the context did not end and the caller got an empty list of errors |
| SingleFlight.StepInv | internal/singleflight/singleflight.go:70-164 | every step of any caller keeps the invariant |
| SingleFlight.OneFnPerKey | internal/singleflight/singleflight.go:70-94 | at most one fn runs per key |
| SingleFlight.MappedIffNotDone | internal/singleflight/singleflight.go:127-132 | a call is in the map exactly until it is done, so no outcome leaves its key behind |
| SingleFlight.FollowersGetLeadersOutcome | internal/singleflight/singleflight.go:75-93 | a follower ends with its leader's value, panic or goexit, and shared tells the leader exactly if someone followed |
| SingleFlight.WaitersHaveLeaders | internal/singleflight/singleflight.go:75-78 | a waiter waits for a leader still at work on its key, or can wake at once |
| SingleFlight.SomeoneMoves | internal/singleflight/singleflight.go:70-164 | a caller that has not ended can move or waits for one that can |
| SingleFlight.StepAdvances | internal/singleflight/singleflight.go:70-164 | every step brings its caller nearer to the end and moves no other |
| IpTrie.WordPrefixIsBits | internal/addrtrie/ipv4.go:9-11 | equal words after a shift mean equal leading bits |
| IpTrie.MatchesIsBits | internal/addrtrie/ipv6.go:14-19 | prefix comparison by shifts is comparison bit by bit, for 32 bits and for two 64-bit words |
| IpTrie.LongestIsScan | internal/addrtrie/ipv4.go:59-111 | longest-prefix match in the mapping is a linear scan over the insertions, and fails exactly if no prefix matches |
| IpTrie.BitTrie.Extend | internal/addrtrie/ipv4.go:71-77 | the node for one more bit, made if need be, without changing any entry |
| IpTrie.BitTrie.Insert | internal/addrtrie/ipv6.go:64-86 | the mapping gains the prefix with its value, the last insertion winning |
| IpTrie.BitTrie.InsertAll | internal/addrtrie/ipv4.go:60-64 | "*" is the empty prefix |
| IpTrie.BitTrie.Find | internal/addrtrie/ipv4.go:83-111 | the value at the longest stored prefix of the address |
| IpTrie.BitTrie.NothingDeeper | internal/addrtrie/ipv6.go:101-111 | a missing child means that no longer prefix is stored |
| IpTrie.FindAfter | internal/addrtrie/ipv6.go:64-119 | after any insertions a lookup is the linear scan over them |
| DomainTrie.FullJoins | internal/addrtrie/domain.go:28-37 | the labels of a name hold no dot and joined by dots give the name |
| DomainTrie.LabelsAreSplit | internal/addrtrie/domain.go:28-37 | the loops read all labels except an empty first one, which is there exactly if the name is empty or begins with a dot |
| DomainTrie.LeftmostIsEmpty | internal/addrtrie/domain.go:28-37 | the first label is empty exactly if the name is empty or begins with a dot |
| DomainTrie.LookupIsScan | internal/addrtrie/domain.go:76-120 | the tables answer as a scan over the patterns: the last exact one, else the last of the proper wildcards with the most labels |
| DomainTrie.StarDotCovers | internal/addrtrie/domain.go:65-72 | for every name x, "*.x" never names x and covers it exactly if x is empty or begins with a dot |
| DomainTrie.StarCovers | internal/addrtrie/domain.go:65-72 | for every name x, how "*x" reads: everything, an error without a dot, "*." before the rest after a dot, else both an exact and a wildcard entry, which alone names x |
| DomainTrie.DomainMatcher.Extend | internal/addrtrie/domain.go:39-42 | the node for one more label, made if need be, without changing any entry |
| DomainTrie.DomainMatcher.InsertPattern | internal/addrtrie/domain.go:26-53 | the tables gain the value at the labels of the pattern, the last insertion winning |
| DomainTrie.DomainMatcher.Add | internal/addrtrie/domain.go:55-74 | what each form of pattern adds, and the error for a pattern without a dot |
| DomainTrie.DomainMatcher.NothingBelow | internal/addrtrie/domain.go:91-96 | a missing child settles that neither the name nor a longer wildcard is stored |
| DomainTrie.DomainMatcher.Descend | internal/addrtrie/domain.go:76-108 | one round goes one label down, keeping the best wildcard passed, or proves that neither the name nor anything longer is stored |
| DomainTrie.DomainMatcher.Walk | internal/addrtrie/domain.go:76-108 | the loop: the node of the whole name, and the best wildcard below the root |
| DomainTrie.DomainMatcher.Find | internal/addrtrie/domain.go:76-120 | the exact entry, else the proper wildcard with the most labels, else the root wildcard |
| DomainTrie.FindAfter | internal/addrtrie/domain.go:55-120 | after any additions a lookup is the scan over the accepted patterns |
| IpPool.SortRanks | internal/core/ippool.go:328-333 | the sort ranks by loss, then latency, loses nothing and keeps the order of ties |
| IpPool.TopIsBest | internal/core/ippool.go:339-341 | nothing that was left out ranks better than anything chosen |
| IpPool.Weight | internal/core/ippool.go:343-350 | every weight is between 1 and 10000, with no division by zero |
| IpPool.WeightIsGreatest | internal/core/ippool.go:343-350 | unless clamped, a weight is the greatest integer whose product with latency * (1 + loss) + 1e-5 is at most 10000 |
| IpPool.WeightMonotone | internal/core/ippool.go:343-350 | an address that is no slower and loses no more gets no smaller a weight |
| IpPool.PickIsRange | internal/core/ippool.go:401-407 | entry k is picked exactly for the targets between its running sums |
| IpPool.PickIsTotal | internal/core/ippool.go:400-408 | some entry is picked exactly if the target is below the total |
| IpPool.RotationIsExact | internal/core/ippool.go:398-407 | any window of total consecutive tickets picks entry i exactly weight[i] times |
| IpPool.RoundIsExact | internal/core/ippool.go:398-407 | so does every round of calls that does not cross the wrap of the 32-bit counter |
| IpPool.WrapIsInexact | internal/core/ippool.go:399-400 | a round across the wrap that serves one entry twice and another never |
| IpPool.ExactIff | internal/core/ippool.go:398-407 | the rotation is exact from every counter value if and only if the total divides 2^32 or there is one entry |
| IpPool.IPPool.UpdateBest | internal/core/ippool.go:323-371 | the stored indexes and weights are those of the top of the ranking, the total is their sum, the rest is zeroed; no results change nothing |
| IpPool.IPPool.Get | internal/core/ippool.go:379-409 | the fallback only while nothing is known, all best addresses in multi mode, else the entry of the ticket: the modulus is positive and the fallback behind the loop is unreachable |
| TtlProbe.RoundHalves | internal/core/desync.go:220-244 | every round at least halves what is left and makes at most attempts dials |
| TtlProbe.RoundStalls | internal/core/desync.go:233-244 | the loop makes progress exactly if attempts >= 1 |
| TtlProbe.ProbeIsSound | internal/core/desync.go:217-250 | for any oracle a result other than -1 was answered, and at most attempts * (floor(log2 maxTTL) + 1) dials are made |
| Bits.LenBounds | internal/core/desync.go:220-244 | the bit length that bounds the number of rounds is the integer logarithm plus one |
| TtlProbe.ProbeIsExactIff | internal/core/desync.go:217-250 | whatever the network loses, the result is the first TTL that can answer, or -1 if that is beyond maxTTL, if and only if in every round of the search the first dial above it is answered and some dial at it is |
| TtlProbe.ProbeIsMinimum | internal/core/desync.go:217-250 | hence with a steady, monotone oracle the result is the least reachable TTL up to maxTTL, or -1 if there is none |
| TtlProbe.LostProbeMissesMinimum | internal/core/desync.go:234-244 | an input that violates the condition: one lost probe makes the search miss the minimum although the repeated one succeeds |
| TtlProbe.ProbeMinimumReachableTTL | internal/core/desync.go:217-250 | the loop, with its inner loop of attempts, is that search |
| TtlRules.RoundTrip | internal/core/desync.go:70-132 | printing any rules of distinct thresholds and parsing them gives the same rules in descending order |
| TtlRules.OrderIsFree | internal/core/desync.go:127-129 | the order in which the rules are written does not matter |
| TtlRules.DescendingUnique | internal/core/desync.go:127-129 | rules of distinct thresholds have one descending order, so any sorting algorithm gives it |
| TtlRules.ParsedIsNormal | internal/core/desync.go:70-132 | every accepted text gives strictly descending rules and means the same as its printed form |
| TtlRules.EvalApplies | internal/core/desync.go:142-153 | the first match is the rule with the greatest threshold up to ttl; there is none exactly if all thresholds exceed ttl |
| TtlRules.WrittenRulesApply | internal/core/desync.go:134-154 | end to end: rules written in any order apply by the greatest threshold up to ttl |
| TtlRules.ParseTTLRules | internal/core/desync.go:70-132 | the scanner, with each of its five errors and their offsets |
| TtlRules.GenTTLCalcFunc | internal/core/desync.go:134-142 | the empty text decrements, else the parsed rules or their error |
| TtlRules.Calculate | internal/core/desync.go:142-153 | the returned function is the first matching rule, or the error |

## Left out

- ShardedLru.NewShardedWithSize: does not build a cache whose shard capacity exceeds its size; `Oversized` stands for it, with its sizes, and what its operations do is not modelled.
- ShardedLru.ShardedLRU.Perform: starts from an empty cache, as every cache does; the single-shard run starts from any state.
- Fragment.SendRecords: says of the stream of an unhandled segment count that it is incomplete, not where it ends.
- Fragment.SendSegments: a negative segment count is modelled as the loop that never runs, whatever the division before it yields.
- TtlRules.ParseTTLRules: numbers are unbounded, so the overflow of a 64-bit int by a long run of digits is not modelled; characters stand for bytes.
- IpPool.Weight: is computed over exact reals, so the rounding of IEEE floats and the NaN of a pool without attempts are not modelled.
- IpPool.IPPool.UpdateBest: takes the results as a value; that the sort reorders the caller's slice in place is not modelled.
- TtlProbe.ProbeIsMinimum: is for an oracle that always answers the same and is monotone; TtlProbe.ProbeIsExactIff has no such assumption.
- DialParallel.SomeoneMoves: treats the timer as able to fire at any time; delays and fairness are not modelled.
- The one-address and no-address paths of dialParallel and its port parsing, which start no goroutine.
- NewSharded's float sizing and GOMAXPROCS, the unused onEvict callback, and every method that is commented out in internal/freelru.
- The chans of a singleflight call, which nothing fills, and the wrapping of a panic value with its stack.
- The parsing of prefixes and addresses from text in internal/addrtrie and the builder of the matchers.
- Tunnel.ForwardClientHello: takes the policy as given; the override by host name, the dialling, the alert that answers a refused ClientHello and the bytes relayed behind it are left out.
- The mode of handleTLS that desynchronises with a fake TTL.
- Sockets, acknowledgement waiting, socket options, interface selection, DNS, HTTP and SOCKS5.
- The caches' agreement with DNS answers, whose key leaves out the DNS mode the answer depends on.
- The TTL cache around the search and the scan that measures the addresses of a pool.
