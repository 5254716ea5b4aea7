# TRIC+ storage core and byte formats

TRIC+ is a key-value engine with two tiers behind one bus. Keys with a deadline live in memory (the transient
tier), keys without one live in one SQLite database per namespace (the persistent tier), and a read copies a
persistent row into memory for 60 seconds. This project models that bus, the local wire protocol in front of it,
the dump, archive and SQL formats it is saved to and loaded from, two arithmetic kernels, and the supervision loop
that keeps the server's module threads alive.

The reference everything is measured against is one flat map from a key to its value and optional deadline
(`FlatStore`). The proofs go in layers.

- **Transient tier.** `Store` keeps three indexes in step; lazy purging of due entries cannot be told from dropping
  each entry at its deadline (`Store`, `Tric`, `LazyExpiry`).
- **Persistent tier.** A map from namespace to database behaves as one table, with each key in the database of its
  own namespace, and the namespaces that a restart reopens are exactly those whose file name has the extension `db`
  (`Sqlite`, `Utf8`).
- **Bus, one call at a time.** The class `PermutiveBus` calls its two tiers one after the other: a read looks in
  memory, then in the rows, then copies forward; a write stores the row, then drops the copy; a delete goes the other
  way round. Each operation is refined to one atomic step on the flat map, and whole runs with expiry and restarts
  answer as the flat map does (`TwoTiers`, `Permutive`, `BusRuns`).
- **Bus, many threads.** Each call on a tier is one step of a machine in which any number of threads interleave
  (`Interleaving`). A thread left alone does there what the sequential bus does (`SoloRuns`), the operations on one
  key are linear if its changes overlap nothing, whatever races them on other keys (`Linearity`), and scans see what is
  at rest (`Scans`).
- **Wire.** Client encoding, the server worker with its reused buffers, dispatch and client decoding compose to the
  direct bus call (`Codec`, `Router`, `Wire`, `WireScan`).
- **Formats.** Dump and restore, archive paths, archive export and diff import, SQL rows, references, schemas and
  quoting (`Dump`, `Numerals`, `ArchivePaths`, `DiffImport`, `ArchiveSync`, `SqlText`, `SqlRows`, `SqlSchema`,
  `SqlImport`, `SqlExport`, `SqlRelations`, `SqlRoundtrip`).
- **Kernels.** Gregorian dates and base64 (`Calendar`, `Base64`).
- **Supervision.** Heartbeats, joins and respawns as a step machine over supervisor, module threads and clock
  (`Supervision`).

Instants are whole nanoseconds and the clock never goes back. The clock is read by each transient-tier call, so a bus
operation sees up to three readings. Keys and values are sequences of bytes. A namespace database is a map whose
operations succeed, and `std::collections::HashMap` iteration is an arbitrary choice.

## Where the code and its intent part

Each of these is stated as a lemma, with the exact condition where there is one.

- A lifetime asked of a key that is cached from a row is the cache's, not the key's (`TwoTiers.LifetimeExact`). A dump
  records it as the key's own. It also loses a deadline with less than a millisecond left, and that of a key which
  expires between the scan and the reading of its lifetime: such a key comes back for good (`Dumps.LifetimeKept`,
  `Dumps.DumpRestoreKeepsDeadlines`).
- A row stored under a registry key is hidden by the registry entry and comes back when that entry is deleted
  (`BusRuns.RegistryRowResurfaces`). `BusRuns.RestartExact` says when a restart is faithful.
- A database file named `.db` (the empty namespace) has no extension, so a restart does not reopen it until the next
  write to its namespace; a namespace with a path separator is treated the same way (`PersistentTier.Durable`).
- The bus is not linearizable when operations on the same key overlap. A promotion racing a write leaves the replaced
  value readable (`Interleaving.StaleRead`), for no longer than the cache lifetime or the longest duration in use after
  the race (`Linearity.StalenessBounded`), and two compare-and-deletes of a cached row can both succeed
  (`Interleaving.BothWin`). It is linearizable on every key whose changes overlap neither each other nor its reads
  (`Linearity.LinearizablePerKey`), which a caller can see to.
- A scan looks at memory first and at the rows later. It can miss a key that is moved in between (`Scans.ScanMisses`),
  and is right about every key at rest (`Scans.ScanSeesQuietKey`).
- A request longer than the server's 2048-byte buffer arrives cut. It is refused and never misread
  (`Wire.RequestArrives`), but a client read or compare-and-delete reports that as "absent" or "no match".
- Export rewrites every `:` of a key, import restores the first `/` only. `ArchivePaths.PathRoundtripExact` says which
  keys survive; a key that does not can only harm keys it is taken for (`ArchiveSync.SyncReproduces`).
- A scan over the wire fails if one of the first 65535 keys is longer than 65519 bytes (`WireScan.ScanArrives`).
- A row survives SQL export exactly when its table has one key column and no other value has a line break. A column is
  read back as a key column if `pk` stands between colons anywhere in its schema line, and a type like `ENUM('a:b')`
  is cut at its first colon (`SqlSchema.TableSurvives`, `SqlSchema.SchemaParsesBack`). An empty text value comes back
  as null (`SqlText.TextValueReadsBack`).
- A module thread that exits between a `write_value` and the `write_ttl` after it leaves a heartbeat that never
  expires and is never replaced; what decides is the heartbeat's deadline alone (`Supervision.FateOfTheDead`,
  `Supervision.PairExitIsNeverRespawned`). A thread that is alive but silent holds up the supervisor's join, and with
  it every other respawn (`Supervision.SilentThreadBlocks`).

## Model

| member | source | states |
|---|---|---|
| TransientStore.Store.DeleteExpiredEntries | src/store.rs:25-33 | The purge loop ends, keeps the three indexes in agreement and removes exactly the entries whose deadline is at or before `now` |
| TransientStore.Store.DeleteBucket | src/store.rs:26-31 | One round removes a bucket and its keys, finds every one of them indexed, and cannot be noticed from the bucket's instant on |
| TransientStore.Store.DeleteTtl | src/store.rs:35-49 | Neither unwrap can fail: a key with a deadline is in that deadline's bucket; afterwards the deadline alone is gone |
| TransientStore.SwapRemoveDropsOne | src/store.rs:44 | Despite reordering, `swap_remove` drops the chosen key only and leaves a duplicate-free bucket |
| TransientStore.Store.ReadValue | src/store.rs:51-53 | The lookup is the flat map's |
| TransientStore.Store.WriteValue | src/store.rs:55-58 | A plain write stores the value and cancels any deadline, every other key untouched |
| TransientStore.Store.DeleteValue | src/store.rs:60-63 | The key is gone from all three indexes |
| TransientStore.Store.WriteTtl | src/store.rs:64-71 | An absent key stays absent; a present one gets the new deadline and leaves its old bucket |
| TransientStore.Store.WriteValueWithTtl | src/store.rs:73-78 | The value and deadline replace whatever was there |
| TransientStore.Store.DeleteValueIfMatch | src/store.rs:80-92 | True exactly when the stored value is the expected one, and only then is the key removed |
| TransientStore.Store.ReadTtlRemaining | src/store.rs:94-97 | The time to the key's deadline, if it has one |
| TransientStore.Store.FindByPrefix | src/store.rs:99-106 | Exactly the entries with the prefix, once each, in key order |
| ByteStrings.LeqExact | src/store.rs:99-106 | Key order is that of the bytes: of two keys the smaller is a prefix of the other or has the smaller byte where they first differ |
| ByteStrings.PrefixInterval | src/store.rs:101-103 | Keys with a prefix are an interval starting at the prefix, which is why the range scan may stop early |
| ByteStrings.RangeScanLists | src/store.rs:99-106 | Range then take-while over a sorted map gives the complete, sorted, duplicate-free listing of the prefix |
| ByteStrings.ListsUnique | src/store.rs:99-106 | There is only one such listing of a map |
| TransientTier.Tric.ReadValue | src/lib.rs:29-33 | Lock, clock, purge, read: the answer is that of the live entries at the clock reading |
| TransientTier.Tric.WriteTtl | src/lib.rs:53-58 | The deadline counts from the same clock reading as the purge, so an entry just expired is not revived |
| TransientTier.Tric.WriteValueWithTtl | src/lib.rs:60-69 | The value is stored over the live entries with a deadline counted from the clock reading |
| TransientTier.Tric.DeleteValueIfMatch | src/lib.rs:47-51 | An expired value never matches |
| TransientTier.Tric.ReadTtlRemaining | src/lib.rs:71-76 | Any reported remaining time is strictly positive |
| TransientTier.Tric.FindByPrefix | src/lib.rs:78-82 | The scan lists the live entries with the prefix |
| LazyExpiry.LazyIsEager | src/lib.rs:28-83 | Every run of calls gets the same answers from lazy purging as from a store that drops each key at its deadline |
| LazyExpiry.WinsBoundedByWrites | src/lib.rs:47-51 | Over any run, compare-and-delete successes on a key never exceed the value writes to it, plus one if it was there at the start |
| LazyExpiry.ExactlyOneWinner | src/store.rs:80-92 | Of any number of compare-and-deletes of a key, exactly one wins if the first that expects the stored value comes before its deadline and none otherwise, whatever the others expect, whoever reads the key and whatever is done to other keys |
| PersistentTier.SqliteBus.constructor | src/core/sqlite_bus.rs:20-58 | Start-up holds exactly the rows of the database files it recognises |
| PersistentTier.SqliteBus.WriteConnection | src/core/sqlite_bus.rs:145-164 | Opening a database adds the rows of a file that start-up missed, and no others |
| PersistentTier.SqliteBus.ReadValue | src/core/sqlite_bus.rs:168-182 | The row of the key, looked up in its namespace's database only, is the row of the whole table |
| PersistentTier.SqliteBus.WriteValue | src/core/sqlite_bus.rs:184-195 | The table, with the rows of the namespace's file if start-up missed it, with that one row replaced; databases stay sharded by namespace |
| PersistentTier.SqliteBus.DeleteValue | src/core/sqlite_bus.rs:197-207 | The table without that row, whether or not the database was open |
| PersistentTier.SqliteBus.DeleteValueIfMatch | src/core/sqlite_bus.rs:209-228 | True exactly when the row holds the expected value, and only then is it removed |
| PersistentTier.SqliteBus.FindByPrefix | src/core/sqlite_bus.rs:240-266 | Whatever order databases are visited in, the sorted result lists every row with the prefix once |
| PersistentTier.TableAdd | src/core/sqlite_bus.rs:127-134 | Databases of different namespaces share no key, so adding one adds exactly its rows |
| PersistentTier.TableRewrite | src/core/sqlite_bus.rs:127-134 | Rewriting one row in its own database is rewriting that row of the whole table |
| PersistentTier.NamespaceExact | src/core/sqlite_bus.rs:127-134 | A key's namespace is what stands before its first colon if the key is UTF-8 and has one, and `_default` otherwise |
| PersistentTier.ReloadableExact | src/core/sqlite_bus.rs:29-38 | A restart recognises the file a namespace was given exactly if the namespace is not empty and has no path separator, and then under the same name |
| Utf8.IsUtf8Exact | src/core/sqlite_bus.rs:128 | The test of a prefix accepts exactly the encodings of scalar values, by section 3 of RFC 3629 |
| PersistentTier.TableReload | src/core/sqlite_bus.rs:29-52 | Reloading keeps exactly the rows whose namespace names a recognisable file |
| PersistentTier.SqliteBus.RestartsFromRows | src/core/sqlite_bus.rs:29-52 | At any time, what a new process would reopen from the directory is exactly the durable part of the rows that can be read |
| Listings.SortLists | src/core/sqlite_bus.rs:264 | Sorting a duplicate-free unordered result gives the one key-ordered listing |
| TwoTiers.StateRefines | src/core/permutive_bus.rs:68-131 | Every operation, with its two or three clock readings, takes effect on the flat map at one moment as the flat operation does |
| TwoTiers.AnswerRefines | src/core/permutive_bus.rs:68-131 | Reads, compare-and-deletes and scans answer as the flat map does at that moment; promotion is invisible |
| TwoTiers.LifetimeExact | src/core/permutive_bus.rs:110-112 | The reported lifetime is the key's own if and only if the key is not a row with a live copy in memory that has a deadline |
| TwoTiers.CacheLifetime | src/core/permutive_bus.rs:69-79 | A read that had to go to the rows leaves a copy for 60 s from its last clock reading, as a lifetime query then reports |
| TwoTiers.ScanMerges | src/core/permutive_bus.rs:114-130 | The merged scan holds exactly the logical entries with the prefix, though a key may be in both tiers |
| TwoTiers.KeepsCoherent | src/core/permutive_bus.rs:68-108 | After every operation a key in both tiers has the same value in both |
| TwoTiers.KeepsCacheBounded | src/core/permutive_bus.rs:74-77 | After every operation a copy of an ordinary row expires within 60 s and only registry keys are in memory without a deadline |
| TwoTiers.PerformsRefines | src/core/permutive_bus.rs:68-131 | The relation the bus methods promise implies the flat step, the flat answer and both invariants |
| BusRuns.RunRefines | src/core/permutive_bus.rs:68-131 | Every sequential run, with expiries and restarts and whatever keys its callers use, answers exactly like one flat map, but for lifetime reads of live cached rows, which never do; each restart must find no row its registry contradicts and no ordinary row it cannot reopen |
| BusRuns.ReachableSettled | src/core/permutive_bus.rs:68-108 | In every state such a run reaches the tiers agree, copies of ordinary rows expire within 60 s and only registry keys are in memory for good |
| BusRuns.RestartExact | src/core/permutive_bus.rs:24-38 | A restart keeps exactly the ordinary entries without a deadline if and only if every ordinary row is in a recognisable file and none hides under a registry key |
| BusRuns.OrdinaryKeysSurvive | src/core/sqlite_bus.rs:20-58 | A row under a key without a colon, or whose first part is neither empty nor has a slash, is read back after any restart |
| BusRuns.RestartCoherent | src/core/permutive_bus.rs:41-53 | The tiers agree at start-up if and only if no reloaded row contradicts a registry entry |
| BusRuns.RestartBus | src/core/permutive_bus.rs:24-38 | A new bus over the directory of an old one holds what a restart of a run holds |
| BusRuns.CallsAreEvents | src/core/permutive_bus.rs:68-131 | What the bus methods promise of a call is exactly what a call of a run may do |
| BusRuns.RegistryRowResurfaces | src/core/permutive_bus.rs:41-53 | A concrete run in which a row under a registry key makes the bus differ from the flat map |
| Permutive.PermutiveBus.constructor | src/core/permutive_bus.rs:24-38 | A new bus holds the registry in memory and the reloaded rows behind it |
| Permutive.PermutiveBus.WriteRegistry | src/core/permutive_bus.rs:41-53 | The loop lays one untimed entry per slot found over what memory held |
| Permutive.RegistrySays | src/core/permutive_bus.rs:41-53 | There is an entry under a slot's number in decimal exactly if the slot was found, `active` for slot 0 and a clone of it otherwise, and no two slots share one |
| Permutive.PermutiveBus.ReadValue | src/core/permutive_bus.rs:69-79 | Transient read, row read, copy, lifetime: the state and answer are those of one bus read |
| Permutive.PermutiveBus.WriteValue | src/core/permutive_bus.rs:81-84 | Row first, then the copy is dropped: one bus write, from the state in which the key's database is open |
| Permutive.PermutiveBus.DeleteValue | src/core/permutive_bus.rs:86-89 | Both tiers lose the key: one bus delete |
| Permutive.PermutiveBus.DeleteValueIfMatch | src/core/permutive_bus.rs:91-95 | Both tiers are tried, even after the first matched: one bus compare-and-delete |
| Permutive.PermutiveBus.WriteTtl | src/core/permutive_bus.rs:97-103 | A row moves to memory before its deadline is set: one bus lifetime write |
| Permutive.PermutiveBus.WriteValueWithTtl | src/core/permutive_bus.rs:105-108 | The row goes before the timed value arrives: one bus timed write |
| Permutive.PermutiveBus.ReadTtlRemaining | src/core/permutive_bus.rs:110-112 | The transient tier's lifetime, strictly positive when there is one |
| Permutive.PermutiveBus.FindByPrefix | src/core/permutive_bus.rs:114-130 | The sorted merge of both scans: one bus scan |
| Permutive.PushMissing | src/core/permutive_bus.rs:118-127 | The loop's merge enumerates the rows overlaid by the live entries, each key once |
| Interleaving.RunGuarded | src/core/permutive_bus.rs:74-77 | In every interleaving, an ordinary in-memory key without a deadline is owed one by a thread that has copied it and not yet set its lifetime |
| Interleaving.RunClaims | src/core/permutive_bus.rs:91-95 | Wins, pending wins and copies left never grow together under concurrent compare-and-deletes |
| Interleaving.WinnersAtMostCopies | src/core/permutive_bus.rs:91-95 | Concurrent compare-and-deletes on a key win at most as often as tiers held it at the start |
| Interleaving.BothWin | src/core/permutive_bus.rs:91-95 | The bound is reached: two compare-and-deletes of a cached row both succeed |
| Interleaving.ExactlyOneWinner | src/core/permutive_bus.rs:91-95 | With one live copy in one tier and any number of threads with whatever expectations, exactly one wins once one that expects the value has answered |
| Interleaving.StaleRead | src/core/permutive_bus.rs:74-84 | A concrete interleaving after which a read returns the value a finished write had replaced |
| Linearity.LinearizablePerKey | src/core/permutive_bus.rs:68-112 | If no operation that changes a key overlaps any other on it, each operation answers as on one flat map at an instant within its own interval (but for the lifetime of a cached row, a minute at most), in every interleaving of its readers with each other and with other keys and scans; and when none is under way the tiers hold of the key what that map does |
| Linearity.HistoryIsLog | src/core/permutive_bus.rs:68-112 | The history this speaks of is the run's log of that key, nothing missing and nothing moved |
| Linearity.StalenessBounded | src/core/permutive_bus.rs:74-77 | However operations on an ordinary key have raced, once none is under way and none has begun for 60 s or the longest duration in use, the key is read from its row, whatever other threads did meanwhile on other keys |
| Linearity.LinearAfterRaces | src/core/permutive_bus.rs:68-112 | From then on the key's operations are linear again, if those that change it do not overlap others |
| Scans.ScanMisses | src/core/permutive_bus.rs:97-116 | A concrete interleaving in which a scan finds nothing although the key has its value before and after: a lifetime write moved its row to memory between the scan's two calls |
| Scans.ScanSeesQuietKey | src/core/permutive_bus.rs:114-130 | A key that no operation is at work on during a scan is in the answer exactly if it has the prefix and an entry at the scan's first call, with that entry's value, whatever races on other keys |
| Scans.QuietScanIsAtomic | src/core/permutive_bus.rs:114-130 | If that goes for every key with the prefix, the scan answers as the flat map does at its first call |
| SoloRuns.SoloIsSequential | src/core/permutive_bus.rs:68-131 | A thread left alone for one operation leaves the tiers, and gives the answer, of the sequential bus at the same clock readings |
| BigEndian.Roundtrip | src/modules/codec.rs:25 | Reading a big-endian field of any width gives back the number that was written |
| BigEndian.MostSignificantFirst | src/modules/codec.rs:25 | The first byte of a field counts most |
| Codec.DatagramOpens | src/modules/codec.rs:39-53 | A datagram is a request exactly if it has an id, an opcode other than 0 and 255 and any payload, empty or not |
| Codec.RequestOpens | src/modules/codec.rs:39-53 | It is then the request that was encoded |
| Codec.LengthsAreFieldEnds | src/modules/codec.rs:144-174 | The noise cutter's field ends and the dispatcher's field ends are the same numbers, and fail on the same inputs |
| Codec.TrimmingIsInvisible | src/modules/codec.rs:126-142 | For every opcode and every byte string, well formed or not, the trimmed payload is dispatched exactly as the whole |
| Codec.PayloadParses | src/modules/router.rs:44-137 | For the six primitives, the dispatcher reads back what was encoded, whatever bytes follow |
| Codec.NoiseIsCut | src/modules/codec.rs:126-142 | Encoded fields followed by any noise trim back to exactly those fields |
| Codec.CutPayloadRefused | src/modules/router.rs:179-195 | A payload cut anywhere is refused as malformed, never misread |
| Codec.InvalidOpcodes | src/modules/router.rs:24-41 | Whatever the payload, an opcode is refused as invalid exactly if the server has none such, or has it for the local socket only and the request came over the network |
| Router.DispatchRequest | src/modules/router.rs:19-165 | Each request is the bus operation its action names, durations in milliseconds, or none, with the matching response and the request id echoed |
| Router.BuildScanResponses | src/modules/router.rs:139-164 | The response loop sends one chunk per pair, or for more than 65535 pairs the first 65535, and one end marker |
| Router.ChunksCanBeReordered | src/modules/router.rs:143-156 | From any permutation of the chunks, each names its place: ids are 0 to total - 1, none lost, repeated or truncated |
| Wire.Worker.DecodeLocalInto | src/modules/codec.rs:39-53 | The reused request becomes exactly the decoded datagram, or is left alone when the datagram is refused |
| Wire.Worker.WriteLocalToBuffer | src/modules/server.rs:182-187 | The reused send buffer holds exactly the encoded response |
| Wire.Worker.ServeLocal | src/modules/server.rs:125-145 | One worker round answers the datagram alone, whatever the reused buffers held before |
| Wire.RequestArrives | bridges/python/src/tric/client.py:88-91 | A request that fits 2048 bytes arrives as it was meant; a longer one is refused |
| Wire.ReplyOpens | bridges/python/src/tric/client.py:92-98 | A reply is recognised by its echoed id; only its payload may be cut to the client's buffer |
| Wire.RoundtripServes | bridges/python/src/tric/client.py:88-98 | Client encode, server decode, dispatch, server encode and client decode compose to the bus operation, or to a refusal that leaves the bus alone |
| Wire.Connection.NextRequestId | bridges/python/src/tric/client.py:83-86 | Request ids count up and wrap at 2 to the 32 |
| Wire.Connection.Roundtrip | bridges/python/src/tric/client.py:88-98 | The reply a connected client gets is the served one |
| Wire.Connection.Read | bridges/python/src/tric/client.py:100-111 | A read over the wire is the bus's read, cut to the client's buffer; a key too long reads as absent |
| Wire.Connection.Write | bridges/python/src/tric/client.py:113-125 | A write over the wire is the bus's plain write if its duration is 0 and otherwise its timed write for that many milliseconds, from the state in which the key's database is open; one too long fails and changes nothing |
| Wire.Connection.Delete | bridges/python/src/tric/client.py:127-132 | A delete over the wire is the bus's delete; one too long fails and changes nothing |
| Wire.Connection.Cad | bridges/python/src/tric/client.py:134-141 | Compare-and-delete over the wire returns the bus's verdict; one too long reports no match and changes nothing |
| Wire.Connection.Ttl | bridges/python/src/tric/client.py:143-148 | A lifetime write over the wire is the bus's; one too long fails and changes nothing |
| WireScan.Collect | bridges/python/src/tric/client.py:156-179 | The client loop consumes replies up to the end marker, and fails on a foreign or malformed one |
| WireScan.ScanArrives | src/modules/router.rs:135-165 | The loop rebuilds the first 65535 pairs in order if all their keys fit a chunk and fails otherwise; a pair is intact if and only if its chunk fits the client's buffer |
| WireScan.Scan | bridges/python/src/tric/client.py:150-179 | A scan over the wire is the bus's scan: all its pairs, or the first 65535 of more, in order, if their keys fit a chunk, and a failure otherwise |
| WireScan.OutcomeArrived | src/modules/router.rs:135-165 | What the loop rebuilds is just that: as many pairs as were found up to 65535, each with its key and as much of its value as fits |
| Base64.DecodeBase64 | src/modules/auth.rs:143-162 | None exactly for a foreign symbol before the padding; otherwise the bytes whose bits lead the symbols' bits, floor(6n/8) of them |
| Base64.SymbolsAreTable | src/modules/auth.rs:143-152 | The alphabet is Table 1 of RFC 4648 |
| Base64.PaddingFills | src/modules/auth.rs:149-151 | Padding is up to two `=`, where the decoder stops |
| Base64.PendingPush | src/modules/auth.rs:153-159 | Every round keeps fewer than 8 pending bits, a buffer below 2 to their count, and an intermediate value far below 32 bits |
| Base64.DecodeInvertsEncode | src/modules/auth.rs:143-162 | Of all outputs, only the original bytes decode their encoding by section 4 of RFC 4648, padded or not |
| Base64.DecodeEncoded | src/modules/auth.rs:143-162 | The decoder loop returns the original bytes for every encoding |
| Calendar.DaysToDateIsCalendar | src/modules/logger.rs:73-86 | For every day count the formula gives the date reached by stepping the Gregorian calendar from 1 January 1970 |
| Calendar.NextDay | src/modules/logger.rs:73-86 | The next day count is the next calendar date, across months, leap years, centuries and eras |
| Calendar.DaysRoundtrip | src/modules/logger.rs:73-86 | The date is always a valid one, and counting its days gives the day count back |
| Calendar.TimestampRecoversSeconds | src/modules/logger.rs:46-53 | Date, hours, minutes and seconds are in range and together give back the second they came from |
| Dumps.DumpAll | src/modules/cli.rs:158-180 | The file is the encoding of one record per logical entry, in key order, with the lifetime read for it |
| Dumps.ReadRecord | src/modules/cli.rs:201-235 | One record is read exactly when it lies wholly inside the file |
| Dumps.PrefixReadsWholeRecords | src/modules/cli.rs:200-241 | From any byte prefix of a dump the records read are those wholly inside it, in order |
| Dumps.RestoreDump | src/modules/cli.rs:200-242 | The loop ends for any bytes, applies the records it reads in order, and counts them |
| Dumps.RestoreRebuilds | src/modules/cli.rs:236-239 | Restored into any bus, distinct records leave exactly their values, with deadlines counted from when each was written, and leave every other key alone |
| Dumps.LifetimeKept | src/modules/cli.rs:168-171 | A deadline is recorded in whole milliseconds if one is left when it is read, and lost otherwise, even if the key has expired since the scan; one is invented exactly for a row cached for another millisecond |
| Dumps.DumpRestoreKeepsValues | src/modules/cli.rs:158-241 | Dump then restore into any bus lays the keys and values of one moment of the dump over what that bus had, as long as no restored deadline has been reached |
| Dumps.DumpRestoreKeepsDeadlines | src/modules/cli.rs:158-241 | Every dumped entry ends with a deadline if and only if it had a millisecond left (or its row was cached for one), counting the whole milliseconds left from when it was written; one that has gone had such a deadline, now past |
| ArchivePaths.PathRoundtripExact | src/modules/import.rs:242-253 | Import restores an exported key if and only if the key is portable: at most one colon, no slash before it, no reserved first part |
| ArchivePaths.PlainExact | src/modules/export.rs:66 | Replacing every colon and restoring the first slash is the identity exactly on keys with at most one colon and no earlier slash |
| DiffImport.WriteDiffEntry | src/modules/import.rs:255-274 | A data entry is one bus write of its key; a lifetime entry that says more than 0 ms is one lifetime write of the key it names, and any other does nothing |
| DiffImport.SaidIsSet | src/modules/import.rs:255-274 | The lifetime an entry is said to have is the one its bus call sets, in milliseconds |
| DiffImport.DeleteDiffEntry | src/modules/import.rs:182-191 | A vanished entry is one bus delete of its key, which keeps what has been synchronised so far |
| DiffImport.ApplyNew | src/modules/import.rs:164-180 | In any order of the new archive, changed entries hold their new content and the two counters are right |
| DiffImport.DeleteOld | src/modules/import.rs:182-191 | In any order of the old archive, vanished entries are deleted and counted, and nothing else changes |
| DiffImport.ParseDiffImport | src/modules/import.rs:150-194 | The counts are the sizes of the differences; every key that one path names ends with the wanted value, save keys that had or were given a deadline and expired; a key whose data entry is unchanged and that one changed lifetime entry names ends with that lifetime, counted from a moment of the import |
| ArchiveSync.WriteTarContents | src/modules/export.rs:46-81 | The archive begins with the version, has an entry for each key the bus showed at one moment and otherwise only lifetimes, with the right content for every portable key that no other is taken for; a key whose deadline in memory is past the export's end has a lifetime entry, which says the whole milliseconds it had left at some moment of the export, and a key without one has none |
| ArchiveSync.WriteEntry | src/modules/export.rs:56-74 | One key's entries, its lifetime included, added to the archive read back |
| ArchiveSync.ExportableIsAlone | src/modules/export.rs:69-73 | If all keys come back from an archive, no lifetime entry shares its path with anything else |
| ArchiveSync.LifetimeNamesKey | src/modules/import.rs:256-260 | Import takes a lifetime entry for the key it was written for |
| Numerals.DecimalReads | src/modules/export.rs:70 | The text of a lifetime reads back as its number |
| Numerals.DecimalDigits | src/modules/export.rs:70 | It is all digits, with no zero in front |
| ArchiveSync.ExportsDistinct | src/modules/export.rs:56-74 | In two exports of exportable keys, no two paths name the same key |
| ArchiveSync.SyncReproduces | src/modules/import.rs:164-191 | Key by key: the difference of two exports brings any store to the second's value where they differ, and leaves the store's own where they do not |
| ArchiveSync.CarriedIsSingle | src/modules/import.rs:242-253 | A carried key is named by its own path only |
| ArchiveSync.ExportableIsCarried | src/modules/export.rs:56-74 | If all keys of both stores come back from an archive, every one of them is carried |
| ArchiveSync.MakeAlike | src/modules/import.rs:150-194 | Exporting two buses and importing the difference into the first makes it hold the second's value of every carried key, save keys that had or were given a deadline and expired; if all keys of both are exportable, all of the first becomes like the second |
| SqlText.SplitJoin | src/modules/export.rs:130 | Splitting undoes joining if and only if no part holds the separator |
| SqlText.SplitPieces | src/modules/export.rs:171 | Splitting joined parts gives the pieces of each part, in order |
| SqlText.QuotedLexes | src/modules/export.rs:259 | Lexing a quoted text gives the text back and stops at its closing quote, whatever follows |
| SqlText.TextValueReadsBack | src/modules/export.rs:242-261 | A text value reads back as it was, except that an empty one becomes null |
| SqlText.NumericTypes | src/modules/export.rs:242-250 | The types written without quotes are those that begin with one of six names, in small or capital letters |
| SqlText.NumberReadsBack | src/modules/export.rs:242-261 | A numeral of a numeric column is written as it is and read back as it was; an empty value becomes null |
| SqlRows.BuildValueParts | src/modules/import.rs:92-98 | The loop collects the values of the non-key columns in column order |
| SqlRows.WriteRow | src/modules/import.rs:69-124 | A rejected row writes nothing; an accepted one writes its row and one marker per foreign key with a column, and counts the markers |
| SqlRows.AcceptedExact | src/modules/import.rs:69-88 | A row is rejected exactly if it has the wrong number of values or its table names no key column that it has |
| SqlRows.RowKeysDiffer | src/modules/import.rs:74-90 | Rows whose key values have no colon share a key if and only if they agree in every key column, however many there are |
| SqlRelations.ReferencesListed | src/modules/import.rs:103-121 | After an import a scan under `_rel:<table>:<value>:` lists exactly the rows that refer to that value of that table, under their own table and key |
| SqlRows.TablesNeverMissed | src/modules/import.rs:90-118 | Rows and markers of a named table never live in a file that start-up can miss |
| SqlRows.RebuildRow | src/modules/export.rs:132-145 | The loop puts the key text into key columns and the value pieces, in order, into the others |
| SqlRows.RowRoundtripExact | src/modules/export.rs:126-145 | A row comes back if and only if the key is one column and no other value has a line break |
| SqlRows.SanitisedHasNoColon | src/modules/analyser.rs:153-158 | A cleaned table name has no colon, whatever counts as alphanumeric beyond it |
| SqlRows.SanitisedParts | src/modules/analyser.rs:153-158 | Cleaning a name works on each character by itself |
| SqlRows.SanitisedRuns | src/modules/analyser.rs:153-158 | It keeps what is to be kept and drops the rest |
| SqlRows.ScansDisjoint | src/modules/export.rs:122-123 | The scans that export two tables never list the same key |
| SqlSchema.RenderSchemaEntry | src/modules/analyser.rs:160-184 | The nested rendering loop produces one line per column, marks included |
| SqlSchema.LineSplits | src/modules/analyser.rs:160-184 | The pieces of a column's line are its name and type, then `pk` exactly for a key column, `fk=` with table and column of its first reference exactly if it has one, and `ttl` exactly for the lifetime column |
| SqlSchema.SchemaParsesBack | src/modules/export.rs:166-178 | Whatever the names and types, short of line breaks: a type comes back if and only if it has no colon (when the name has none), cut at the first otherwise, and a key flag exactly when `pk` is a piece of the line |
| SqlSchema.TableRoundtrip | src/modules/export.rs:122-145 | With the flags parsed from the rendered schema, and no column mistaken for a key column, a row comes back if and only if the key is one column and no other value has a line break |
| SqlSchema.TableSurvives | src/modules/export.rs:122-145 | All rows without line breaks come back if and only if the key is one column and no column is mistaken for one |
| SqlExport.ExportRows | src/modules/export.rs:122-145 | One rebuilt row per entry of a prefix scan of the bus, in key order |
| SqlExport.ExportTables | src/modules/export.rs:110-156 | For each schema entry the bus shows, the flags read from that entry and one rebuilt row per entry under the table's prefix |
| SqlImport.ParseImport | src/modules/import.rs:24-67 | An import writes every table's schema, then the rows and markers of every insert into a known table, in order, and counts tables, rows, relationships and rejected rows |
| SqlImport.AcceptedCount | src/modules/import.rs:45-61 | The rows counted are those at whose position an accepted one stands |
| SqlRoundtrip.RestoredUntimed | src/modules/import.rs:101-118 | Whatever a bus held, records without lifetimes are laid over it, the last of each key |
| SqlRoundtrip.ImportUnder | src/modules/import.rs:36-61 | Under a table's prefix an import leaves exactly the last row of each key of that table, and under `_schema:` its schema |
| SqlRoundtrip.TableComesBack | src/modules/export.rs:110-156 | A whole export after a whole import has each well-named table that survives, with every row no later one replaced; if the bus held nothing under its prefix before, exactly those rows, in key order |
| SqlRoundtrip.TablesThroughBus | src/modules/import.rs:24-67 | The same of the two methods run one after the other on the bus, schemas read back from it included |
| Supervision.OneLiveThread | src/core/mod.rs:101-125 | In every interleaving of supervisor, threads and clock, a registered module never has two live threads |
| Supervision.ExitedIsRespawned | src/core/mod.rs:101-125 | A thread that exits outside a write pair, with no helper left beating and no namesake, has lost its heartbeat 15 s later, and the first check from then on that passes its module has replaced it |
| Supervision.FateOfTheDead | src/core/mod.rs:101-125 | For a dead module, whatever stage its thread died in: a heartbeat that is gone or has a deadline is noticed and the thread replaced; one without a deadline hides it for ever, unless a check has already missed it |
| Supervision.PairExitIsNeverRespawned | src/core/mod.rs:56-66 | A thread that exits between a write and its lifetime write keeps its heartbeat and its place for ever, with no namesake, no helper beating for it and no check that has already missed it |
| Supervision.NotRevivedByTtl | src/store.rs:64-67 | A lapsed heartbeat is not revived by any number of lifetime writes, from any thread |
| Supervision.RunHealthy | src/core/mod.rs:53-66 | Every heartbeat without a deadline is that of a module whose thread is or ended between the two calls of a pair, or has yet to make its first; every other expires within 15 s |
| Supervision.BeatIsSeen | src/core/mod.rs:101-125 | In every interleaving, a heartbeat that is there when its lifetime is written lasts 15 s, and a later check that scans within them finds it and neither joins nor replaces its thread |
| Supervision.BeatsForEver | src/core/mod.rs:53-70 | A module thread makes two pairs of calls, with the module built in between, and from then on beats for as long as it lives |
| Supervision.PairBeats | src/core/mod.rs:55-66 | A write and the lifetime write after it leave a heartbeat that says `starting` or `running`, for 15 s from the second |
| Supervision.ChecksApart | src/core/mod.rs:94-99 | Two checks never scan less than 5 s apart |
| Supervision.SilentThreadBlocks | src/core/mod.rs:114-116 | While a joined thread is alive, the supervisor does not move and nobody is respawned |
| Supervision.SilentThreadReached | src/core/mod.rs:101-116 | Such a state is reachable: a thread slower to its first heartbeat than the first check |
| Supervision.CheckServesAll | src/core/mod.rs:109-124 | A check whose silent modules are all dead runs to its end, replaces each of them and leaves the others their threads |
| Supervision.CheckServes | src/core/mod.rs:109-124 | In every interleaving, a check does not get past a module its scan missed without giving it a new thread |
| Supervision.CheckProgresses | src/core/mod.rs:109-124 | Nothing sets a check back, and each step of the supervisor brings it nearer its end, unless it joins a live thread |

## Left out

- Sockets, datagram loss and reordering, the network workers, process exit, the REPL and usage texts: I/O around the modelled steps.
- Router.DispatchRequest: administrative requests (query, status, shutdown, reload, keys, inspect, dump, restore) get None and no claim. The dump and restore loops are modelled where the command line runs them.
- Wire.Worker.ServeLocal: the same requests get no claim here either.
- Encryption, key exchange and noise generation: decrypted plaintext is taken as given, so `Codec.TrimmingIsInvisible` starts after decryption.
- The session table of `src/modules/auth.rs`, metrics, health, benchmark, slot listing and cloning: easy claims or I/O.
- SQLite, tar, Brotli and SQL parser internals: a database is a map that never fails, an archive is a sequence of path and content, an SQL value is the text taken from it.
- File-system limits on namespace names: every namespace opens. A namespace whose file a restart would not recognise is modelled as missed at start-up until it is next written.
- Lossy UTF-8 conversion in import and export: texts are bytes there. The UTF-8 test of `parse_namespace` is modelled.
- Lengths of 2 to the 32 and more, durations of 2 to the 64 milliseconds and more, day counts that overflow 64 bits, and deadlines that overflow `Instant`: they are outside the preconditions or the number types used.
- 32-bit shifts and masks in base64 are written as recursive doubling and halving; `Base64.PendingPush` shows that no bit is lost to the width.
- The text of the timestamp (month names, padding) and of command results: formatting only.
- BusRuns.RunRefines: rows of a file that start-up missed, which surface when its namespace is next written, are not part of a run; `Permutive.PermutiveBus.WriteValue` states their effect on one call.
- Dumps.RestoreDump: its effect is claimed if no record belongs to a file that start-up missed; its count needs nothing.
- SqlRows.WriteRow: the same, and `SqlRows.TablesNeverMissed` shows it for every table with a name.
- DiffImport.ParseDiffImport: how the text of a lifetime entry is read is a parameter. Which deadline a key ends with is not claimed if its data entry changed too, because the lifetime may be applied before it, nor if several changed lifetime entries name it.
- DiffImport.ParseDiffImport: its values are claimed for tiers that agree, keys that one path names and archives that touch no file start-up missed; its counts need none of these.
- ArchiveSync.WriteTarContents: the content of an entry is claimed for keys that come back and that no other key is taken for; for two keys with one path the later entry wins. That goes for lifetime entries too, and nothing is claimed of one whose deadline passes during the export. Its counters of entries and bytes are not part of the model.
- ArchiveSync.MakeAlike: only values are claimed (deadlines are, of one import, by `DiffImport.ParseDiffImport`), and only if no entry belongs to a file that the target's start-up missed.
- SqlImport.ParseImport: statements other than inserts of literal rows, the analysis that finds tables and keys, and the text taken from an SQL expression are inputs.
- SqlRoundtrip.TablesThroughBus: rows are compared before they are formatted as SQL; `SqlText.TextValueReadsBack` is about the text of one value. Tables named `_schema` or `_rel`, or without a name, are left out of the claim.
- SqlText.NumberReadsBack: a value of a numeric column that is no numeral is written unquoted all the same, and what an SQL parser makes of it is not part of this model.
- SqlRelations.ReferencesListed: references whose table or value has a colon can be taken for each other and are left out of the claim.
- Upper-casing of type names is for ASCII letters only.
- CREATE TABLE text, dialect type names and identifier quoting: formatting.
- Supervision.OneLiveThread: the supervision loop is a step machine over values and not a class, because its steps interleave with those of the threads it joins. Module threads write only their own heartbeat; a helper thread that outlives its module is a lone `write_ttl` at any time.
- Supervision.CheckServesAll: nothing else steps during that check; `Supervision.CheckServes` and `Supervision.CheckProgresses` allow everything.
- Supervision.ExitedIsRespawned: a check happens when the supervisor is scheduled; no bound on scheduling is claimed beyond the 5 s sleep.
- Linearity.LinearizablePerKey: that changes of a key overlap nothing is enough for linearity; overlap can break it, as `Interleaving.StaleRead` shows, but need not.
- Scans.ScanSeesQuietKey: nothing is claimed of a key that an operation is at work on during the scan.
- Bridges other than the Python client repeat the same encoding.
