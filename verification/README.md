# Verified model of the client test kit and the SQLite overflow store

This project models the logic of the .NET client's put/get verification kit, of a few small
concurrent protocols in the integration tests, and of the SQLite overflow store, and proves
what each of them is for.

* **CRC-32** (`Gf2`, `Crc32`, `Crc32Laws`). The table-driven checksum is proved equal to
  bit-at-a-time division, and that to long division of the whole message by the generator
  polynomial, in the reflected convention of section 8 of RFC 1952 and section 8.1.1.6.2 of
  ITU-T V.42. From the linear algebra follow the burst, residue and affine laws.
* **Integer and date checksums** (`MachineIntegers`, `Dates`, `IntegerChecksums`). The byte
  loops, their decoding, injectivity up to four bytes, and at eight bytes exactly one long
  for every low half and checksum.
* **Keys** (`Decimals`, `Keys`, `HashMapKeys`). What each key generator makes of an index and
  when keys are distinct; the nested loops that fill a hash map never add a key twice.
* **Put/get protocol** (`PutGet`, `WrapperFactory`, `ContainerChecksums`). Two clients, one
  region that behaves as a map, three families of entries; the registry of wrappers; the
  exclusive-or checksums of containers.
* **Transactions** (`Transactions`, `TransactionRuns`, `TransactionProgress`,
  `TransactionScripts`, `Handshake`). The transaction manager as a state machine, every run
  of its calls by any threads, the single-threaded scripts, and every interleaving of every
  list of suspend/resume rounds of three threads.
* **Small state machines** (`Substitution`, `Leftovers`, `Placeholders`, `ResultCollector`,
  `DupListener`, `PollingVerifier`, `DeltaReplica`).
* **SQLite store** (`SqliteStore`). A table of byte strings behind return codes, used as a map
  through an injective codec, with statement failures chosen by the environment.

Where the source updates objects, arrays or variables in loops, the model has classes,
`modifies` clauses and loops, and each such method is proved against a specification
function about which the properties are proved. The interleaved threads are a state machine
over their statements. `Wrappers` holds the shared option, error and result types.

Environment choices are parameters: random values, the base date, other threads' schedules,
region observations, statement faults and return codes, serialization.

Some promises hold only under a condition, which is proved to be the exact one:

* The eight placeholder replacements equal a simultaneous substitution if and only if no bare
  stem stands before a placeholder whose value completes it by the turn of the completed
  one (`HazardExample` is a failing text). They leave a placeholder if and only if its stem
  is completed at or after its own turn (`LeftoverExample` and `ConsumedExample` show both
  cases).
* Date rounding fails in the last half millisecond of the calendar, and only there.
* Eight-byte values do share checksums: every checksum belongs to exactly one long for each
  low half.
* Keys made from float indices are distinct exactly up to index 2^24.
* A verifying client passes exactly when every key's last value is not null and has the
  checksum of every value stored under that key.
* A listener run that validates delivered every value once and in order exactly when every
  value was at least 1 (`ZeroHidesALostEvent` is a run that validates although an event is
  missing).
* The polling verifier fails its last poll on the key before it looks at the value, so a
  value seen absent only in poll 1000 does not count for `VerifyDestroyed`.
* A region whose table was dropped but whose handle could not be closed can never be
  destroyed by trying again, and every other call on it throws.
* A live transaction is suspended or held by a thread, but not both, if and only if no resume
  of it has failed to get a connection; one that failed stays for ever and can never be ended
  (`OrphanExample`).

## Model

| member | source | states |
|---|---|---|
| Gf2.StepInjective | clicache/integration-test/BuiltinCacheableWrappersN.cs:107-111 | one division step loses no information, because the generator has a constant term |
| Gf2.FeedLinear | clicache/integration-test/BuiltinCacheableWrappersN.cs:107-111 | bit-at-a-time division is linear over XOR of registers and messages |
| Gf2.FeedInjective | clicache/integration-test/BuiltinCacheableWrappersN.cs:107-111 | the same message fed into different registers gives different registers |
| Gf2.FeedAtOnce | clicache/integration-test/BuiltinCacheableWrappersN.cs:107-111 | a message of at most 32 bits can be added to the register at once before stepping |
| Gf2.BurstDetected | clicache/integration-test/BuiltinCacheableWrappersN.cs:98-113 | messages of equal length that differ only within 32 consecutive bits, and do differ, leave different registers |
| Gf2.FeedIsLongDivision | clicache/integration-test/BuiltinCacheableWrappersN.cs:98-113 | the bit-serial register equals the remainder of dividing the whole shifted message by the generator polynomial |
| Crc32.TableCorrect | clicache/integration-test/BuiltinCacheableWrappersN.cs:33-77 | each of the 256 table entries is eight shift-and-subtract steps with 0xEDB88320 |
| Crc32.TableStepCorrect | clicache/integration-test/BuiltinCacheableWrappersN.cs:109-110 | one table step is eight steps of bit-at-a-time division of the next byte |
| Crc32.TableRunCorrect | clicache/integration-test/BuiltinCacheableWrappersN.cs:107-111 | the loop over any buffer is bit-at-a-time division of all its bits |
| Crc32.ChecksumIsReference | clicache/integration-test/BuiltinCacheableWrappersN.cs:98-113 | for every buffer, the checksum equals reflected division with initial register and final complement all ones, and the complement of a polynomial long division; the empty buffer agrees |
| Crc32.CRC32 | clicache/integration-test/BuiltinCacheableWrappersN.cs:98-113 | the loop computes that checksum; null and empty buffers give 0 |
| Crc32Laws.ChecksumConcat | clicache/integration-test/BuiltinCacheableWrappersN.cs:98-113 | the checksum of a concatenation is the second part fed into the register left by the first |
| Crc32Laws.BurstChangesChecksum | clicache/integration-test/BuiltinCacheableWrappersN.cs:33-113 | buffers that differ only within 32 consecutive bits have different checksums, at any bit offset |
| Crc32Laws.WindowChangesChecksum | clicache/integration-test/BuiltinCacheableWrappersN.cs:33-113 | buffers that differ only inside a window of four bytes have different checksums |
| Crc32Laws.ShortChecksumInjective | clicache/integration-test/BuiltinCacheableWrappersN.cs:98-113 | on buffers of one length up to four bytes, checksums are equal exactly when the buffers are |
| Crc32Laws.ChecksumAffine | clicache/integration-test/BuiltinCacheableWrappersN.cs:98-113 | the checksum of the XOR of three equal-length buffers is the XOR of their checksums |
| Crc32Laws.ResidueReached | clicache/integration-test/BuiltinCacheableWrappersN.cs:98-113 | a message followed by its own little-endian checksum has checksum 0x2144DF1C |
| Crc32Laws.ResidueTest | clicache/integration-test/BuiltinCacheableWrappersN.cs:98-113 | a four-byte tail gives that constant if and only if it is the little-endian checksum of what precedes it |
| Crc32Laws.OneTail | clicache/integration-test/BuiltinCacheableWrappersN.cs:98-113 | for every message and every checksum there is exactly one four-byte tail that gives the message this checksum |
| IntegerChecksums.BytesInjective | clicache/integration-test/BuiltinCacheableWrappersN.cs:937-945 | the byte loop tells apart any two values less than 2^(8n) apart |
| IntegerChecksums.BytesRoundTrip | clicache/integration-test/BuiltinCacheableWrappersN.cs:937-945 | reading the bytes back as a signed little-endian number gives the value, for every value of the width |
| IntegerChecksums.CastKeepsLowByte | clicache/integration-test/BuiltinCacheableWrappersN.cs:942-942 | the cast to a byte keeps the low eight bits of any integer |
| IntegerChecksums.IntegerBuffer | clicache/integration-test/BuiltinCacheableWrappersN.cs:937-944 | the mask-and-shift loop fills the buffer with the value's bytes, lowest first |
| IntegerChecksums.IntegerChecksum | clicache/integration-test/BuiltinCacheableWrappersN.cs:932-946 | the wrapper checksum is the CRC-32 of those bytes |
| IntegerChecksums.IntegerChecksumInjective | clicache/integration-test/BuiltinCacheableWrappersN.cs:932-946 | equal checksums mean equal values, for widths up to four bytes |
| IntegerChecksums.SByteChecksumInjective | clicache/integration-test/BuiltinCacheableWrappersN.cs:526-533 | injective on every sbyte |
| IntegerChecksums.CharChecksumInjective | clicache/integration-test/BuiltinCacheableWrappersN.cs:577-590 | injective on every char |
| IntegerChecksums.Int16ChecksumInjective | clicache/integration-test/BuiltinCacheableWrappersN.cs:876-889 | injective on every short |
| IntegerChecksums.Int32ChecksumInjective | clicache/integration-test/BuiltinCacheableWrappersN.cs:932-946 | injective on every int |
| IntegerChecksums.EightByteCollision | clicache/integration-test/BuiltinCacheableWrappersN.cs:989-1003 | two eight-byte buffers collide exactly when stepping the difference of their first halves 32 times gives the difference of their second halves |
| IntegerChecksums.LongOfBytes | clicache/integration-test/BuiltinCacheableWrappersN.cs:994-1001 | every eight-byte buffer is that of exactly one long |
| IntegerChecksums.OneLong | clicache/integration-test/BuiltinCacheableWrappersN.cs:989-1003 | for every choice of the four low bytes and every checksum there is exactly one long with both |
| IntegerChecksums.LongHasTwin | clicache/integration-test/BuiltinCacheableWrappersN.cs:989-1003 | every long shares its checksum with another one |
| IntegerChecksums.DateChecksum | clicache/integration-test/BuiltinCacheableWrappersN.cs:647-666 | the checksum of a date is that of the eight bytes of its rounded ticks, and it fails exactly when rounding does |
| Dates.RoundOffIsNearest | clicache/integration-test/BuiltinCacheableWrappersN.cs:629-636 | every date has exactly one nearest multiple of 10000, halves up; rounding gives it, or fails if it lies beyond the last date |
| Dates.RoundOffIdempotent | clicache/integration-test/BuiltinCacheableWrappersN.cs:629-636 | a rounded date rounds to itself |
| Dates.RoundOffFails | clicache/integration-test/BuiltinCacheableWrappersN.cs:629-636 | rounding overflows the calendar exactly from tick 3155378975999995000 on |
| Keys.FloatExact | clicache/integration-test/BuiltinCacheableWrappersN.cs:816-820 | indices up to 2^24 survive the conversion to float |
| Keys.FloatCollision | clicache/integration-test/BuiltinCacheableWrappersN.cs:816-820 | 2^24 and 2^24 + 1 become the same float |
| Keys.FloatNearest | clicache/integration-test/BuiltinCacheableWrappersN.cs:816-820 | every index becomes the nearest multiple of the power of two that leaves 24 significant bits, an even one on a tie |
| Keys.KeyReadBack | clicache/integration-test/BuiltinCacheableWrappersN.cs:455-1330 | for every key type: which indices have a key, which error the others give, and how the index is read back from the key, with the size, fill and digits of the texts |
| Keys.InitKeyInjective | clicache/integration-test/BuiltinCacheableWrappersN.cs:1034-1050 | for every key type, two indices closer than the width of the type make different keys |
| Keys.FirstKeysDistinct | clicache/integration-test/BuiltinCacheableWrappersN.cs:455-520 | the keys of the first indices, at most MaxKeys, are pairwise distinct, except exactly for more than 2^24 + 1 floats |
| Keys.NarrowKeysDistinct | clicache/integration-test/BuiltinCacheableWrappersN.cs:455-861 | for the narrow types, the first n keys are distinct exactly up to MaxKeys for bool, one more for sbyte and char, and 65536 for short |
| HashMapKeys.GeneratedKeysDistinct | clicache/integration-test/BuiltinCacheableWrappersN.cs:1492-1549 | no two additions of the whole generation make the same key, within or across key types |
| HashMapKeys.FillRow | clicache/integration-test/BuiltinCacheableWrappersN.cs:1506-1546 | the inner loop with its skips and its MaxKeys break goes on from what has been tried to exactly the outcome of trying its row as well, dictionary or first error |
| HashMapKeys.FillRows | clicache/integration-test/BuiltinCacheableWrappersN.cs:1503-1547 | the outer loop gives exactly the outcome of trying all rows |
| HashMapKeys.OutcomeDecided | clicache/integration-test/BuiltinCacheableWrappersN.cs:1503-1547 | a dictionary is made exactly when every key can be made, also those not stored, and no two stored ones are equal |
| HashMapKeys.OutcomeFilled | clicache/integration-test/BuiltinCacheableWrappersN.cs:1503-1547 | a dictionary that is made holds exactly one entry per stored try, with its drawn value |
| HashMapKeys.OutcomeErrors | clicache/integration-test/BuiltinCacheableWrappersN.cs:1503-1547 | the only errors are those of a key that cannot be made, and a duplicate when two keys are equal |
| HashMapKeys.AllTriesMembers | clicache/integration-test/BuiltinCacheableWrappersN.cs:1503-1546 | a key is made exactly for the pairs of types that the huge-string and null-string rules do not exclude, with the number of value types combined before as index, below MaxKeys |
| HashMapKeys.RowsMembers | clicache/integration-test/BuiltinCacheableWrappersN.cs:1503-1546 | an entry is added exactly for those of these pairs whose value type is neither one of the nine containers nor one of the three unhandled types |
| HashMapKeys.InitRandomValue | clicache/integration-test/BuiltinCacheableWrappersN.cs:1492-1549 | no types means division by zero; otherwise a dictionary is made exactly when every pair of types that is combined has a key and no two added ones are equal; it then has exactly the keys of the pairs whose value types are stored, each with its drawn value; for distinct registered ids with dates inside the calendar it is always made |
| HashMapKeys.BuiltinsRegistered | clicache/integration-test/BuiltinCacheableWrappersN.cs:141-238 | the ids the built-in key types are registered under meet the conditions, for any selection of them |
| HashMapKeys.NarrowTypesRepeat | clicache/integration-test/BuiltinCacheableWrappersN.cs:1526-1530 | past their width bool, sbyte, short and char keys repeat, which is what the MaxKeys break prevents |
| WrapperFactory.Factory.RegisterType | clicache/integration-test/CacheableWrapperN.cs:204-217 | keeps the dictionaries in agreement with the history of registrations |
| WrapperFactory.Factory.RegisterKeyType | clicache/integration-test/CacheableWrapperN.cs:219-234 | the same for key types, which are value types too |
| WrapperFactory.Factory.ClearStaticVariables | clicache/integration-test/CacheableWrapperN.cs:236-243 | starts a new history |
| WrapperFactory.Factory.CreateInstance | clicache/integration-test/CacheableWrapperN.cs:143-158 | gives the wrapper of the newest registration of the id, of either kind |
| WrapperFactory.Factory.CreateKeyInstance | clicache/integration-test/CacheableWrapperN.cs:174-188 | gives the wrapper of the newest registration of the id as a key type, even if a value registration came later |
| WrapperFactory.Factory.CreateInstanceFor | clicache/integration-test/CacheableWrapperN.cs:160-172 | succeeds exactly when the .NET type was registered, and gives the newest wrapper of the id it was registered with last |
| WrapperFactory.Factory.CreateKeyInstanceFor | clicache/integration-test/CacheableWrapperN.cs:190-202 | the same through the key dictionary, which may have no entry for the id |
| WrapperFactory.Factory.GetTypeForId | clicache/integration-test/CacheableWrapperN.cs:244-255 | gives the name of the newest registration of the id |
| WrapperFactory.NamedTypeRegistered | clicache/integration-test/CacheableWrapperN.cs:204-234 | in every history a .NET type leads to an id that has a wrapper |
| WrapperFactory.NewestIsLast | clicache/integration-test/CacheableWrapperN.cs:204-234 | an id leads to its last registration, and as a key type to the last one made as a key type; to nothing exactly when there is none |
| WrapperFactory.NewestForIsLast | clicache/integration-test/CacheableWrapperN.cs:204-234 | a .NET type leads to the last registration that named it |
| WrapperFactory.KeyTypesAreTypes | clicache/integration-test/CacheableWrapperN.cs:219-234 | in every history an id with a key wrapper has a wrapper |
| ContainerChecksums.FoldSucceeds | clicache/integration-test/BuiltinCacheableWrappersN.cs:2298-2311 | a container's checksum throws exactly when some entry's does, whatever the order |
| ContainerChecksums.FoldWithout | clicache/integration-test/BuiltinCacheableWrappersN.cs:2298-2311 | taking one entry out, wherever it stands, takes out exactly its contribution |
| ContainerChecksums.ParityDecides | clicache/integration-test/BuiltinCacheableWrappersN.cs:2293-2312 | the checksum depends only on which entries occur an odd number of times |
| ContainerChecksums.OrderIrrelevant | clicache/integration-test/BuiltinCacheableWrappersN.cs:2477-2496 | equal multisets of entries have equal checksums in any two orders |
| ContainerChecksums.OneMoreEntry | clicache/integration-test/BuiltinCacheableWrappersN.cs:2293-2312 | adding or removing one entry, with any reordering, changes the checksum by exactly its contribution |
| ContainerChecksums.ListFold | clicache/integration-test/BuiltinCacheableWrappersN.cs:2298-2311 | a list's checksum exists exactly when every entry that is not null has a wrapper and a checksum, and is then the XOR of these; otherwise the error is that of the first entry without one |
| ContainerChecksums.SetFold | clicache/integration-test/BuiltinCacheableWrappersN.cs:1839-1850 | the same for every entry of a set |
| ContainerChecksums.MapFold | clicache/integration-test/BuiltinCacheableWrappersN.cs:1559-1575 | a map's checksum exists exactly when every key and every value has a wrapper and a checksum and no value is null, and is then the XOR of all key checksums and all value checksums; otherwise the error is that of the first pair without one |
| ContainerChecksums.ListChecksum | clicache/integration-test/BuiltinCacheableWrappersN.cs:2293-2312 | the loop of vectors, object arrays, lists and stacks gives the XOR of the checksums of the entries that are not null, or the error of the first without one; a null container fails an assertion |
| ContainerChecksums.SetChecksum | clicache/integration-test/BuiltinCacheableWrappersN.cs:1835-1851 | the loop of hash sets and linked hash sets gives the XOR of the key checksums, or the error of the first entry without one |
| ContainerChecksums.MapChecksum | clicache/integration-test/BuiltinCacheableWrappersN.cs:1551-1577 | the loop of hash maps and hash tables gives the XOR of the checksums of all keys and all values, or the error of the first pair without one |
| ContainerChecksums.DictionaryChecksumWellDefined | clicache/integration-test/BuiltinCacheableWrappersN.cs:1659-1685 | any two enumerations of one dictionary have the same checksum |
| ContainerChecksums.DictionaryAdd | clicache/integration-test/BuiltinCacheableWrappersN.cs:1659-1685 | adding a new key changes a dictionary's checksum by that entry's contribution |
| MachineIntegers.CastRoundTrip | clicache/integration-test/PutGetTestsN.cs:347-353 | the casts from uint to int and back lose nothing |
| MachineIntegers.WrappedSteps | clicache/integration-test/DupListenerN.cs:58-58 | a 32-bit counter shows the count modulo 2^32 |
| PutGet.DataKeysNotReserved | clicache/integration-test/PutGetTestsN.cs:41-42 | no key type makes a key that could be a checksum key |
| PutGet.SumKeysApart | clicache/integration-test/PutGetTestsN.cs:274-286 | the two families of checksum keys never meet |
| PutGet.SumKeysInjective | clicache/integration-test/PutGetTestsN.cs:274-274 | different indices give different checksum keys |
| PutGet.PutAllAt | clicache/integration-test/PutGetTestsN.cs:162-184 | after the puts each key holds the value stored under it last, and other keys are as before |
| PutGet.PutSumsAt | clicache/integration-test/PutGetTestsN.cs:272-275 | after the checksum puts each checksum key holds its checksum |
| PutGet.AfterPutsAt | clicache/integration-test/PutGetTestsN.cs:413-422 | after all three rounds of puts, over any earlier contents, every index reads back its key's last value and both its checksums |
| PutGet.VerifyDecided | clicache/integration-test/PutGetTestsN.cs:333-391 | on any region the verification finds nothing exactly when, for every index, the key holds a value that is not null, both checksum entries hold numbers that cast back to the checksums of key and value, and there is a value of that index; otherwise it reports why the first index does not pass |
| PutGet.VerifyAfterPuts | clicache/integration-test/PutGetTestsN.cs:333-391 | for any keys outside the reserved names and any values, the verifying client passes exactly when every key's last value is not null and has the checksum of every value stored under it |
| PutGet.GeneratedKeysVerify | clicache/integration-test/PutGetTestsN.cs:413-422 | with generated keys of any type the verifying client passes exactly when no value is null |
| PutGet.Client.InitKeys | clicache/integration-test/PutGetTestsN.cs:98-123 | fills the key and checksum arrays with the first indices of the type, at most MaxKeys, up to the first index whose key cannot be made or whose checksum throws, and reports that error |
| PutGet.Client.InitValues | clicache/integration-test/PutGetTestsN.cs:128-149 | fills the value and checksum arrays up to the first value whose checksum throws, and reports that error |
| PutGet.Client.DoPuts | clicache/integration-test/PutGetTestsN.cs:156-187 | stores the pairs in order up to the end of the shorter array; null values are removed and added again |
| PutGet.Client.DoKeyChecksumPuts | clicache/integration-test/PutGetTestsN.cs:267-278 | stores every key checksum, cast to int, under its checksum key |
| PutGet.Client.DoValChecksumPuts | clicache/integration-test/PutGetTestsN.cs:280-291 | stores every value checksum, cast to int, under its checksum key |
| PutGet.Client.DoGetsVerify | clicache/integration-test/PutGetTestsN.cs:333-391 | on any region, passes exactly when every index is vouched for by its entry and its two checksum entries, and otherwise reports why the first one is not; no keys fail the closing log line |
| PutGet.PutPhase | clicache/integration-test/PutGetTestsN.cs:418-420 | an initialised client's three rounds of puts never fail |
| PutGet.PutGetSteps | clicache/integration-test/PutGetTestsN.cs:413-434 | both directions of the protocol pass exactly when neither client has a null value, whatever happens to the region in between |
| PutGet.SetUp | clicache/integration-test/PutGetTestsN.cs:475-484 | keys and values of both clients are set up exactly when every key and value can be made and checksummed |
| PutGet.TestKeyValuePair | clicache/integration-test/PutGetTestsN.cs:472-490 | from two new clients and any region contents, the test of one pair of types passes exactly when the set-up works and no drawn value is null |
| Transactions.RegionOperation.PutOp | clicache/integration-test/RegionOperationN.cs:47-58 | writes exactly the keys 1 to n and 10001 to 10000 + n and leaves the others; where the families overlap the plain value wins |
| Transactions.RegionOperation.DestroyOpWithPdxValue | clicache/integration-test/RegionOperationN.cs:77-85 | removes exactly those keys |
| Transactions.OpKeysMembers | clicache/integration-test/RegionOperationN.cs:47-58 | the keys are exactly 1 to n and 10001 to 10000 + n |
| Transactions.OpKeysCount | clicache/integration-test/RegionOperationN.cs:47-58 | there are 2n keys up to 10000, where the two families do not meet, and 10000 + n beyond |
| TransactionRuns.StepKeepsInv | cppcache/src/CacheTransactionManagerImpl.cpp:43-334 | every call the manager allows, by any thread, also a resume that gets no connection, keeps the invariant about ownership, log and entries |
| TransactionRuns.TransactionsOwned | cppcache/src/CacheTransactionManagerImpl.cpp:43-334 | in every run of begins, puts, suspends, resumes, failed resumes, commits and rollbacks by any threads: no two threads hold one transaction (a thread that has published it and is about to let go no longer counts), an ended one never exists again, and a live one is suspended or held but not both if and only if no resume of it has failed |
| TransactionRuns.OrphansStay | cppcache/src/CacheTransactionManagerImpl.cpp:300-334 | a transaction whose resume failed exists in every later state, not suspended, held by no thread and resumable by none |
| TransactionRuns.OrphanExample | cppcache/src/CacheTransactionManagerImpl.cpp:239-256 | a run that loses a transaction and what it has written |
| TransactionProgress.CanEnd | cppcache/src/CacheTransactionManagerImpl.cpp:53-334 | in every run, a live transaction whose resume has not failed can still be committed or rolled back, by its holder or by any given thread, without ending any other |
| TransactionProgress.CanBegin | cppcache/src/CacheTransactionManagerImpl.cpp:43-51 | a thread without a transaction can begin one with an id never used before |
| TransactionRuns.CommittedIsKept | cppcache/src/CacheTransactionManagerImpl.cpp:53-137 | in every run the committed regions hold exactly what committed transactions, or puts outside any, have written, and a thread in a transaction sees that and what its transaction has written, whichever threads held it before |
| TransactionScripts.ResumeRestores | cppcache/src/CacheTransactionManagerImpl.cpp:239-334 | any idle thread that gets a connection can resume a suspended transaction and sees what its first thread saw, and the same thread gets the manager back as it was; a resume without a connection leaves it existing and resumable by none |
| TransactionScripts.ScriptSuspends | clicache/integration-test/ThinClientCSTXN.cs:362-388 | the script's assertions up to the second put hold for any thread and any other transactions under way |
| TransactionScripts.ScriptEnds | clicache/integration-test/ThinClientCSTXN.cs:278-294 | so do the assertions from there on, for commit and rollback, and the script leaves the manager as it was but for a used id |
| Handshake.StepKeepsInv | clicache/integration-test/ThinClientCSTXN.cs:615-776 | every statement of every thread keeps the invariant that ties thread positions, events, log and manager together |
| Handshake.NoDeadlock | clicache/integration-test/ThinClientCSTXN.cs:298-356 | while the main thread has work left some thread can take a step |
| Handshake.HandshakeSafe | clicache/integration-test/ThinClientCSTXN.cs:298-356 | in every reachable state of every list of rounds: nothing throws, sleep rounds never fail and check before suspending, a failed round checked before it was suspended, and between rounds both events are unset, both regions empty and no transaction known |
| Handshake.RoundOutcome | clicache/integration-test/ThinClientCSTXN.cs:658-776 | a round passes exactly when it sleeps or its suspension comes before the first check |
| Handshake.HandshakeEnds | clicache/integration-test/ThinClientCSTXN.cs:298-356 | every run is finite, and one that cannot go on has passed all rounds or stopped at a round without sleep that lost the race |
| Handshake.PassingRunLength | clicache/integration-test/ThinClientCSTXN.cs:298-356 | under every schedule a run that passes takes exactly 30 steps a round, two more with sleep and two more for a commit: no statement is skipped or repeated |
| Handshake.SleepRoundsAlwaysPass | clicache/integration-test/ThinClientCSTXN.cs:328-354 | rounds that all sleep pass under every schedule |
| Handshake.CanPass | clicache/integration-test/ThinClientCSTXN.cs:298-356 | every list of rounds has a schedule that passes |
| Handshake.CanFail | clicache/integration-test/ThinClientCSTXN.cs:298-326 | every round without sleep has a schedule on which all rounds before it pass and main reports the failure of that round |
| Substitution.SequentialIsSimultaneous | clicache/integration-test/CacheHelperN.cs:1770-1785 | replacing placeholders one after the other equals replacing them at once if and only if there is no hazard |
| Leftovers.BecomesUnique | clicache/integration-test/CacheHelperN.cs:1770-1785 | at most one placeholder ever comes to stand at the front of a text, whether it is there or is completed by an earlier replacement |
| Leftovers.CascadeUnfolds | clicache/integration-test/CacheHelperN.cs:1770-1785 | a bare stem completed by an earlier replacement stays until its turn and is then consumed together with the digit it took |
| Leftovers.PlaceholderLeft | clicache/integration-test/CacheHelperN.cs:1770-1785 | the replacements leave a placeholder in the text exactly when its bare stem stands before something that turns, at or after that placeholder's own turn, into a value starting with its digit |
| Substitution.PlainTextReplaced | clicache/integration-test/CacheHelperN.cs:1770-1785 | without a placeholder after a bare stem, the result is the simultaneous one and no placeholder is left, for all values |
| Placeholders.PortRulesValid | clicache/integration-test/CacheHelperN.cs:1773-1781 | the eight placeholders and all port numbers, negative ones too, are an instance of that theory |
| Placeholders.SequentialRendered | clicache/integration-test/CacheHelperN.cs:1773-1781 | in a text whose references are separated by anything without a bare stem, after n replacements the first n ports stand as numbers in the places of their names and all else is unchanged |
| Placeholders.CreateDuplicateXml | clicache/integration-test/CacheHelperN.cs:1770-1785 | every HOST_PORT and LOC_PORT reference gives way to the port it names, in any text without bare stems between its references; for all texts the eight replacements give the simultaneous substitution if and only if there is no hazard, and leave exactly the placeholders that the condition on leftovers names |
| Placeholders.HazardExample | clicache/integration-test/CacheHelperN.cs:1773-1774 | a text on which they are not a simultaneous substitution, whenever the first port starts with 2 |
| Placeholders.LeftoverExample | clicache/integration-test/CacheHelperN.cs:1773-1778 | a text in which they leave a placeholder, whenever the first locator port starts with 3 |
| Placeholders.ConsumedExample | clicache/integration-test/CacheHelperN.cs:1773-1774 | a text in which the placeholder that arises is consumed by the next replacement, so none is left |
| ResultCollector.Collector.AddResult | clicache/integration-test/ThinClientAppDomainFunctionExecutionTests.cs:57-62 | appends the result and counts it |
| ResultCollector.Collector.GetResult | clicache/integration-test/ThinClientAppDomainFunctionExecutionTests.cs:68-85 | returns at once when ready, throws without time to wait, else joins the queue |
| ResultCollector.Collector.Timeout | clicache/integration-test/ThinClientAppDomainFunctionExecutionTests.cs:75-77 | a wait that runs out leaves the queue and throws |
| ResultCollector.Collector.EndResults | clicache/integration-test/ThinClientAppDomainFunctionExecutionTests.cs:87-95 | sets the flag and releases the first waiting caller |
| ResultCollector.Collector.ClearResults | clicache/integration-test/ThinClientAppDomainFunctionExecutionTests.cs:97-104 | resets results, counters and flag, but not the queue |
| ResultCollector.ReturnsNeedEnd | clicache/integration-test/ThinClientAppDomainFunctionExecutionTests.cs:68-95 | in every run a call returns normally only after some EndResults |
| ResultCollector.CountsSinceClear | clicache/integration-test/ThinClientAppDomainFunctionExecutionTests.cs:57-104 | in every run flag, results and counters are those of the events since results were last cleared |
| ResultCollector.CallsAccounted | clicache/integration-test/ThinClientAppDomainFunctionExecutionTests.cs:57-95 | in every run, cleared or not, every call is waiting or finished, every caller that waited is released, timed out or waiting, and there are at most as many releases as EndResults |
| ResultCollector.ReleasedInOrder | clicache/integration-test/ThinClientAppDomainFunctionExecutionTests.cs:68-95 | in every run without timeouts, cleared or not, callers are released in the order they came, one per EndResults while one waits, and the rest keep waiting |
| ResultCollector.FreedByEnds | clicache/integration-test/ThinClientAppDomainFunctionExecutionTests.cs:68-95 | until cleared, n calls of EndResults release n callers, or all that waited |
| ResultCollector.LaterCallersReturn | clicache/integration-test/ThinClientAppDomainFunctionExecutionTests.cs:68-85 | after an EndResults not followed by clearing every new caller returns at once with the results added since the last clearing |
| ResultCollector.ReturnsSeeResults | clicache/integration-test/ThinClientAppDomainFunctionExecutionTests.cs:57-95 | every normal return sees at least the results added before the first EndResults |
| DupListener.Listener.Check | clicache/integration-test/DupListenerN.cs:56-72 | counts the event, asserts that the value is one more than the last, and remembers it only if so |
| DupListener.Listener.Validate | clicache/integration-test/DupListenerN.cs:74-85 | true exactly for the expected number of keys and events and the final value everywhere |
| DupListener.PassesMeansChains | clicache/integration-test/DupListenerN.cs:56-72 | no assertion fails exactly when every key's values each follow the one before |
| DupListener.LastValues | clicache/integration-test/DupListenerN.cs:56-72 | the map holds exactly the keys received and each key's newest value |
| DupListener.RejectedAreForgotten | clicache/integration-test/DupListenerN.cs:56-72 | in every run, also with failed assertions, rejected events are counted and otherwise leave no trace: the accepted ones alone pass and leave the same map |
| DupListener.ValidationMeansExact | clicache/integration-test/DupListenerN.cs:56-97 | a passing run that validates delivered every key exactly 1 to the final value, in order, if and only if every value was at least 1; exact delivery always passes and validates |
| DupListener.ZeroHidesALostEvent | clicache/integration-test/DupListenerN.cs:74-85 | a run with a value 0 that passes and validates although a key missed an event |
| PollingVerifier.VerifyAll | clicache/integration-test/DistOpsStepsN.cs:41-137 | at most 1000 polls; returns normally exactly at the first poll that observes the stopping condition, throws at a poll that finds no value, and otherwise fails: the loop's end is not reached |
| PollingVerifier.VerifyDestroyed | clicache/integration-test/DistOpsStepsN.cs:144-147 | passes exactly when some poll finds the key absent, or one before the last finds the value absent |
| PollingVerifier.VerifyInvalid | clicache/integration-test/DistOpsStepsN.cs:139-142 | passes exactly when the key was there and some poll finds no value |
| PollingVerifier.VerifyEntry | clicache/integration-test/DistOpsStepsN.cs:149-159 | passes exactly when the checks before pass and the value is seen before any poll finds none; throws exactly when a poll finds none before the value is seen |
| PollingVerifier.VerifyCreated | clicache/integration-test/DistOpsStepsN.cs:161-164 | passes exactly when some poll finds the key |
| DeltaReplica.DeltaTestAD.HasDelta | clicache/integration-test/ThinClientDeltaTest.cs:106-112 | increments the counter and decides by its signed remainder |
| DeltaReplica.Put | clicache/integration-test/ThinClientDeltaTest.cs:101-138 | one put leaves the receiver with what the sent change or value makes of its copy |
| DeltaReplica.ReplicasAgree | clicache/integration-test/ThinClientDeltaTest.cs:92-138 | however many puts are made by whichever clients, after the first put every copy shows the number of puts made and the unchanged data, and no change reaches a client without a copy, through every wrap of the counter |
| DeltaReplica.DeltaWhen | clicache/integration-test/ThinClientDeltaTest.cs:106-112 | exactly which puts send a change: every second one until the counter wraps, none while it is negative |
| SqliteStore.SqLiteHelper.InitDB | sqliteimpl/SqLiteHelper.cpp:22-45 | which code is returned for which failure; rows already in the file are kept |
| SqliteStore.SqLiteHelper.CreateTable | sqliteimpl/SqLiteHelper.cpp:47-61 | creates an empty table unless there is one |
| SqliteStore.SqLiteHelper.InsertKeyValue | sqliteimpl/SqLiteHelper.cpp:63-81 | code 0 exactly when the row was replaced |
| SqliteStore.SqLiteHelper.RemoveKey | sqliteimpl/SqLiteHelper.cpp:83-99 | code 0 exactly when the row is gone |
| SqliteStore.SqLiteHelper.GetValue | sqliteimpl/SqLiteHelper.cpp:101-128 | code 0 also for an absent key, with the outputs left unset |
| SqliteStore.SqLiteHelper.DropTable | sqliteimpl/SqLiteHelper.cpp:130-144 | code 0 exactly when there was a table and it is gone |
| SqliteStore.SqLiteHelper.CloseDB | sqliteimpl/SqLiteHelper.cpp:146-151 | drops, then closes; the handle stays open on any failure |
| SqliteStore.SqLiteImpl.WriteEntry | sqliteimpl/SqLiteImpl.cpp:111-131 | the serialized table keeps representing the map, which gains the entry exactly when nothing is thrown |
| SqliteStore.SqLiteImpl.ReadEntry | sqliteimpl/SqLiteImpl.cpp:134-158 | throws exactly when the statement cannot be prepared or first stepped, or the second step fails after a row was found; otherwise returns the map's value, or goes on with unset outputs for an absent key |
| SqliteStore.SqLiteImpl.DestroyEntry | sqliteimpl/SqLiteImpl.cpp:178-189 | removes the entry exactly when nothing is thrown |
| SqliteStore.SqLiteImpl.DestroyRegion | sqliteimpl/SqLiteImpl.cpp:162-165 | succeeds exactly when there is a table and both statements work |
| SqliteStore.Execute | sqliteimpl/SqLiteImpl.cpp:111-189 | any list of writes, reads, destroys and region destroys with any failures, made on a store with any rows: up to the first call that drops the table it represents the fold of the calls that did not throw, every key holds what was written last, and how each call ends follows from its fault and the value written last; from there the region is destroyed, or every call throws |
| SqliteStore.ExecuteLost | sqliteimpl/SqLiteImpl.cpp:111-189 | a store whose table is gone throws at every call |
| SqliteStore.HoldsLastWritten | sqliteimpl/SqLiteImpl.cpp:111-189 | the fold over the rows at the start holds, per key, what the last call that did not throw left there |
| SqliteStore.CallsAnswered | sqliteimpl/SqLiteImpl.cpp:111-189 | for every fault: a read throws exactly when the fault hits preparing or the first step, or the second step with a value written last; otherwise it returns that value, or unset outputs when there is none; writes and destroys throw exactly for the first two faults |
| SqliteStore.FailuresLeaveNoTrace | sqliteimpl/SqLiteImpl.cpp:111-189 | leaving out the calls that threw does not change the store |
| SqliteStore.DestroyRepeatedly | sqliteimpl/SqLiteImpl.cpp:162-165 | calling again until it works destroys a region if and only if the first attempt that drops the table also closes the handle |

## Left out

- Locators, servers, processes, gfsh, XML and log files, directories: input and output only.
- The region, pool, query, continuous-query and PDX engines: a region is a map where a property needs one. As in clicache/src/Region.cpp:153-164, reading an absent key or a null value throws.
- Query, expiration and security tests, tally listeners and writers: counters and scripts with only easy properties.
- The conditional-remove scripts: they state what code outside the repository's tests does.
- String, float, double and array value checksums: the values stay opaque with a fixed checksum. The string-array encoding drops zero high bytes and is not injective.
- The checksum of the identity hash map: it folds an empty dictionary and is constantly 0.
- DoHashPuts, DoRunQuery, DoGets and the path of the put/get steps that does not verify: they compare nothing.
- PutGet.Client.InitKeys: slots that were not reached hold a default object in the model and null in the source, because the arrays of the model hold objects.
- Handshake.HandshakeSafe: assumes that a resume gets its connection, without which it throws in the resuming thread, and that the timed resume does not run out; sleeping is left to the scheduler.
- ResultCollector.CallsAccounted: counter updates outside the lock are taken to be atomic, and a released caller reads the list at the moment of its release.
- HashMapKeys.InitRandomValue: the values drawn are opaque; that registered ids give no duplicate is stated for float keys whose indices are exact.
- PutGet.TestKeyValuePair: float keys are limited to exact indices; PutGet.VerifyAfterPuts says what happens beyond.
- Commit conflicts in the scripts and the handshake: a commit there succeeds. In the runs of the manager a refused commit is an end without commit, and what the server did before a reply was lost is not modelled.
- Raw memory, pragma texts, pointer lifetimes and file removal of the SQLite store.
