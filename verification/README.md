# DistCache, verified

A Dafny 4.11 model of the storage engine, the hash ring, the wire format and the circuit breaker of
DistCache, with proofs about every input, every run and every reachable state.
`dafny verify dfyconfig.toml` checks all of it.

## What is modelled

| files | part of the system |
|---|---|
| `Collections.dfy` | facts about sequences, sets and maps used by several modules |
| `Recency.dfy`, `CacheRuns.dfy`, `CacheAnswers.dfy`, `Residence.dfy` | the recency list of the cache as a value, what timed runs of calls keep, and exactly when a key answers |
| `KeyLists.dfy`, `LRUCaches.dfy` | the cache as code: key table, doubly linked list and position table, updated in place, proved against that list |
| `TextLines.dfy`, `WalLog.dfy`, `LogTears.dfy`, `Snapshots.dfy` | `std::getline`, the log format, logs that end inside a line, and the snapshot format, byte by byte |
| `Recovery.dfy`, `Rebuilding.dfy` | replay of snapshot pairs and log records, with and without its clock readings |
| `StoreRuns.dfy`, `Commands.dfy` | the store as a step machine with torn appends, crashes and restarts, and what each command does to it |
| `Crashes.dfy`, `RestartAnswers.dfy` | what crashes and restarts lose or bring back |
| `Server.dfy`, `Drivers.dfy` | the command and recovery code, and that code driven through histories of calls and runs of the step machine |
| `RingHash.dfy`, `HashValues.dfy`, `HashRings.dfy`, `RingCollision.dfy` | the 32-bit FNV-1a hash and its values, the ring, and two node names whose points collide |
| `RespReplies.dfy`, `RespTokens.dfy` | the serializers and the tokenizer |
| `CircuitBreakers.dfy`, `BreakerRuns.dfy` | the breaker as code and its timed histories |

Code that updates fields or local buffers is a class or a method with loops; each one is tied to a function of
its inputs or old state, and the theorems are about those functions.

Conventions. A character of a string stands for one byte; the text theorems hold for every character and so
for all 256 byte values. The hash works on bytes as numbers. Clock readings are integers in nanoseconds,
passed in as parameters; where a theorem needs them not to go back, it says so. A file is the sequence of its
bytes. A map iterated by the code is visited in an arbitrary order, so the theorems hold for each. Every method
runs alone.

## Findings

Properties the documentation or the tests suggest, and that the code does not have; each is a lemma with the
input, next to the exact condition.

- A read does not protect a key from eviction (`CacheAnswers.ReadDoesNotSaveFromEviction`), although the
  repository's test of recency expects it at capacity 5. Eviction is by recency of `set`
  (`CacheAnswers.EvictionIsByRecencyOfSet`). The default time to live is 24 hours in the code; the Readme says 3600 seconds.
- A key that expired, and was swept, can answer again after a restart, because the log holds no times
  (`RestartAnswers.ExpiredKeyReturns`, at every capacity above 0). After a restart a key answers exactly when it stays
  in the cache over the records of snapshot and log and its last write, timed by the restart, is unexpired
  (`RestartAnswers.AnswersAfterRestartIff`); for 24 hours and without deletions that is when fewer keys than the capacity
  were set after it (`RestartAnswers.AnswersForADayIff`).
- Two writers of one key that cross between cache and log leave one value live and the other recovered
  (`RestartAnswers.CrossedWritersDiverge`): the two locks are separate. Commands are therefore serial in the step machine.
- The log reads back what was appended exactly when operation and key are words (or missing from the right) and the
  value has no line feed (`WalLog.RoundTrip`). A word holds none of space, tab, line feed, bytes 11 and 12 and carriage
  return (`LogTears.WordsReadBackIff`); a key with one of them inside is lost (`LogTears.SeparatorInKeyIsLost`).
- A torn log line can delete another key (`LogTears.TornDeleteHitsAnotherKey`). Cut after n bytes, the line of a `SET` or
  `DEL` of key k acts on another key exactly when k is not empty and 3 <= n < 4 + |k|; it writes at all exactly from n = 3
  on (`LogTears.CutActsIff`).
- A record appended after a tear need not be read back as itself (`LogTears.TearHidesNextWrite`). Records appended to a file
  of any text come back behind what it gave before exactly when they are clean and the file was empty or ended in a line feed
  (`LogTears.AppendedReadBackIff`); a single one is still read as itself exactly when it is clean and the unfinished
  line is blank (`LogTears.ReadBackIff`). A run of the store keeps every acknowledged write exactly when all of its
  appends were of that kind (`StoreRuns.AcksReadBackIff`): with clean commands, when nothing was appended while the log
  was torn, which the steps tell (`StoreRuns.CleanRunsCarefulIff`). A restart makes the list follow the log again, so
  what recovery promises depends only on the appends since then (`StoreRuns.RunsKeepInvariant`).
- Nodes `adyu` and `hooi` share a virtual point, so the ring depends on the order in which they joined
  (`RingCollision.RingOfCollidingNodesDependsOnOrder`); the order is irrelevant exactly when no point is shared
  (`HashRings.AddsCommuteIff`), and the ring is a function of the membership exactly then (`HashRings.MembersDetermineRingIff`).
- A command that begins with `*` or `$` does not survive being written out and parsed again
  (`RespTokens.ReparseIff`), and a line reply whose payload holds CR LF can be read as a shorter one
  (`RespReplies.LineAmbiguousIff`).
- After 2^31 failures without a closing the breaker's failure counter is negative while the breaker is OPEN
  (`BreakerRuns.CounterWraps`); the counter agrees with the state exactly under the condition of
  `BreakerRuns.CounterTellsStateIff`, and the state itself is right in every run (`BreakerRuns.StateCountsFailures`).

## Model

| member | source | states |
|---|---|---|
| KeyLists.KeyList.PushFront | src/storage/LRUCache.cpp:43-44 | the list is linked in both directions again, with a new node for the key in front of the old nodes |
| KeyLists.KeyList.Erase | src/storage/LRUCache.cpp:38-40 | unlinking a node found by reference closes the gap at its place and leaves the order of the others |
| LRUCaches.LRUCache.constructor | src/storage/LRUCache.cpp:4 | a new cache is empty, consistent and has the given capacity |
| LRUCaches.LRUCache.OrderFacts | src/storage/LRUCache.h:39-43 | whenever the three structures agree, the list has no key twice and as many entries as the key table |
| LRUCaches.LRUCache.Get | src/storage/LRUCache.cpp:6-25 | the answer is that of the recency list at this time, the order is untouched, one counter goes up by one, only the access time of a hit changes |
| LRUCaches.LRUCache.Exists | src/storage/LRUCache.cpp:62-66 | true exactly when a read would hit, with no state changed |
| LRUCaches.LRUCache.Set | src/storage/LRUCache.cpp:27-50 | the three structures agree again, within capacity, and represent the entry put in front of the others, cut to capacity; the slot of the key holds value, expiry and access time, and the slots that stay are untouched |
| LRUCaches.LRUCache.EvictOverCapacity | src/storage/LRUCache.cpp:46-49 | the loop ends and leaves the first capacity entries, at capacity 0 none |
| LRUCaches.LRUCache.EvictLru | src/storage/LRUCache.cpp:97-104 | the last entry goes from all three structures; on the empty cache nothing happens |
| LRUCaches.LRUCache.Del | src/storage/LRUCache.cpp:52-60 | the key goes from all three structures and the order of the others stays; an absent key changes nothing |
| LRUCaches.LRUCache.CleanupExpired | src/storage/LRUCache.cpp:68-83 | erasing while iterating, in any order of the key table, removes exactly the expired entries and keeps the order of the others |
| Recency.PutDistinct | src/storage/LRUCache.cpp:37-49 | after a set no key is listed twice and the list is within capacity |
| CacheRuns.RunBounded | src/storage/LRUCache.cpp:27-83 | after every history of calls the list has no key twice and is within capacity |
| CacheRuns.CapacityInclusion | src/storage/LRUCache.cpp:27-104 | for the same timed calls, the list of the smaller cache is a prefix of the list of the larger |
| CacheRuns.LargerCacheHitsMore | src/storage/LRUCache.cpp:6-25 | every positive answer of the smaller cache is the same answer of the larger, its hits are at most those of the larger, and hits plus misses are the gets in both |
| CacheRuns.CutPoint | src/storage/LRUCache.cpp:46-83 | with cleanups inserted and capacity enlarged, the second list begins with all that is live in the first, whatever entries the first has beside |
| CacheRuns.CleanupNeverLosesAHit | src/storage/LRUCache.cpp:68-83 | inserting cleanups anywhere, and enlarging the capacity, turns no hit of get or exists into a miss and changes no value of such a hit, for arbitrary times to live |
| CacheAnswers.HoldsLatestWrites | src/storage/LRUCache.cpp:27-60 | whatever is in the cache under a key is the latest set of that key with no del after it |
| CacheAnswers.HitIsLatestWrite | src/storage/LRUCache.cpp:6-25 | a hit returns the latest write of the key, and that write has not expired |
| CacheAnswers.RecentWriteIsHit | src/storage/LRUCache.cpp:6-50 | an unexpired latest write answers as long as fewer than capacity other keys were set after it, whatever reads, dels and cleanups happened |
| CacheAnswers.EvictionIsByRecencyOfSet | src/storage/LRUCache.cpp:20-50 | with no removals, a key answers exactly when its latest write is unexpired and fewer than capacity other keys were set since, however often it was read |
| CacheAnswers.AnswersUntilExpiry | src/storage/LRUCache.cpp:30-35 | after any history a key just set answers up to and including the end of its time to live, 24 hours when none is given, and not after |
| CacheAnswers.ReadsAreInvisible | src/storage/LRUCache.cpp:20-24 | dropping all reads from a history changes no list |
| CacheAnswers.ReadDoesNotSaveFromEviction | tests/test_LRUCache.cpp:75-94 | on the calls of this test the key that was read answers exactly at capacities above 5 and the unread next one above 4, so at capacity 5 the read key is evicted and the unread one stays, against what the test expects |
| Residence.HeldIffStays | src/storage/LRUCache.cpp:27-83 | after every history a key is in the cache if and only if it was set, then neither deleted nor swept, and at each later set of another key fewer than capacity keys stood ahead of it; then the cache holds its latest write |
| Residence.AnswerIff | src/storage/LRUCache.cpp:6-83 | after every history, with any deletions, cleanups, clocks and times to live, a key answers if and only if it stays and its latest write is unexpired, and with that value |
| Residence.RepliesAreTold | src/storage/LRUCache.cpp:6-66 | every reply of a run of calls is told by the history before its call: a get gives the latest value or a miss, an exists yes or no |
| WalLog.ReplayIsClean | src/storage/WAL.cpp:55-83 | whatever the file holds, replay returns only records of the clean form |
| WalLog.RoundTrip | src/storage/WAL.cpp:25-83 | replay of appended records returns exactly those records if and only if all of them are clean |
| WalLog.HistoryRoundTrip | src/storage/WAL.cpp:25-96 | after any history of appends and truncations replay returns the appends since the last truncation if and only if those are clean |
| LogTears.ParseWords | src/storage/WAL.cpp:67-79 | any line of two words or more: the six separating bytes before the words are passed over, and the value is the rest without one leading space |
| LogTears.ParseShort | src/storage/WAL.cpp:67-79 | a line of one word gives an operation alone, and a line of separating bytes the empty record |
| LogTears.EmptyLineGivesNothing | src/storage/WAL.cpp:65 | an empty line between complete lines adds no record |
| LogTears.WordsReadBackIff | src/storage/WAL.cpp:25-83 | in bytes: an operation and a key, neither empty, appended to a file that is empty or ends in a line feed, are read back with their value if and only if neither holds space, tab, line feed, byte 11, byte 12 or carriage return and the value no line feed |
| LogTears.SeparatorInKeyIsLost | src/storage/WAL.cpp:70 | a key with any of those six bytes inside is not read back, on any such file |
| LogTears.AppendedReadBackIff | src/storage/WAL.cpp:16-35 | records appended to a file of any text are read back as themselves, behind what it gave before, if and only if they are clean and the file was empty or ended in a line feed, or there are none |
| LogTears.ReadBackIff | src/storage/WAL.cpp:25-83 | whatever stood in the file and whatever follows, the line an append went to is read as the appended record if and only if the record is clean and the line was blank before |
| LogTears.AppendAfterTear | src/storage/WAL.cpp:16-35 | a record appended to a torn file makes one record with the torn bytes, in place of the record these gave, and it is the appended one if and only if those bytes are blank |
| LogTears.TearHidesNextWrite | src/storage/WAL.cpp:16-35 | after a tear of two bytes the next write is read with operation SESET |
| LogTears.ReadsRemnant | src/storage/WAL.cpp:67-79 | a clean line cut after any number of bytes reads as its parts up to the cut |
| LogTears.CutActsIff | src/storage/WAL.cpp:67-79 | a cut SET or DEL writes exactly from three bytes on, acts on another key exactly while bytes of a nonempty key are missing, and is the write itself only when whole or when the key is empty and just its space is missing |
| LogTears.TornDeleteHitsAnotherKey | src/storage/WAL.cpp:55-83 | a cut deletion of ab reads as a deletion of a |
| LogTears.TornTail | src/storage/WAL.cpp:25-83 | every byte prefix of a file of clean records reads as the records of its complete lines in order and at most one more, which is the next record with its parts cut |
| WalLog.Wal.Append | src/storage/WAL.cpp:25-35 | the file grows by exactly one line for the record, without a value part when the value is empty |
| WalLog.Wal.ReadAll | src/storage/WAL.cpp:55-83 | the reading loop returns the replay of the whole file, last unfinished line included |
| WalLog.Wal.Truncate | src/storage/WAL.cpp:92-96 | the file is empty afterwards |
| Snapshots.UnescapeEscape | src/storage/MMapPersistence.cpp:111-178 | unescaping an escaped text followed by anything gives the text and the unescaped rest |
| Snapshots.EscapeRoundTrip | src/storage/MMapPersistence.cpp:111-178 | unescaping undoes escaping, and escaped text has no space and no line feed |
| Snapshots.SnapshotRoundTrip | src/storage/MMapPersistence.cpp:11-61 | load after snapshot gives the same map, for every map and every iteration order |
| Snapshots.EscapesAre | src/storage/MMapPersistence.cpp:111-139 | space, line feed, carriage return, tab and backslash are written as backslash and s, n, r, t and backslash, and any other character as itself |
| Snapshots.LoneBackslash | src/storage/MMapPersistence.cpp:141-178 | a backslash at the end or before another letter than the five stands for itself |
| Snapshots.LaterPairOverrides | src/storage/MMapPersistence.cpp:39-58 | a written pair behind any complete lines sets its key, whatever they gave it |
| Snapshots.SpacelessLineIsSkipped | src/storage/MMapPersistence.cpp:40-47 | a line without a space behind any complete lines changes nothing |
| Snapshots.EscapeString | src/storage/MMapPersistence.cpp:111-139 | the loop writes the escaped text |
| Snapshots.UnescapeString | src/storage/MMapPersistence.cpp:141-178 | the loop with its skipped index reads escapes, and a lone backslash as itself |
| Snapshots.Persistence.Snapshot | src/storage/MMapPersistence.cpp:11-28 | whatever was in the file, loading it afterwards gives the map just written |
| Snapshots.Persistence.LoadAll | src/storage/MMapPersistence.cpp:30-61 | lines without a space are passed over and a later line of a key overrides, on every file |
| Recovery.Leftovers | main.cpp:49-59 | replaying a log over any cache gives the replay from empty followed only by entries of that cache the log never touches, in their order |
| Recovery.SnapshotThenLog | main.cpp:49-59 | loading pairs whose keys the log all touches, in any order, before the whole log gives exactly the log alone, at any capacity |
| Recovery.SnapshotAnywhere | main.cpp:49-59 | a snapshot of the cache taken at any point of the history of the log makes no difference to recovery with the whole log |
| Rebuilding.CleanedIsPrefix | src/storage/LRUCache.cpp:68-83 | when later positions expire earlier, a cleanup leaves a prefix of the list |
| Rebuilding.RestartIsRebuilt | main.cpp:47-59 | whatever the log file holds, a restart builds the keys and values of its replay, at whatever clock readings |
| StoreRuns.RunsKeepLog | src/storage/WAL.cpp:25-35 | over every run, torn appends included, the lines of the acknowledged writes stand in the log where they were appended, in order and apart, behind what was found at first start |
| StoreRuns.TornIff | src/storage/WAL.cpp:16-35 | in every run from any log the last line is unfinished and not blank exactly when the steps say so: found so or left so by the bytes of a crash, with no append after |
| StoreRuns.CrashInLineTears | src/storage/WAL.cpp:29-34 | for a clean pending write a crash tears the log exactly when it leaves some but not all bytes of the line, or none on a log torn before |
| StoreRuns.AcksReadBackIff | src/network/TCPServer.cpp:80-106 | over every run from any log, every acknowledged write is read back as itself if and only if every append was of a clean record while the log was not torn |
| StoreRuns.CleanRunsCarefulIff | src/network/TCPServer.cpp:80-106 | with clean commands the appends of a run, or those since its last restart, were all of that kind if and only if none of them fell while the log was torn |
| StoreRuns.QuietRunsReplayIff | src/storage/WAL.cpp:25-83 | when no crash falls inside an append, replay gives what the first log gave and then the acknowledged writes, if and only if these are clean and that log was empty or ended in a line feed, or there are none |
| StoreRuns.RunsKeepInvariant | src/network/TCPServer.cpp:80-106 | over every run of commands, cleanups, crashes inside appends and restarts at any clock, the list is within capacity, without repetitions and with later expiries in front; when the appends since the last restart were of clean records to a log not torn, it is also a prefix of what the log and the pending write give, whatever happened before |
| Commands.DelForgets | src/network/TCPServer.cpp:94-97 | after any run, from the update of a DEL on the key has no answer at any time and every other key answers as before, and its append adds `DEL`, a space, the key and a line feed to the log |
| Commands.SetAnswers | src/network/TCPServer.cpp:81-84 | after any run at a positive capacity, from the update of a SET on the key answers with the value for 24 hours and not after, every other key as before or, over capacity, not at all, and its append adds `SET`, the key, a nonempty value and a line feed to the log |
| Commands.OthersChangeNothing | src/network/TCPServer.cpp:85-101 | any other command word leaves list and log as they are and nothing to append |
| Crashes.LiveIsPrefixOfRecovered | main.cpp:47-59 | when the appends since the last restart were of that kind, at every command boundary the live list is a prefix, keys and values, of what recovery would build from the files at any time, in the loading order of the last start, or in any order when the log touches all loaded keys |
| Crashes.CrashLosesOnlyThePending | src/network/TCPServer.cpp:81-98 | a crash at any moment and after any bytes of a pending line, and a restart at any clock, change no acknowledged line, keep all of them readable exactly when every append was of that kind, and build what the log then gives |
| Crashes.TornAppend | src/storage/WAL.cpp:29-34 | a crash n bytes into the append of any pending write to any log makes these bytes continue the last line, and the restart builds what the log then gives; for a clean write and a log not torn that is what the log gave before if n is below three, else that and one record for the bytes, which acts as CutActsIff says, and the line with its line feed counts as the write |
| LogTears.CrashTearsIff | src/storage/WAL.cpp:29-34 | the first n bytes of a clean SET or DEL leave the last line blank exactly before the first byte, if it was blank, or after the line feed |
| Crashes.NextWriteReadBackIff | src/storage/WAL.cpp:16-35 | whatever was pending and whatever the log held, the first write acknowledged after a crash and restart is read back as itself if and only if it is clean and the crash left the log not torn: with nothing pending, when it was not torn before; with a clean write pending, when the crash fell before its first byte on a log not torn or after its line feed |
| Crashes.HitsSurviveCrash | main.cpp:47-59 | when the appends since the last restart were of clean records to a log not torn, every hit at a command boundary is the same hit after crash and restart, in the loading orders above, for 24 hours from the clock reading the restart begins at |
| Crashes.CleanRunsRecover | main.cpp:47-59 | with clean commands and no append to a torn log since the last restart, the live list at a command boundary is a prefix of what crash and restart build, and every hit is the same hit afterwards |
| RestartAnswers.ReplayIsRun | main.cpp:55-59 | replay is the cache run on the records as calls |
| RestartAnswers.AnswersAfterRestartIff | main.cpp:47-59 | at every time after a restart a key answers if and only if it stays over the records of snapshot and log as calls at the clock readings of the restart and its last write among these is unexpired, and with that value; whether it had expired before makes no difference |
| RestartAnswers.AnswersForADayIff | main.cpp:47-59 | for 24 hours after a restart a key answers if and only if it stays over the records as calls without times; without deletions, if and only if it is set and fewer keys than the capacity are set after it |
| RestartAnswers.HitIsLatestRecord | src/network/TCPServer.cpp:80-106 | no stale read across crashes: when the appends since the last restart were of clean records to a log not torn, a hit at any moment is the last write of its key in the loaded pairs, the log and the pending write |
| RestartAnswers.HitSurvivesIff | main.cpp:47-59 | then a hit at a command boundary is the same hit after crash and restart, with the snapshot loaded in any order, if and only if its key stays over the pairs in that order and the log, and otherwise a miss |
| RestartAnswers.LoadedIff | main.cpp:49-52 | after loading a snapshot in some order exactly the pairs visited last that fit the capacity are cached |
| RestartAnswers.ExpiredKeyReturns | main.cpp:54-59 | at every capacity above 0 a key that expired and was swept answers again after a restart at any clock |
| RestartAnswers.CrossedWritersDiverge | src/storage/WAL.cpp:26 | when two sets of one key reach cache and log in opposite orders, the live value is that of one and the recovered value that of the other, so they agree exactly when the two values are equal |
| Server.TCPServer.ProcessCommand | src/network/TCPServer.cpp:74-107 | SET makes the key answer with the value for 24 hours and DEL makes it answer never again and leaves every other answer, each with its line appended and told OK; GET is told the value found or (nil) and an unknown word the error with a false flag, and neither changes list or log |
| Server.LoadSnapshot | main.cpp:47-52 | loading the pairs, in any iteration order, is the replay of one SET for each pair |
| Server.ReplayLog | main.cpp:54-59 | the loop applies SET and DEL records in order and passes over the others |
| Server.Recover | main.cpp:47-59 | the cache after start is the replay of the snapshot and then the log, from empty |
| Drivers.Perform | src/storage/LRUCache.cpp:4-83 | a new cache driven through any history of calls has the list of that history, gives its replies, which the history tells, and counts its hits and misses |
| Drivers.Serve | src/network/TCPServer.cpp:74-107 | after any run, one command moves cache and log file as the update and append steps do, with the response read from the list before |
| Drivers.ServeAll | src/network/TCPServer.cpp:74-107 | after any run, any list of commands and cleanups moves cache and log file as the steps of all of them do, and each command is answered from the list at its turn |
| Drivers.SweepOnce | src/storage/LRUCache.cpp:68-83 | after any run, one cleanup moves the cache as the sweep step does and leaves the log |
| Drivers.Start | main.cpp:47-59 | after any run that is down, the start sequence moves cache and log as a restart step does, in the loading order it happens to visit |
| Drivers.FollowChanges | src/cluster/HashRing.cpp:13-34 | a new ring driven through any joins and departures is the ring of that history |
| Drivers.FollowEvents | src/patterns/CircuitBreaker.cpp:8-47 | a new breaker driven through any requests and outcomes has the state of that history and admits what it admits |
| RingHash.MixInverse | src/cluster/HashRing.cpp:8 | multiplying by the prime modulo 2^32 is undone by multiplying by 899433627 |
| RingHash.SingleChangeSeparates | src/cluster/HashRing.cpp:3-11 | two strings of any length that differ in exactly one byte never share a hash, with signed and with unsigned char |
| RingHash.ComputeHash | src/cluster/HashRing.cpp:3-11 | the loop is the fold of the hash step over the bytes |
| HashValues.HashSnoc | src/cluster/HashRing.cpp:5-9 | from 2166136261, each byte is combined bit by bit by exclusive or, as itself or with the upper 24 bits set when it is from 128 on and char is signed, and the result multiplied by 16777619 in 32 bits |
| HashValues.HashOfUmlaut | src/cluster/HashRing.cpp:3-11 | the two UTF-8 bytes of the letter u with diaeresis hash to 804934730 with signed and to 295556170 with unsigned char |
| HashRings.OwnerHoldsNextPoint | src/cluster/HashRing.cpp:36-49 | the owner of a hash holds the first point from it on, or the first point of the ring when there is none |
| HashRings.AddMovesOnlyToTheNewNode | src/cluster/HashRing.cpp:13-22 | on every ring, colliding points included, a key keeps its owner or moves to the added node |
| HashRings.RemoveMovesOnlyItsKeys | src/cluster/HashRing.cpp:24-34 | on every ring a key of another node keeps its owner, and no key stays with the removed node while a point is left |
| HashRings.AddsCommuteIff | src/cluster/HashRing.cpp:15-19 | two nodes give the same ring in either order if and only if they share no point |
| HashRings.AddThenRemoveIff | src/cluster/HashRing.cpp:13-34 | adding and removing a node restores the ring if and only if it was absent and its points were free |
| HashRings.PointsAreThree | src/cluster/HashRing.cpp:15-19 | the virtual points of one node are three different points |
| HashRings.RingIsOfMembers | src/cluster/HashRing.cpp:13-34 | after any changes in any order, with repeats, the ring holds exactly the points of the members when points of different nodes never meet |
| HashRings.RingIsAFunctionOfMembership | src/cluster/HashRing.cpp:13-59 | then the ring has three points a member, its nodes are the members, equal memberships have equal rings, and with more members each key stays or goes to a newcomer |
| HashRings.MembersDetermineRingIff | src/cluster/HashRing.cpp:13-34 | for any nodes and any placing of points, equal memberships of these nodes have equal rings after all histories if and only if points of different nodes never meet |
| HashRings.HashRing.AddNode | src/cluster/HashRing.cpp:13-22 | the three virtual points of the node are its own afterwards, taken over if they were held, and nothing else changes |
| HashRings.HashRing.RemoveNode | src/cluster/HashRing.cpp:24-34 | erasing while iterating removes exactly the points of the node |
| HashRings.HashRing.GetNode | src/cluster/HashRing.cpp:36-49 | the node that holds the first point from the hash of the key on, past the last point the first of all, and the nine bytes of localhost on the empty ring |
| HashRings.HashRing.GetAllNodes | src/cluster/HashRing.cpp:51-59 | every node that holds a point, exactly once, in the order of their first points on the ring |
| RingCollision.PointsMeet | src/cluster/HashRing.cpp:3-19 | point 2 of node adyu and point 0 of node hooi are the same |
| RingCollision.RingOfCollidingNodesDependsOnOrder | src/cluster/HashRing.cpp:13-22 | the two orders of joining of these nodes give the same members and different rings |
| RespReplies.DecimalInjective | src/network/RESPParser.cpp:60 | different numbers are written differently |
| RespReplies.BulkUnique | src/network/RESPParser.cpp:59-61 | equal streams that begin with a bulk reply have the same payload and the same rest, CR LF in payloads allowed |
| RespReplies.ArrayUnique | src/network/RESPParser.cpp:67-73 | equal streams that begin with an array reply have the same items and the same rest |
| RespReplies.LineAmbiguousIff | src/network/RESPParser.cpp:47-49 | a line reply begins with a different line reply if and only if its payload holds CR LF |
| RespReplies.RepliesUnique | src/network/RESPParser.cpp:47-73 | over all kinds of replies, nil included, a stream begins with one reply only and leaves one rest |
| RespReplies.LineFormats | src/network/RESPParser.cpp:47-65 | simple and error replies are a plus or a minus, the payload and CR LF, and the nil reply is the bulk reply of length -1 |
| RespReplies.IntegerFormat | src/network/RESPParser.cpp:55-57 | an integer reply is a colon, a sign when negative, the decimal digits of the value without leading zeros, and CR LF |
| RespReplies.BulkFormat | src/network/RESPParser.cpp:59-61 | a bulk reply is a dollar sign, the decimal length of the payload, CR LF, the payload and CR LF |
| RespReplies.ArrayFormat | src/network/RESPParser.cpp:67-73 | an array reply is an asterisk, the decimal number of items, CR LF and the items as bulk replies in order |
| RespReplies.BuildArray | src/network/RESPParser.cpp:67-73 | the loop writes the count and then every item in order |
| RespTokens.TrimOf | src/network/RESPParser.cpp:96-104 | trimming takes off exactly the blanks around a text that neither begins nor ends with one |
| RespTokens.ParsedIsClean | src/network/RESPParser.cpp:3-33 | on every input the command is upper-case, and command and arguments are non-empty, without spaces and without blanks at their ends |
| RespTokens.TokenRoundTrip | src/network/RESPParser.cpp:3-33 | clean tokens joined with any positive numbers of spaces and ended by CR LF parse back to themselves |
| RespTokens.RequestParses | src/network/RESPParser.cpp:3-33 | tokens in any case without spaces, not beginning or ending in a blank and the first not beginning with an asterisk or a dollar sign, with any positive gaps of spaces between and any spaces, tabs and line ends around, parse to the first in capitals and the others in order |
| RespTokens.UpperIs | src/network/RESPParser.cpp:75-79 | the letter at each place of the small alphabet becomes the one at that place of the capital alphabet, and every other character stays |
| RespTokens.MarkIsDropped | src/network/RESPParser.cpp:9-15 | a request that begins with an asterisk or a dollar sign is read without that byte, and no other request |
| RespTokens.MarkedDoesNotReturn | src/network/RESPParser.cpp:35-45 | tokens whose first begins with a type mark do not parse back to themselves |
| RespTokens.ReparseIff | src/network/RESPParser.cpp:3-45 | writing out any parsed command and parsing it again gives the same command if and only if it does not begin with a type mark |
| RespTokens.SplitTokens | src/network/RESPParser.cpp:81-94 | the loop returns the trimmed pieces that are not empty, in order |
| RespTokens.Capitalize | src/network/RESPParser.cpp:75-79 | the in-place transform upper-cases every character |
| RespTokens.ParseSimpleString | src/network/RESPParser.cpp:18-33 | the first token is upper-cased, the others are copied in order, and blank input gives the empty command |
| RespTokens.ParseRequest | src/network/RESPParser.cpp:3-16 | a request that begins with a type mark is read without it |
| CircuitBreakers.CircuitBreaker.AllowRequest | src/patterns/CircuitBreaker.cpp:8-28 | the answer and the whole new state are those of one step of the history |
| CircuitBreakers.CircuitBreaker.RecordSuccess | src/patterns/CircuitBreaker.cpp:30-36 | the whole new state is that of one step of the history |
| CircuitBreakers.CircuitBreaker.RecordFailure | src/patterns/CircuitBreaker.cpp:38-47 | the whole new state is that of one step of the history |
| BreakerRuns.StateCountsFailures | src/patterns/CircuitBreaker.cpp:30-64 | in every run, for every threshold, the state is CLOSED exactly while fewer failures than the threshold (one at least) were recorded since the last closing, and the counters are the recorded outcomes wrapped to 32 bits |
| BreakerRuns.StateIsTold | src/patterns/CircuitBreaker.cpp:8-64 | in every run with a clock that does not go back the state is read off the history: CLOSED below the threshold of failures since the last closing, else HALF_OPEN while a request a full timeout after the latest failure has no outcome yet, else OPEN |
| BreakerRuns.FailureOpens | src/patterns/CircuitBreaker.cpp:38-47 | after every recorded failure, at any clock, the breaker is OPEN from the threshold on and CLOSED below it, and a failed probe opens it |
| BreakerRuns.FailedProbeRejects | src/patterns/CircuitBreaker.cpp:8-47 | with five failures and 30 seconds, as in main, after a failed probe requests are rejected for 30 seconds from that failure |
| BreakerRuns.ClosingsCostFailures | src/patterns/CircuitBreaker.cpp:38-64 | all failures are at least threshold times closings plus those since the last closing |
| BreakerRuns.CounterTellsStateIff | src/patterns/CircuitBreaker.cpp:38-47 | comparing the counter with the threshold tells the state exactly when the failures since the last closing are below the threshold or their remainder by 2^32 is at least the threshold and below 2^31; always with fewer than 2^31 |
| BreakerRuns.CounterWraps | src/patterns/CircuitBreaker.cpp:39 | after 2^31 failures the breaker is OPEN and its counter is the least 32-bit integer |
| BreakerRuns.RejectedIff | src/patterns/CircuitBreaker.cpp:15-20 | a request is rejected exactly when the breaker is OPEN and the latest failure is less than the timeout ago, and then a threshold of failures was recorded since the last closing |
| BreakerRuns.FirstAdmissionAfterOpening | src/patterns/CircuitBreaker.cpp:15-47 | from any opening the breaker stays OPEN until the first admission, which comes a full timeout after the latest failure, failures while OPEN included, and makes it HALF_OPEN |

## Left out

- Concurrency: locks, atomics and client threads; every method runs alone, and `CrossedWritersDiverge` shows why commands have to.
- Opening, flushing and closing files, exceptions, backups, `async_snapshot` and directory creation: a file is a byte sequence that never fails.
- Crashes.LiveIsPrefixOfRecovered: promises nothing, and neither does `HitsSurviveCrash`, when the snapshot is loaded in another
  order than at the last start and the log does not touch all of its keys; `RestartAnswers.HitSurvivesIff` says exactly which hits
  survive then. After an append of an unclean record or to a torn log, until the next restart, the live list may differ from
  the log; `RestartAnswers.AnswersAfterRestartIff` still says exactly what answers after that restart.
- Machine crashes that lose flushed bytes or reorder them: a crash leaves a prefix of the pending line.
- `append_binary`: its bytes come from a library whose source is not part of this model, and replay reads text only.
- Declared but undefined members of the cache (`reset_stats`, `get_all_keys`, `clear`, `set_if_not_exists`, `update_lru_on_access`).
- `hit_rate`: a quotient of the two counters, which are modelled; the counters are unbounded instead of 64 bits wide.
- The integer argument of `serialize_integer` is unbounded, and so are the clock and the lengths of strings.
- `handle_client_simulation`, `start`, node discovery, metrics, the dashboard, console output, and the log line of `process_command` that names the owning node.
- Parsing of the full protocol: `parse_array` and `parse_bulk_string` drop one byte and read a plain line, and are modelled as that.
- `toupper` is that of the C locale: ASCII letters only.
- Balance of the key distribution over the nodes.
