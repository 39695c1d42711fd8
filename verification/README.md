# A verified model of the CAN-bus car simulator

This project models, in Dafny, the parts of the simulator whose correctness is hardest to see from the
source, and proves what they promise. Everything is stated for all inputs, all frames or all runs.

| files | component |
|---|---|
| `Bits`, `SignalLayout` | bits of integers; a signal layout (start bit, length, byte order, sign) and the frame bits it covers, in both numberings |
| `SignalDecoder` | the two run-time decoders, of libcandbc and of the panel, loop for loop |
| `SignalCodegen`, `CodegenCorrect`, `CodegenOverflow` | the code generator dbcgen as a compiler into a small C with 32-bit semantics, its correctness, and where its code overflows |
| `FrameDefaults`, `CanmatrixPacker` | the generated `setDefaultSignals`; canmatrix's bit packer (Intel) and the start-value loop |
| `SpscQueue` | the lock-free queue: interleaved atomic steps over a heap of nodes |
| `WorkQueue` | the worker pool: workers, adders and shutdown interleaved on one mutex and one condition variable |
| `HashTable`, `HashTableMap`, `HashTableList`, `HashTableIterator`, `CanIdHash` | the chained hash table on real linked entries, the map it stands for on unequal keys and the list it stands for on any, its removing iterator, and its use for J1939 identifiers |
| `LinkedList` | the intrusive list on nodes with owner pointers |
| `CanReceive`, `CanDevices` | the receive path: a state machine over driver calls, and the ring, delegate table and interrupt that carry it out in place |
| `TextWrap` | the command line parser's text wrapper |
| `DbcSignalLine` | printing and parsing the signal lines of DBC files, with greedy, backtracking matching |
| `CarEngine` | the panel's car engine over the reals |
| `Basics` | an option type and one sequence lemma |

## How to read it

The decoders are measured against one definition per byte order: the place-value sum of the bits a layout
covers (`SignalLayout.Raw`) and the value it stands for (`SignalLayout.Value`). The generated code is data
(`Expr`, `Stmt`) with a meaning (`Eval`, `Run`). Numbers are integers; a C width is written out where it
matters. `word` is the width of the type the sources call `uint32`, which is `unsigned long`: 32 or 64 bits
(`libcandbc/model/dbcTypes.h:8-9`).

The queue and the worker pool are state machines; a run is any sequence of actions, one that is not possible
is skipped. Freed addresses may be handed out again.

The hash table keeps a ghost sequence `order`: the entries in an order in which pushing them onto empty chains
would give the table as it is linked. The table's invariant ties every chain to it.

## Where the code is not what it seems

* Signed big-endian getters shorter than 32 bits are emitted with a cast that is closed but never opened;
  `CodegenCorrect.GetterParsesIff` says when the text is an expression.
* Both decoders extend the sign only below 32 bits, although their word may have 64; `DecoderExactIff` is the
  exact set of layouts they decode, `CompiledAgreesWithInterpreted` the exact set on which generated code and
  decoders agree.
* `putSignalValueInFrame` masks too many bits for a signal inside one byte, so a negative or too large value
  can spoil a neighbour (`PutsExactlyIff`, `NegativeSpills`); `PackedRightIff` says which lists of start values
  come out right.
* Growing the hash table reverses entries of equal hash: with duplicate keys, search finds the newest entry
  before a growth step and the oldest after it. The comment in the mixer speaks of Java's unsigned shift, the
  code rotates.
* With extended and plain identifiers in one index, equal identifiers can hash differently and equality is not
  transitive; `HashRespectsEqualityIff` and `NotTransitiveIff` say exactly when, `LookupFailsIff` what a lookup
  then misses.
* A worker leaves its loop with the mutex locked (`GoneFreezesQueue`).
* `pop_back` on a list of one node trips its own assertion; `insert` returns `iterator(&value)`, a name the
  class does not declare, where `Iterator` is meant.
* `getDevId` divides a pointer difference by the element size a second time. With the one device that is
  configured (`ecu/os_cfg.h:4`) this is harmless; with more, the rings of the others are never drained.
* The text wrapper moves on by the length of the trimmed line, so after two leading whitespace characters it
  prints text again (`ReadsAgainIff`, `KeepsTextUnlessGuard`).
* `setGear` reports success for a gear it has refused (`RefusedButReportedExactly`), and a car rolling backwards
  in neutral turns forwards (`TurnsForwardExactly`).

## Model

| member | source | states |
|---|---|---|
| SignalLayout.SlicesTile | libcandbc/messageDecoder.c:47-107 | the byte slices the loops walk over tile the signal: each continues at the place where the one before ended, from place 0 to the length, in both numberings of the source comment |
| SignalLayout.CoversIffInSlice | tools/dbcgen/dbcgen.cpp:521-634 | a frame bit belongs to a signal iff it lies in the slice of its byte (both byte orders) |
| SignalLayout.SigBitInjective | libcandbc/messageDecoder.c:47-74 | in either numbering two places of a signal never share a frame bit |
| SignalLayout.PlaceValueSumBit | libcandbc/messageDecoder.c:61-74 | the place-value sum of a signal has bit i set iff the frame has the signal bit of place i set |
| SignalLayout.RawRange | libcandbc/messageDecoder.c:61-74 | the first n places add up to a number of n bits |
| SignalLayout.RawUnique | libcandbc/messageDecoder.c:83-134 | any word with exactly the signal's bits is the place-value sum, cut to the word |
| SignalDecoder.CutIsData | libcandbc/messageDecoder.c:94-107 | whatever masking branches are taken for a byte, what is left is exactly the signal's slice of it |
| SignalDecoder.Turn | libcandbc/messageDecoder.c:90-112 | one turn of the decoding loop adds the places of one more byte and loses none |
| SignalDecoder.AlignBigEndian | libcandbc/messageDecoder.c:85-112 | the big-endian byte loop computes the place-value sum of the signal's bits, modulo the word |
| SignalDecoder.AlignLittleEndian | libcandbc/messageDecoder.c:113-134 | the little-endian byte loop computes the place-value sum, modulo the word |
| SignalDecoder.PanelAlignBigEndian | panel/CarState.cpp:444-478 | the panel's differently branched loop computes the same sum (big endian) |
| SignalDecoder.PanelAlignLittleEndian | panel/CarState.cpp:479-513 | the same for little endian |
| SignalDecoder.FlipBit | libcandbc/messageDecoder.c:140-141 | xor with a power of two adds the weight of a clear bit and subtracts that of a set one |
| SignalDecoder.XorSubtractExtends | libcandbc/messageDecoder.c:138-142 | xor and subtract give the two's complement value of a number of len bits |
| SignalDecoder.DecodeSignal | libcandbc/messageDecoder.c:75-160 | raw word and physical value the decoder hands on are those of the signal read as C reads it |
| SignalDecoder.PanelDecodeSignal | panel/CarState.cpp:436-541 | the panel decoder delivers the same raw word and physical value on every frame and layout |
| SignalDecoder.Finish | libcandbc/messageDecoder.c:136-160 | sign step and scaling after the loop, the same in both decoders |
| SignalDecoder.DecoderExactIff | libcandbc/messageDecoder.c:83-142 | the decoders give every frame its meaning iff the layout is one they can hold: the exact set of lengths, signs and word widths |
| SignalDecoder.ExactLayoutDecodes | libcandbc/messageDecoder.c:83-142 | on such a layout the decoded value is the signal's value, two's complement if signed |
| SignalDecoder.TopBitFrameDecodesWrong | libcandbc/messageDecoder.c:138-142 | on every other layout the frame with only the signal's top bit set is decoded wrongly |
| SignalCodegen.BigEndianByte | tools/dbcgen/dbcgen.cpp:536-554 | mask, rotation and bit count the generator chooses for a byte select exactly the signal's slice of it (big endian) |
| SignalCodegen.LittleEndianByte | tools/dbcgen/dbcgen.cpp:592-609 | the same for little endian, for both forms of the one-byte guard (getter and setter) |
| SignalCodegen.MiddleMask | tools/dbcgen/dbcgen.cpp:539-539 | the mask of a signal inside one byte has exactly the bits lo to hi |
| SignalCodegen.UpperMask | tools/dbcgen/dbcgen.cpp:547-547 | the mask of a signal's last byte has exactly the bits from lo up |
| SignalCodegen.GetterBigEndian | tools/dbcgen/dbcgen.cpp:521-575 | the loop emits, for every byte of the signal in turn, the term that moves its slice to its place; `position` ends at 0 |
| SignalCodegen.GetterLittleEndian | tools/dbcgen/dbcgen.cpp:577-637 | the same for little endian; `position` ends at the length |
| SignalCodegen.SetterBigEndian | tools/dbcgen/dbcgen.cpp:695-771 | the loop emits one store for every byte of the signal (big endian) |
| SignalCodegen.SetterLittleEndian | tools/dbcgen/dbcgen.cpp:773-852 | the same for little endian |
| SignalCodegen.CompileGetter | tools/dbcgen/dbcgen.cpp:473-652 | the whole getter: terms, casts and sign step |
| SignalCodegen.CompileSetter | tools/dbcgen/dbcgen.cpp:654-857 | the whole setter: sign step and stores |
| CodegenCorrect.TermPlaces | tools/dbcgen/dbcgen.cpp:560-566 | run as C, one emitted term holds exactly the places whose bits lie in its byte |
| CodegenCorrect.SumPlaces | tools/dbcgen/dbcgen.cpp:568-573 | the sum of the terms up to a byte holds exactly the places in these bytes: the additions never carry |
| CodegenCorrect.SumIsRaw | tools/dbcgen/dbcgen.cpp:521-637 | the emitted sum is the place-value sum of the signal, as a 32-bit int |
| CodegenCorrect.GetterParsesIff | tools/dbcgen/dbcgen.cpp:622-645 | the emitted text is an expression unless the signal is signed, big endian and shorter than 32 bits, where it closes a cast that was never opened |
| CodegenCorrect.GetterReturnsValue | tools/dbcgen/dbcgen.cpp:473-652 | a getter that parses returns the signal's value on every frame |
| CodegenCorrect.SignStep | tools/dbcgen/dbcgen.cpp:639-642 | the emitted xor and subtract give the sign extension of the sum, in wrapping 32-bit arithmetic |
| CodegenOverflow.GetterSafeIff | tools/dbcgen/dbcgen.cpp:521-645 | no addition, subtraction or shift of a generated getter overflows, on exactly the frames that do not have the top bit of a 32-bit signal set |
| CodegenOverflow.SetterSignSafeIff | tools/dbcgen/dbcgen.cpp:689-693 | the sign step of a setter overflows exactly for values at the very top of the range of int, never for values of the signal |
| CodegenCorrect.CompiledAgreesWithInterpreted | tools/dbcgen/dbcgen.cpp:521-645 | generated getter and run-time decoder agree on all frames iff the signal is shorter than 32 bits, or signed, of 32 bits and decoded in 32-bit words |
| CodegenCorrect.TopBitDisagrees | libcandbc/messageDecoder.c:138-142 | on a 32-bit signal outside that condition they disagree on the frame with the top bit set |
| CodegenCorrect.StoreBit | tools/dbcgen/dbcgen.cpp:735-763 | one emitted store puts the value's bits in the slice and keeps every other bit of the byte, in all eight forms of its text |
| CodegenCorrect.StoresBit | tools/dbcgen/dbcgen.cpp:712-770 | after the stores up to a byte exactly the slices of these bytes have been written |
| CodegenCorrect.SignPrefixBit | tools/dbcgen/dbcgen.cpp:689-693 | the setter's sign step keeps all the bits that will be stored |
| CodegenCorrect.SetterWritesSignal | tools/dbcgen/dbcgen.cpp:654-857 | the setter stores the value modulo 2^len at the signal's places and leaves every other frame bit alone |
| CodegenCorrect.SetThenValue | tools/dbcgen/dbcgen.cpp:654-857 | after the setter the signal stands for the value, wrapped to its length; for the value itself if it is in range; in both byte orders |
| CodegenCorrect.SetThenGet | tools/dbcgen/dbcgen.cpp:473-857 | generated setter, then generated getter: the value comes back, modulo 2^len if unsigned, itself if in range, for every frame and every layout whose getter parses |
| CodegenCorrect.GetThenSet | tools/dbcgen/dbcgen.cpp:473-857 | writing back the value that was read changes no bit of the frame |
| FrameDefaults.SettersRaw | tools/dbcgen/dbcgen.cpp:355-359 | a signal that has been set keeps its bits through all later setters of disjoint signals |
| FrameDefaults.EveryDefaultReadsBack | tools/dbcgen/dbcgen.cpp:343-360 | after setDefaultSignals every signal has its own start value, by its meaning and through its getter, of up to 32 bits |
| FrameDefaults.OtherBitsCleared | tools/dbcgen/dbcgen.cpp:353-360 | bits of no signal are zero |
| FrameDefaults.OrderIrrelevant | tools/dbcgen/dbcgen.cpp:355-359 | any order of the setters gives the same frame |
| CanmatrixPacker.PieceStored | dbc/canmatrix/library/canmatrix.py:406-420 | one turn of the loop ors the value's top remaining bits into their place in the byte, and nothing else |
| CanmatrixPacker.PutSignalValueInFrame | dbc/canmatrix/library/canmatrix.py:400-420 | the Intel branch ors the value's bits into the frame from the start bit on; the mask of a signal inside one byte reaches too far, by an amount that is stated |
| CanmatrixPacker.InRangeHasNoSpill | dbc/canmatrix/library/canmatrix.py:417-419 | for values in the unsigned range that excess is all zeros |
| CanmatrixPacker.PutsExactlyIff | dbc/canmatrix/library/canmatrix.py:400-420 | the routine writes only the signal's bits, in all frames, iff the value has no bit set in the stated excess |
| CanmatrixPacker.NegativeSpills | dbc/canmatrix/library/canmatrix.py:417-419 | a value that spoils its neighbour: -1 in four bits at bit 2 of a cleared frame sets bit 6, and the first byte becomes 0xfc |
| CanmatrixPacker.PackedRawIff | dbc/canmatrix/library/importarxml.py:418-427 | a signal of the packed frame holds its value iff no excess of another signal sets a bit that is clear in it |
| CanmatrixPacker.PackedRightIff | dbc/canmatrix/library/importarxml.py:418-427 | for disjoint Intel signals with any values: every signal holds its value and no other bit is set, iff every value bit in an excess lies on a set bit of some signal |
| CanmatrixPacker.NoSpillIsRight | dbc/canmatrix/library/importarxml.py:418-427 | in particular when no value has a bit in its excess |
| CanmatrixPacker.PackStartValues | dbc/canmatrix/library/importarxml.py:418-427 | the loop packs any disjoint Intel signals into a zero frame; the frame is right under exactly that condition |
| CanmatrixPacker.DecoderRecoversStartValue | dbc/canmatrix/library/importarxml.py:418-427 | the run-time decoder recovers an in-range start value, signed or not, from the packed frame iff no excess spoils that signal |
| SpscQueue.StepInv | test/SimpleQueue.h:35-53 | no step of either thread touches a node that is not allocated, and every step keeps the chain invariant |
| SpscQueue.StepRefinesQueue | test/SimpleQueue.h:35-53 | every atomic step is a step of a sequential queue or invisible: publishing appends, advancing the barrier takes the head, `pop` fails only on an empty queue at its read of `last_node` |
| SpscQueue.Linearizable | test/SimpleQueue.h:35-53 | in every interleaving the events at these points are a legal history of the sequential queue, ending in the queue's contents |
| SpscQueue.EveryRunSafe | test/SimpleQueue.h:21-53 | no interleaving of one producer and one consumer reads or deletes a node that is not allocated |
| SpscQueue.HistoryConserves | test/SimpleQueue.h:35-53 | what was published is what was taken followed by what is queued |
| SpscQueue.PoppedIsPrefixOfPushed | test/SimpleQueue.h:35-53 | in every interleaving the items popped are a prefix of those pushed, and popped plus queued are those published |
| SpscQueue.FreedBehindBarrier | test/SimpleQueue.h:39-43 | a node that is deleted lies in front of the barrier, is none the consumer reads and none a shared pointer names |
| SpscQueue.NoDataRace | test/SimpleQueue.h:35-53 | the producer never links or deletes a node while the consumer is about to read the same field of it |
| SpscQueue.Destructor | test/SimpleQueue.h:26-33 | at quiescence it frees every allocated node exactly once |
| WorkQueue.StepInv | ecu/libevent-thread/workqueue.c:26-58 | every step of a worker, an adder or shutdown, spurious wake-ups included, keeps list, mutex and job accounting in order |
| WorkQueue.RunInv | ecu/libevent-thread/workqueue.c:26-112 | so does every run of any number of workers |
| WorkQueue.JobsConserved | ecu/libevent-thread/workqueue.c:26-112 | at all times each addition of a job is waiting, in one worker's hands, finished or dropped by shutdown, and no job waits twice |
| WorkQueue.AddedOnceRunsOnce | ecu/libevent-thread/workqueue.c:26-112 | a job added once runs at most once and is in one of these places only |
| WorkQueue.MutualExclusion | ecu/libevent-thread/workqueue.c:32-47 | at most one worker is between lock and unlock |
| WorkQueue.TakesNewest | ecu/libevent-thread/workqueue.c:43-46 | the job a worker takes is the newest one waiting |
| WorkQueue.ShutdownEmptiesList | ecu/libevent-thread/workqueue.c:99-103 | the locked part of shutdown leaves no waiting job and no listed worker |
| WorkQueue.NoTakeAfterShutdown | ecu/libevent-thread/workqueue.c:89-104 | after the locked part of shutdown no job is taken in any continuation |
| WorkQueue.GoneFreezesQueue | ecu/libevent-thread/workqueue.c:35-57 | a worker that left its loop holds the mutex for good: no job is added, taken or dropped in any continuation |
| WorkQueue.AddIsListIff | ecu/libevent-thread/workqueue.c:13-17 | adding a job leaves a list that ends iff the job was not waiting already |
| WorkQueue.AddWaitingIsNoList | ecu/libevent-thread/workqueue.c:13-17 | adding a waiting job closes a ring |
| HashTable.PrimesGrow | libcandbc/hashtable/hashtable.c:15-24 | the primes grow, and so do the load limits, so one growth step makes room for the new entry |
| HashTable.HashTable.Create | libcandbc/hashtable/hashtable.c:29-58 | null iff more than 2^30 is asked for; else an empty table whose length is the smallest listed prime above the size asked for |
| HashTable.HashTable.Expand | libcandbc/hashtable/hashtable.c:79-139 | relinks every entry, once, into chain h mod the next prime; the count stays; false iff the last prime is reached |
| HashTable.Relink | libcandbc/hashtable/hashtable.c:94-108 | the two loops move all chains into the new table in place |
| HashTable.MoveChain | libcandbc/hashtable/hashtable.c:97-106 | the inner loop empties one chain into the heads of the new chains |
| HashTable.FlatCounts | libcandbc/hashtable/hashtable.c:94-108 | walking all chains meets as many entries as there are |
| HashTable.HashTable.Insert | libcandbc/hashtable/hashtable.c:151-177 | the new entry heads its chain; the others are as before or as one growth step leaves them; count exact, within the load limit unless the last prime is reached |
| HashTable.HashTable.Search | libcandbc/hashtable/hashtable.c:181-196 | the value of the newest entry that matches, in the table as it is linked, or nothing iff none matches |
| HashTable.HashTable.Remove | libcandbc/hashtable/hashtable.c:200-231 | takes out exactly the entry that search finds, returns its value, keeps chains and count |
| HashTable.HashTable.FirstIsNewest | libcandbc/hashtable/hashtable.c:189-194 | the first match on the key's own chain is the newest match of the whole table |
| HashTable.OwnBucketWithout | libcandbc/hashtable/hashtable.c:215-224 | unlinking at the chain's pointer removes exactly that entry from its chain |
| HashTable.OtherBucketWithout | libcandbc/hashtable/hashtable.c:215-224 | and leaves all other chains alone |
| HashTableMap.GrowthReversesEqualHashes | libcandbc/hashtable/hashtable.c:97-106 | growth keeps every entry once and reverses the order of entries with equal hash |
| HashTableMap.SearchAfterGrowthFindsOldest | libcandbc/hashtable/hashtable.c:151-196 | of several entries for one key search finds the newest, and after a growth step the oldest |
| HashTableMap.KeyedGrowth | libcandbc/hashtable/hashtable.c:79-139 | growth does not change the map that a table with pairwise unequal keys stands for |
| HashTableMap.SearchIsFind | libcandbc/hashtable/hashtable.c:181-196 | search is lookup in that map: a value comes back iff an equal key is stored, and then its value |
| HashTableMap.RemoveIsDelete | libcandbc/hashtable/hashtable.c:200-231 | remove deletes the equal key from the map, if there is one |
| HashTableMap.InsertIsUpdate | libcandbc/hashtable/hashtable.c:151-177 | insert of a new key extends the map |
| HashTableMap.RunOperations | libcandbc/hashtable/hashtable.c:151-231 | on pairwise unequal keys any run of insert, search and remove, expansions included, gives the results of the same run on a finite map |
| HashTableMap.EqualIffNewest | libcandbc/hashtable/hashtable.c:181-196 | at most one stored key equals the one looked up, and it is the one the chain search stops at |
| HashTableList.InsertOne | libcandbc/hashtable/hashtable.c:151-177 | on any keys, equal ones included, the table is a list: insertion appends to it, after turning it round if the table grows |
| HashTableList.LookupIsLast | libcandbc/hashtable/hashtable.c:181-196 | search finds the last pair of that list whose key has the hash and is equal |
| HashTableList.RemoveOne | libcandbc/hashtable/hashtable.c:200-231 | remove takes just that pair off the list |
| HashTableList.RunAnyOperations | libcandbc/hashtable/hashtable.c:151-231 | any run of insert, search and remove, on any keys, any hash and any comparison, gives the results of the same run on the list |
| HashTableList.ListedKeeps | libcandbc/hashtable/hashtable.c:151-177 | after a series of insertions the list has each pair as often as it was inserted |
| HashTableList.ListedSmall | libcandbc/hashtable/hashtable.c:157-164 | and in that order, until the table grows |
| HashTableList.IndexAll | libcandbc/hashtable/hashtable.c:29-177 | a table made from any list of pairs does what the list of these insertions says |
| HashTableList.LookupInIndex | libcandbc/hashtable/hashtable.c:181-196 | a lookup in it fails iff no pair has an equal key with the same hash, else it gives the value of such a pair |
| HashTableIterator.WalkOrderIsAll | libcandbc/hashtable/hashtable_itr.c:11-77 | the walk order contains every entry exactly once |
| HashTableIterator.Iterator.constructor | libcandbc/hashtable/hashtable_itr.c:11-35 | stands on the first entry of the first chain that has one, with everything ahead |
| HashTableIterator.Iterator.Advance | libcandbc/hashtable/hashtable_itr.c:42-77 | moves to the next entry of the walk, `parent` again the true chain predecessor; false at the end |
| HashTableIterator.Iterator.Remove | libcandbc/hashtable/hashtable_itr.c:88-116 | takes the current entry and only it out of the table, moves on, and keeps `parent` the true predecessor in the changed chain |
| HashTableIterator.Walk | libcandbc/hashtable/hashtable_itr.c:11-116 | any mix of advancing and removing visits each entry exactly once, ends, and leaves exactly the entries not removed with the right count |
| HashTableIterator.SearchFor | libcandbc/hashtable/hashtable_itr.c:120-146 | the iterator stands on the entry that search would find, ready to advance or remove; untouched when there is none |
| CanIdHash.ExtendedLawful | libcandbc/messageHash.c:33-75 | on extended identifiers the comparison is an equivalence and equal identifiers hash equally |
| CanIdHash.PlainLawful | libcandbc/messageHash.c:33-75 | so it is on identifiers without the extended flag |
| CanIdHash.PriorityAndSourceIgnored | libcandbc/messageHash.c:62-75 | priority and source address of an extended identifier can be exchanged freely |
| CanIdHash.HashRespectsEqualityIff | libcandbc/messageHash.c:45-75 | equal identifiers have different hashes in the table, mixing included, exactly when one is extended and the other an 11-bit one with a non-zero low byte |
| CanIdHash.NotTransitiveIff | libcandbc/messageHash.c:62-75 | transitivity of the comparison fails exactly for two different plain identifiers that an extended one ties together |
| CanIdHash.MixedNotTransitive | libcandbc/messageHash.c:62-75 | three such identifiers |
| CanIdHash.CreateIndex | libcandbc/messageHash.c:77-100 | every message of the list is inserted, equal identifiers or not |
| CanIdHash.LookupFailsIff | libcandbc/messageHash.c:77-100 | whatever was indexed, a lookup fails iff every message with an equal identifier is one of these pairs of different hash |
| CanIdHash.LookupFindsEqual | libcandbc/messageHash.c:77-100 | on extended or on plain identifiers alone a lookup finds a message iff one with an equal identifier was indexed, and then one of these |
| CanIdHash.SmallIndexFindsNewest | libcandbc/messageHash.c:77-100 | of several equals it finds the last one inserted, up to 35 messages |
| CanIdHash.LookupIgnoresSourceAndPriority | libcandbc/messageHash.c:33-75 | whatever was indexed, the answer for an extended identifier does not depend on its priority and source address |
| LinkedList.LinkedList.Size | ecu/common/LinkedList.h:120-126 | the number of members |
| LinkedList.LinkedList.ContainsNode | ecu/common/LinkedList.h:288-298 | true iff the node is a member |
| LinkedList.LinkedList.FindPredecessor | ecu/common/LinkedList.h:274-280 | the one member whose link is the node, or null if there is none |
| LinkedList.LinkedList.PushFront | ecu/common/LinkedList.h:158-169 | a new member in front, linked and owned; a member is left where it is |
| LinkedList.LinkedList.PushBack | ecu/common/LinkedList.h:171-183 | a new member at the end, with the end pointer on it; a member is left where it is |
| LinkedList.LinkedList.PopFront | ecu/common/LinkedList.h:185-194 | the first member goes and is disowned; nothing on an empty list |
| LinkedList.LinkedList.Clear | ecu/common/LinkedList.h:132-138 | no members, all former ones disowned |
| LinkedList.LinkedList.PopBack | ecu/common/LinkedList.h:300-312 | the last member goes and is disowned; an assertion stops the program exactly for a list of one |
| LinkedList.LinkedList.Erase | ecu/common/LinkedList.h:214-232 | exactly the node at the iterator goes and is disowned; the iterator returned stands on its successor |
| LinkedList.LinkedList.Insert | ecu/common/LinkedList.h:234-250 | the node stands in front of the iterator's place, all others keep their order; the iterator returned stands on it; a member is left where it is |
| LinkedList.LinkedList.Remove | ecu/common/LinkedList.h:252-264 | exactly the node goes and is disowned, whatever its place |
| LinkedList.LinkedList.Run | ecu/common/LinkedList.h:119-313 | over every legal run on own or free nodes the chain is the sequence the operations describe, without repetition, and owner pointers are set exactly on members |
| LinkedList.RemoveUndoesInsert | ecu/common/LinkedList.h:234-264 | remove undoes insert at every place |
| LinkedList.InsertUndoesErase | ecu/common/LinkedList.h:214-250 | inserting an erased node at the iterator erase returned gives the list back |
| LinkedList.PushesAreInserts | ecu/common/LinkedList.h:158-183 | the pushes are insertions at the two ends |
| LinkedList.PopsAreErasures | ecu/common/LinkedList.h:185-194 | the pops are erasures there |
| LinkedList.RunsStayDistinct | ecu/common/LinkedList.h:119-313 | no run of operations puts a node on the list twice |
| CanReceive.DeviceIdExact | ecu/emu/emu_can.cpp:33-40 | the index the driver computes for a device is that device's iff it is the first one, or elements have size one; for small enough arrays it is always the first |
| CanReceive.ArrivalDrainsExactly | ecu/emu/emu_can.cpp:72-100 | an accepted arrival on an idle device leaves its ring empty iff it is the first device, or elements have size one |
| CanReceive.RingIsTransparent | ecu/emu/emu_can.cpp:72-100 | over every run, on any number of devices, the first device's ring is empty between driver calls, and its delegates and buffers are those of a bus without a ring |
| CanReceive.DelegatesSeeAccepted | ecu/IsrHandlers.cpp:14-22 | while registrations stay, a delegate sees exactly the accepted frames, in order, each as often as it is registered |
| CanReceive.BuffersHoldLastPayload | ecu/MainSystem.cpp:80-90 | a known identifier's buffer is the payload of the last accepted frame with that identifier and length |
| CanReceive.OtherDevicesFillUp | ecu/emu/emu_can.cpp:72-100 | every device but the first keeps the first eight frames offered to it since its last reset and refuses the rest: nothing drains its ring |
| CanDevices.WriteAppends | ecu/emu/emu_can.cpp:87-91 | writing slot (pos + count) mod 8 appends to the ring's queue |
| CanDevices.AdvanceDrops | ecu/emu/emu_can.cpp:240-241 | advancing the read position drops the queue's head |
| CanDevices.CanDevice.Store | ecu/emu/emu_can.cpp:72-92 | the frame is queued iff length, payload pointer, transceiver state and free space allow it; otherwise nothing changes |
| CanDevices.CanDevice.Front | ecu/emu/emu_can.cpp:223-231 | the oldest frame, or null iff the ring is empty |
| CanDevices.CanDevice.DeleteFront | ecu/emu/emu_can.cpp:233-243 | exactly the oldest frame goes; an error iff there is none |
| CanDevices.CanDevice.Switch | ecu/emu/emu_can.cpp:136-164 | init always gives standby, start works from standby only, stop from active only; an illegal call changes nothing |
| CanDevices.CanSystem.Add | ecu/CanSystem.cpp:39-47 | the delegate is registered last, if fewer than four are; other devices keep theirs |
| CanDevices.CanSystem.Remove | ecu/CanSystem.cpp:49-60 | the first equal delegate goes and the others keep their order; true iff there was one |
| CanDevices.CanSystem.CloseGap | ecu/CanSystem.cpp:52-55 | the inner loop moves all later delegates of the device one place up, in place |
| CanDevices.FirstGoes | ecu/CanSystem.cpp:49-60 | removing at the first match is what removing an equal delegate means |
| CanDevices.Ecu.ProcessCanMessage | ecu/MainSystem.cpp:80-90 | only the buffer of a known identifier of the announced length changes, to the payload |
| CanDevices.Ecu.DispatchCanMessage | ecu/CanSystem.cpp:62-66 | every delegate of the device is called once with the frame, in the order of registration |
| CanDevices.Ecu.CanMsgRecv | ecu/IsrHandlers.cpp:14-22 | the interrupt hands the oldest frame of the current device to its delegates and deletes it; nothing happens on an empty ring |
| CanDevices.Ecu.InsertRxMessage | ecu/emu/emu_can.cpp:72-100 | the whole arrival: refused without any effect, or queued and one interrupt served |
| CanDevices.Ecu.Perform | ecu/emu/emu_can.cpp:72-165 | any run of driver calls on the classes is the run of the state machine |
| TextWrap.TrimmedIs | argvparser/argvparser.cpp:631-645 | trimming takes away whitespace only, and all of it at both ends |
| TextWrap.CutIsGood | argvparser/argvparser.cpp:717-783 | a step makes progress, its line fits, has no newline, and nothing it passes over but whitespace is missing from it |
| TextWrap.FormatString | argvparser/argvparser.cpp:702-800 | terminates; the text unchanged if the indentation is not below the width, else the lines cut, indented and joined |
| TextWrap.TakeLine | argvparser/argvparser.cpp:719-771 | one round of the loop, with its three ways to move on, takes exactly one cut |
| TextWrap.EveryLineFits | argvparser/argvparser.cpp:702-800 | the lines of the result, split at newlines, are the lines cut, none empty, each at most the width |
| TextWrap.NothingIsLost | argvparser/argvparser.cpp:702-800 | every character that is not whitespace lies in the slice of some line |
| TextWrap.ReadsAgainIff | argvparser/argvparser.cpp:738-764 | a step reads visible text again exactly when the text it looks at starts with two whitespace characters and shows something behind the place where reading goes on |
| TextWrap.KeepsTextUnlessGuard | argvparser/argvparser.cpp:702-800 | the visible text is kept, no more and no less, iff no position of the loop meets that guard |
| TextWrap.KeepsTextExactly | argvparser/argvparser.cpp:702-800 | the same in terms of the lines cut |
| TextWrap.ShortTextExactly | argvparser/argvparser.cpp:738-748 | a one-line text that does not fill the room is printed again iff it starts with two whitespace characters |
| TextWrap.SingleBlanksKeepText | argvparser/argvparser.cpp:702-800 | text without two adjacent whitespace characters is always kept |
| TextWrap.SplitJoined | argvparser/argvparser.cpp:785-799 | joining lines with newlines loses none of them |
| DbcSignalLine.LastQuote | dbc/canmatrix/library/importdbc.py:78-78 | the greedy unit group stops at the last quote and space of the line, so units with quotes are read whole |
| DbcSignalLine.NotPlain | dbc/canmatrix/library/importdbc.py:78-83 | a line with a multiplex tag never matches the first expression, wherever the name group is made to end |
| DbcSignalLine.MatchBits | dbc/canmatrix/library/importdbc.py:78-78 | the part both expressions share takes the printed numbers, limits, unit and receivers apart exactly |
| DbcSignalLine.DecimalReads | dbc/canmatrix/library/exportdbc.py:73-73 | reading a printed number gives the number |
| DbcSignalLine.SplitJoined | dbc/canmatrix/library/importdbc.py:81-81 | splitting joined names gives the names |
| DbcSignalLine.WriteSignal | dbc/canmatrix/library/exportdbc.py:66-82 | the pieces written for a signal are its line; a signal without receivers gets the default one |
| DbcSignalLine.PrintedLineReads | dbc/canmatrix/library/importdbc.py:77-93 | reading the line printed for a signal, plain, multiplexor or multiplexed, gives back all twelve fields |
| DbcSignalLine.ReadSignals | dbc/canmatrix/library/importdbc.py:47-93 | lines that are no signal lines are passed over; reading stops iff some signal line cannot be read, and what has been read are the signals of the signal lines in front, in order |
| DbcSignalLine.WriteThenRead | dbc/canmatrix/library/exportdbc.py:66-82 | exporting any number of printable signals and importing the lines, between any other lines, gives the signals as the exporter left them |
| CarEngine.CarEngine.Update | panel/CarEngine.h:17-55 | clamped pedals, force, speed that does not change sign, engine speed recomputed: the step of the model |
| CarEngine.CarEngine.SetGear | panel/CarEngine.h:57-71 | the step for the gear stick; the result says whether a gear was asked for |
| CarEngine.RunConsistent | panel/CarEngine.h:17-71 | over every run gears 1 to 6 never go with a backward speed, gear 7 never with a forward one, and the engine speed matches the wheels once recomputed |
| CarEngine.TorqueBound | panel/CarEngine.h:176-189 | the torque polynomial stays below 486 Nm on its whole range |
| CarEngine.ForceBound | panel/CarEngine.h:31-42 | no force exceeds 9924 N, and a car faster than 265 km/h is never pushed, in any gear |
| CarEngine.OverRevs | panel/CarEngine.h:198-205 | above 265 km/h every gear but the two long ones turns the engine past 7000 rev/min, where torque ends |
| CarEngine.SpeedStaysBounded | panel/CarEngine.h:17-71 | for a fixed step and any pedals and gears the speed never exceeds 265 km/h plus what one step can add |
| CarEngine.BrakingStops | panel/CarEngine.h:17-55 | full braking takes at least 70.56 km/h a second off in every gear until the car stands |
| CarEngine.RefusedButReportedExactly | panel/CarEngine.h:57-71 | success is reported and neutral engaged instead exactly for a gear that does not exist or when the car rolls the other way |
| CarEngine.TurnsForwardExactly | panel/CarEngine.h:36-54 | a car rolling backwards turns forwards in one update iff it is in neutral and faster than what drag, rolling resistance and brake take off in the step; the accelerator plays no part |

## Left out

- `encodeCanMessage` of the panel: its masks for unaligned signals of several bytes do not follow the decoders' bit order, so there is no general round trip; the generator's setters are modelled instead.
- The Motorola branch of `putSignalValueInFrame`: it shifts by negative amounts or misplaces short signals.
- Signals of more than 32 bits in generated code: shifts beyond the width of `int` are undefined in C.
- CodegenCorrect.SetThenGet: needs a getter that parses; for the others `SetThenValue` states the same through the signal's meaning.
- Left shifts of negative or large values in the setters' stores: they wrap around as on a two's complement machine, which C++ promises since 2020; `CodegenOverflow` covers the getters and the sign steps.
- The generator's text: layout of the lines, buffer sizes, and the bit map it keeps for debugging.
- HashTableMap.RunOperations: for pairwise unequal keys, on which the table is a map; runs that insert equal keys are those of `HashTableList.RunAnyOperations`.
- Allocation failure, in particular the fallback of `hashtable_expand`, and the rounding of the load limit in `float`: the factor 0.65 is a rational here.
- Overflow of the unsigned counters (entries, list size, queue length) and of text positions.
- Memory orders weaker than sequential consistency in the queue: the source uses none.
- WorkQueue.JobsConserved: a job is added only while it is not waiting; `AddIsListIff` says what the other additions do to the list.
- Liveness of the worker pool, and the freeing of worker records.
- CanReceive.RingIsTransparent: for elements at least as large as the number of devices, which is so for the class in the source; driver calls are atomic, as on the one receiving thread there is.
- Delegates that register or remove delegates while they are called; the transmit ring; driver open and close states.
- DbcSignalLine.PrintedLineReads: for names of word characters, numbers in the importer's number class, a sign, units without newline and non-empty receivers without comma, quote or whitespace; the encoding of units as Latin-1 is the identity here, what the importer does with other lines, and signal lines inside a comment of several lines, are not modelled.
- CarEngine.SpeedStaysBounded: over the reals, for a fixed positive step; pi is the source's literal.
- Sockets, threads, libevent, the graphical panel, the lex and yacc reader, XML and spreadsheet import and export.
- Brake-light ramp, singletons, structure copies and key maps: nothing hard to say about them.
