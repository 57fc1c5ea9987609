# Verified model of the node's core data structures

A Dafny model of the parts of the node that hold the hardest invariants, with proofs. It is
checked as a whole with `dafny verify dfyconfig.toml`.

**Address manager** (`AddrTypes`, `AddrBook`, `AddrCheck`, `AddrNews`, `AddrSpread`, `AddrMan`,
`AddrFile`, `AddrSound`, `AddrReload`, `AddrStore`, `AddrSurprises`). The manager keeps
five redundant indexes of the addresses it knows, two counters and a reference count for each
entry, all updated in place. `AddrMan` is that object. `AddrBook` describes its states as values: the
invariant `Inv(loose, uncounted)` holds between any two steps, with the entries in `loose` momentarily in
no table and those in `uncounted` in no counter, and `Valid` is the case where there are none. Every
primitive change of state has a lemma that says what it does to the invariant; the methods are
sequences of those. `AddrCheck` relates the invariant to the manager's own consistency check, and says which
fault that reports. `AddrNews` says in numbers what an announcement records and which entries are
handed out. `AddrSpread` is how little of the tables a range of addresses can reach.
`AddrFile` is the file and what loading it, whatever it contains, leaves; `AddrSound` says when that satisfies the
invariant. `AddrReload` is what a manager is saved as, and why loading that only renames the ids. `AddrStore` has
the methods that save and load. `AddrSurprises` has short runs that end otherwise than one might expect.

**Coin caches** (`CoinData`, `CoinsCache`). A stack of write-back caches over a database. `Levels()` is
the list of the maps shown at each level, pruned coins counting as absent, and `Run` proves that any
run of operations does to that list what one would expect of plain maps. The flags are justified
by the predicate `Honest`: fresh means absent below, not dirty means as below, and not fresh means
that the cache below has an entry.

**Verification queue** (`CheckQueue`, `CheckQueueRuns`, `CheckQueueWorkers`, `CheckQueueObject`). The critical
sections, and the evaluation of a batch between them, are methods; each is tied to a function that the transition
system uses in its step. Threads are interleaved arbitrarily, and wake up without reason if they like.
`CheckQueueWorkers` proves that the notifications to the workers are enough, and `CheckQueueObject` puts the methods
together to the steps.

**Coin selection** (`Denominations`, `DenominationFunctions`). Greedy selection under the three stopping rules
that the code uses, on the divisibility chain of the denominations, and the methods that select.

**Big integers** (`Arithmetic`, `Words`, `ArithUint`, `Compact`). Word arrays with carry loops,
for every width, and the compact format.

**Codecs** (`VarInts`, `Compressor`, `CoinsCodec`, `Xor32`, `Bech32`, `Bech32Field`, `Bech32Roots`, `Bech32Strings`,
`Bech32Errors`, `Radix`, `Base58`). Readers and writers are loops over streams and buffers; the round trips are
proved on their specification functions. The checksum is computed on 32-bit vectors, and
proved to be the remainder of a division of polynomials over 32 elements. Error detection rests on its
linearity and on three consecutive roots of the generator in the field of 1024 elements.

**Active chain** (`SkipList`, `Chain`). Blocks are objects linked to their parents, with skip links, along which
a walk is short.

## Where the code does not do what one might expect

Each but the last three has a theorem that says exactly when, and a run or an input that shows it.

* `Add_` answers true for a new address that it then drops because its slot is taken
  (`AddrBook.AddStores`; `AddrSurprises.SecondIsDropped`).
* `Good_` with a time that is not positive breaks the consistency check (`AddrBook.GoodTimes`;
  `AddrSurprises.GoodAtZero`).
* `Clear` leaves `mapInfo` and `mapAddr` as they are, so it restores the invariant exactly when nothing was known
  (`AddrSurprises.ClearNeedsEmpty`; `AddrSurprises.ClearedInUse`).
* A file is accepted although it holds an address twice or counts below zero. What it leaves violates the invariant
  exactly when some entry that shares its address with another has a slot, or a count is negative
  (`AddrStore.Unserialize`, `AddrSound.LoadedIsValid`; `AddrSurprises.SavedTwice`, where the check fails as well).
* The public `SetServices` calls `Connected_` with the services as a time (`src/addrman.h:579`), and so do
  `Perform` and `Run`: the services never change, the time may (`AddrBook.OfferIsTime`; `AddrSurprises.OfferSetsTime`).
* Undoing the last spend of a transaction does not restore the coinstake flag
  (`CoinData.UndoRestores`; `CoinData.RestoresNoStake`).
* In 64-bit arithmetic an amount does not survive compression unless it ends in a zero or nine times it, plus its
  last digit, less nine, is below 2^64 (`Compressor.SurvivesCompression`; `Compressor.LosesAmounts`).
* `Decode` refuses what `Encode` wrote when the prefix is empty, not printable or has upper case, or
  when the whole is longer than 90 characters (`Bech32Strings.RoundTrip`; `Bech32Strings.UpperCaseIsLost`). The one
  exception is an empty prefix with no values, which is also the answer for a failure.
* `getSpends` never returns when coins of a denomination are wanted of which the list has no unspent
  mint (`DenominationFunctions.PassesEnd`; `DenominationFunctions.WantsForever`), and takes mints twice exactly when
  more are wanted than there are (`DenominationFunctions.GetSpends`; `DenominationFunctions.SelectsTwice`).
* `CalculateChange` uses more coins than its limit exactly when no coins held cover the target within it, and the
  answer zero does not tell: the comment at `src/denomination_functions.cpp` lines 311-314 says it does, but zero
  means that no change is due (`DenominationFunctions.CalculateChange`, `DenominationFunctions.NoChange`;
  `DenominationFunctions.ExceedsLimit`). The wallet compares the number itself (`src/wallet/wallet.cpp` line 5012).
* `x *= x` on one number gives zero (`ArithUint.BaseUint.Mul`).
* The comment at `src/serialize.h` lines 414-419 gives three bytes for 16511, which takes two, and a wrong second byte
  for 65535 (`VarInts.VarIntExamples`).
* The layout comment in `src/coins.h` lines 20-72 is not that of `Serialize`; the model follows the code.

## Model

| member | source | states |
|---|---|---|
| AddrTypes.Hasher.TriedBucket | src/addrman.cpp:13-18 | the hash of the service picks one of eight choices of its address range, and the hash of range and choice the bucket, below 256; which eight is what AddrSpread.GroupMeetsFewTried is about |
| AddrTypes.Hasher.NewBucket | src/addrman.cpp:20-26 | the hash of both ranges picks one of 64 choices of the source range, and the hash of source range and choice the bucket, below 1024; see AddrSpread.SourceMeetsFewNew |
| AddrTypes.Hasher.Position | src/addrman.cpp:28-32 | the slot within a bucket is below 64 |
| AddrSpread.PositionDependsOnAll | src/addrman.cpp:28-32 | the position depends on the key, the table, the bucket and the service: for any two inputs that differ there are hashes that tell them apart |
| AddrSpread.TriedDependsOnAll | src/addrman.cpp:13-18 | so does the tried bucket on key and service, and on the address even where the first hash is the same |
| AddrSpread.NewDependsOnAll | src/addrman.cpp:20-26 | and the new bucket on key, address and source, and on the source even where the first hash is the same |
| AddrSpread.GroupMeetsFewTried | src/addrman.cpp:13-18 | all services of one address range meet at most eight tried buckets |
| AddrSpread.BucketHoldsFew | src/addrman.h:135-136 | no tried bucket has more entries than positions |
| AddrSpread.GroupHoldsFewTried | src/addrman.h:107-119 | in every state with the invariant, at most 512 tried entries are of one address range, however many addresses it has |
| AddrSpread.SourceMeetsFewNew | src/addrman.cpp:20-26 | whatever sources of one range announce goes to at most 64 new buckets |
| AddrSpread.FewReached | src/addrman.cpp:20-26 | sources of n ranges reach at most 64 n new buckets |
| AddrSpread.FewBucketsUsed | src/addrman.h:107-113 | what was heard from sources of n ranges alone occupies at most 64 n new buckets |
| AddrSpread.AddHeard | src/addrman.cpp:247-313 | announcing, in every branch, puts entries only where the range of the announcing source leads |
| AddrSpread.GoodHeard | src/addrman.cpp:150-245 | an entry that is evicted from the tried table goes where the range of its own first source leads |
| AddrMan.Run | src/addrman.h:481-582 | every run of public operations, and of the protected SetServices_, from an empty manager keeps the invariant, and every consistency check along the way, before and after each operation, answers zero; if the sources that announced anything are of n ranges, at most 64 n new buckets are in use, and no range has more than 512 tried entries |
| AddrMan.AddrMan.Perform | src/addrman.h:481-582 | one operation between two consistency checks: both answer zero, the invariant is kept, and the new state is what the operation leaves; times must be positive for Good and not negative elsewhere; the public SetServices passes its number on as a time, as the source does |
| AddrMan.AddrMan.Execute | src/addrman.h:481-582 | one operation keeps the invariant and the clock clauses, and leaves the state that its own contract describes |
| AddrMan.TimesSurvive | src/addrman.h:481-582 | an operation keeps the clock clauses exactly if the service is unknown, or the time is positive for Good and not negative for Attempt |
| AddrMan.HappenedHeard | src/addrman.h:481-582 | no operation leaves anything in a new bucket that the ranges of the sources do not lead to |
| AddrMan.AddrMan.Check_ | src/addrman.cpp:374-448 | zero exactly when all that the check tests holds, and otherwise the code of the first fault in the order of the tests: sizes, entries by id, counters, tried slots, new slots, entries not met, key; on a state with the invariant it changes nothing although its lookups may insert |
| AddrCheck.OneAnswer | src/addrman.cpp:374-448 | these rules give every state exactly one answer |
| AddrCheck.ValidPasses | src/addrman.cpp:374-448 | every state with the invariant passes the check |
| AddrCheck.PassesIsValid | src/addrman.cpp:374-448 | passing the check together with the two clauses it does not test is the same as the invariant, both ways |
| AddrCheck.KeepsOutEmpty | src/addrman.cpp:374-448 | the mark of an empty slot is never the id of an entry |
| AddrMan.AddrMan.CheckEntry | src/addrman.cpp:382-406 | the code of the first test that the entry fails, or zero; what the lookup inserts reads as zero as before |
| AddrMan.AddrMan.CheckEntries | src/addrman.cpp:382-406 | the code of the first entry, by id, that fails, or zero when none does, and then the ids and reference counts collected are those of the tried and the new entries |
| AddrMan.AddrMan.CheckTried | src/addrman.cpp:413-425 | the code of the first tried slot that fails; the scan succeeds and uses up the collected ids exactly when every tried entry sits once, at its hashed slot, and nothing else is in the table |
| AddrMan.AddrMan.CheckNew | src/addrman.cpp:427-438 | the code of the first new slot that fails; the scan succeeds and uses up the counts exactly when every cell is at its hashed slot and every new entry has as many slots as its count says |
| AddrMan.AddrMan.constructor | src/addrman.h:431-454 | a constructed manager is empty, with 256 tried and 1024 new buckets of 64 free slots, and satisfies the invariant |
| AddrMan.AddrMan.Clear | src/addrman.h:431-449 | empties order, tables and counters, and leaves the two maps as they were |
| AddrSurprises.ClearNeedsEmpty | src/addrman.h:431-449 | what Clear leaves satisfies the invariant exactly when nothing was known before |
| AddrSurprises.ClearedInUse | src/addrman.h:431-449 | a manager that knows one address and is cleared: its consistency check fails |
| AddrMan.AddrMan.Create | src/addrman.cpp:89-99 | the entry gets the next id, the end of the random order and the address index, and no slot |
| AddrMan.AddrMan.SwapRandom | src/addrman.cpp:101-119 | two places of the order are exchanged and order and positions stay inverse; no entry differs in anything but its position |
| AddrMan.AddrMan.Delete | src/addrman.cpp:121-133 | the entry leaves all indexes; the last of the order takes its place, order and positions stay inverse |
| AddrMan.AddrMan.ClearNew | src/addrman.cpp:135-148 | the slot is emptied, its entry loses one reference and goes with the last; the rest of the state and the invariant are kept |
| AddrMan.AddrMan.LeaveNew | src/addrman.cpp:152-162 | the entry is in no new bucket and has no reference left when the loop ends, so the assertion on its count holds |
| AddrMan.AddrMan.DemoteAt | src/addrman.cpp:172-177 | the evicted entry leaves its tried slot and the count |
| AddrMan.AddrMan.Evict | src/addrman.cpp:168-190 | the occupant of the tried slot goes back to the new slot of its first source, whose occupant gives way; the tried slot is free |
| AddrMan.AddrMan.RelistAt | src/addrman.cpp:184-189 | an entry without references is put in a free new slot with a single reference and counted |
| AddrMan.AddrMan.PromoteAt | src/addrman.cpp:191-195 | a free tried slot gets the entry, which is counted |
| AddrMan.AddrMan.MakeTried | src/addrman.cpp:150-196 | slot by slot and entry by entry what the tables hold after the move, with at most one entry lost: the one whose only reference the evicted entry took |
| AddrMan.AddrMan.FindBucket | src/addrman.cpp:224-239 | a bucket holding the entry is always found, so the branch that gives up is never taken |
| AddrMan.AddrMan.Good_ | src/addrman.cpp:198-245 | unknown services change nothing, tried ones are updated, new ones moved; the invariant is kept |
| AddrBook.GoodIsTried | src/addrman.cpp:198-245 | after Good_ a known service is in the tried table, with no new reference, the given time and no failed attempts |
| AddrBook.GoodTimes | src/addrman.cpp:198-245 | Good_ keeps the clock clauses of the check exactly when the service is unknown or the time is positive |
| AddrSurprises.GoodAtZero | src/addrman.cpp:198-245 | a manager told of one address, which is then reported good at time zero: its consistency check fails |
| AddrMan.Lottery | src/addrman.cpp:278-283 | an address with n references passes exactly when n is zero or the roll is a multiple of 2^n |
| AddrMan.Announce | src/addrman.cpp:256-283 | what is recorded of a repeated announcement, and exactly when it goes on to a further slot |
| AddrMan.AddrMan.Place | src/addrman.cpp:291-311 | the slot is taken exactly when it is free, or its entry terrible, or doubly referenced and the newcomer without reference; a newcomer that gets no slot goes; the invariant is restored |
| AddrMan.AddrMan.Add_ | src/addrman.cpp:247-313 | all branches: unroutable, repeated, new; keeps the invariant and ties the new state to the old; what that records is in AddrNews |
| AddrNews.NewIsRecorded | src/addrman.cpp:284-308 | a new address that is stored has the announced time less the penalty, or zero if that is larger, the announced services and the source, and one slot |
| AddrNews.KnownIsUpdated | src/addrman.cpp:256-264 | a known address keeps what is recorded but for the union of the services, and for the announced time less the penalty, recorded exactly when nothing was or what was is older by more than the penalty and an hour, or a day for an announcement a day old |
| AddrNews.OthersAreKept | src/addrman.cpp:247-313 | no other entry changes but in a slot it loses |
| AddrNews.SpreadsOnNews | src/addrman.cpp:266-308 | a known address gets a further slot only if announced later than what is then recorded, while new and in fewer than eight, for one in 2^n rolls, and then gets it if it is free |
| AddrNews.WrapsAround | src/addrman.h:577-579 | times wrap to 32 bits, and numbers passed as times to signed 64 bits |
| AddrBook.AddStores | src/addrman.cpp:247-313 | Add_ answers true exactly for a routable address not known before; whether it is known afterwards depends exactly on the slot, so the answer may be true for an address that was dropped |
| AddrSurprises.SecondIsDropped | src/addrman.cpp:247-313 | two addresses that compete for one slot: the second is answered true, and is not known afterwards |
| AddrBook.AddLosesAtMostOne | src/addrman.cpp:247-313 | an entry that is gone after Add_ was new, had one reference, and lost it to the announced address |
| AddrBook.AddTimes | src/addrman.cpp:247-313 | Add_ never breaks the clock clauses, whatever the times |
| AddrBook.OfferedToNew | src/addrman.cpp:284-311 | a new address stays known exactly when the slot may be taken |
| AddrMan.AddrMan.Attempt_ | src/addrman.cpp:315-332 | only time and number of attempts of the one entry differ, and nothing for a different port |
| AddrMan.AddrMan.Connected_ | src/addrman.cpp:472-490 | only the time of the one entry differs, and only if it is more than twenty minutes older |
| AddrMan.AddrMan.SetServices_ | src/addrman.cpp:492-505 | only the services of the one entry differ |
| AddrBook.OfferIsTime | src/addrman.h:573-582 | the public call that offers services never changes the services of any entry, and changes anything exactly when the service is known, the number read as a signed time is more than 1200 beyond the recorded time, and differs from it in 32 bits |
| AddrSurprises.OfferSetsTime | src/addrman.h:573-582 | services 5000 offered for a known address are recorded as its time |
| AddrMan.AddrMan.DrawRandom | src/addrman.cpp:459-462 | any place of the rest of the order is brought to the front of the rest, the part drawn before is kept |
| AddrMan.AddrMan.GetAddr_ | src/addrman.cpp:451-470 | hands out the fit entries of a front part of the order: as many as are fit, and no more than 23 in a hundred of those known nor than 2500; nothing but the order changes |
| AddrNews.HandedOut | src/addrman.cpp:451-470 | that number, for any order of drawing |
| AddrNews.AllFit | src/addrman.cpp:451-470 | if no entry known is terrible, exactly the smaller of 2500 and 23 in a hundred are handed out |
| AddrNews.TerribleMeans | src/addrman.cpp:34-52 | an entry tried within the last minute is never terrible; else one without a time, more than 30 days old or more than 10 minutes ahead always is, one with a time between these is not with fewer than three attempts, with a success in the last 7 days, or with any success and fewer than ten attempts, and is with three attempts and no success, or with ten and none in the last 7 days |
| AddrBook.FitIsComplete | src/addrman.cpp:451-470 | no entry is handed out twice, and when the order is used up every entry that is not terrible was handed out |
| AddrBook.FitBelongs | src/addrman.cpp:451-470 | what is handed out is known |
| AddrBook.SomeSlot | src/addrman.cpp:224-239 | a new entry is in some new bucket at its hashed slot |
| AddrBook.TouchKeeps | src/addrman.cpp:315-332 | fields that place nothing may change without breaking the invariant |
| AddrBook.DropRefKeeps | src/addrman.cpp:135-148 | taking an entry out of one new slot keeps the invariant but for an entry left without any |
| AddrBook.AddRefKeeps | src/addrman.cpp:305-308 | a free slot and a count below eight are enough for one more reference |
| AddrBook.DemoteKeeps | src/addrman.cpp:172-177 | taking an entry out of its tried slot keeps the invariant but for that entry |
| AddrBook.PromoteKeeps | src/addrman.cpp:191-195 | putting an entry without references in its free tried slot restores the invariant for it |
| AddrBook.EraseKeeps | src/addrman.cpp:121-133 | an entry in no table can be erased |
| AddrBook.CreateKeeps | src/addrman.cpp:89-99 | an entry can be created for an address not known |
| AddrBook.StripDone | src/addrman.cpp:152-162 | an entry taken out of all buckets has count zero, and is the only one the invariant does not hold of |
| AddrBook.EvictMoves | src/addrman.cpp:168-195 | the steps of the eviction compose to the specified move |
| AddrBook.MoveAndEvict | src/addrman.cpp:150-196 | the move with eviction, cell by cell |
| AddrBook.ReorderKeeps | src/addrman.cpp:451-470 | the order may be permuted |
| AddrStore.SaveAndLoad | src/addrman.h:278-424 | saving any manager with the invariant and loading it into a new one gives the same tables and entries up to the renaming of ids, the invariant and the clock clauses, so that the consistency check at the end answers zero |
| AddrStore.Serialize | src/addrman.h:278-326 | the file is that of the state: version 1, key size 32, 1073742848 for the number of buckets, the key and the counters, new entries in order of id, tried ones, and the 1024 buckets by index; the counter assertions hold |
| AddrFile.FlipsOneBit | src/addrman.h:346-348 | of any signed number of 32 bits, bit 30 is changed and no other bit |
| AddrFile.UsualHeader | src/addrman.h:330-348 | a file of a nonzero version with that number holds 1024 buckets, has usable slots exactly in version 1, and is whole when the key size is 32 and all is there |
| AddrStore.SerializeNew | src/addrman.h:294-302 | the saved new entries, and the index of each is the number of new ones before it |
| AddrStore.SerializeTried | src/addrman.h:303-311 | the saved tried entries in order of id |
| AddrStore.SerializeBucket | src/addrman.h:312-325 | the saved indexes of a bucket are those of its occupied slots, in order |
| AddrReload.OrdersAreCounts | src/addrman.h:290-311 | as many new and tried entries are listed as the counters say |
| AddrReload.CounterNotReached | src/addrman.h:297-308 | before an entry is written fewer have been than the counter says: no assertion on the number of ids fails |
| AddrReload.RenOrig | src/addrman.h:294-311 | renaming takes back the original id |
| AddrReload.OrigRen | src/addrman.h:294-311 | every entry is renamed to an index, tried ones behind the new ones, and back |
| AddrStore.Unserialize | src/addrman.h:328-424 | a file is accepted exactly when the key size is 32 and all that its header announces is there, and then the manager holds what AddrFile.Filled says of the entries and slots in order, but for the new entries left without a slot, which are gone; that satisfies the invariant exactly when the header counts nothing below zero and no two entries read share an address, unless both are left without a slot; with distinct addresses it does; order and positions are inverse for any content |
| AddrSurprises.SavedTwice | src/addrman.h:328-424 | a file that has one address twice, heard from two sources, is accepted, and the consistency check at the end fails |
| AddrSound.LoadedIsValid | src/addrman.h:328-424 | that condition, for what loading any file leaves |
| AddrSound.DistinctIsResolved | src/addrman.h:328-424 | a file that has no address twice meets it |
| AddrSound.FilledSound | src/addrman.h:349-406 | before pruning, order, tables, references and counters are right for any file with counts that are not negative, whatever its addresses |
| AddrSound.PrunedCells | src/addrman.h:408-418 | what is pruned was in no slot, so the tables and references are right afterwards |
| AddrSound.PrunedAddresses | src/addrman.h:408-418 | after pruning addresses and entries match exactly when no two entries shared an address, unless both went |
| AddrReload.SavedLoads | src/addrman.h:278-424 | the file of any manager with the invariant is whole, loses nothing, and gives the same indexes under other ids, with the invariant |
| AddrReload.SavedNew | src/addrman.h:349-367 | the new entries of a saved manager, one by one |
| AddrReload.SavedTried | src/addrman.h:369-388 | its tried entries: each finds its slot free |
| AddrReload.SavedBuckets | src/addrman.h:390-406 | its slots: each is free and is given back |
| AddrStore.LoadNew | src/addrman.h:349-367 | the new entries have ids 0, 1, 2, ... and exactly those, each with a slot by its source where the saved ones cannot be used; it fails exactly when some are missing |
| AddrStore.LoadTried | src/addrman.h:369-388 | each tried entry gets its slot or, if that is taken, is lost and not counted; it fails exactly when some are missing |
| AddrStore.LoadBucket | src/addrman.h:390-406 | each index of a bucket gives its entry the slot it hashes to, if that is free and the entry has room |
| AddrStore.LoadSlots | src/addrman.h:390-406 | so for all buckets; it fails exactly when buckets are missing |
| AddrStore.Prune | src/addrman.h:408-418 | exactly the new entries without reference go, with what their addresses lead to, and are counted; if there is none nothing changes |
| AddrFile.PrunesMore | src/addrman.cpp:121-133 | deleting one entry more prunes that entry as well |
| AddrReload.LoadNewStep | src/addrman.h:349-367 | one new entry more |
| AddrReload.LoadTriedStep | src/addrman.h:369-388 | the slot of the next tried entry is still free |
| AddrReload.LoadSlotStep | src/addrman.h:390-406 | the slot of the next saved index is free and its entry has room for the reference |
| AddrReload.ReloadedIsValid | src/addrman.h:328-424 | a manager with the renamed tables satisfies the invariant |
| AddrReload.ReloadedTimes | src/addrman.h:328-424 | last tries are forgotten and last successes kept, so the clock clauses survive |
| AddrSound.NewEntryKeeps | src/addrman.h:349-354 | reading a new entry keeps order and tables right, but for its references, even if its address is known |
| AddrSound.TriedEntryKeeps | src/addrman.h:371-388 | so does reading a tried entry into its free slot |
| AddrSound.GiveKeeps | src/addrman.h:355-364 | a reference in a free slot, by the first source or by a saved index, keeps them right |
| CoinData.Trim | src/coins.h:119-125 | what is cut off is spent, and what is left does not end in a spent output |
| CoinData.Cleanup | src/coins.h:119-125 | cleaned coins are pruned exactly when they were, which is when no output is left |
| CoinData.CleanPruned | src/coins.cpp:143-151 | testing for an empty output list is exact on cleaned coins |
| CoinData.Spend | src/coins.cpp:36-52 | spends exactly the available outputs, leaves cleaned coins and keeps what was spent |
| CoinData.Restore | src/main.cpp:2832-2850 | puts the output back, clearing first if the undo data has a height |
| CoinData.UndoRestores | src/main.cpp:2832-2850 | undoing a spend gives back the coins exactly when outputs remained, or the height was zero, or they were no coinstake: the undo data drops the coinstake flag |
| CoinData.RestoresNoStake | src/coins.cpp:36-52 | a coin stake with one output at height seven is no coin stake after being spent and restored |
| CoinsCache.OverlayPut | src/coins.h:410-480 | one entry of a cache decides one key of what it shows |
| CoinsCache.EnterFetched | src/coins.cpp:94-101 | a fetched entry, fresh if pruned, keeps the flags right and shows what was shown |
| CoinsCache.EnterModified | src/coins.cpp:117-130 | so does an entry for modification |
| CoinsCache.ReleaseKeeps | src/coins.cpp:277-285 | erasing a fresh pruned entry is safe, and one key of what is shown changes |
| CoinsCache.MergeKeeps | src/coins.cpp:169-194 | merging one dirty entry, in each of the four branches, keeps the flags right and changes one key of what is shown |
| CoinsCache.MergeReady | src/coins.cpp:169-194 | the assertion that an entry unknown to the parent is fresh never fires, and an entry that is not dirty may be ignored |
| CoinsCache.MergeOne | src/coins.cpp:169-196 | one turn of the loop, in whatever order the entries come |
| CoinsCache.MergeAll | src/coins.cpp:165-200 | when no entry is left the parent shows what the child showed |
| CoinsCache.CoinsViewDB.GetCoins | src/txdb.cpp:40-43 | what is read is what is stored, never pruned and without spent outputs at its end, so that it may be cached as it is |
| CoinsCache.CoinsViewDB.BatchWrite | src/txdb.cpp:58-77 | the database becomes what the cache showed and stores no pruned coins |
| CoinsCache.CoinsViewCache.OnDisk | src/coins.cpp:79 | a new cache shows its base |
| CoinsCache.CoinsViewCache.On | src/coins.cpp:79 | a new cache shows the cache below it |
| CoinsCache.CoinsViewCache.FetchCoins | src/coins.cpp:86-102 | no level of the stack shows anything different; what is found is what is shown, and what is not found is absent |
| CoinsCache.CoinsViewCache.BaseGetCoins | src/coins.cpp:70 | asking the level below changes no level; what it answers stays in its cache |
| CoinsCache.CoinsViewCache.GetCoins | src/coins.cpp:104-141 | the coins shown, pruned counting as absent; no level changes |
| CoinsCache.CoinsViewCache.HaveCoins | src/coins.cpp:143-151 | true exactly for the transactions shown, though only the output list is tested |
| CoinsCache.CoinsViewCache.NewEntry | src/coins.cpp:117-129 | the entry made for modification shows what is below, and is fresh exactly when that is nothing |
| CoinsCache.Query | src/coins.cpp:104-151 | a query of a cache any number of levels below others in use, or while a modification is open, changes nothing that any level shows |
| CoinsCache.CoinsViewCache.ModifyCoins | src/coins.cpp:114-131 | opens a session on one entry without changing what is shown |
| CoinsCache.CoinsModifier.constructor | src/coins.cpp:271-275 | taking the handle changes nothing that any level shows |
| CoinsCache.CoinsModifier.Assign | src/coins.h:403-404 | writing through the modifier changes one key of what is shown |
| CoinsCache.CoinsModifier.Destroy | src/coins.cpp:277-285 | ends the session, leaving cleaned coins or none |
| CoinsCache.Modify | src/coins.cpp:114-131 | a whole session changes exactly the one key |
| CoinsCache.CoinsViewCache.BatchWrite | src/coins.cpp:165-200 | the parent shows afterwards what the child showed; nothing below it changes |
| CoinsCache.CoinsViewCache.Flush | src/coins.cpp:202-207 | what the cache showed is what its base shows afterwards, and still what it shows; lower levels are unchanged |
| CoinsCache.Perform | src/coins.cpp:86-207 | one operation on a stack of any depth does to the list of views what the plain specification says |
| CoinsCache.Run | src/coins.cpp:86-285 | every run of operations that build, read at any depth, open, write and close modifications, flush and drop caches refines a stack of plain maps, in every answer and in the final state |
| CheckQueue.BatchFits | src/checkqueue.h:110 | a batch has at least one check and no more than the queue, so that popping never meets an empty queue |
| CheckQueue.Reverse | src/checkqueue.h:112-117 | the order in which checks are taken from the back |
| CheckQueue.Queue.ComeBack | src/checkqueue.h:80-89 | the finished checks are taken off, the verdict is joined, and the master is notified exactly by the last of the workers |
| CheckQueue.Queue.LookForWork | src/checkqueue.h:91-119 | exactly one of: leave with the verdict, which is then reset; sleep; take a batch |
| CheckQueue.Queue.TakeBack | src/checkqueue.h:111-117 | the batch is the end of the queue reversed, and the rest stays |
| CheckQueue.Queue.RunBatch | src/checkqueue.h:121-124 | true exactly when no check failed before and all of the batch pass, though evaluation stops at the first failure |
| CheckQueue.Queue.WakeUp | src/checkqueue.h:101-103 | one thread fewer waits, and nothing else changes |
| CheckQueue.Queue.Add | src/checkqueue.h:146-158 | the checks are appended and counted; one is announced to one worker, more to all |
| CheckQueue.Queue.IsIdle | src/checkqueue.h:164-168 | the answer that CheckQueueRuns.IdleMeans is about |
| CheckQueueRuns.StepKeeps | src/checkqueue.h:69-158 | every step of every thread keeps the invariant: the counters are the sums over the threads, and the checks all pass exactly when verdict, queue and batches say so |
| CheckQueueRuns.EntersKeeps | src/checkqueue.h:78-119 | the critical section of a thread coming back |
| CheckQueueRuns.WakesKeeps | src/checkqueue.h:101-119 | a wake-up, notified or spurious |
| CheckQueueRuns.RunsKeeps | src/checkqueue.h:121-125 | a batch evaluated outside the lock |
| CheckQueueRuns.AddsKeeps | src/checkqueue.h:146-158 | handing over checks |
| CheckQueueRuns.StartsKeeps | src/checkqueue.h:133-143 | a thread going into the loop |
| CheckQueueRuns.StartIsInv | src/checkqueue.h:131 | the start |
| CheckQueueRuns.RunKeeps | src/checkqueue.h:69-158 | the invariant holds after every interleaving of one master and any number of workers |
| CheckQueueRuns.RunAnswers | src/checkqueue.h:139-158 | the checks answered for and those not yet answered for are together those handed over, in order |
| CheckQueueRuns.WaitIsRight | src/checkqueue.h:139-143 | in every interleaving each Wait answers true exactly when all checks handed over since the Wait before it pass |
| CheckQueueObject.Enact | src/checkqueue.h:69-158 | the methods of the queue object, put together as the loop does, take every step of the state machine |
| CheckQueueObject.Play | src/checkqueue.h:69-168 | a new queue object driven through any run has the fields of the state it ends in, and answers idle exactly when all work is done and nothing added since the last Wait fails |
| CheckQueueRuns.NeverUnderflows | src/checkqueue.h:82 | no step that a thread can take makes the number of checks to do negative |
| CheckQueueWorkers.WorkersAreTold | src/checkqueue.h:84-158 | in every interleaving, while some worker sleeps that was not notified, at least as many others are awake or notified as there are checks in the queue: no check waits for a worker nobody told |
| CheckQueueWorkers.StepTells | src/checkqueue.h:69-158 | no step of any thread ends that |
| CheckQueueWorkers.AddsTell | src/checkqueue.h:146-158 | handing over keeps it by telling one worker of one check and all of more |
| CheckQueueWorkers.LookLeaves | src/checkqueue.h:91-119 | a look at the queue takes something or finds it empty |
| CheckQueueRuns.NotIdleIsBusy | src/checkqueue.h:164-168 | threads in the loop less those waiting are those that hold a batch |
| CheckQueueRuns.IdleMeans | src/checkqueue.h:164-168 | idle exactly when nothing is to be done and no check since the last Wait failed |
| CheckQueueRuns.ControlFindsIdle | src/checkqueue.h:183-190 | between a Wait and the next Add the assertion of a new control object holds |
| CheckQueueRuns.NoDeadlock | src/checkqueue.h:90-104 | as long as the master is in Wait some thread can go on without a spurious wake-up, with any number of workers, none included |
| CheckQueueRuns.StepMeasure | src/checkqueue.h:69-127 | every step that is due brings Wait nearer to its end, and no step takes it further away |
| CheckQueueRuns.WaitReturns | src/checkqueue.h:139-143 | within one Wait no more steps that are due can be taken than the measure at its start |
| Denominations.Chain | src/libzerocoin/Denominations.h:18-32 | each denomination is a multiple of the next smaller one, at least twofold |
| Denominations.Denominated | src/libzerocoin/Denominations.cpp:97-101 | the worth of each denomination in the smallest unit |
| Denominations.Enough | src/denomination_functions.cpp:46-68 | a multiple of the largest denomination is met exactly by greedy selection whenever what is held is worth that much |
| Denominations.Complete | src/denomination_functions.cpp:46-68 | greedy selection from limited coins makes up whatever some of the coins make up, with no more coins than any other way |
| Denominations.Exchange | src/denomination_functions.cpp:46-68 | small coins worth d of the next denomination can be singled out, and are at least d |
| Denominations.GreedyDecides | src/denomination_functions.cpp:99-123 | greedy selection leaves nothing exactly when some of the coins make up the amount |
| Denominations.UnderMeans | src/denomination_functions.cpp:238-252 | selection that stays below the amount leaves something, and every coin it leaves over would use up the rest |
| Denominations.UntilMeans | src/denomination_functions.cpp:364-380 | selection until nothing remains covers the amount if what is held does, and takes everything otherwise |
| Denominations.FewestToCover | src/denomination_functions.cpp:364-380 | selection until nothing remains covers the amount with the fewest coins of all that cover it |
| Denominations.StuckIsExact | src/denomination_functions.cpp:254-266 | if every coin left over fits into what remains below the amount, selection until nothing remains needs no change |
| Denominations.FewestCoins | src/denomination_functions.cpp:73-93 | change is made of the fewest coins worth as much |
| Denominations.WholeCoins | src/denomination_functions.cpp:73-93 | any whole number of coins is changed exactly |
| Denominations.ChangeFits | src/denomination_functions.cpp:73-93 | change is never worth more than the amount, and none is given for nothing or less |
| Denominations.ChangeIs | src/denomination_functions.cpp:73-93 | change is the one collection of coins of which none can be changed up and that leaves less than the smallest coin |
| Denominations.ChangeOfRest | src/denomination_functions.cpp:274-289 | taking coins out of change leaves the change of the rest |
| DenominationFunctions.GetNumberOfCoinsUsed | src/denomination_functions.cpp:18-26 | the number of coins of all denominations |
| DenominationFunctions.GetMaxDenomHeld | src/denomination_functions.cpp:31-42 | the highest denomination held, or none if nothing is held |
| DenominationFunctions.GetNextLowerDenomHeld | src/denomination_functions.cpp:206-217 | the highest denomination held below the given one, or none |
| DenominationFunctions.TakeCoins | src/denomination_functions.cpp:60-65 | the loop for one denomination takes as many as the rule of the selection allows, whatever amount remains |
| DenominationFunctions.GetSpendCoins | src/denomination_functions.cpp:46-68 | the loops select greedily: with Complete, they meet any amount that can be met |
| DenominationFunctions.GetChange | src/denomination_functions.cpp:73-93 | the change that FewestCoins and ChangeFits are about |
| DenominationFunctions.GetIdealSpends | src/denomination_functions.cpp:99-123 | exact is answered exactly when some of the unspent mints are worth the target, and then what is added to the coins used is worth it, in the fewest coins |
| DenominationFunctions.TakeMints | src/denomination_functions.cpp:113-120 | one pass over the list takes what the supply of unspent mints allows |
| DenominationFunctions.PassOver | src/denomination_functions.cpp:137-144 | one pass selects the first unspent mints of the denomination, as many as wanted or as there are, none twice |
| DenominationFunctions.PassesEnd | src/denomination_functions.cpp:136-145 | the passes end exactly when none is wanted or there is one to be spent |
| DenominationFunctions.SpendDenom | src/denomination_functions.cpp:136-145 | as many mints as wanted, all of the denomination and unspent, and none twice if there are enough |
| DenominationFunctions.GetSpends | src/denomination_functions.cpp:128-148 | of each denomination exactly as many mints as wanted, worth as much, unspent and from the list; none is taken twice exactly if no more are wanted than there are; and the call returns exactly if every denomination wanted has an unspent mint |
| DenominationFunctions.SelectsTwice | src/denomination_functions.cpp:128-148 | two wanted where there is one: the same mint twice |
| DenominationFunctions.WantsForever | src/denomination_functions.cpp:134-146 | one wanted where there is none: no number of passes is enough |
| DenominationFunctions.UnspentOfPart | src/denomination_functions.cpp:128-148 | a part of a list, mints counted as often as they occur, has no more to spend than the list |
| DenominationFunctions.SelectUnder | src/denomination_functions.cpp:238-252 | the first stage stays below the target and accounts for the rest |
| DenominationFunctions.FillUp | src/denomination_functions.cpp:254-266 | one more coin, the smallest left over that is worth more than what remains, or none if there is none |
| DenominationFunctions.RemoveOverlap | src/denomination_functions.cpp:274-289 | of each denomination as many coins are taken out as both the selection and its change have |
| DenominationFunctions.MinimizeChange | src/denomination_functions.cpp:219-308 | fewer coins come back if and only if the alternative, what staying under and filling up are worth less what comes back of it, gives back fewer and takes no more coins than the limit; then that is paid, in the fewest coins, and otherwise what was saved stays |
| DenominationFunctions.FilledMeans | src/denomination_functions.cpp:238-266 | staying under and filling up uses coins held, and covers the target unless no larger coin was left |
| DenominationFunctions.AlternativeIsPaid | src/denomination_functions.cpp:219-296 | the alternative can be paid exactly from what is held, and covers the target unless there was nothing to fill up with |
| DenominationFunctions.AlternativeIsShort | src/denomination_functions.cpp:291-293 | and with no more coins than any others held that are worth as much |
| DenominationFunctions.NothingBothWays | src/denomination_functions.cpp:274-289 | once the overlap is out, no denomination is both spent and in the change |
| DenominationFunctions.CoverTarget | src/denomination_functions.cpp:364-380 | the loop that stops only below zero covers the target with what selection until nothing remains takes |
| DenominationFunctions.MinDenomOver | src/denomination_functions.cpp:329-334 | the smallest held coin above the target, or none exactly if there is none |
| DenominationFunctions.ChangeFromOne | src/denomination_functions.cpp:335-360 | the one coin, or with fMinimizeChange the alternative below it, exactly when that gives back fewer coins within the limit; at most the allowed number of coins exactly when some of the coins held cover the target with no more |
| DenominationFunctions.ChangeFromMany | src/denomination_functions.cpp:362-404 | the coins of selection until nothing remains, or the alternative, exactly when that gives back fewer coins within the limit and fMinimizeChange is set or it takes no more coins; both cover the target if what is held does |
| DenominationFunctions.StuckNeedsNoChange | src/denomination_functions.cpp:382-394 | when filling up fails, plain covering needed no change, so the failed attempt is never preferred |
| DenominationFunctions.CalculateChange | src/denomination_functions.cpp:316-405 | for every target and holding: the one choice of coins that OneChoice is about, so that with fMinimizeChange a selection that gives back fewer coins within the limit is taken; no more is used than is held, the target is covered exactly when what is held covers it, and the answer is the number of coins in the change; for a positive target that is held, the limit on the number of coins is kept exactly when some of the coins held cover the target within it; and for a whole target the answer is zero exactly when no more than the target is used |
| DenominationFunctions.OneChoice | src/denomination_functions.cpp:316-405 | target, holding, limit and option leave one choice |
| DenominationFunctions.TakesThreeTens | src/denomination_functions.cpp:219-360 | 26 out of three tens and a fifty: with fMinimizeChange and a limit of three or more the tens are used and four coins come back, and otherwise the fifty, and six |
| DenominationFunctions.FirstCover | src/denomination_functions.cpp:364-380 | if any coins cover the target within the limit, those of selection until nothing remains do |
| DenominationFunctions.LimitKept | src/denomination_functions.cpp:316-405 | coins that are within the limit, or those of selection until nothing remains, or one alone, are within the limit exactly when some of the coins held cover the target within it |
| DenominationFunctions.NoChange | src/denomination_functions.cpp:311-314 | no change is due for a whole target exactly when no more than it is used: zero does not stand for too many spends, as the comment has it |
| DenominationFunctions.ExceedsLimit | src/denomination_functions.cpp:316-405 | two fives held, seven to be paid with one coin at most: both are used, and the answer is not zero |
| DenominationFunctions.SomethingBack | src/denomination_functions.cpp:434-441 | a whole amount left over gives at least one coin of change |
| DenominationFunctions.SelectMintsFromList | src/denomination_functions.cpp:411-443 | for all holdings: what is selected is unspent, listed and covers the target with the change counted right; a target that can be met exactly is met with the fewest mints if these are within the limit, and else their number is reported; else the mints are those of the coins that CalculateChange chooses, or none if no change is due; with no more held than listed nothing is selected twice, and for a whole positive target that is held, something is selected within the limit exactly when some unspent mints are worth the target, or some coins held cover it, within the limit; and the call returns if every denomination held has an unspent mint |
| DenominationFunctions.SelectWithChange | src/denomination_functions.cpp:419-443 | the part of it that gives change: the mints of the coins chosen, if any change is due |
| DenominationFunctions.FewestMints | src/denomination_functions.cpp:99-123 | an exact selection has no more mints than any other mints worth the target |
| Words.ValLess | src/arith_uint256.cpp:146-155 | the highest word that differs decides which number is less |
| Words.OrDisjoint | src/arith_uint256.cpp:58-72 | or-ing numbers without a bit in common adds them |
| Words.ShiftedWord | src/arith_uint256.cpp:58-72 | a word shifted left is what stays and what goes to the next word |
| ArithUint.BaseUint.constructor | src/arith_uint256.h:34-38 | zero |
| ArithUint.BaseUint.Copy | src/arith_uint256.h:40-44 | the same words in an array of its own |
| ArithUint.BaseUint.Set | src/arith_uint256.h:91-98 | the value of a 64-bit number |
| ArithUint.BaseUint.Add | src/arith_uint256.h:138-147 | the sum modulo 2^BITS, also when added to itself, and no carry leaves 64 bits |
| ArithUint.BaseUint.Increment | src/arith_uint256.h:175-182 | one more modulo 2^BITS |
| ArithUint.BaseUint.Decrement | src/arith_uint256.h:192-199 | one less modulo 2^BITS |
| ArithUint.BaseUint.Complement | src/arith_uint256.h:72-78 | 2^BITS - 1 less the value |
| ArithUint.BaseUint.Negated | src/arith_uint256.h:80-87 | the value that added gives zero modulo 2^BITS |
| ArithUint.BaseUint.Sub | src/arith_uint256.h:149-153 | the difference modulo 2^BITS, also subtracted from itself |
| ArithUint.BaseUint.MulWord | src/arith_uint256.cpp:92-101 | the product modulo 2^BITS |
| ArithUint.BaseUint.Mul | src/arith_uint256.cpp:104-117 | the product modulo 2^BITS, and zero when a number is multiplied with itself in place |
| ArithUint.BaseUint.MulRow | src/arith_uint256.cpp:108-115 | one row adds its partial product; what is lost is a multiple of 2^BITS; zeros stay zeros when both are one array |
| ArithUint.BaseUint.ShiftLeft | src/arith_uint256.cpp:58-72 | times 2^shift modulo 2^BITS, for every shift |
| ArithUint.BaseUint.ShiftRight | src/arith_uint256.cpp:75-89 | divided by 2^shift, for every shift |
| ArithUint.BaseUint.CompareTo | src/arith_uint256.cpp:146-155 | the numeric order, and zero exactly for equal words |
| ArithUint.BaseUint.Bits | src/arith_uint256.cpp:196-208 | the number of bits: the value is below 2^n and, if n is positive, at least 2^(n-1) |
| ArithUint.BaseUint.GetLow64 | src/arith_uint256.h:267-271 | the value modulo 2^64 |
| ArithUint.BaseUint.Div | src/arith_uint256.cpp:120-143 | the exact quotient for every dividend and every divisor but zero, which is reported; the object may be its own divisor |
| ArithUint.BaseUint.SetBit | src/arith_uint256.cpp:137 | setting the bit of the quotient adds its worth |
| ArithUint.Aligned | src/arith_uint256.cpp:129-133 | aligning the divisor with the dividend loses no bit |
| Compact.SetCompact | src/arith_uint256.cpp:244-262 | overflow is raised exactly when the number the word stands for has more than 256 bits, the value is that number modulo 2^256, and the sign flag is that of a number that is not zero |
| Compact.OverflowMeans | src/arith_uint256.cpp:244-262 | the comparisons of size and mantissa decide whether mantissa times 256^(size-3) reaches 2^256 |
| Compact.GetCompact | src/arith_uint256.cpp:264-285 | the compact word of the value in its number of bytes; it fits 32 bits |
| Compact.Encoded | src/arith_uint256.cpp:264-285 | the exponent and the mantissa without a sign bit that every value gets |
| Compact.Decoded | src/arith_uint256.cpp:244-262 | decoding gives the value rounded down to the granule of its exponent, with neither flag |
| Compact.Signed | src/arith_uint256.cpp:264-285 | the sign bit is set exactly for negative numbers other than zero, and changes nothing else |
| Compact.RoundTrip | src/arith_uint256.cpp:244-285 | for every 256-bit value and sign: the sign comes back unless the value is zero, no overflow, at most the value, less than 256^(exponent-3) away, exact for exponents up to three |
| Compact.CompactMonotone | src/arith_uint256.cpp:244-285 | rounding keeps the order |
| Compact.CompactStable | src/arith_uint256.cpp:244-285 | encoding what was decoded, sign and all, gives the same compact word |
| VarInts.WriteVarInt | src/serialize.h:435-450 | the digits of the format, most significant first; the buffer of (bits + 6) / 7 bytes never overflows |
| VarInts.ReadVarInt | src/serialize.h:452-465 | what the format stands for, with the width cutting off above |
| VarInts.VarIntRoundTrip | src/serialize.h:435-465 | every number that fits is read back, and nothing behind it is touched |
| VarInts.VarIntBelow | src/serialize.h:452-465 | what is read fits the type |
| VarInts.VarIntSizes | src/serialize.h:408-411 | one byte up to 127, two up to 16511, three up to 2113663 |
| VarInts.VarIntExamples | src/serialize.h:414-419 | the bytes of the numbers listed, of which 16511 and 65535 have others than those given there |
| VarInts.VarIntOfWord | src/serialize.h:419 | and of 2^32 |
| Compressor.CompressAmount | src/compressor.cpp:137-154 | the compressed amount modulo 2^64 |
| Compressor.DecompressAmount | src/compressor.cpp:156-180 | the decompressed amount modulo 2^64 |
| Compressor.DecompressesCompressed | src/compressor.cpp:137-180 | before any wrap-around decompressing takes back compressing, for all amounts |
| Compressor.CompressesDecompressed | src/compressor.cpp:137-180 | before any wrap-around compressing takes back decompressing, for all codes |
| Compressor.CompressedFits | src/compressor.cpp:137-154 | amounts up to (2^64 - 1) / 9 compress within 64 bits |
| Compressor.SurvivesCompression | src/compressor.cpp:137-180 | in 64-bit arithmetic, wrapping both ways, an amount comes back exactly when it ends in a zero or nine times it, plus its last digit, less nine, is below 2^64 |
| Compressor.CompressibleFits | src/compressor.cpp:137-154 | that test decides whether the compressed form fits 64 bits |
| Compressor.Lost | src/compressor.cpp:137-180 | an amount whose compressed form wraps never comes back through the second wrap |
| Compressor.SurvivesDecompression | src/compressor.cpp:137-180 | a code comes back exactly when its leading digits are at most 2^64 - 1 divided by its power of ten |
| Compressor.LosesAmounts | src/compressor.cpp:137-180 | a 64-bit amount that does not survive |
| Compressor.IsToKeyID | src/compressor.cpp:12-19 | recognises exactly the scripts that pay to a key hash |
| Compressor.IsToScriptID | src/compressor.cpp:21-28 | recognises exactly the scripts that pay to a script hash |
| Compressor.IsToPubKey | src/compressor.cpp:30-41 | recognises exactly the scripts that pay to a compressible key |
| Compressor.DecompressesScript | src/compressor.cpp:43-126 | a special form has the size its number announces and decompresses to the script |
| Compressor.SpecialForms | src/compressor.cpp:74-81 | there are six special forms, numbered from zero, of 20 bytes and then 32 |
| Compressor.KeyHashForm | src/compressor.cpp:45-51 | paying to a key hash is written as 0 and the hash |
| Compressor.ScriptHashForm | src/compressor.cpp:52-58 | paying to a script hash as 1 and the hash |
| Compressor.KeyForm | src/compressor.cpp:59-70 | paying to a compressed key as that key, and to a full one as 4 or 5, by the parity of its last byte, and its first coordinate |
| Compressor.PlainForm | src/compressor.h:69-80 | every other script as its length and six, and the script; the empty one as 6 |
| Compressor.WriteScript | src/compressor.h:69-80 | writes the form that ScriptRoundTrip, and byte by byte KeyHashForm, ScriptHashForm, KeyForm and PlainForm are about |
| Compressor.ReadScript | src/compressor.h:82-96 | reads that form, and keeps the script where decompression fails |
| Compressor.ScriptRoundTrip | src/compressor.h:69-96 | every script, special or not, is read back, and nothing behind it is touched |
| Compressor.WriteTxOut | src/compressor.h:113-126 | writes the form that TxOutRoundTrip is about |
| Compressor.ReadTxOut | src/compressor.h:113-126 | reads that form |
| Compressor.ReadsBack | src/compressor.h:113-126 | what is read back has the same script, and the amount that compressing and decompressing leave |
| Compressor.RereadIsSame | src/compressor.h:113-126 | that is the same output exactly when its amount survives compression |
| Compressor.TxOutRoundTrip | src/compressor.h:113-126 | an output is read back exactly when its amount, taken as an unsigned 64-bit number, survives compression; its script always is, and reading stops where writing did |
| CoinsCodec.CalcMaskSize | src/coins.cpp:17-34 | the mask ends with its last used byte, no output is available beyond it, and the used bytes are counted |
| CoinsCodec.MaskByteMeans | src/coins.h:213-217 | each bit of a mask byte is set exactly when its output is available |
| CoinsCodec.MaskRoundTrip | src/coins.h:212-252 | reading the mask stops at the last byte written and gives the availability of every output |
| CoinsCodec.OutsRoundTrip | src/coins.h:219-258 | the outputs come back at their places, up to the loss in their amounts, spent ones blank |
| CoinsCodec.HeaderFits | src/coins.h:205-206 | the assertion holds and the header fits 32 bits |
| CoinsCodec.HeaderMeans | src/coins.h:235-241 | the header gives back the flags, the first two outputs and the number of used mask bytes |
| CoinsCodec.WhatIsWritable | src/coins.h:198-226 | the coins that can be written, in numbers |
| CoinsCodec.SignedMeans | src/coins.h:228-262 | versions and heights are read as signed 32-bit numbers |
| CoinsCodec.WriteMask | src/coins.h:212-218 | the mask that MaskRoundTrip is about |
| CoinsCodec.WriteMaskByte | src/coins.h:213-217 | or-ing the bits gives the byte that MaskByteMeans is about |
| CoinsCodec.WriteOuts | src/coins.h:219-223 | the outputs that OutsRoundTrip is about, whatever their amounts |
| CoinsCodec.ReadMask | src/coins.h:242-252 | the loop reads as MaskRoundTrip has it, and fails where the stream ends |
| CoinsCodec.ReadOuts | src/coins.h:253-258 | the loop reads as OutsRoundTrip has it |
| CoinsCodec.Serialize | src/coins.h:198-226 | writes what CoinsRoundTrip is about, whatever the amounts |
| CoinsCodec.Unserialize | src/coins.h:228-262 | reads what CoinsRoundTrip is about, and cleans up |
| CoinsCodec.ReloadedIsSame | src/coins.h:198-262 | outputs of which some amount was lost differ after trimming |
| CoinsCodec.CoinsRoundTrip | src/coins.h:198-262 | coins that are not pruned are read back, without spent outputs at the end, exactly when every amount survives compression; otherwise only amounts differ; reading stops where writing did |
| CoinsCodec.StoreAndLoad | src/coins.h:198-262 | writing and then reading gives back flags, version and height, and the outputs exactly when every amount survives compression |
| Bech32.PolyMod | src/bech32.cpp:37-94 | computes the sequence of steps that Bech32Field.PolyDivides is about, from one |
| Bech32Field.PolyDivides | src/bech32.cpp:37-94 | the result is the remainder of the polynomial of the values, with a one in front, divided by the generator over the field of 32 elements: a quotient exists |
| Bech32Field.StepDivides | src/bech32.cpp:64-94 | a step takes off the multiple of the generator that cancels the highest coefficient |
| Bech32.StepLinear | src/bech32.cpp:64-90 | one step is linear in state and value together |
| Bech32.StepInjective | src/bech32.cpp:64-90 | no state of 30 bits but zero steps to zero |
| Bech32.StepBound | src/bech32.cpp:64-90 | a state stays within 30 bits |
| Bech32.StepSmall | src/bech32.cpp:64-90 | as long as nothing leaves the top a step only appends the value |
| Bech32.PolyLinear | src/bech32.cpp:37-94 | the whole computation is linear |
| Bech32.PolyInjective | src/bech32.cpp:37-94 | zeros never take a state to zero |
| Bech32.LetterValue | src/bech32.cpp:13-25 | the two character tables are inverse, and no letter is upper case or the separator |
| Bech32.Expanded | src/bech32.cpp:103-115 | twice the length and one, all below 32 |
| Bech32.ExpandHRP | src/bech32.cpp:103-115 | high bits, zero, low bits |
| Bech32.VerifyChecksum | src/bech32.cpp:118-125 | true exactly when the remainder of the expanded prefix and the values is one |
| Bech32.CreateChecksum | src/bech32.cpp:128-139 | the six values that ChecksumVerifies is about |
| Bech32.GroupsUnreduced | src/bech32.cpp:128-139 | the last six values go into the remainder unreduced |
| Bech32.ChecksumVerifies | src/bech32.cpp:118-139 | whatever prefix and values, the created checksum verifies |
| Bech32Strings.Encode | src/bech32.cpp:147-156 | prefix, separator, and the letters of values and checksum |
| Bech32Strings.FindLast | src/bech32.cpp:168 | the last separator, or none |
| Bech32Strings.CheckCharacters | src/bech32.cpp:160-167 | accepts exactly printable text that does not mix cases |
| Bech32Strings.Decode | src/bech32.cpp:159-189 | fails or gives prefix and values, by each test in turn |
| Bech32Strings.DecodesExactly | src/bech32.cpp:159-189 | a string decodes exactly when it has at most 90 characters from 33 to 126, not of both cases, and behind its last digit one, which is not the first character, at least six letters that verify; to the prefix in lower case and all but the last six values |
| Bech32Strings.RoundTrip | src/bech32.cpp:147-189 | decoding gives back what was encoded exactly when the prefix is not empty, printable, without upper case and the whole at most 90 long (or what was encoded is the failure value itself) |
| Bech32Strings.CaseIsIgnored | src/bech32.cpp:18-25 | a character has the same value in either case |
| Bech32Strings.UpperCaseDecodes | src/bech32.cpp:159-189 | a string without lower case decodes to what it does in lower case |
| Bech32Strings.DecodesExample | src/bech32.cpp:159-189 | A12UEL5L decodes to the prefix a without values |
| Bech32Strings.UpperCaseIsLost | src/bech32.cpp:147-189 | an upper-case prefix that encodes and does not decode |
| Bech32Errors.DetectsOneError | src/bech32.cpp:118-125 | one changed value is detected at any length |
| Bech32Errors.DetectsTwoErrors | src/bech32.cpp:118-125 | any two changed values less than 1023 apart are detected |
| Bech32Errors.DetectsThreeErrors | src/bech32.cpp:50-53 | up to three changed values less than 1023 apart are detected, in a list of any length |
| Bech32Roots.Roots | src/bech32.cpp:50-53 | three consecutive powers of an element of the field of 1024 elements are roots of the generator |
| Bech32Roots.EvalMultiple | src/bech32.cpp:50-53 | and of every polynomial it divides |
| Bech32Roots.Period | src/bech32.cpp:50-53 | no fewer than 1023 multiplications by that element take any element but zero back to itself |
| Bech32Errors.DetectsWrongLetter | src/bech32.cpp:159-189 | a decodable string with one letter of its data part exchanged for another does not decode |
| Bech32Errors.DetectsTwoWrongLetters | src/bech32.cpp:159-189 | nor with two |
| Bech32Errors.DetectsThreeWrongLetters | src/bech32.cpp:159-189 | nor with up to three |
| Bech32Errors.DetectsWrongPrefix | src/bech32.cpp:159-189 | nor with one character of its prefix exchanged for another, other than in its case, even together with one letter of its data part |
| Radix.NumOfDigits | src/base58.cpp:75-113 | the digits of a number stand for it |
| Radix.DigitsOfNum | src/base58.cpp:75-113 | digits without a leading zero are the digits of their number |
| Radix.Canonical | src/base58.cpp:102-111 | skipping the leading zeros leaves the digits of the number |
| Radix.EnoughDigits | src/base58.cpp:86 | a rational bound on the ratio of logarithms is enough room for every length |
| Base58.RoomToEncode | src/base58.cpp:86 | 138/100 digits and one more hold every byte string |
| Base58.RoomToDecode | src/base58.cpp:39 | 733/1000 bytes and one more hold every word |
| Base58.CarryOn | src/base58.cpp:89-97 | one digit of the inner loop |
| Base58.CarryEnds | src/base58.cpp:89-99 | when the loop stops early nothing is carried and the higher digits are still zero |
| Base58.MulAdd | src/base58.cpp:89-100 | the buffer is multiplied and added to exactly, so that the assertion on the carry holds |
| Base58.Convert | src/base58.cpp:84-104 | byte by byte the buffer becomes the digits of the number |
| Base58.SkipZeros | src/base58.cpp:102-111 | what is left without the zeros in front is the digits of the number, though the search starts behind those known to be zero |
| Base58.EncodeBase58 | src/base58.cpp:75-113 | one for every leading zero byte, then the digits of the number |
| Base58.DecodeWord | src/base58.cpp:39-66 | exactly when the word is over the alphabet and only spaces follow, the bytes of its number |
| Base58.DecodeBase58 | src/base58.cpp:25-73 | what the string stands for up to its first zero character, or failure |
| Base58.AlphabetInjective | src/base58.cpp:23 | no character is in the alphabet twice |
| Base58.DecodesEncoded | src/base58.cpp:25-113 | every byte string is read back, leading zeros included |
| Base58.EncodesDecoded | src/base58.cpp:25-113 | every string over the alphabet is decoded, and written back, leading ones included |
| Base58.EncodedInjective | src/base58.cpp:75-113 | no two byte strings are written alike |
| Base58.SpacesAround | src/base58.cpp:27-29 | spaces before and after do not matter |
| Base58.DecodesOnlyWords | src/base58.cpp:25-73 | a string decodes exactly when it is a word over the alphabet between spaces |
| Base58.EncodeBase58Check | src/base58.cpp:125-132 | the encoding of the bytes and four of their hash |
| Base58.DecodeBase58Check | src/base58.cpp:134-149 | fails on fewer than four bytes or a wrong hash |
| Base58.CheckMeans | src/base58.cpp:125-149 | decoding with check gives v exactly when plain decoding gives v and its hash, and so takes back encoding |
| SkipList.GetSkipHeight | src/main.cpp:4983-4992 | a skip goes strictly down |
| SkipList.ClearsOne | src/main.cpp:4980 | clearing the lowest set bit takes one from the ones among any low bits, unless it changes the bits above |
| SkipList.OddSkip | src/main.cpp:4991 | the skip from an odd height takes two ones away, unless it changes the bits above |
| SkipList.BackFirst | src/main.cpp:5004-5006 | where the block before skips further, going there first loses nothing |
| SkipList.FewSteps | src/main.cpp:4994-5015 | each step, or two that go by way of the block before, lowers a potential made of the bit from which the heights differ and the ones below it |
| SkipList.WalksAreShort | src/main.cpp:4983-5015 | from any height below 2^n to any lower one at most (n^2 + 3n - 2) / 2 steps are taken |
| Chain.BlockIndex.constructor | src/main.cpp:4174-4177 | a block on a parent is one higher, and skips to an ancestor |
| Chain.BlockIndex.GetAncestor | src/main.cpp:4994-5015 | whatever skips it takes, the walk ends at the ancestor of that height, or there is none; from a height below 2^n it takes at most (n^2 + 3n - 2) / 2 steps |
| Chain.AncestorTwice | src/main.cpp:4994-5015 | an ancestor of an ancestor is the ancestor |
| Chain.CChain.constructor | src/chain.h:511-515 | an empty chain |
| Chain.CChain.Tip | src/chain.h:524-536 | the highest block of the chain, or the highest that was staked, above which none was, with the first block in its place if there is none |
| Chain.CChain.Contains | src/chain.h:554-557 | true exactly for the blocks on the path to the tip |
| Chain.CChain.Height | src/chain.h:568-574 | the height of the tip, or -1 for an empty chain |
| Chain.CChain.Next | src/chain.h:560-566 | a block exactly for those on the path below the tip, and then the one built on it |
| Chain.CChain.SetTip | src/chain.cpp:13-24 | the vector is the whole path from genesis to the new tip although the loop stops at the first block that agrees |
| Chain.CChain.FindFork | src/chain.cpp:55-62 | a block on both paths, and no block on both is higher; none if there is no such block |
| Chain.CChain.GetLocator | src/chain.cpp:26-53 | the hashes of ancestors at distances 0 to 10 and then 9 + 2^k, down to genesis, whether the start is in the chain or not; the first is the start, and there are at most 12 plus the logarithm of the height |
| Chain.LocatorIsShort | src/chain.cpp:26-53 | a locator starts at the block, ends at genesis, goes strictly down, and has at most 12 plus the logarithm of the height entries |

## Left out

- `Select_` and `GetChance`: their termination is probabilistic and their arithmetic floating point.
- Hashes, address ranges, `IsRoutable`, random numbers and the clock are parameters of the address manager; `Hasher` may be any functions, chained and reduced as in the source.
- AddrMan.AddrMan.MakeTried: its body is split into LeaveNew, DemoteAt, Evict, RelistAt and PromoteAt, in the order of the source.
- AddrStore.Serialize: the file of the address manager is a structure of fields, not bytes; `nServices` is the set of its bits; ids do not wrap at 32 bits.
- AddrStore.Unserialize: it asks for empty maps, as after construction; the half-read state after a failure is not described beyond its order.
- Best-block tracking, statistics and the cost estimate `GetSerializeSize`, which counts the header with factor 8 where `Serialize` uses 16.
- CoinsCache.CoinsViewCache.ModifyCoins: a cache with another cache above it may be read, but is not modified, as its preconditions say, and at most one modification is open per cache.
- Thread interruption, shutdown (`fQuit` is constantly false) and the wrap-around of `nTodo` at 32 bits; a check is the boolean it evaluates to, and CCheckQueueControl is modelled by ControlFindsIdle alone.
- CheckQueueRuns.WaitReturns: bounds the steps that are due while Wait lasts; that the scheduler goes on scheduling is assumed, and spurious wake-ups may come without end.
- DenominationFunctions.CalculateChange: amounts do not wrap at 64 bits.
- DenominationFunctions.SelectMintsFromList: a call that does not return is an answer false; logging and `listSpends` are left out.
- `getdouble`, hexadecimal conversion, the bitwise operators and `EqualTo`.
- Compact.SetCompact: only for 256 bits, as in the source.
- VarInts.ReadVarInt: for unsigned types; what signed overflow does is undefined, and versions and heights below zero are not serialised.
- CoinsCodec.CoinsRoundTrip: fewer than 2^30 outputs, so that the header fits 32 bits, and scripts shorter than 2^32 - 6.
- Compressor.TxOutRoundTrip: the curve of the public keys is a parameter, with the law that decompressing a compressed valid key gives it back; `CPubKey` itself is not part of this model.
- Bech32Errors.DetectsThreeErrors: that four errors within 89 characters are detected too is not proved: it has no algebraic reason, the generator was chosen by a search, and a proof has to go through some hundred thousand patterns.
- `ConvertBits`, the address types built on Base58, and the hash of Base58Check, which is a parameter.
- Base58.EncodeBase58: sizes do not wrap at 32 bits.
- Base58.DecodeBase58: sizes do not wrap at 32 bits, and `isspace` is that of the C locale.
- SkipList.WalksAreShort: the comment at `src/main.cpp` lines 4988-4990 gives 110 steps for heights below 2^18, from simulations; the bound proved gives 188.
- Chain.BlockIndex.constructor: the block index's fields other than parent, height, skip, hash and the mark of proof of stake are left out.
- Budget voting, alerts, the wallet's keystore, RPC and network code, Bloom filters, fee rates and page locking.
