# A verified model of the Radix engine's storage, codec and rule machinery

Five components of the repository, each proved against a simple reference over all inputs or runs.

- **The substate store stack.** `InMemorySubstateDatabase` is the reference (`Store.dfy`).
  `RocksdbSubstateStore` flattens the two-level map into one ordered map of byte strings
  (`RocksDb.dfy`) and simulates the reference (`RocksSimulation.dfy`). `SubstateDatabaseOverlay`
  stages commits over either of them or over another overlay (`Overlay.dfy`,
  `PartitionListing.dfy`), with its two-source iterator (`Ordered.dfy`). `SpreadPrefixKeyMapper` and
  `create_database_updates` put logical keys on top (`KeyMapper.dfy`). Byte strings and their order
  are in `Bytes.dfy`.
- **SBOR.** Wire format and primitives (`SborWire.dfy`, `Utf8.dfy`); the code the derive macros emit,
  as an interpreter over type shapes (`SborDerive.dfy`), with round trip and uniqueness
  (`SborRoundTrip.dfy`); the untyped `Value` codec (`SborTree.dfy`) and depth (`SborDepth.dfy`); the
  mutable `VecDecoder` and `VecEncoder` proved to compute those functions (`SborMachine.dfy`); the
  macros' reading of enum variants (`SborVariants.dfy`).
- **The `rule!` macro**, as a compiler from token trees to requirements (`AccessRules.dfy`).
- **The string escaper and the Unicode skip table** (`Escaping.dfy`, `SkipSearch.dfy`).
- **The scenario runner** and its nonces (`Scenario.dfy`).

Code that updates state in the repository is a class or a looping method here; its `ensures` ties it to
a function, and the lemmas are about that function. A loop over a hash map takes its keys in an
arbitrary order, so what is proved holds for every iteration order.

## What does not hold of the code

Each has a counterexample and the exact condition under which the property does hold.

- An overlay's `list_partition_keys` also lists partitions that a staged update has emptied
  (`PartitionListing.EmptiedPartitionIsListed`, `PartitionListing.ListingIsCommittedIff`).
- RocksDB scans partitions by node-key length first, which is not the derived `Ord` of
  `DbPartitionKey` that the overlay's merge relies on, so an overlay can list a partition twice
  (`PartitionListing.PartitionListedTwice`). Stacks over RocksDB list partitions correctly if and only
  if shorter stored node keys are also lexicographically smaller (`PartitionListing.ListsMentionedIff`).
  The mapper's node keys all have 50 bytes, so it holds for them (`KeyMapper.OverlayOverRocksLists`).
- The Reset range delete misses sort keys that extend 2048 bytes of 0xFF
  (`RocksSimulation.BoundOutlivesReset`, `RocksSimulation.CommitSimulatesIff`). The mapper never
  makes such keys (`KeyMapper.MappedUpdatesAreShort`).
- For some hash functions a Map key and a Sorted key of one partition share a database key, exactly when
  the Sorted key is the Map key without its first two bytes (`KeyMapper.CollisionNeedsTail`,
  `KeyMapper.CollisionExists`).
- The documentation at sbor/src/decoder.rs:60-83 wants typed depth to agree with the `Value` codec.
  A non-empty vector of `u8` or `i8` is read as one slice and its elements are not counted
  (`SborDepth.ByteVectorUnderLimit`, `SborDepth.LimitsAgreeIff`).
- A non-empty array of `u8` or `i8` is written as one slice but read element by element one level
  deeper, so what was written at a limit may not be read back at that limit
  (`SborDepth.ByteArrayOverLimit`, `SborDepth.RoundTripsIff`); all other shapes always are
  (`SborDepth.RoundTripsAtLimit`).
- `PreviousScenarioStartNoncePlus` can hand out nonces already used (`Scenario.StartPlusCanReuse`,
  `Scenario.StartPlusReusesIff`). `PreviousScenarioEndNoncePlusOne` hands on the next unused nonce
  itself, nothing is added to it.

## Model

| member | source | states |
|---|---|---|
| `Ordered.MergedLookup` | radix-rust/src/iterators/overlaying_iterator.rs:47-72 | Merging two ascending sequences gives an ascending one that maps a key to its change if it has one and else to its base value; deleted keys are absent. |
| `Ordered.MergedEntries` | radix-rust/src/iterators/overlaying_iterator.rs:24-29 | Overlaying the sorted entries of a map of changes on those of a map enumerates, sorted, the map with the changes made. |
| `Ordered.MergedKeysOrdered` | radix-rust/src/iterators/overlaying_iterator.rs:5-8 | If the merged keys come out ascending although the base keys were not known to be, the base keys were ascending: the merge never repairs its input. |
| `Ordered.OverlayingIterator.Next` | radix-rust/src/iterators/overlaying_iterator.rs:47-72 | Each call yields exactly the head of the merge of what both sources still hold, leaves its tail, and ends only when the merge is empty, however many deletes it skips. |
| `Store.SubstateChangeIsEffect` | radix-substate-store-interface/src/interface.rs:121-143 | The effective change reported for a substate, `None` only if unaffected, is exactly what the whole partition update does to it. |
| `Store.FromDeltaMaps` | radix-substate-store-interface/src/interface.rs:190-220 | The loop builds updates that say of every partition what the flat map of deltas says of it, and nothing of any other. |
| `Store.CommittedAt` | radix-substate-store-impls/src/memory_db.rs:47-86 | After a commit each partition holds its update applied to its old contents, unmentioned ones are untouched, and none is kept empty. |
| `Store.ListRawIsRange` | radix-substate-store-impls/src/memory_db.rs:29-45 | `skip_while` over the sorted partition lists exactly its entries at or after the start key, in sort-key order, as the listing contract demands. |
| `Store.ListPartitionsIsSorted` | radix-substate-store-impls/src/memory_db.rs:88-93 | The partition listing is the set of present partitions, strictly ascending in the derived order. |
| `Store.InMemoryDatabase.Commit` | radix-substate-store-impls/src/memory_db.rs:47-86 | The nested loops, in any iteration order, leave exactly the committed state. |
| `Store.InMemoryDatabase.CommitNode` | radix-substate-store-impls/src/memory_db.rs:49-53 | The inner loop updates the node's mentioned partitions and no partition of another node. |
| `Store.InMemoryDatabase.CommitPartition` | radix-substate-store-impls/src/memory_db.rs:55-82 | One partition takes its Delta or Reset and is removed if that leaves it empty. |
| `Overlay.AppliedMerged` | radix-substate-store-impls/src/substate_database_overlay.rs:298-345 | For every pair of staged and new partition update (Delta or Reset), applying the merged one is applying both in order. |
| `Overlay.CommittedMerged` | radix-substate-store-impls/src/substate_database_overlay.rs:278-372 | Committing merged database updates once is committing both in order, on every state. |
| `Overlay.SquashedRun` | radix-substate-store-impls/src/substate_database_overlay.rs:50-60 | The squashed updates that `database_updates` returns, committed once, equal all commits of the run in order. |
| `Overlay.ReadsAreCommitted` | radix-substate-store-impls/src/substate_database_overlay.rs:83-141 | Reading any key through any stack of overlays, over an in-memory database or a RocksDB store, gives what the committed in-memory state holds. |
| `Overlay.ListingsAreCommitted` | radix-substate-store-impls/src/substate_database_overlay.rs:143-236 | Listing any partition from any start key through any such stack equals the committed listing: ascending, no deleted key, each key once with its newest value. |
| `Overlay.ViewOfCommit` | radix-substate-store-impls/src/substate_database_overlay.rs:239-243 | A commit through a stack changes what it stands for as the same commit on the plain state does. |
| `Overlay.ViewOfFlush` | radix-substate-store-impls/src/substate_database_overlay.rs:75-80 | Flushing a level of a stack leaves the view unchanged, and flushing the top empties its overlay. |
| `Overlay.FlushMovesLevel` | radix-substate-store-impls/src/substate_database_overlay.rs:75-80 | Flushing a level empties it into what is under it and leaves every level above as it was. |
| `Overlay.CommitsAre` | radix-substate-store-impls/src/substate_database_overlay.rs:239-243 | The commits that a run of commits alone consists of are those commits, in order; flushes add none. |
| `Overlay.MemoryIsSound` | radix-substate-store-impls/src/substate_database_overlay.rs:83-243 | Over an in-memory root the condition of these theorems always holds. |
| `Overlay.ViewOfRocksCommit` | radix-substate-store-impls/src/rocks_db.rs:82-129 | A short commit to a RocksDB store changes the state it stands for as the in-memory commit does. |
| `Overlay.RunIsSound` | radix-substate-store-impls/src/rocks_db.rs:82-129 | Every run of short commits from the empty RocksDB store meets the condition. |
| `Overlay.RunsAreCommitted` | radix-substate-store-impls/src/substate_database_overlay.rs:75-80 | For every database, in-memory, RocksDB or stacked, every run of commits and of flushes at any level ends in the view that the commits alone produce on the plain state. |
| `Overlay.ReadsAfterAnyRun` | radix-substate-store-impls/src/substate_database_overlay.rs:83-243 | After every such run, point reads and listings are those of the in-memory database that took the same commits directly. Over RocksDB the commits have sort keys that do not extend the bound; over an in-memory root nothing is asked. |
| `Overlay.SubstateDatabaseOverlay.Commit` | radix-substate-store-impls/src/substate_database_overlay.rs:278-372 | The outer merging loop stages the commit: the overlay becomes the merge, nothing below it is touched, the view takes the commit, whatever the root. |
| `Overlay.SubstateDatabaseOverlay.MergeNode` | radix-substate-store-impls/src/substate_database_overlay.rs:294-356 | The partition loop of the merge, in any iteration order, computes the merged node updates. |
| `Overlay.SubstateDatabaseOverlay.MergePartition` | radix-substate-store-impls/src/substate_database_overlay.rs:300-345 | The four combinations, with the Reset-then-Delta loop in place, compute the merged partition update. |
| `Overlay.SubstateDatabaseOverlay.CommitOverlayIntoRootStore` | radix-substate-store-impls/src/substate_database_overlay.rs:75-80 | Over an in-memory, RocksDB or overlay root: the overlay becomes empty, the root comes to stand for the whole view, and no read through the overlay changes. |
| `Overlay.SubstateDatabaseOverlay.GetRawSubstate` | radix-substate-store-impls/src/substate_database_overlay.rs:83-141 | The object's point read, down through any root, is the committed read. |
| `Overlay.SubstateDatabaseOverlay.constructor` | radix-substate-store-impls/src/substate_database_overlay.rs:41-48 | A new overlay over any root stages nothing. |
| `PartitionListing.OverPartitionsSorted` | radix-substate-store-impls/src/substate_database_overlay.rs:249-271 | Over a root that lists a set ascending, the overlay lists that set and the staged partitions, strictly ascending, once each. |
| `PartitionListing.ListsMentionedIff` | radix-substate-store-impls/src/substate_database_overlay.rs:245-271 | Through any stack the listing is the strictly ascending list of all partitions some level mentions if and only if shorter node keys in the bottom store are lexicographically smaller, or the bottom is in memory. |
| `PartitionListing.ListsMentioned` | radix-substate-store-impls/src/substate_database_overlay.rs:245-271 | Through any stack over an in-memory root it always is. |
| `PartitionListing.ListsMembers` | radix-substate-store-impls/src/substate_database_overlay.rs:245-271 | Exactly the mentioned partitions are listed, in whatever order the bottom store scans. |
| `PartitionListing.PartitionListedTwice` | radix-substate-store-impls/src/rocks_db.rs:131-146 | After one commit of node keys [1] and [0, 0] to the empty RocksDB store, an overlay that stages a change to the second lists it twice. |
| `PartitionListing.ListedTwice` | radix-substate-store-impls/src/substate_database_overlay.rs:264-269 | So it does for any two partitions that the root lists out of order. |
| `PartitionListing.PhantomsAreTheRest` | radix-substate-store-impls/src/substate_database_overlay.rs:245-271 | What a stack lists beyond the committed state is, level by level, what a level empties and no level above it fills again. |
| `PartitionListing.ViewIsMentioned` | radix-substate-store-impls/src/substate_database_overlay.rs:245-271 | No non-empty partition of the committed state is missed. |
| `PartitionListing.ListingIsCommittedIff` | radix-substate-store-impls/src/substate_database_overlay.rs:245-271 | Any stack in order lists exactly the committed state's partitions if and only if no level leaves a partition empty that no level above it fills again. |
| `PartitionListing.EmptiedPartitionIsListed` | radix-substate-store-impls/src/substate_database_overlay.rs:250-262 | For every substate that is alone in its partition, deleting it through the overlay leaves the partition listed although the committed state has none. |
| `RocksDb.DecodeEncode` | radix-substate-store-impls/src/rocks_db.rs:148-171 | Decoding an encoded key gives back partition and sort key. |
| `RocksDb.EncodeDecode` | radix-substate-store-impls/src/rocks_db.rs:161-171 | Every byte string that decodes is the encoding of what it decodes to. |
| `RocksDb.InPartitionIsPrefix` | radix-substate-store-impls/src/rocks_db.rs:148-159 | A byte string is a key of a partition if and only if it starts with the partition's header. |
| `RocksDb.EncodedOrder` | radix-substate-store-impls/src/rocks_db.rs:148-159 | The byte order on encoded keys is: shorter node key, then node key, then partition number, then sort key. |
| `RocksDb.BelowOnes` | radix-substate-store-impls/src/rocks_db.rs:112-115 | A string is below an all-0xFF string if and only if it does not extend it. |
| `RocksDb.ResetRangeIsPartition` | radix-substate-store-impls/src/rocks_db.rs:103-117 | The range delete covers no key of another partition, and of its own exactly those whose sort key does not extend the 2048-byte 0xFF bound. |
| `RocksDb.RocksdbSubstateStore.Commit` | radix-substate-store-impls/src/rocks_db.rs:83-128 | The nested loops leave every byte key with its outcome under the update of its partition, range deletes included; all other keys are untouched. |
| `RocksDb.RocksdbSubstateStore.CommitNode` | radix-substate-store-impls/src/rocks_db.rs:85-126 | The partition loop of one node, in any order. |
| `RocksDb.RocksdbSubstateStore.CommitPartition` | radix-substate-store-impls/src/rocks_db.rs:90-125 | A Delta sets and deletes its keys; a Reset drops what the range reaches and then writes the new values. |
| `RocksDb.RocksdbSubstateStore.ApplyDelta` | radix-substate-store-impls/src/rocks_db.rs:91-102 | Exactly the named keys of the partition change, each as its update says. |
| `RocksDb.RocksdbSubstateStore.PutAll` | radix-substate-store-impls/src/rocks_db.rs:118-123 | Exactly the named keys of the partition are written. |
| `RocksSimulation.CommitKeepsSimulation` | radix-substate-store-impls/src/rocks_db.rs:82-129 | A commit whose Resets are covered takes a store that simulates an in-memory state to one that simulates the committed state. |
| `RocksSimulation.CommitSimulatesIff` | radix-substate-store-impls/src/rocks_db.rs:103-124 | One commit keeps the simulation if and only if every stored sort key that extends the 0xFF bound in a Reset partition is written again by that Reset. |
| `RocksSimulation.UncoveredKeySurvives` | radix-substate-store-impls/src/rocks_db.rs:103-117 | Any stored sort key that extends the bound and is not rewritten survives the Reset in RocksDB while the in-memory database drops it. |
| `RocksSimulation.BoundOutlivesReset` | radix-substate-store-impls/src/rocks_db.rs:103-117 | Two commits from the empty store, a substate whose sort key extends the bound and a Reset of its partition: RocksDB still holds it, the in-memory database does not. |
| `RocksSimulation.RunsSimulate` | radix-substate-store-impls/src/rocks_db.rs:82-129 | For every run of commits from the empty store with sort keys that do not extend the bound, the flat store simulates the in-memory one. |
| `RocksSimulation.SimulatesIff` | radix-substate-store-impls/src/rocks_db.rs:161-171 | A flat store of decodable keys simulates the state read back from it and no other. |
| `RocksSimulation.ShorterIsShort` | radix-common/src/constants/transaction_execution.rs:26 | Every sort key of fewer than 2 * MAX_SUBSTATE_KEY_SIZE bytes is among them. |
| `RocksSimulation.ReadsAgree` | radix-substate-store-impls/src/rocks_db.rs:45-53 | A point read by encoded key is the in-memory read. |
| `RocksSimulation.TakePartitionLists` | radix-substate-store-impls/src/rocks_db.rs:64-76 | Taking entries while they decode to the partition, from a scan that starts at or after its header, yields all its scanned entries in sort-key order. |
| `RocksSimulation.ListingsAgree` | radix-substate-store-impls/src/rocks_db.rs:55-79 | Seek and `take_while` list exactly the partition's entries at or after the start key in sort-key order: the in-memory listing. |
| `RocksSimulation.ReadsAfterRun` | radix-substate-store-impls/src/rocks_db.rs:45-129 | After every such run all reads and listings equal those of the in-memory database after the same commits. |
| `RocksSimulation.DedupAscending` | radix-substate-store-impls/src/rocks_db.rs:141-143 | Removing adjacent duplicates of a non-descending sequence leaves a strictly ascending one with the same members. |
| `RocksSimulation.PartitionsAgree` | radix-substate-store-impls/src/rocks_db.rs:131-146 | Adjacent dedup lists each non-empty partition exactly once, in scan order. |
| `RocksSimulation.ScanOrderIsOrdIff` | radix-substate-store-interface/src/interface.rs:12-16 | The scan order of a set of partitions is the derived `Ord` if and only if shorter node keys are also lexicographically smaller. |
| `KeyMapper.KeysRoundTrip` | radix-substate-store-interface/src/db_key_mapper.rs:106-179 | Node, partition and each kind of substate key are read back from their database keys, which are exactly as long as their kind makes them, under every hash. |
| `KeyMapper.DbKeysRoundTrip` | radix-substate-store-interface/src/db_key_mapper.rs:106-179 | The other way round: any one byte is the key of the field read from it, and a database key that carries the hash of its own tail is the key of the map key, sorted key or node read from it. |
| `KeyMapper.SortKeysInjective` | radix-substate-store-interface/src/db_key_mapper.rs:125-149 | Under every hash two substate keys of compatible kinds never share a database key; a Field key collides with no other kind. |
| `KeyMapper.CollisionNeedsTail` | radix-substate-store-interface/src/db_key_mapper.rs:133-149 | A Map key and a Sorted key share a database key only if the Sorted key is the Map key without its first two bytes. |
| `KeyMapper.CollisionExists` | radix-substate-store-interface/src/db_key_mapper.rs:133-149 | For every such pair there is a hash function under which they do collide. |
| `KeyMapper.OneKindIsSeparated` | radix-common/src/types/node_and_substate.rs:248-252 | Partitions that use one kind of key each meet the condition of the theorems below for every hash. |
| `KeyMapper.SortedKeysScanInOrder` | radix-substate-store-interface/src/db_key_mapper.rs:141-149 | Sorted keys are scanned in the order of their two-byte prefix. |
| `KeyMapper.MappedOutcome` | radix-substate-store-interface/src/interface.rs:145-180 | A mapped partition update, Delta or Reset, leaves at the mapped key what the logical update leaves at the key. |
| `KeyMapper.UpdatesAt` | radix-substate-store-interface/src/interface.rs:59-105 | The database update of a logical partition is its mapped logical update, and nothing else is mapped to it. |
| `KeyMapper.CommitRepresents` | radix-substate-store-interface/src/interface.rs:59-180 | Committing mapped updates keeps every used substate equal to that of the plain map with the logical updates applied. |
| `KeyMapper.RunsRepresent` | radix-substate-store-interface/src/interface.rs:272-282 | For every hash and every run of logical updates, reading back through the mapper equals the plain map keyed by node, partition and substate key. |
| `KeyMapper.MappedUpdatesAreShort` | radix-substate-store-interface/src/db_key_mapper.rs:167-173 | With substate keys of at most MAX_SUBSTATE_KEY_SIZE bytes no mapped sort key reaches the bound of the Reset range delete. |
| `KeyMapper.RocksReadsAreLogical` | radix-substate-store-impls/src/rocks_db.rs:45-129 | Through mapper, updates and RocksDB together, after every run of logical updates a substate reads what the plain map holds. |
| `KeyMapper.OverlayOverRocksLists` | radix-substate-store-impls/src/substate_database_overlay.rs:245-271 | Over a RocksDB store filled through the mapper by any run of logical updates, any stack of overlays lists stored and staged partitions ascending and once each, because mapped node keys have one length. |
| `Utf8.DecodeEncode` | radix-rust/src/unicode.rs:108-109 | The first character of the bytes of a character and anything after it is that character (section 3 of RFC 3629). |
| `Utf8.EncodedDigits` | radix-rust/src/unicode.rs:108-109 | A character is written with its six-bit digits, most significant first, on the mark of its width. |
| `Utf8.EncodedBytes` | radix-rust/src/unicode.rs:108-109 | The first byte tells how many follow, and those are continuation bytes. |
| `Utf8.EncodedChars` | radix-rust/src/unicode.rs:108-109 | Every byte string accepted as UTF-8 is the encoding of its characters. |
| `Utf8.CharsOfEncoded` | radix-rust/src/unicode.rs:108-109 | Every encoded string is accepted and has the characters that were encoded. |
| `SborWire.ReadSizeExact` | sbor/src/decoder.rs:100-123 | The size reader accepts exactly one byte string for each size below 2^28, returns that size and the bytes after it, and accepts nothing else. |
| `SborWire.LebLength` | sbor/src/encoder.rs:94-114 | The canonical form of a size takes one to four bytes. |
| `SborWire.LebByteAt` | sbor/src/encoder.rs:94-114 | Byte i of a size carries its i-th digit to the base 128, least significant first, and its top bit says that more follow. |
| `SborWire.KindCodes` | sbor/src/value_kind.rs:98-114 | Exactly 0x01 to 0x0c and 0x20 to 0x23 are kinds; array, tuple, enum and map follow one another from 0x20. |
| `SborWire.LeafCodes` | sbor/src/value_kind.rs:98-109 | The code of an integer tells its sign and, as a power of two, its width; booleans come before and strings after them. |
| `SborWire.LeafRoundTrip` | sbor/src/codec/integer.rs:17-139 | Every boolean, integer of 8 to 128 bits and string is read back from its bytes followed by any suffix, leaving the suffix. |
| `SborWire.LeafCanonical` | sbor/src/codec/integer.rs:17-139 | Whatever a primitive decoder accepts is in range and re-encodes to exactly the bytes read. |
| `SborWire.LeByteAt` | sbor/src/codec/integer.rs:41-64 | Byte i of an integer is its i-th digit to the base 256, least significant first. |
| `SborWire.TwosComplement` | sbor/src/codec/integer.rs:41-64 | Negative integers are written in two's complement of their width. |
| `SborWire.BoolBytes` | sbor/src/codec/boolean.rs:13-15 | `false` is the byte 0 and `true` the byte 1. |
| `SborRoundTrip.RoundTrip` | sbor-derive-common/src/encode.rs:108-240 | For every accepted shape, decoding the encoding of a value followed by any suffix returns the value with skipped fields defaulted and leaves exactly the suffix, at any limit that both sides allow. |
| `SborRoundTrip.PayloadRoundTrip` | sbor/src/decoder.rs:45-51 | A whole payload decodes to the value and is consumed completely. |
| `SborRoundTrip.RoundTripFields` | sbor-derive-common/src/decode.rs:206-264 | Field by field, with skipped fields defaulted in place. |
| `SborRoundTrip.RoundTripUnique` | sbor-derive-common/src/decode.rs:78-105 | A transparent struct's unique unskipped field is read at its wrapper's depth with its own value kind. |
| `SborRoundTrip.OneByteWrites` | sbor/src/codec/array.rs:29-32 | A byte, or transparent structs around one, is written as that byte at any depth: what the cast of a slice to bytes relies on. |
| `SborRoundTrip.OneByteWrapped` | sbor/src/codec/array.rs:29-32 | Bytes are one byte, and so is a transparent struct around nothing but a one-byte type. |
| `SborRoundTrip.VariantRoundTripsIff` | sbor-derive-common/src/decode.rs:180-193 | The value of an enum variant round-trips if and only if no earlier reachable variant takes its discriminator, which is what the emitted `deny(unreachable_patterns)` rules out. |
| `SborRoundTrip.Canonical` | sbor-derive-common/src/decode.rs:107-264 | Whenever derived decoding succeeds, re-encoding the result gives back exactly the bytes read. |
| `SborRoundTrip.CanonicalVariant` | sbor-derive-common/src/decode.rs:137-197 | The same for enum bodies: the discriminator read, the size read and the fields are the only bytes that give this variant. |
| `SborRoundTrip.PayloadsUnique` | sbor/src/decoder.rs:45-58 | No two payloads decode to one value. |
| `SborRoundTrip.MoreBytesAreRest` | sbor/src/decoder.rs:55-58 | Bytes after what is decoded change nothing but the rest, so no encoding is the beginning of another. |
| `SborRoundTrip.PayloadRefused` | sbor/src/decoder.rs:45-51 | A payload followed by anything is refused with the number of bytes too many, and one with another prefix with both prefixes. |
| `SborRoundTrip.OtherKindRefused` | sbor/src/decoder.rs:126-140 | Bytes of another kind than the type's are refused with both kinds, through any wrappers. |
| `SborRoundTrip.OtherDiscriminatorRefused` | sbor-derive-common/src/decode.rs:190-193 | A discriminator that no reachable variant has is refused by itself. |
| `SborRoundTrip.OtherFieldCountRefused` | sbor/src/decoder.rs:180-190 | A struct is not read as one with another number of fields. |
| `SborRoundTrip.UnderflowRefused` | sbor/src/decoder.rs:246-256 | Reading past the end is refused with what was asked and what is there. |
| `SborTree.TreeExact` | sbor/src/value.rs:257-357 | The untyped codec reads any value back at exactly the limits that its depth allows, and otherwise fails with the depth error. |
| `SborTree.TreeCanonical` | sbor/src/value.rs:257-357 | Whatever the untyped decoder accepts is the encoding of what it returns. |
| `SborTree.DecodeValueIff` | sbor/src/value.rs:257-357 | At each limit the untyped decoder accepts exactly the encodings of values that are no deeper, and returns the value and the bytes after it. |
| `SborTree.MapLayout` | sbor/src/value.rs:220-246 | A map is the kinds of its keys and values, its size, and the elements of an array that alternates keys and values. |
| `SborDepth.EncodesTree` | sbor-derive-common/src/encode.rs:108-240 | The typed encoder writes exactly the bytes of the value's SBOR tree, and writes at all exactly if the value is reachable, its sizes fit and the depth does. |
| `SborDepth.DecodesTree` | sbor-derive-common/src/decode.rs:107-264 | The typed decoder reads a value back from the bytes of its SBOR tree, at any depth, and fails exactly for depth. |
| `SborDepth.EncodesIff` | sbor/src/encoder.rs:155-164 | A value is encoded if and only if it names no unreachable variant, its sizes fit and the limit allows its depth. |
| `SborDepth.EncodingFailsFor` | sbor/src/encoder.rs:139-164 | A failed encoding says why: the limit its depth exceeds, a size above the largest allowed, or an unreachable variant. |
| `SborDepth.EncodesAtLimit` | sbor/src/encoder.rs:139-164 | The bytes do not depend on the limit. |
| `SborDepth.DecodesAtLimit` | sbor/src/decoder.rs:263-287 | Typed decoding of a value's bytes succeeds at exactly the limits that the decoder's measure of its depth allows, and otherwise fails with the depth error. |
| `SborDepth.RoundTripsIff` | sbor/src/codec/array.rs:55-89 | What is written at a limit is read back at that limit if and only if the decoder's measure allows it, which counts the bytes of an array that the encoder does not. |
| `SborDepth.RoundTripsAtLimit` | sbor-derive-common/src/encode.rs:108-240 | Without arrays of bytes, whatever is written at a limit is read back at that limit. |
| `SborDepth.ByteArrayOverLimit` | sbor/src/codec/array.rs:26-89 | Any `[u8; 1]` is written at limit 1 and cannot be read at limit 1. |
| `SborDepth.TreeDepthIs` | sbor/src/decoder.rs:60-83 | The SBOR tree is as deep as the typed decoder counts or as its deepest vector byte; transparent and flattened layers add nothing. |
| `SborDepth.ValueDecodesAtLimit` | sbor/src/value.rs:257-357 | The untyped decoder reads the tree of a typed value at exactly the limits the tree's depth allows. |
| `SborDepth.LimitsAgreeIff` | sbor/src/decoder.rs:60-83 | Typed and untyped decoding accept a value's bytes at the same limits if and only if no vector byte sits deeper than everything else in it. |
| `SborDepth.ByteVectorUnderLimit` | sbor/src/codec/collection.rs:165-190 | Any one-byte `Vec<u8>` decodes at limit 1 although the untyped codec demands 2. |
| `SborDepth.DecodedBytes` | sbor/src/decoder.rs:55-58 | Any bytes that decode are the tree bytes of the decoded value followed by the rest. |
| `SborDepth.HeaderIsEncoded` | sbor-derive-common/src/categorize.rs:53-196 | Discriminator and length reported by `SborEnum` and `SborTuple`, through any nesting of flatten and transparent, are the header the encoder writes. |
| `SborDepth.HeaderIsDecoded` | sbor-derive-common/src/categorize.rs:362-394 | They are also the header of any bytes the decoder accepts for the value. |
| `SborMachine.VecDecoder.ReadOneByte` | sbor/src/decoder.rs:290-295 | One byte is taken or the offset stays, with the codec's result or error. |
| `SborMachine.VecDecoder.ReadBytes` | sbor/src/decoder.rs:298-302 | A slice is taken whole or not at all. |
| `SborMachine.VecDecoder.ReadLength` | sbor/src/decoder.rs:100-123 | The accumulating loop over at most four bytes computes the size reader, errors included, and advances the offset by exactly its bytes. |
| `SborMachine.VecDecoder.CheckLength` | sbor/src/decoder.rs:180-190 | The size is read and compared with the expected one. |
| `SborMachine.VecDecoder.DecodePrimitive` | sbor/src/codec/integer.rs:17-139 | The primitive decoders on the mutable decoder compute the leaf codec. |
| `SborMachine.VecDecoder.DecodeBodyOf` | sbor-derive-common/src/decode.rs:107-204 | The emitted code on the mutable decoder computes the derived decoder, and every success restores the stack depth. |
| `SborMachine.VecDecoder.DecodeDeeperOf` | sbor/src/decoder.rs:278-287 | The depth is raised and checked before the body and restored after success. |
| `SborMachine.VecDecoder.DecodeFieldsOf` | sbor-derive-common/src/decode.rs:206-264 | Fields in order, skipped ones defaulted. |
| `SborMachine.VecDecoder.DecodeUniqueOf` | sbor-derive-common/src/decode.rs:266-326 | The unique field at the depth of its wrapper. |
| `SborMachine.VecDecoder.DecodeVariantOf` | sbor-derive-common/src/decode.rs:137-197 | The match on the discriminator, with flattened variants and the unknown case. |
| `SborMachine.VecDecoder.DecodeVecOf` | sbor/src/codec/collection.rs:165-190 | Element kind, size, then bytes as one slice or elements one level deeper. |
| `SborMachine.VecDecoder.DecodeArrayOf` | sbor/src/codec/array.rs:55-89 | Element kind, expected size, then always element by element one level deeper. |
| `SborMachine.VecDecoder.DecodeItemsOf` | sbor/src/codec/collection.rs:184-188 | The pushing loop decodes exactly the announced number of elements in order. |
| `SborMachine.VecDecoder.DecodeWholePayload` | sbor/src/decoder.rs:45-51 | A payload is accepted only if it is consumed to its last byte, at depth zero. |
| `SborMachine.VecEncoder.WriteLength` | sbor/src/encoder.rs:94-114 | The seven-bit loop appends the canonical size or refuses a size above 2^28 - 1. |
| `SborMachine.VecEncoder.EncodeBodyOf` | sbor-derive-common/src/encode.rs:108-240 | The emitted code on the mutable encoder appends the derived encoding, and every success restores the stack depth. |
| `SborMachine.VecEncoder.EncodeDeeperOf` | sbor/src/encoder.rs:155-164 | The depth is raised and checked before the body and restored after success. |
| `SborMachine.VecEncoder.EncodeFieldsOf` | sbor-derive-common/src/encode.rs:123-143 | Fields in order, skipped ones left out. |
| `SborMachine.VecEncoder.EncodeVariantOf` | sbor-derive-common/src/encode.rs:148-213 | Discriminator, then size and fields or the flattened field's body; an unreachable variant writes nothing. |
| `SborMachine.VecEncoder.EncodeSliceOf` | sbor/src/codec/array.rs:26-39 | Element kind, number, elements, for vectors and arrays alike. |
| `SborMachine.VecEncoder.EncodeItemsOf` | sbor/src/codec/array.rs:29-37 | The slice of a byte vector is its elements' bytes; other elements go one level deeper. |
| `SborVariants.ProcessEnumVariants` | sbor-derive-common/src/utils.rs:299-390 | Accepted if and only if there are at most 255 variants, none is wrong by itself and explicit and implicit discriminators are not mixed. Each result has its variant's fields, its discriminator from attribute, literal or path discriminant or position, is flattened exactly if an unskipped field is flagged, and unreachable exactly if marked; a refusal blames the first variant that is wrong. |
| `SborVariants.DistinctIff` | sbor-derive-common/src/decode.rs:180-193 | Discriminators are distinct exactly if no two reachable variants share one. |
| `SborVariants.AcceptedEnumIff` | sbor-derive-common/src/utils.rs:636-646 | An enum that the macros accept is one of the shapes whose values round-trip, exactly if its encoded fields have such types, flattened ones are tuples and no two reachable variants share a discriminator. |
| `SborVariants.AcceptedStructIff` | sbor-derive-common/src/utils.rs:789-816 | A struct is one of those shapes exactly if its encoded fields have such types, a transparent one if moreover exactly one field is encoded. |
| `SborVariants.ImplicitIsDistinct` | sbor-derive-common/src/utils.rs:423-431 | Without explicit discriminators each reachable variant gets its source position, so the discriminators are distinct. |
| `AccessRules.SatisfiedOr` | radix-engine-interface/src/blueprints/resource/proof_rule.rs:169-177 | `or` is disjunction, also when it extends a disjunction on its left. |
| `AccessRules.SatisfiedAnd` | radix-engine-interface/src/blueprints/resource/proof_rule.rs:179-187 | `and` is conjunction, also when it extends a conjunction on its left. |
| `AccessRules.AndOrMeans` | radix-engine-interface/src/macros.rs:3-61 | The closure built for the rest of a chain, applied to what came before, has the chain's truth value under the usual precedence. |
| `AccessRules.CompositeMeans` | radix-engine-interface/src/macros.rs:64-82 | Every chain with arbitrarily nested groups compiles, and its requirement is satisfied exactly when the expression is true with `&&` binding tighter than `||`. |
| `AccessRules.OnlyChainsCompile` | radix-engine-interface/src/macros.rs:64-82 | Nothing but such a chain compiles. |
| `AccessRules.RuleAcceptsExactly` | radix-engine-interface/src/macros.rs:85-95 | `rule!` compiles exactly the two keywords and the chains, and gives a chain a protected rule. |
| `AccessRules.RuleMeans` | radix-engine-interface/src/macros.rs:85-95 | `rule!(allow_all)` lets everyone in, `rule!(deny_all)` no one, and the rule of a chain exactly those for whom the expression is true. |
| `AccessRules.VerifyAuthRule` | radix-engine/src/system/system_modules/auth/authorization.rs:288-321 | The loops with their early returns authorize exactly when the requirement is satisfied: some alternative, or every conjunct. |
| `Escaping.RunEndsOnBoundary` | radix-rust/src/unicode.rs:97-106 | The first byte that could need escaping is the first byte of a character, and all before it are one-byte characters that escape to themselves. |
| `Escaping.FormatCustomEscaped` | radix-rust/src/unicode.rs:81-131 | For every string and escaper the run-copying loop writes the start, one piece for each character in order, and the end, every slice on character boundaries; printable ASCII except the quote and the backslash is its own piece, any other character what the escaper says. |
| `Escaping.EscapeCharAsPromised` | radix-rust/src/unicode.rs:28-31 | The byte test of the scan offers to the escaper exactly the characters that the trait promises. |
| `Escaping.EscapeStrAsPromised` | radix-rust/src/unicode.rs:28-31 | The escape of a string is the promised pieces, one after another. |
| `Escaping.SkipRun` | radix-rust/src/unicode.rs:97-106 | A run of printable ASCII is moved into the pending range without writing anything. |
| `Escaping.TakeChar` | radix-rust/src/unicode.rs:108-125 | One character is copied, replaced or escaped, and the pending range flushed exactly when it must be. |
| `SkipSearch.FindRun` | radix-rust/src/unicode.rs:837-841 | The search on shifted headers finds the number of headers whose prefix sum is at or below the needle. |
| `SkipSearch.HeaderUnpacks` | radix-rust/src/unicode.rs:864-870 | A packed header unpacks to the index and the position that were packed. |
| `SkipSearch.HeaderPacks` | radix-rust/src/unicode.rs:864-870 | Every 32-bit header is the packing of its 11-bit index and its 21-bit position. |
| `SkipSearch.PackedIsWellFormed` | radix-rust/src/unicode.rs:829-836 | Every table packed run by run, each run ending past the one before and not overshot by its offsets, is one the search is proved for. |
| `SkipSearch.CountInRun` | radix-rust/src/unicode.rs:843-851 | Boundaries at or below the needle are all those of earlier runs and those its own run reaches, whatever the tables. |
| `SkipSearch.ScanRun` | radix-rust/src/unicode.rs:853-861 | The summing loop stops at the first offset past the needle and counts those before it. |
| `SkipSearch.Search` | radix-rust/src/unicode.rs:825-862 | For all well-formed tables and every needle below the last prefix sum, the parity of the number of boundaries at or below it in the expanded table, every index in bounds. |
| `Scenario.RunShape` | radix-transaction-scenarios/src/scenario.rs:728-751 | In every run that does not fail, receipt i goes once to handler i, after creator i and before creator i + 1, and nonces are drawn without gap or reuse below 2^32. |
| `Scenario.RunPerforms` | radix-transaction-scenarios/src/scenario.rs:734-749 | Every event of a run that does not fail is its own step of the script: creator i, handler i on receipt i, or the finalizer, each run on the state the step before it left, leaving the next one and drawing exactly its nonces. |
| `Scenario.CrashPerforms` | radix-transaction-scenarios/src/scenario.rs:734-749 | A failing run completes its steps in turn, state by state, up to one that breaks, draws past the `u32` limit or waits for a receipt that does not come, and fails with just that. |
| `Scenario.ScenarioInstance.Advance` | radix-transaction-scenarios/src/scenario.rs:728-751 | An expected call takes the run exactly one step further; a missing, unexpected or late receipt fails as the code fails, before any step runs. |
| `Scenario.ScenarioInstance.HandleReceipt` | radix-transaction-scenarios/src/scenario.rs:734-739 | The handler of the transaction before takes the run to the next creation. |
| `Scenario.ScenarioInstance.CreateTransaction` | radix-transaction-scenarios/src/scenario.rs:740-746 | The creator takes the run to the receipt it waits for. |
| `Scenario.Play` | radix-transaction-scenarios/src/executor.rs:258-303 | The loop calls `next` one time more than there are transactions and makes exactly the intended run, or ends with the error of the first transaction that cannot be executed. |
| `Scenario.Executor.ExecuteScenario` | radix-transaction-scenarios/src/executor.rs:226-306 | A scenario keeps receipts and handlers in step and extends the chain of nonce spans; one that fails, in a step or in executing a transaction, leaves the executor unchanged. |
| `Scenario.Executor.HandOver` | radix-transaction-scenarios/src/executor.rs:291-299 | The start nonce handed on, with overflow as a failure. |
| `Scenario.EndNonceNeverReuses` | radix-transaction-scenarios/src/executor.rs:296-298 | When the end nonce is handed on, no nonce is ever reused or skipped and later scenarios draw larger ones, over every sequence of scenarios. |
| `Scenario.StartPlusReusesIff` | radix-transaction-scenarios/src/executor.rs:293-295 | With a fixed increment no nonce is reused if and only if every scenario stays within its share before each later one that draws. |
| `Scenario.StartPlusCanReuse` | radix-transaction-scenarios/src/executor.rs:293-295 | A scenario of two transactions, run twice with an increment of one, draws a nonce twice. |

## Left out

- RocksDB internals, column families, file paths and I/O errors: the store is an ordered map of byte strings with put, delete, half-open range delete and forward seek.
- RocksDb.RocksdbSubstateStore.Commit: node keys of 2^32 bytes or more, for which the encoder panics, are excluded by its precondition.
- `StateTreeUpdatingDatabase` and the Merkle tree behind it.
- Typed helpers over the stores (`get_substate`, `list_*_entries`): they wrap decoding around the reads modelled here.
- The conversions between staging and plain updates are identities here, since `BTreeMap` and `IndexMap` are both maps; insertion order of an `IndexMap` is not represented.
- KeyMapper.RunsRepresent: speaks of the substate keys in use, none of which may be able to collide within a partition; which value survives a collision is left open.
- The hash is an arbitrary function to 32 bytes; nothing is assumed of its quality.
- Iterators and listings are finite sequences; laziness and borrowing are not modelled.
- `as_type`/`as_ref`/`from_value` derives, generics, where-clauses, custom value kinds and schema description.
- Typed maps, sets, smart pointers and recursive types: shapes are finite trees of structs, enums, transparent structs, vectors, arrays and primitives. Maps occur in the untyped `Value` codec.
- SborRoundTrip.RoundTrip: elements of a byte kind are a byte or transparent structs around one with no other field; with skipped fields beside it the repository's cast to bytes reads memory whose layout Rust does not define.
- Overlay.SubstateDatabaseOverlay.CommitOverlayIntoRootStore: over RocksDB it asks that nothing stored or staged extends the range delete's bound, for which RocksSimulation.CommitSimulatesIff gives the exact condition of one commit.
- Discriminators and defaults are constants; a discriminator expression is not evaluated, and a compile error is a refused shape. Arrays of `Value`s of mixed kinds, which the `Value` encoder refuses, are likewise outside its tree model.
- SborMachine.VecDecoder.ReadLength: shifting and or-ing disjoint bits is written as addition.
- The offset left behind by a decoder that failed, and the bytes an encoder wrote before it failed, are not specified; the callers drop both.
- Writing errors of `fmt::Write`, and the concrete escapers.
- SkipSearch.FindRun: the standard library's binary search is a bisecting loop of our own; on ascending headers only one position satisfies its contract.
- The contents of the Unicode tables and `is_printable`: the search is proved for any well-formed tables.
- Transactions, receipts, signing, the engine, hooks and the database in the scenario runner: creators, handlers and the finalizer are arbitrary functions that may draw nonces or fail, and receipt `i` is an arbitrary value or missing. A failed step, which panics in the repository, and a failed execution, which returns an error, both end the run.
- Scenario.Executor.HandOver: exceeding a `u32` nonce is a failure, as in builds that check arithmetic; builds that do not check it wrap around.
- `roles2!`, `role_entry!`, benchmarks, command lines and error texts.
