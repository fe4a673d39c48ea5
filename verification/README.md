# AllNet: packet cache, flooding, codecs and tables

This project models the parts of the AllNet daemon and library that carry most of its logic, and proves
what they promise.

* **The packet cache** (`src/lib/pcache.c`, `src/lib/pid_bloom.c`). Messages are variable-length records in
  fixed byte buffers, acks are entries in slots of 64, a table of at most 64 tokens gives meaning to the
  "sent to" bitmap of each, and IDs that leave the tables go into a ring of sixteen Bloom filters.
  `Bloom`, `TokenBits`, `Records`, `MessageGc` and `PcacheModel` say on values what each operation does;
  `PidBloom`, `MessageTable`, `Tables` and `Pcache` are the program's arrays and loops, proved against them.
  `PcacheInvariants`, `Integrity`, `Remembering`, `TokenMeaning`, `AcksOnce`, `SavedAcks`, `MessagesOnce`,
  `Requests`, `Answers` and `BloomHistory` prove what holds over whole runs; `Saving`, `StopsCaching`, `HandOut`
  and `AnswerPlaces` say what the operations do to the contents of the tables; `Forgetting`, `GcAdvances`, `Memo`,
  `AnswerLimits`, `FullTokenTable` and `StrayBitmaps` say exactly where it does not, with the states that
  `Samples` reaches.
* **The daemon** (`src/ad.c`). `Daemon` is one turn of its loop on the cache; `Flooding` is a network of
  daemons whose packets may be lost, delayed, copied and reordered, `Paths` the ways of packets through it, and
  `Delivery` says which packets get through.
* **Codecs**. `Stream` and `StreamPackets` (`src/lib/stream.c`), `Cipher` (`src/lib/cipher.c`), `Base64`,
  `Base64Texts`, `Der` and `DerReading` (`src/lib/asn1.c`). AES, HMAC and the hash are arbitrary functions; RSA is any pair of functions of which
  one undoes the other.
* **Graphs and tables**. `Keysets`, `KeyRoutes` and `Groups` (`src/lib/keys.c`), `Routing`, `RoutingAdds` and
  `RoutingPings` (`src/lib/routing.c`), `Dcache` (`src/lib/dcache.c`).

`Packets` and `PacketLayout` hold the header fields, `Base` bytes and small arithmetic.

Each method of a class ends in the state that a function of the old state describes, and the theorems are
about these functions. What the program draws at random or reads from the clock is an argument or a ghost
result: the entries deleted by the ack gc (`picks`), the time, keys and nonces. Two components are history that
no operation reads: `epoch` counts the advances of the filters, and `asked` is the request that set a memo bit.

The guarantees about IDs are counted in filter advances, because time is not what makes a filter forget: an
ID is found until sixteen advances after it was last in a table or last entered the filter.

## Where the code does not do what it says

The model follows the code. In these places a promise of the code or its comments does not hold, and the
lemma named gives the exact condition or an input.

* `shift_token` reads the bitmap most significant byte first while its bits are set in the order of the
  host: `TokenBits.ShiftTokenKeepsMeaning`, `TokenMeaning.EntryKeepsMeaning`, and over runs
  `FullTokenTable.AlwaysTrueIff`. The theorems about bitmaps over
  runs (`TokenMeaning.StepMeaning`, `TokenMeaning.BitsMeanSent`, `AcksOnce.AckGivenOnce`) therefore hold on hosts that store
  the most significant byte first, and on others as long as the token table is not full.
* When a save runs a gc for a message of at least 6128 bytes, the whole entry is dropped and its IDs are not
  added to the filter: `Forgetting.EntryGcForgets`, `Forgetting.GcForgetsExactly`,
  `GcAdvances.QuietGcForgetsExactly`, `Forgetting.SafeSizeIff`.
* The memo of fruitless requests is kept for each token, not for each request:
  `Memo.MemoServesIffNarrower`, `Memo.MemoMisses`; and a buffer too small for one message sets it too:
  `AnswerLimits.EmptyIsRightIff`.
* `pcache_request` does not sort by priority: `AnswerLimits.AnswerOrderIff`.
* `pcache_ack_for_token` promises not to give an ack twice to a token, but for an ack without an entry it reads
  the bitmap before the ack table (the argument `stray`) and records nothing: `StrayBitmaps.IgnoresStrayIff`,
  `StrayBitmaps.RefusedNextIff`, `StrayBitmaps.GivenOnceIff`, `StrayBitmaps.GivenTwice`. The other
  theorems hold whatever it finds there, and in `process_acks` it makes no difference
  (`StrayBitmaps.PacketIgnoresStray`).
* Line 534 of `src/lib/asn1.c` stores a comparison in `wanted`, so that a small buffer is not refused:
  `Base64.StaysInBufferIff`, `Base64.IntendedIsEnough`.
* `write_id_len` writes in front of the buffer when there is room for all of a long header but its
  identifier: `Der.HeaderStaysInBufferIff`, `Der.HeaderOutsideBuffer`.
* Hybrid encryption needs RSA keys of at least 90 bytes: `Cipher.RoundTripIff`.
* `allnet_decrypt` does not test that the RSA block holds an AES key and a nonce before it copies what is behind
  them: the size of the copy is negative exactly when there is more than the RSA block and the block decrypts to
  fewer than 48 bytes: `Cipher.CopySizeNegativeIff`, and `Cipher.TooShortIff` for what `allnet_encrypt` makes.
* `routing_add_dht` computes an index behind the table for the node's own address: `Routing.BucketFitsIff`.
* `routing_add_dht` leaves another peer with the same internet address in the table when the destination is there
  already: `Routing.StepIpsIff`, `Routing.RunIpsIff`, `Routing.MovedTwice`.
* `contact_exists` returns an index into the list of names that is used for the table of entries:
  `Keysets.IndexAlignedIff`.

## Model

| member | source | states |
|---|---|---|
| Packets.MessageIdIgnoresHops | src/lib/pcache.c:674-706 | the message ID is the same whatever the two hop fields of the packet say |
| PacketLayout.IdOfAssembled | src/lib/pcache.c:674-706 | a packet put together from a header, the optional parts that it announces and a payload has the ID that it carries, or else the hash of the payload; without payload it has none |
| PacketLayout.AssembledExpires | src/lib/util.c:1768-1781 | it has expired exactly if it carries a time that has passed |
| PacketLayout.EveryPacket | src/lib/packet.h:288-294 | every packet is put together in that way, or too short for what it announces, and then it has no ID and never expires |
| Bloom.NoFalseNegatives | src/lib/pid_bloom.c:108-184 | an added ID is found after every run of adds, lookups and advances, for all four selectors together, with at most fifteen advances, explicit or caused by the load |
| Bloom.LookupExtends | src/lib/pid_bloom.c:136-139 | a lookup that succeeds in any filter grants another fifteen advances |
| Bloom.LookupAnswers | src/lib/pid_bloom.c:120-142 | the search over the sixteen filters answers whether some filter has all eight bits |
| BloomHistory.AddIs | src/lib/pid_bloom.c:145-222 | an insertion changes nothing if the newest filter holds the ID; otherwise it sets eight bits, two bytes of the ID each, and counts one, and the 16385th one counted makes all filters of all selectors older and starts all counts again |
| BloomHistory.PresentIffCovered | src/lib/pid_bloom.c:108-184 | after every run an ID is reported present exactly when, within one of the last sixteen epochs, each of its eight positions was set by some inserted ID |
| BloomHistory.PresentFromEmpty | src/lib/pid_bloom.c:26-33 | so it is in every run from empty filters |
| BloomHistory.RunBounded | src/lib/pid_bloom.c:166-184 | in every reachable state filter_load bounds the one bits at each depth of filter 0 and rests at MAX_FILTER_LOAD or below, and no filter has more than MAX_FILTER_LOAD + 1 bits at any depth |
| BloomHistory.AcceptedIdsBounded | src/lib/pid_bloom.c:26-33 | after any run from empty filters a selector accepts at most 16 * (MAX_FILTER_LOAD + 1)^8 IDs |
| PidBloom.BloomTable.IsInBloom | src/lib/pid_bloom.c:108-142 | the loops over filters and depths compute the lookup, with the promotion of an old ID into filter 0 |
| PidBloom.BloomTable.AddToBloom | src/lib/pid_bloom.c:145-184 | setting the bits in place, counting the load and advancing when it is exceeded |
| PidBloom.BloomTable.AdvanceBloom | src/lib/pid_bloom.c:205-222 | moving sixteen filters of four selectors down by one place in the arrays |
| TokenBits.LoadStore | src/lib/pcache.c:708-732 | which bit of a 64-bit word is read where, when it was stored in one byte order and is read in another |
| TokenBits.ShiftTokenKeepsMeaning | src/lib/pcache.c:708-732 | shifting a bitmap through readb64 and writeb64 after a token gc keeps exactly the surviving tokens if and only if the host stores the most significant byte first, or the bitmap is empty |
| TokenBits.ShiftOnLeastSignificantFirst | src/lib/pcache.c:728-731 | on the other hosts the bits move by the same distance the wrong way |
| Records.LoadStoreHeader | src/lib/pcache.c:78-86 | a message header copied into the buffer is copied out unchanged |
| Records.RecordInBuffer | src/lib/pcache.c:78-97 | where the header and the bytes of each record are in the buffer of an entry |
| Records.LayoutWithout | src/lib/pcache.c:1043-1050 | moving the rest of the buffer over one record leaves the layout of the others |
| Records.LayoutWithHeader | src/lib/pcache.c:1681-1684 | overwriting the header of one record changes the bitmap of that record only |
| MessageGc.KeptIsExact | src/lib/pcache.c:797-825 | a gc keeps the unexpired records except those that leave in the order of priority, then age, and no more of these than the space requires |
| MessageGc.ExactSelectionIsUnique | src/lib/pcache.c:750-753 | only one selection of records fits that description |
| MessageGc.SurvivorsFit | src/lib/pcache.c:828-854 | the survivors take the computed space and count |
| Saving.NoneExpired | src/lib/pcache.c:797-802 | a gc leaves no expired record, whatever it was run for, and what it leaves differs from what was there in the bitmap only |
| Saving.OnlyExpiredLeave | src/lib/pcache.c:797-825 | if half of the storage is free without the expired records, besides room for the message that waits, exactly these leave |
| Saving.LowestLeaveFirst | src/lib/pcache.c:807-825 | of two records that have not expired, and of which one leaves, it is the one of lower priority, or the earlier one of equal priority |
| Saving.LeavesForSpace | src/lib/pcache.c:803-825 | the last record to leave before it has expired would not have fitted into half of the storage with those kept and the message that waits; without it they fit |
| MessageTable.CompactStep | src/lib/pcache.c:831-841 | moving one kept record down, over bytes that may still hold dropped records, leaves every record that is still to be read |
| MessageTable.MessageEntry.Compact | src/lib/pcache.c:828-854 | the overlapping compaction in the buffer leaves exactly the survivors, in order, with ID, priority and bytes unchanged and the bitmaps shifted, and notes every dropped ID in the filter |
| MessageTable.MessageEntry.EvictForSpace | src/lib/pcache.c:807-825 | the loop that drops one message of lowest priority at a time ends within the limit with the selection above |
| MessageTable.MessageEntry.Gc | src/lib/pcache.c:754-855 | gc_messages_entry on the bytes of the buffer is the specified filter on the records, including the empty entry and the shortcut that drops all records |
| MessageTable.MessageEntry.FindDelete | src/lib/pcache.c:1056-1076 | the first record with the ID is found, and removed from the buffer when asked |
| MessageTable.MessageEntry.DeleteAt | src/lib/pcache.c:1043-1050 | one memmove removes one record and keeps the others |
| MessageTable.MessageEntry.Append | src/lib/pcache.c:1012-1020 | the new record goes behind the others, with an empty bitmap |
| MessageTable.MessageEntry.MarkSent | src/lib/pcache.c:1680-1685 | one bit of one record is set in the buffer |
| Tables.AckTable.DropRandom | src/lib/pcache.c:864-881 | random deletions until half the slot is free, each ack and ID noted in the filters; a draw that misses changes nothing |
| Tables.AckTable.FindOne | src/lib/pcache.c:1089-1101 | the search of one slot finds the entry of the ID |
| Tables.TokenTable.Gc | src/lib/pcache.c:891-921 | a full token table loses its oldest quarter, and the others move to the front |
| PcacheInvariants.SaveOk | src/lib/pcache.c:987-1027 | a save reaches the "gc error" exit exactly for a new message larger than ALLNET_MTU; otherwise the tables stay in order: entries fit, each ID once and in its bucket |
| Saving.FittingIsAppended | src/lib/pcache.c:987-1022 | a new message that fits goes to the end of the entry of its ID, sent to nobody, and nothing else changes but the memo of fruitless requests |
| Saving.OthersAreCollected | src/lib/pcache.c:935-1022 | one that does not fit goes behind what a gc for its size leaves of its entry; all other entries are collected for no message |
| Saving.KnownIsNotSaved | src/lib/pcache.c:987-1000 | a packet that is known, or has no ID, changes none of the tables |
| PcacheInvariants.SaveAckOk | src/lib/pcache.c:1127-1197 | saving an ack always finds a place in its slot, after a gc if need be, and keeps one entry per ID |
| StopsCaching.AckStopsCaching | src/lib/pcache.c:1194-1196 | after a new ack was saved no record of any entry has its ID, and the others, once collected if the slot was full, are the same, in order, with their bitmaps |
| StopsCaching.NewAckIsEntered | src/lib/pcache.c:1145-1193 | a new ack has an entry of its own, sent to nobody, in the slot of its ID, at its home if that was free; without a gc no other entry changes |
| StopsCaching.KnownAckRaisesHops | src/lib/pcache.c:1139-1144 | an ack whose ID has an entry changes nothing but the hop limit there, which becomes the larger of the two |
| StopsCaching.AckedIsNotGiven | src/lib/pcache.c:1199-1209 | in every run from an empty cache: after a new ack was saved, and until its message is saved again, no record has its ID and no answer to any request holds a message with that ID |
| PcacheInvariants.GcFrees | src/lib/pcache.c:859-881 | after a gc every ack slot has a free place, whatever entries were drawn |
| PcacheInvariants.GcOk | src/lib/pcache.c:935-984 | a gc leaves room for the message it was run for and for a new token |
| PcacheInvariants.RunOk | src/lib/pcache.c:987-1321 | the tables are in order in every state of every run |
| Integrity.StepStores | src/lib/pcache.c:754-1197 | an operation leaves only records that were there, or the one that it saves |
| Integrity.RunStores | src/lib/pcache.c:754-1197 | in every run each stored record has the ID, priority and bytes of a message that was saved |
| Integrity.EmptyCacheIsGood | src/lib/pcache.c:302-314 | the tables that the program starts with satisfy every invariant that runs preserve |
| Remembering.StepKeeps | src/lib/pcache.c:987-1321 | an operation keeps the entry of every ack or notes the ack and its ID in the filters, and keeps every stored ID in a table or notes it, except for the IDs of an entry that is dropped whole |
| Remembering.StepRemembers | src/lib/pcache.c:987-1321 | an operation forgets an ID only by that shortcut; the ID of a packet that it saves or records, of an ack that it saves and that is not in the filter of acks already, or that it finds in the filter, is remembered from then on |
| Remembering.RecalledIsFound | src/lib/pcache.c:1080-1086 | an ID that is in a table, or entered the filter in a given epoch or later, is found until sixteen advances after that epoch |
| Remembering.RunRemembers | src/lib/pcache.c:3-18 | the goal of the cache, over every run: an ID that was saved, recorded or acked (by an ack that is not in the filter of acks already: such an ack is ignored) is found in every later state until sixteen filter advances later, counted from that operation and anew from every later state in which the ID is in a table, if no save in between drops its whole entry |
| Remembering.StepKeepsAck | src/lib/pcache.c:862-881 | no operation at all forgets an ack: it has an entry, or entered the filter of acks no earlier than a given epoch |
| Forgetting.EntryGcForgets | src/lib/pcache.c:760-766 | collecting one entry keeps all its IDs, in the entry or in the filter, exactly when the shortcut for large messages is not taken or the filter had them before |
| Forgetting.GcForgetsExactly | src/lib/pcache.c:935-984 | whatever a gc notes, for an ID that shares no bit with another ID of the tables: it is found after the gc exactly when its entry is not dropped whole, or it is acked, or the filter had it in a filter young enough to survive the advances of the gc |
| Forgetting.GcRecalls | src/lib/pcache.c:935-984 | the part of this that needs no such condition: what is not in the entry dropped whole, or is acked, is found |
| Forgetting.SafeSizeIff | src/lib/pcache.c:750-766 | saves of messages of a given size forget no ID of the tables in any reachable state exactly when the size is below 6128 bytes |
| GcAdvances.GcAdvancesAtMost | src/lib/pcache.c:859-984 | a gc advances the filters once, and at most once more for each filter that the load before it and the IDs it drops can fill, all of which can be counted before it |
| GcAdvances.QuietGcForgetsExactly | src/lib/pcache.c:935-984 | where these do not fill a filter, an ID that was in a table is found after the gc exactly when its entry is not dropped whole, or it is acked, or the newest fifteen message filters, with the IDs noted by the gc, report it, be it falsely |
| TokenMeaning.EntryKeepsMeaning | src/lib/pcache.c:831-837 | a token gc keeps the meaning of all bitmaps kept in an entry if and only if the host stores the most significant byte first, or they are all empty |
| TokenMeaning.StepMeaning | src/lib/pcache.c:1223-1299 | on a host in that order, or with a token table that is not full: after one operation a message or ack has the bit of a listed token exactly if it had it before or the operation marks it, for all operations and through gcs |
| TokenMeaning.RunBitsOk | src/lib/pcache.c:71-72 | under that condition, in every reachable state tokens are distinct and no bitmap has a bit without a token |
| TokenMeaning.BitsMeanSent | src/lib/pcache.c:1666-1687 | under that condition, in every reachable state a stored message has the bit of a listed token exactly if it was marked for that token since both have been in the tables |
| TokenMeaning.AckBitsMeanGiven | src/lib/pcache.c:1280-1299 | under that condition, in every reachable state an ack has the bit of a listed token exactly if it was handed to that token since both have been in the tables |
| FullTokenTable.AlwaysTrueIff | src/lib/pcache.c:708-732 | in all runs from an empty cache the bits of messages tell the truth if and only if the host stores the most significant byte first; on the others a run of 64 tokens and one more ends with a message that was sent to a listed token and does not have its bit |
| AcksOnce.AckGivenOnce | src/lib/pcache.c:1280-1299 | under that condition, in every run an ack is not given again to a token that has stayed listed, while the ack has stayed remembered |
| HandOut.HandsOutIff | src/lib/pcache.c:1280-1299 | an ack is handed out exactly if it is not in the filter, the bitmap that is read does not have the bit of the token, and a token that is not listed finds fewer than 64 others or a list not collected for a minute |
| HandOut.PacketKeepsExactly | src/lib/pcache.c:1301-1321 | of the acks of a packet exactly those are kept that can be handed out when their turn comes, in the order of the packet |
| HandOut.ServingLists | src/lib/pcache.c:1223-1278 | a token that is looked for and not listed goes to the end of the list, from which its oldest sixteen leave if it is full and not refused; then the time is noted |
| HandOut.OthersList | src/lib/pcache.c:908-921 | no other operation changes the list, but that a gc takes the oldest sixteen off when it is full |
| HandOut.CollectionsApart | src/lib/pcache.c:1235-1258 | in every run a minute passes between two collections of the list for new tokens, and until then new tokens get no ack while it is full |
| AcksOnce.NewEntry | src/lib/pcache.c:1127-1197 | an ack entry appears only when an ack with that ID is saved that is not in the filter |
| AcksOnce.BatchIsSubsequence | src/lib/pcache.c:1301-1321 | the acks kept from a packet are a subsequence of it, in the same order |
| AcksOnce.BatchKeepsEachOnce | src/lib/pcache.c:1301-1321 | they are pairwise different, while the acks stay remembered and the token listed |
| SavedAcks.SavedAckGivenOnce | src/lib/pcache.c:1280-1299 | in every run an ack that was saved and given to a token is not given to it again in any later state in which the token has stayed listed, up to sixteen filter advances after the ack was saved |
| SavedAcks.PacketKeepsEachOnce | src/ad.c:486-500 | of a packet of acks, all saved just before, each is given to the local token at most once, with fewer than sixteen filter advances in the call and no hash twice |
| StrayBitmaps.IgnoresStrayIff | src/lib/pcache.c:1280-1299 | the answer of pcache_ack_for_token does not depend on the bitmap in front of the table if and only if the ack has an entry or is in the filter, or the token is not listed |
| StrayBitmaps.RefusedNextIff | src/lib/pcache.c:1280-1299 | an ack that was just given to a token is refused to it next time, whatever is in front of the table, if and only if it is remembered after the first call |
| StrayBitmaps.GivenOnceIff | src/lib/pcache.c:1280-1299 | where that call does not run a gc, that is if and only if the ack had an entry before it |
| StrayBitmaps.GivenTwice | src/lib/pcache.c:1280-1299 | an ack that was never saved is given twice to the same token, from the empty cache on |
| StrayBitmaps.PacketIgnoresStray | src/ad.c:486-500 | in process_acks neither the state nor the acks that are kept depend on what is in front of the table |
| MessagesOnce.MessageGivenOnce | src/lib/pcache.c:3-18 | in every run from an empty cache no answer to a request of a token holds a message with an ID that was marked for the token, as long as the message has stayed stored and the token listed |
| Requests.StepMemo | src/lib/pcache.c:73-75 | every operation keeps the memo right: where a bit is set, a full scan for the request that set it would find nothing |
| Requests.RunMemo | src/lib/pcache.c:1573-1580 | so it is in every state of every run, with saves, acks, marks, expiry and gcs in any order |
| Memo.MemoServesIffNarrower | src/lib/pcache.c:1573-1580 | the memo, which is kept for each token, answers another request of the same token correctly in all reachable states if and only if that one asks for no message that can be saved and that the first did not ask for |
| Memo.MemoMisses | src/lib/pcache.c:1573-1580 | the run that shows it: the token is listed, the message saved, the first request answered with nothing, and the second one, which matches the message, is answered with nothing too |
| Memo.ReachableStores | src/lib/pcache.c:987-1020 | in every reachable state a stored record is a message that has an ID and fits a packet |
| Answers.AnswerIsUnique | src/lib/pcache.c:1334-1360 | the answer is the longest prefix of the eligible messages that fits the buffer and the limit; there is one such prefix |
| AnswerPlaces.AnswersAreAllGiven | src/lib/pcache.c:1585-1617 | the list that answers are prefixes of has one message for every record that matches, has not expired and was not sent to the token (unless that is zero), in table order, with its bytes and priority |
| Answers.EmptyAnswerMeansNothing | src/lib/pcache.c:1618-1620 | with a buffer for one largest message an empty answer means that nothing is eligible, so that the memo may be set |
| AnswerLimits.EmptyIsRightIff | src/lib/pcache.c:1618-1620 | the memo that empty answers set is right in all reachable states exactly when the buffer has room for one largest message |
| AnswerLimits.AnswerOrderIff | src/lib/pcache.c:1547-1552 | with a buffer for two small messages, the answers in all reachable states are in descending priority exactly when they are limited to one message |
| Pcache.PacketCache.constructor | src/lib/pcache.c:302-314 | the empty tables |
| Pcache.PacketCache.DoGc | src/lib/pcache.c:935-984 | tokens, acks, messages and filters are collected together in place as specified |
| Pcache.PacketCache.IdFound | src/lib/pcache.c:1080-1086 | the filter first, then the message table |
| Pcache.PacketCache.SavePacket | src/lib/pcache.c:987-1027 | saving in place is the specified operation, and fails exactly where that fails |
| Pcache.PacketCache.RecordPacket | src/lib/pcache.c:1030-1041 | only the filter learns about the packet |
| Pcache.PacketCache.IdAcked | src/lib/pcache.c:1105-1113 | the ack of an ID is found exactly when there is an entry for the ID |
| Pcache.PacketCache.SaveOneAck | src/lib/pcache.c:1127-1197 | saving an ack in place is the operation that the rows of StopsCaching describe, and never fails |
| Pcache.PacketCache.TokenToSendTo | src/lib/pcache.c:1223-1278 | the index to mark, none if already marked or if a full table was collected less than a minute ago |
| Pcache.PacketCache.AckForToken | src/lib/pcache.c:1283-1299 | one ack is handed out and marked, or refused |
| Pcache.PacketCache.AcksForToken | src/lib/pcache.c:1304-1321 | the acks to give move to the front of the array in order, and the rest of the array stays |
| Pcache.PacketCache.MarkTokenSent | src/lib/pcache.c:1666-1687 | the stored message is marked for the token |
| Pcache.PacketCache.Request | src/lib/pcache.c:1553-1627 | a set memo bit answers with nothing; otherwise the scan gives the specified answer, and an empty one sets the bit |
| Pcache.SomeChoices | src/lib/pcache.c:869-881 | the random deletions of a gc always exist |
| Daemon.Receive | src/ad.c:691-740 | one turn of the daemon loop for an ordinary packet: validity of the hops, hop count, cache operations; with tables in order the packet goes out exactly if it has an ID, has hops left, and is local or new to records, ack entries and filters |
| Daemon.ProcessMessage | src/ad.c:624-685 | forwarded exactly when it has an ID and is local or not remembered; the cache runs the specified operations; the program ends only for a new packet that is too large to be cached |
| Daemon.RememberedIffKnows | src/ad.c:640-650 | the two lookups find exactly the IDs that a record has, or an ack entry in use, or one message filter with all eight bits |
| Daemon.ForwardsIff | src/ad.c:285-292 | the decision and the tests around it, on the packet as it arrived and on the contents of the tables |
| Delivery.NewPacketIsKept | src/ad.c:676-683 | a new packet is stored as it is at the end of its bucket; one that must not be cached only adds its ID to the filter |
| Delivery.KnownPacketIsNotKept | src/ad.c:624-685 | a packet without an ID, or with that of an ack entry, changes nothing; one that is known otherwise leaves all tables but the filters as they are |
| Daemon.ProcessAcks | src/ad.c:486-520 | all acks are saved with the hops that are left, then exactly those that the local token was not yet given are kept, at the front |
| Daemon.HandledIsRecalled | src/ad.c:624-685 | after a packet was handled, new or not, its ID is in a table or entered the filter no earlier than the packet |
| Daemon.ReachesRemembers | src/ad.c:624-685 | several operations in a row remember what each of them does |
| Flooding.ForwardOnce | src/ad.c:624-685 | in every run of every network a node that handled an ordinary packet forwards no packet with the same ID that comes from another system, until sixteen advances of its filters later, counted from then and anew from every later state in which the ID is in one of its tables, unless a save dropped the whole entry of the ID |
| Flooding.NetRunRemembers | src/ad.c:687-751 | an ID in a table of a node of a network is found there through all steps of all nodes, until sixteen advances of the node later |
| Flooding.ForwardedPacket | src/ad.c:731-740 | a forwarded packet differs from the one received by one more hop only, has the same ID, and its hops are below max_hops |
| Delivery.HandledGoesOut | src/ad.c:724-740 | a packet that a node handles puts one copy for every neighbour on the wire, with one hop more if it came from another system, exactly if it is local or new to the node and has hops left |
| Delivery.ChainDelivers | src/ad.c:624-740 | packets get through: along every chain of nodes to which a packet with h hops is new, whatever else their tables hold, copies that are not lost arrive at all nodes fewer than max_hops - h steps behind the first, the k-th after k more hops |
| Delivery.ChainIsShort | src/ad.c:285-292 | and no further |
| Flooding.LastHop | src/ad.c:289-292 | a packet at its hop limit is not sent out, and the stored copy with one hop more would be refused by a receiver |
| Flooding.HopsStayBelow | src/ad.c:285-292 | in every run all packets in flight have hops below max_hops, except those a node injects itself |
| Paths.HopsCountSteps | src/ad.c:724-740 | along every path of steps, each of which takes a packet that the one before it sent, the hops go up by one at each step, the limit stays, and so does the ID of an ordinary packet |
| Paths.PathIsShort | src/ad.c:285-292 | such a path has at most as many steps as its first packet has hops left |
| Paths.ArrivalHasPath | src/ad.c:687-751 | every arrival in every run is at the end of a path that starts with a packet in flight at first or with one that a node sent of its own accord |
| Paths.HopsBoundPath | src/ad.c:724-740 | so a packet with h hops has been under way for at most h + 2 steps |
| Flooding.FloodingEnds | src/ad.c:285-292 | in every run, even with no memory at all, the number of arrivals is bounded by the hops that packets have left and the copies that nodes make |
| Stream.KeyStreamClosedForm | src/lib/stream.c:55-75 | byte n from a position p = 15 * counter + offset is byte (p + n) mod 15 of the AES block of counter (p + n) / 15, from every position |
| Stream.NeverReused | src/lib/stream.c:55-75 | no byte of a block is used twice until all 2^64 counters were used |
| Stream.StartIff | src/lib/stream.c:186-203 | the receiver finds the sender's position exactly when the upper bits agree and the position fits in 64 bits |
| Stream.DecryptsIffAgree | src/lib/stream.c:148-212 | every packet is accepted; the text is restored and the receiver left at the sender's position when the positions agree, and the receiver ends elsewhere when they do not |
| Stream.SessionExact | src/lib/stream.c:81-212 | in every session in which packets are lost, those that arrive are decrypted exactly and the receiver follows the sender, the latter if and only if each leaves the sender in the same window as the one that arrived before |
| StreamPackets.PacketBytes | src/lib/stream.c:81-136 | a packet byte by byte: text and key stream, the low bytes of the position, and the first bytes of the authentication code of these |
| StreamPackets.OpenIff | src/lib/stream.c:148-184 | any packet whatsoever is accepted exactly if its last bytes are the authentication code of all before them and its text is not empty and fits |
| StreamPackets.OpenedAt | src/lib/stream.c:186-212 | where an accepted packet is taken to begin, what comes out of it byte by byte, and where the receiver is then |
| StreamPackets.ChangedByteIsRefused | src/lib/stream.c:171-184 | a packet with one byte of its authentication code changed is refused wherever the receiver is |
| StreamPackets.ForgeriesChangeNothing | src/lib/stream.c:148-212 | a session in which packets without a right authentication code are delivered as well, at any time and any number of them, is exact under the same condition |
| Stream.StreamState.NextByte | src/lib/stream.c:55-75 | the byte and the new position |
| Stream.StreamState.CryptBuffer | src/lib/stream.c:99-103 | the loop over the text, in place or not |
| Stream.StreamState.EncryptBuffer | src/lib/stream.c:81-136 | the packet in the buffer, or nothing when there is no text or no room |
| Stream.StreamState.DecryptBuffer | src/lib/stream.c:148-212 | the text and the new position for an authentic packet that fits, or nothing changed at all |
| Base64.FullLinesAppend | src/lib/asn1.c:556-563 | a newline goes in after each 64 characters |
| Base64.ProgressEnds | src/lib/asn1.c:565-578 | the encoder's steps and its tail give section 4 of RFC 4648 with a newline after each 64 characters and at the end |
| Base64.StillThere | src/lib/asn1.c:540-564 | the bytes that are still to be read have not been overwritten |
| Base64.StaysInBufferIff | src/lib/asn1.c:529-581 | the encoder stays inside the buffer exactly when there is room for the text and the null character |
| Base64.IntendedIsEnough | src/lib/asn1.c:534-539 | the size that line 534 means to test is enough |
| Base64.EncodeByte | src/lib/asn1.c:546-564 | one turn of the loop in the overlapping buffer |
| Base64.EncodeBuffer | src/lib/asn1.c:529-581 | encoding in one buffer gives the reference text and a null character |
| Base64.DecodeEncode | src/lib/asn1.c:489-526 | decoding restores the data of every size, or as much of it as there is room for |
| Base64Texts.AlphabetIs | src/lib/asn1.c:449-486 | the character of each value and the value of each character are those of table 1 of RFC 4648 |
| Base64Texts.TextIsNumber | src/lib/asn1.c:546-564 | the text of a whole number of groups has only characters of the alphabet and is the same number in base 64 as the data in base 256 |
| Base64Texts.TextIsPadded | src/lib/asn1.c:565-578 | with one or two bytes left it is the text of the data with zeros added, the last characters replaced by padding |
| Base64Texts.LinesAt | src/lib/asn1.c:556-578 | every 65th character is a newline and so is the last one, and the others are those of the text |
| Base64Texts.OthersAreSkipped | src/lib/asn1.c:487-526 | characters outside the alphabet other than padding make no difference to the decoder, wherever they are |
| Base64Texts.DecodeTexts | src/lib/asn1.c:487-526 | texts that follow each other decode to their data one after the other, with padding in the middle, as far as there is room |
| Base64Texts.EncodeDecode | src/lib/asn1.c:487-526 | every text of whole groups of the alphabet is the text of what it decodes to |
| Base64.FirstJoined | src/lib/asn1.c:493-503 | the bits of one byte that the encoder puts into two characters are put together again by the or of the decoder |
| Base64.DecodeBuffer | src/lib/asn1.c:487-526 | decoding is the specified function of the text, whatever the text, also when the result goes into the same buffer |
| Keysets.IndexAlignedIff | src/lib/keys.c:94-120 | the index found in the list of names belongs to the entry of that name exactly when all earlier entries have names and no name occurs twice among them |
| Groups.ContactsDistinct | src/lib/keys.c:111-140 | the list of names has each name once |
| Keysets.LoopIffCycle | src/lib/keys.c:1846-1879 | started with one more than the number of entries, the recursion reports a loop exactly when a membership cycle can be reached from the contact |
| Keysets.KeysAreReachable | src/lib/keys.c:1846-1879 | without a cycle it finds exactly the plain entries whose names can be reached |
| KeyRoutes.OneForEachRoute | src/lib/keys.c:1846-1879 | without a cycle the list holds one keyset for every route of entries and member indices from the contact to a plain entry, in the order of the routes |
| KeyRoutes.OnlyOneList | src/lib/keys.c:1846-1879 | no other list is like that |
| KeyRoutes.CountIsRoutes | src/lib/keys.c:1846-1879 | how often an entry is listed is the number of routes that end at it |
| KeyRoutes.PlainNameKeys | src/lib/keys.c:1856-1861 | a name with plain entries only gives exactly their indices, ascending, each once |
| Keysets.RecursiveNumKeysets | src/lib/keys.c:1846-1879 | the number of the keysets that the rows of KeyRoutes describe, or -1, and these keysets filled into the part of the array given, as far as it goes |
| Keysets.AllKeys | src/lib/keys.c:1923-1952 | the number and the list of these keysets: the second pass fills exactly what the first one counted |
| Groups.RemoveFromArray | src/lib/keys.c:1633-1645 | all occurrences of one name leave, and nothing else does |
| Groups.EliminateDuplicates | src/lib/keys.c:1665-1682 | the same names, each once |
| Groups.MergeNoDuplicates | src/lib/keys.c:1685-1717 | the names of both lists, each once, the first list in front |
| Groups.GroupMembersAre | src/lib/keys.c:1407-1440 | the members that a group has for the program: those of the entry whose index is the number of different names in front of the first entry of its name |
| Groups.GroupContacts | src/lib/keys.c:1793-1837 | on every membership graph, cycles included: each contact that is in the group or in a group nested in it, exactly once |
| Groups.MemberOfGroups | src/lib/keys.c:1551-1610 | the groups that list the name, in table order, each as often as it lists it |
| Groups.MemberOfGroupsRecursive | src/lib/keys.c:1721-1765 | on every membership graph: each group around the direct groups of the contact other than itself, exactly once |
| Cipher.IncCtr | src/lib/cipher.c:17-26 | one is added to the big-endian counter modulo 2^128 |
| Cipher.CtrTwice | src/lib/cipher.c:28-55 | counter mode undoes itself |
| Cipher.CtrByte | src/lib/cipher.c:28-55 | byte i is combined with byte i modulo 16 of the encrypted block whose number is that of the nonce and i / 16 more, modulo 2^128 |
| Cipher.AesCtrCrypt | src/lib/cipher.c:29-55 | block i is encrypted with the nonce plus i as its counter |
| Cipher.RoundTripIff | src/lib/cipher.c:59-197 | decryption gives every text back exactly when it fits one RSA block or the RSA key has at least 90 bytes |
| Cipher.CopySizeNegativeIff | src/lib/cipher.c:168-181 | for arbitrary input, the number of bytes that decryption copies is negative exactly when there is more than the RSA block and the block decrypts to fewer than 48 bytes |
| Cipher.TooShortIff | src/lib/cipher.c:168-181 | decryption copies a negative number of bytes for an encrypted text exactly when it does not fit one block and the RSA key has fewer than 90 bytes |
| Cipher.ShortRoundTrip | src/lib/cipher.c:59-167 | a text that fits one block is left to RSA alone, in both directions |
| Cipher.EncryptMessage | src/lib/cipher.c:59-127 | the result buffer holds the RSA block and the rest in counter mode |
| Cipher.DecryptMessage | src/lib/cipher.c:131-197 | the text is put together from both parts; not ok exactly where the program would copy a negative number of bytes |
| Der.IntegerIsMinimal | src/lib/asn1.c:366-394 | integers are written with their value, not negative, and in the fewest bytes |
| Der.ReadLengthIff | src/lib/asn1.c:32-61 | a length is read back exactly when it is below 2^24, although the writer also writes longer ones |
| DerReading.LengthIsMinimal | src/lib/asn1.c:337-364 | a length is written as itself, in one byte below 128 and otherwise in the fewest bytes behind their number |
| Der.ReadSequence | src/lib/asn1.c:66-111 | the reader finds exactly the elements that were written, each where it starts, whatever follows |
| DerReading.ReadSeqIff | src/lib/asn1.c:66-111 | any data are read as a sequence exactly if they begin with one that its elements, at least one, fill without a gap, and the places of these are found |
| Der.EmptyIsRefused | src/lib/asn1.c:92-111 | an empty sequence is refused |
| Der.ReadIntIff | src/lib/asn1.c:114-140 | an integer is read back exactly when it is below 2^31 |
| DerReading.ReadIntegerIff | src/lib/asn1.c:114-140 | any data are read as a number exactly if they begin with an integer of at most four bytes |
| Der.HeaderStaysInBufferIff | src/lib/asn1.c:337-364 | a header is written inside the buffer unless it has a long length whose bytes alone fill the buffer |
| Der.HeaderOutsideBuffer | src/lib/asn1.c:337-364 | a length of 200 in a buffer of two bytes: the identifier is written in front of it |
| Der.WriteIdLen | src/lib/asn1.c:337-364 | the header is written backwards in front of the content, or 0 is returned for lack of room, unless it would be written in front of the buffer |
| Der.WriteInt | src/lib/asn1.c:366-394 | an integer is written backwards at the end of the free part |
| Der.WriteSequence | src/lib/asn1.c:396-446 | integers of any widths, written from the last to the first and given one header, are the sequence of those for which there was room, unless the header would be written in front of the buffer |
| Der.AllFit | src/lib/asn1.c:366-394 | with room for all integers and five bytes more none is left out |
| Der.ReadSequenceHeader | src/lib/asn1.c:66-111 | size, number of elements and position of one of them |
| Routing.BucketFitsIff | src/lib/routing.c:787-794 | the bucket of an address is inside the table exactly for addresses other than the node's own |
| Routing.BucketSearchIsWhole | src/lib/routing.c:733-748 | in a table in order, searching the four places of the bucket finds what searching the whole table finds |
| Routing.AddDhtOk | src/lib/routing.c:775-840 | adding keeps the invariant, puts the address in front of its bucket as refreshed, and reports an old one exactly when it was in the table |
| RoutingAdds.KnownMovesToFront | src/lib/routing.c:802-830 | a known address moves to the front of its row, those before it one place back, and nothing else changes |
| RoutingAdds.NewGoesToFront | src/lib/routing.c:796-840 | a new address goes to the front of its row, of which the last one leaves; the first peer with its internet address leaves too, and so do the pings for its destination |
| Routing.AddPingOk | src/lib/routing.c:858-895 | adding a ping keeps the invariant and puts it in front |
| Routing.ExpireOk | src/lib/routing.c:918-973 | an expiry keeps the invariant and removes exactly the peers not added since the expiry before |
| Routing.RunOk | src/lib/routing.c:775-973 | in every run from the empty table each live peer is in the row of its matching bits, no destination and IP version is there twice or also pinged, and no destination is pinged twice |
| Routing.AgeIsExpiries | src/lib/routing.c:918-973 | in every run the age of a peer is the number of expiries since its address was last added |
| Routing.LeavesAfterTwoExpiries | src/lib/routing.c:918-973 | a peer leaves the table in an expiry only when there was another one since it was last added |
| RoutingPings.ExpiredPings | src/lib/routing.c:918-973 | the ping list after an expiry: the peers put up in it, last one first and each destination once, and behind them the earlier pings for other destinations, as far as there are 128 places |
| RoutingPings.LeavingIsPinged | src/lib/routing.c:943-956 | a peer that leaves, and whose internet address no other live peer left at its turn has, is in the ping list afterwards, refreshed, if and only if fewer than 128 other destinations were put up after it, at the place of that number |
| RoutingPings.EarlierPings | src/lib/routing.c:930-942 | every ping after an expiry was put up in it, or added since the expiry before for a destination that was not put up |
| RoutingPings.EarlierStaysIff | src/lib/routing.c:930-942 | an earlier ping added since the expiry before stays if and only if there is a place for it behind those put up |
| RoutingPings.RunLeavingIsPinged | src/lib/routing.c:918-973 | in every run: a peer that leaves the table in an expiry is pinged from then on, with the same exceptions, which unique internet addresses and at most 128 peers leaving rule out |
| RoutingPings.RunEarlierPings | src/lib/routing.c:918-973 | in every run: after an expiry only those pings are left that were put up in it or added since the expiry before |
| Routing.StepIpsIff | src/lib/routing.c:796-801 | an operation keeps the internet addresses of the peers unique if and only if it does not bring a known destination with the address of another peer, which is not deleted then |
| Routing.RunIpsIff | src/lib/routing.c:796-801 | so they are unique in all states of a run if and only if no operation did that |
| Routing.MovedTwice | src/lib/routing.c:796-801 | three additions after which two peers have the same internet address |
| Routing.RoutingTable.Add | src/lib/routing.c:775-840 | shifting the bucket in place and deleting pings is the specified operation, unless the bucket is behind the table |
| Routing.RoutingTable.AddToPings | src/lib/routing.c:858-895 | the same for the ping list |
| Routing.RoutingTable.ExpireAll | src/lib/routing.c:918-973 | the two loops of an expiry, in which the peers that leave enter the ping list, as the rows of RoutingPings describe it |
| Dcache.TraceIsRecent | src/lib/dcache.c:243-277 | a cache holds exactly the most recently added entries that it has room for |
| Dcache.StackProperty | src/lib/dcache.c:243-277 | of two caches given the same entries the smaller one holds the first entries of the larger one, each once |
| Dcache.NullIsAddedTwice | src/lib/dcache.c:205-214 | NULL is never found and so is added twice |
| Dcache.RunAccounts | src/lib/dcache.c:66-76 | over every run of additions, uses and removals each inserted entry is either there or was released, once for every insertion |
| Dcache.Cache.Add | src/lib/dcache.c:243-277 | cache_add in place: moved to the front, inserted, or inserted for the last entry, which is released |
| Dcache.Cache.Use | src/lib/dcache.c:217-240 | the entry is moved to the front, if it is there |
| Dcache.Cache.Remove | src/lib/dcache.c:279-315 | the entry is released and the others close up |

## Left out

- Loading and saving files, the write threads, timers, logging and printing; models start from empty tables.
- Sockets, address sets, keepalives, tracing, priorities and the social network of the daemon; which and how many
  systems a packet is sent to is arbitrary.
- The local token of a node: that a new one is drawn after a gc; it is an argument where it is used.
- `matches_data_request`: a request carries an arbitrary predicate on messages.
- Draws of the ack gc that hit an unused entry: they change nothing, and only the hits are listed.
- Mutexes: each public operation is one atomic step.
- The eight rows of a Bloom filter are sets of positions below 65536 in place of bit arrays.
- `reinit_local_token`, `pcache_trace_request` and `pcache_trace_reply` beyond their use of the filters.
- Management packets of the daemon; in a network they are relayed with their hop count like acks and data requests, or injected.
- A data request is saved under an ID other than the one it was looked up with, because its token is replaced in
  between; `Flooding.ForwardOnce` is about ordinary packets.
- The answers to data requests in a network: they are among the injected packets.
- Stream states of invalid sizes, and failures of AES and HMAC.
- Data caches for 0 entries, where `cache_add` would use the place in front of the first one.
- Cipher.RoundTripIff: an empty text and a failure are both 0 bytes to the caller, so for the empty text it does not tell them apart.
- What the program does after it has left its memory (`Cipher.DecryptMessage`, `Der.WriteIdLen`, `Der.WriteSequence`,
  `Routing.RoutingTable.Add`): these methods stop there and say so.
- Der.WriteSequence: parts of a key that are absent are not in the list of integers.
- Forgetting.GcForgetsExactly: an ID that shares a bit with another ID of the tables may be found by a false answer of
  the filter even when it is forgotten; `GcAdvances.QuietGcForgetsExactly` counts false answers, where the gc advances once.
- SavedAcks.PacketKeepsEachOnce: two acks with the same hash share an entry, and the second is not kept apart from the first.
- The list of names and the member arrays of `src/lib/keys.c` are values; their memory is not modelled.
- `routing_top_dht_matches` and the conversion of addresses; addresses of the table are 64 bits in place of 8 bytes.
- `cache_get_match`, `cache_all_matches`, `cache_map` and `cache_random`, which do not change the entries; `cache_close`.
- Pointers of the data cache are numbers, and the release function is a list of what it was called with.
