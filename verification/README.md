# A model of the quote-push services

Four stateful parts of the services, each a Dafny object kept in step with a value, and
theorems about every run of the operations on that value.

- **Consistent-hash ring** (`KeyHashes`, `HashAnswers`, `RedisRing`, `RedisRingProofs`): the three key hashes,
  the node map and the ordered point map of the data proxy, lookup with wrap-around.
- **Message stream** (`ByteBuffer`, `BufferProofs`, `Wire`, `Messages`, `MessageObjects`,
  `Deframing`, `ReadLoop`): the growable buffer, the head and body codec with its generated
  parse loop, and the loop that cuts frames out of whatever `read` returns.
- **Center** (`Registry`, `RegistryProofs`, `RegistryEntries`, `Lease`, `Statistics`): the node registry and the
  notices it sends, the online/offline status table, the load statistics.
- **Request step** (`RequestStep`): the client that counts, labels and limits the requests of
  one asynchronous step, and the step's reaction to replies.

The classes carry the fields of the original objects. Their methods' contracts give the whole
new state as a function of the old one; the lemmas are about those functions and about runs of
them. What the environment decides is an input: whether `malloc`, a
SQL statement or a send succeeds, what `read` returns, what the clock says, what a callback
tries next, in which order a map is iterated (any order, where the original has key order).
MD5 is an arbitrary function. Words are bounded integers with wrap-around written out; `|` of
words without a common bit is addition, `^` is defined bit by bit in `Words`.

Where code and comments disagree the code is followed. The two 64-bit FNV constants are named
the wrong way round (`FNV_64_INIT` holds the published prime, `FNV_64_PRIME` the published
offset); the code's values are used. The comments at `NodeSession.h:120-122` give the map key
as type, ip and port; the key in use is "ip:port". `hash_fnv1a_64` is a 32-bit loop.

Results worth a look, with what makes them exact:

- The ring after a run depends only on the surviving nodes (`HistoryIndependence`). Deleting is
  well-defined in every run over a set of identities if and only if their points do not collide
  (`RunsDefinedIffCollisionFree`). The 32-byte name buffer alone makes a node collide with itself,
  whatever the digests are, once a counter is cut off (`NamesDistinctIff`, `CutOffNodesCollide`):
  with the default 200 virtual nodes no identity of 29 characters or more can be added and then
  deleted again (`DefaultNamesDistinctIff`).
- A buffer is first in, first out if and only if it is never compacted while it holds 2^32 bytes
  or more (`BufferIsFifo`).
- The frame loop delivers exactly the bodies that were framed, for every cut of the stream into
  reads (`DeframingUndoesFraming`), and on every input it stays inside the readable bytes
  (`PassStaysWithin`). It skips by the recomputed size, so it keeps its place if and only if no
  body repeats a field or encodes one longer than needed (`SkipsFrameIff`,
  `RepeatedFieldsLoseThePlace`).
- In every run each live node has been told of every live node it needs
  (`EveryNodeIsToldWhatItNeeds`). It knows of no others either, as long as removals are announced
  and no node comes back with what it knew before it left (`EveryNodeKnowsWhatItNeeds`); one
  operation keeps this if and only if it is sound in that sense (`StepKeepsExactIff`). Worker
  counts stay current if and only if no report silently changes one (`ReportKeepsCurrentIff`).
- A node that reports in time stays online if and only if no check falls into the first offline
  interval of the clock, where an unsigned difference wraps (`LeaseSafetyIff`).
- A send keeps replies matched to requests if and only if it is one a caller could have checked
  to be proper (`SendKeepsCorrelatedIff`).

## Model

| member | source | states |
|---|---|---|
| KeyHashes.HashFnv1 | code/trunk/DataProxy/src/SessionRedisNode.cpp:126-136 | the loop returns the low half of the 64-bit multiply-then-xor fold |
| KeyHashes.HashFnv1a | code/trunk/DataProxy/src/SessionRedisNode.cpp:138-149 | the loop returns the 32-bit xor-then-multiply fold |
| KeyHashes.NarrowRefinesWide | code/trunk/DataProxy/src/SessionRedisNode.cpp:126-149 | for every key the 32-bit FNV-1a loop is the low half of the 64-bit loop it is named after; FNV-1 needs only 32 bits of state |
| KeyHashes.FnvSeparates | code/trunk/DataProxy/src/SessionRedisNode.cpp:126-149 | neither FNV hash coincides on two keys that differ in one byte |
| KeyHashes.Murmur3 | code/trunk/DataProxy/src/SessionRedisNode.cpp:151-200 | block loop, fall-through tail and finalizer compute the fold of block mixes, the tail and the finish |
| KeyHashes.MurmurSeparates | code/trunk/DataProxy/src/SessionRedisNode.cpp:151-200 | for every seed, keys of equal length that differ only inside one aligned four-byte unit, or only inside the tail, never hash alike |
| KeyHashes.HashOf | code/trunk/DataProxy/src/SessionRedisNode.cpp:29-36 | the algorithm number picks the hash; the length is narrowed to 32 bits for murmur |
| KeyHashes.OneByteChangesHash | code/trunk/DataProxy/src/SessionRedisNode.cpp:29-36 | changing one byte changes the routing hash if and only if the hash sees that byte |
| HashAnswers.XorWords | code/trunk/DataProxy/src/SessionRedisNode.cpp:126-200 | exclusive or of two words is the bit-vector one, digit by digit |
| HashAnswers.Fnv1aAnswers | code/trunk/DataProxy/src/SessionRedisNode.cpp:138-149 | the hashes of three short keys, one with a byte extended by its sign |
| HashAnswers.Fnv1Answers | code/trunk/DataProxy/src/SessionRedisNode.cpp:126-136 | likewise |
| HashAnswers.MurmurAnswer | code/trunk/DataProxy/src/SessionRedisNode.cpp:151-200 | the hash of a key of one block and a tail |
| HashAnswers.AlgorithmAnswers | code/trunk/DataProxy/src/SessionRedisNode.cpp:29-36 | which number selects which hash, shown by their values |
| RedisRing.SessionRedisNode.GetRedisNode | code/trunk/DataProxy/src/SessionRedisNode.cpp:28-49 | returns the pair of the point the key's hash is routed to |
| RedisRing.SessionRedisNode.AddRedisNode | code/trunk/DataProxy/src/SessionRedisNode.cpp:51-111 | a new node gets its points, none overwritten; a known node gets its pair and its points re-addressed |
| RedisRing.SessionRedisNode.DelRedisNode | code/trunk/DataProxy/src/SessionRedisNode.cpp:113-124 | the node and all its points disappear, where each erased point is there to erase |
| RedisRing.LowerBound | code/trunk/DataProxy/src/SessionRedisNode.cpp:40 | the least point not below the hash, or none if all are below |
| RedisRingProofs.RunAgrees | code/trunk/DataProxy/src/SessionRedisNode.cpp:51-124 | in every run over collision-free identities the points are exactly those of the live nodes, each with its owner's current pair |
| RedisRingProofs.HistoryIndependence | code/trunk/DataProxy/src/SessionRedisNode.cpp:51-124 | two such runs with the same surviving nodes end in the same ring |
| RedisRingProofs.AddThenDeleteRestores | code/trunk/DataProxy/src/SessionRedisNode.cpp:51-124 | adding a fresh node and deleting it restores the ring after any run |
| RedisRingProofs.RunsDefinedIffCollisionFree | code/trunk/DataProxy/src/SessionRedisNode.cpp:117-120 | every run over a set of identities only erases points that are there, if and only if their points are collision-free |
| RedisRingProofs.RingSize | code/trunk/DataProxy/src/SessionRedisNode.cpp:83-97 | ring and point lists hold 4 * (virtual nodes / 4) points per live node, none if the number is negative |
| RedisRingProofs.RouteKeyIsNearest | code/trunk/DataProxy/src/SessionRedisNode.cpp:40-47 | lookup finds the one point at smallest clockwise distance modulo 2^32 |
| RedisRingProofs.LookupFindsNearestOwner | code/trunk/DataProxy/src/SessionRedisNode.cpp:28-49 | after any such run lookup returns the current pair of the live node a naive search over all points finds |
| RedisRingProofs.AddingMovesOnlyToNewNode | code/trunk/DataProxy/src/SessionRedisNode.cpp:83-97 | adding a fresh node leaves each key's route alone or moves it to the new node, collisions or not |
| RedisRingProofs.DeletingMovesOnlyOwnKeys | code/trunk/DataProxy/src/SessionRedisNode.cpp:113-124 | deleting a node changes only routes that led to its points |
| RedisRingProofs.ReaddressingMovesNothing | code/trunk/DataProxy/src/SessionRedisNode.cpp:99-110 | re-addressing moves no key and changes the answer only at the node's own points |
| RedisRingProofs.PointsSpellDigest | code/trunk/DataProxy/src/SessionRedisNode.cpp:83-92 | the four points of each virtual node, laid out as little-endian words, are the digest of its name |
| RedisRingProofs.NamesDistinctIff | code/trunk/DataProxy/src/SessionRedisNode.cpp:77-85 | the truncated names of a node's virtual nodes are distinct if and only if their number fits the digits the 32-byte buffer leaves |
| RedisRingProofs.CutOffNodesCollide | code/trunk/DataProxy/src/SessionRedisNode.cpp:77-120 | beyond that, for every digest function, the node's points collide and adding and deleting it erases a point that is gone |
| RedisRingProofs.DefaultNamesDistinctIff | code/trunk/DataProxy/src/SessionRedisNode.hpp:52 | with the default 200 virtual nodes the names are distinct if and only if the identity has fewer than 29 characters, and adding and deleting a longer one is undefined |
| BufferStates.Doubled | code/trunk/Starship/sdk/CBuffer.hpp:141-146 | doubling ends at a capacity that meets the need and is below twice the need |
| ByteBuffer.CBuffer.Compact | code/trunk/Starship/sdk/CBuffer.hpp:94-122 | shrinks to the readable bytes when enough space is free, sizes taken modulo 2^32 |
| ByteBuffer.CompactUnlessLacking | code/trunk/Starship/sdk/CBuffer.hpp:133-136 | the compaction called while growing never changes anything |
| ByteBuffer.CBuffer.EnsureWritableBytes | code/trunk/Starship/sdk/CBuffer.hpp:124-164 | grows by doubling, moves the readable bytes to the front, and fails only without memory |
| ByteBuffer.CBuffer.Write | code/trunk/Starship/sdk/CBuffer.hpp:204-213 | appends the bytes if they fit or memory was found |
| ByteBuffer.CBuffer.Read | code/trunk/Starship/sdk/CBuffer.hpp:194-203 | takes that many bytes from the front, or nothing and -1 |
| ByteBuffer.CBuffer.WriteFrom | code/trunk/Starship/sdk/CBuffer.hpp:215-231 | copies up to that many bytes of the other buffer and advances it by the returned int |
| ByteBuffer.CBuffer.DiscardReadedBytes | code/trunk/Starship/sdk/CBuffer.hpp:301-317 | moves the readable bytes to the front |
| ByteBuffer.CBuffer.ReadFD | code/trunk/Starship/sdk/CBuffer.cpp:87-111 | fills the free space first and writes the rest, ignoring a failure to |
| BufferProofs.BufferIsFifo | code/trunk/Starship/sdk/CBuffer.hpp:94-317 | for every interleaving over any number of buffers the indices stay ordered, and bytes taken followed by bytes readable are the bytes put in if and only if the buffer was never compacted while it held 2^32 bytes or more; below 2^32 bytes put in that cannot happen |
| BufferProofs.CompactKeepsIff | code/trunk/Starship/sdk/CBuffer.hpp:96-121 | compaction keeps every byte if and only if their number fits 32 bits |
| BufferProofs.ReadFDKeepsIff | code/trunk/Starship/sdk/CBuffer.cpp:96-109 | a scatter read keeps every byte if and only if the rest needed no memory or got it |
| BufferProofs.WriteKeepsIff | code/trunk/Starship/sdk/CBuffer.hpp:204-213 | appending works if and only if there is space, or memory to make some |
| BufferProofs.GrowingMakesSpace | code/trunk/Starship/sdk/CBuffer.hpp:124-164 | growing moves the readable bytes to the front of at least the space asked for, 32 bytes at first |
| BufferProofs.DoubledIsPower | code/trunk/Starship/sdk/CBuffer.hpp:141-146 | growing multiplies the capacity by a power of two |
| BufferProofs.CompactFrees | code/trunk/Starship/sdk/CBuffer.hpp:94-122 | below 2^32 bytes, exactly when compaction cuts the buffer down to its readable bytes |
| BufferProofs.DiscardFrees | code/trunk/Starship/sdk/CBuffer.hpp:301-317 | discarding gives the space of the bytes read back to the writer |
| BufferProofs.MoveTransfers | code/trunk/Starship/sdk/CBuffer.hpp:215-231 | a move takes the count asked for, or all there is, from the front of the source to the end of the destination |
| BufferProofs.MoveConservesIff | code/trunk/Starship/sdk/CBuffer.hpp:221-230 | a move takes from the source what it gave the destination if and only if the count fits an int or nothing was given |
| BufferProofs.GrowthIsAmortized | code/trunk/Starship/sdk/CBuffer.hpp:124-164 | without compaction all bytes ever copied by growing fit the capacity, which without reservations is at most max(32, 2 * bytes written) |
| Wire.VarintRoundTrip | code/trunk/Starship/sdk/msg.pb.cc:582-587 | reading back an encoded varint gives the number and its length, whatever follows |
| Wire.VarintDenotes | code/trunk/Starship/sdk/msg.pb.cc:582-587 | a varint spells its number in base 128, least significant group first, the high bit on all bytes but the last |
| Wire.TruncatedRejected | code/trunk/Starship/sdk/msg.pb.cc:564-634 | an encoded field cut short anywhere is rejected |
| Wire.EndlessTagRejected | code/trunk/Starship/sdk/msg.pb.cc:564 | a tag that does not end within ten bytes is rejected |
| Wire.BadTagRejected | code/trunk/Starship/sdk/msg.pb.cc:564-634 | the tag 0 and the wire types 4, 6 and 7 are rejected |
| Wire.RecordRoundTrip | code/trunk/Starship/sdk/msg.pb.cc:564-634 | reading back an encoded field gives the field and its length, whatever follows |
| Wire.RecordMinimal | code/trunk/Starship/sdk/msg.pb.cc:564-634 | no field read takes fewer bytes than its re-encoding |
| Wire.AbsorbConcat | code/trunk/Starship/sdk/msg.pb.cc:558-645 | the parse loop over a concatenation is the loop over the parts |
| MessageObjects.MsgBody.MergeFromArray | code/trunk/Starship/sdk/msg.pb.cc:558-645 | the loop with its tag look-ahead merges exactly what absorbing the fields one by one would, and rejects exactly the same inputs |
| MessageObjects.MsgBody.ParseFromArray | code/trunk/Starship/sdk/msg.pb.cc:535-645 | parsing replaces the message, and succeeds exactly on accepted input with a body |
| MessageObjects.MsgBody.MergeFrom | code/trunk/Starship/sdk/msg.pb.cc:781-798 | present fields replace, absent ones leave alone |
| MessageObjects.MsgBody.ByteSize | code/trunk/Starship/sdk/msg.pb.cc:725-767 | the summed size is the length of the serialization |
| MessageObjects.MsgHead.MergeFromArray | code/trunk/Starship/sdk/msg.pb.cc:236-310 | as for the body |
| MessageObjects.MsgHead.ParseFromArray | code/trunk/Starship/sdk/msg.pb.cc:216-310 | succeeds exactly on accepted input with all three fields |
| MessageObjects.MsgHead.ByteSize | code/trunk/Starship/sdk/msg.pb.cc:363-392 | the summed size is the length of the serialization |
| MessageProofs.BodyRoundTrip | code/trunk/Starship/sdk/msg.pb.cc:558-682 | parsing a serialized body gives it back, any fields present or absent, unknown fields included |
| MessageProofs.HeadRoundTrip | code/trunk/Starship/sdk/msg.pb.cc:236-335 | parsing a serialized head gives it back |
| MessageProofs.BodyConcatIsMerge | code/trunk/Starship/sdk/msg.pb.cc:558-645 | for every two accepted byte strings, parsing the concatenation is merging what each holds |
| MessageProofs.HeadConcatIsMerge | code/trunk/Starship/sdk/msg.pb.cc:236-310 | the same for heads |
| MessageProofs.SerializedConcatIsMerge | code/trunk/Starship/sdk/msg.pb.cc:781-798 | parsing two serializations back to back is MergeFrom |
| MessageProofs.BodySizeExactIff | code/trunk/Starship/sdk/msg.pb.cc:725-767 | the size of a parsed body is at most the number of bytes it was parsed from, and equal if and only if no field was repeated or encoded longer than needed |
| MessageProofs.CompleteHeadIsFifteenBytes | code/trunk/Starship/include/OssDefine.hpp:55 | a complete head has 15 bytes, and 15 bytes that parse to one hold nothing else |
| MessageProofs.HeadLayout | code/trunk/Starship/sdk/msg.pb.cc:312-335 | the bytes of a complete head, written out |
| MessageProofs.BodyLayout | code/trunk/Starship/sdk/msg.pb.cc:647-682 | the bytes of a body, written out: tags 10, 16, 26 and 34 in order, each only if its field is present |
| MessageProofs.LastFieldWins | code/trunk/Starship/sdk/msg.pb.cc:564-634 | behind any accepted bytes, one more field under each of these tags replaces exactly that field |
| MessageProofs.LastWordWins | code/trunk/Starship/sdk/msg.pb.cc:242-300 | the same for the tags 13, 21 and 29 of a head |
| MessageProofs.ParsingNormalizes | code/trunk/Starship/sdk/msg.pb.cc:558-682 | serializing a parsed body and parsing again changes nothing |
| Deframing.PassStaysWithin | code/trunk/Starship/sdk/pushdata.cpp:218-272 | on every input a pass skips at least 15 bytes and never beyond the readable ones |
| Deframing.PassDeliversIff | code/trunk/Starship/sdk/pushdata.cpp:218-271 | behind a complete head: exactly when a pass waits, delivers, and what |
| Deframing.BadHeadSpins | code/trunk/Starship/sdk/pushdata.cpp:218-225 | a head that is rejected or incomplete stops the loop for good |
| Deframing.SkipsFrameIff | code/trunk/Starship/sdk/pushdata.cpp:255 | a pass skips exactly the announced frame if and only if its body repeats no field and encodes none longer than needed |
| Deframing.SerializedIsSendable | code/trunk/Starship/sdk/msg.pb.cc:647-682 | the serializer makes only such frames |
| Deframing.CutsDoNotMatter | code/trunk/Starship/sdk/pushdata.cpp:203-273 | for every stream, any cut into reads gives the deliveries and the ending of one read, and the same remainder unless the loop got stuck before it read everything |
| Deframing.DrainIsBounded | code/trunk/Starship/sdk/pushdata.cpp:218-272 | 15 bytes per delivery plus the remainder fit in the input |
| Deframing.DeframingUndoesFraming | code/trunk/Starship/clientTest/SimpleMsgTest.cpp:83-135 | any such frames, fields in any order, then a proper prefix of one more, in any cut: exactly the bodies of the frames that have one, in order, and exactly the prefix left |
| Deframing.RepeatedFieldsLoseThePlace | code/trunk/Starship/sdk/pushdata.cpp:255 | a legal frame whose body repeats its fields is delivered but skipped short |
| ReadLoop.TryFrame | code/trunk/Starship/sdk/pushdata.cpp:218-271 | one pass over the objects decides what the pass function decides |
| ReadLoop.DrainFrames | code/trunk/Starship/clientTest/SimpleMsgTest.cpp:96-135 | the inner loop delivers and leaves what draining the pending bytes does, compacting or not |
| ReadLoop.Receive | code/trunk/Starship/sdk/pushdata.cpp:186-275 | the outer loop over all reads is the session function; where it compacts, what is left and one read must fit 32 bits |
| RegistryProofs.KeyInjective | code/trunk/Center/src/Comm.hpp:87-91 | "ip:port" determines ip and port |
| Text.DecimalDenotes | code/trunk/Center/src/Comm.hpp:87-91 | the digits printed denote the number |
| RegistryProofs.UpdateNeverFails | code/trunk/Center/src/Comm.hpp:111-126 | an entry found by key has the address of the update, and keeps its identity |
| Registry.NodeSession.GetNewNodeID | code/trunk/Center/src/NodeSession.cpp:128-139 | one more than the highest identifier in use, 1 if there is none |
| Registry.NodeSession.AddNodeInfo | code/trunk/Center/src/NodeSession.cpp:140-146 | inserts under a new key, never overwrites |
| Registry.NodeSession.DelNodeInfo | code/trunk/Center/src/NodeSession.cpp:147-155 | removes the key and says whether it was there |
| Registry.NodeSession.GetNeededRegisteredNodes | code/trunk/Center/src/NodeRegMgr.cpp:180-219 | lists each registered node of a needed type, then the center |
| Registry.NodeSession.SendNodeRegNotice | code/trunk/Center/src/NodeRegMgr.cpp:222-335 | the newcomer's notice, then one to each node per needed type that matches |
| Registry.NodeSession.RegNode | code/trunk/Center/src/NodeRegMgr.cpp:20-76 | registry, code and notices of a registration in every outcome |
| Registry.NodeSession.NodeReport | code/trunk/Center/src/CmdNodeReport/CmdNodeReport.cpp:131-171 | a report updates a registered node silently and registers an unknown one |
| Registry.NodeSession.DelNode | code/trunk/Center/src/CmdNodeDisConnect/CmdNodeDisconnect.cpp:112-218 | a removal, announced only if the offline mark was written |
| RegistryProofs.RunKeepsIntegrity | code/trunk/Center/src/NodeSession.cpp:128-155 | in every run entries sit under their own keys and identifiers are positive and distinct |
| RegistryProofs.RegistrationKeepsIntegrity | code/trunk/Center/src/NodeRegMgr.cpp:23-67 | a registration keeps that, and re-registering keeps the identifier |
| RegistryEntries.FreshRegistrationStores | code/trunk/Center/src/NodeRegMgr.cpp:23-65 | a first registration stores what was reported, under the identifier one above the highest, exactly if the type is listed and the database takes it |
| RegistryEntries.RefusalCodes | code/trunk/Center/src/NodeRegMgr.cpp:35-58 | which code refuses a registration when |
| RegistryEntries.EntriesShowReports | code/trunk/Center/src/NodeRegMgr.cpp:23-65 | in every run the live nodes are those registered since they last left, each with the type and addresses it registered with and the load and worker count it reported last |
| RegistryEntries.NoticesNameOnlyNeeded | code/trunk/Center/src/NodeRegMgr.cpp:180-335 | the newcomer's notice comes first and names only needed types and the center; all others go to nodes that need the newcomer and name it alone |
| RegistryEntries.CopiesCount | code/trunk/Center/src/NodeRegMgr.cpp:180-219 | a node is listed as often as its type occurs among the needed ones |
| RegistryEntries.NeededIsFirstRow | code/trunk/Center/src/NodeRegMgr.cpp:180-219 | of the rows of a type in the type table the first one counts |
| RegistryProofs.NewcomerIsToldWanted | code/trunk/Center/src/NodeRegMgr.cpp:180-219 | the newcomer's notice adds to what it knew the center, every live node it needs with its current count, and nothing else |
| RegistryProofs.BroadcastTeaches | code/trunk/Center/src/NodeRegMgr.cpp:263-333 | a broadcast changes exactly the knowledge of the nodes that need the type |
| RegistryProofs.EveryNodeIsToldWhatItNeeds | code/trunk/Center/src/NodeRegMgr.cpp:20-335 | in every run each live node has been told of every live node it needs, whatever statements fail and whatever nodes remember |
| RegistryProofs.EveryNodeKnowsWhatItNeeds | code/trunk/Center/src/NodeRegMgr.cpp:20-335 | it knows of no others either, in every run with announced removals where a node that had gone and comes back has restarted |
| RegistryProofs.StepKeepsExactIff | code/trunk/Center/src/NodeRegMgr.cpp:20-335 | an operation keeps that if and only if it is no unannounced removal of a needed node and no registration with stale knowledge |
| RegistryProofs.RegistrationKeepsExactIff | code/trunk/Center/src/NodeRegMgr.cpp:20-76 | a registration keeps it if and only if whoever registers remembers only nodes it still needs and that live |
| RegistryProofs.RemovalKeepsExactIff | code/trunk/Center/src/CmdNodeDisConnect/CmdNodeDisconnect.cpp:132-145 | a removal keeps that if and only if it was announced or needed no announcement |
| RegistryProofs.CountsStayCurrent | code/trunk/Center/src/NodeRegMgr.cpp:261-277 | in every run without reports the worker counts told of live nodes that are needed are the registry's |
| RegistryProofs.ReportKeepsCurrentIff | code/trunk/Center/src/CmdNodeReport/CmdNodeReport.cpp:154-161 | a report keeps that if and only if it brings no new count or nobody needs the node |
| Lease.NodeStatus.WriteNodeStatus | code/trunk/Center/src/NodeSession.cpp:463-469 | replace the row, then check, unless the replace fails |
| Lease.NodeStatus.CheckNodeStatus | code/trunk/Center/src/NodeSession.cpp:471-480 | delete overdue rows when due, mark inactive ones always |
| Lease.NodeStatus.SetNodeDataOfflineToDBByNodeId | code/trunk/Center/src/NodeSession.cpp:198-212 | marks the rows with that identifier |
| LeaseProofs.OnlineIff | code/trunk/Center/src/NodeSession.cpp:227-291 | in every run a node is online if and only if nothing since its last successful write marked its row |
| LeaseProofs.LeaseSafetyIff | code/trunk/Center/src/NodeSession.cpp:243-291 | a node whose last write is always less than the offline interval old, and which is not set offline, is online and has its row, if and only if no check since ran with the clock below the interval and wrapped over its last write |
| LeaseProofs.DeletedOnlyAfterMark | code/trunk/Center/src/NodeSession.cpp:227-242 | a row is deleted only if it was taken offline before and not written since, and its last write is at or before the cutoff, which is the delete interval back unless the clock has not reached that interval |
| LeaseProofs.DeletedIff | code/trunk/Center/src/NodeSession.cpp:227-242 | exactly when a status write deletes a row, told from the operations alone, the wrapped cutoff of an early clock included |
| LeaseProofs.LastCheckIs | code/trunk/Center/src/NodeSession.cpp:471-477 | the time kept is that of the last write that was due for deleting |
| LeaseProofs.ChecksAreRegular | code/trunk/Center/src/NodeSession.cpp:471-477 | such writes are at least the interval apart, and none is put off |
| LeaseProofs.EarlyClockMarksAndDeletes | code/trunk/Center/src/NodeSession.cpp:227-248 | while the clock is below the intervals the unsigned cutoffs wrap, and even a fresh row is marked and then deleted |
| Statistics.NodeStatistics.WriteNodeStatistics | code/trunk/Center/src/NodeSession.cpp:517-534 | accumulates the report and flushes when due |
| Statistics.NodeStatistics.InsertNodeStatisticsToDB | code/trunk/Center/src/NodeSession.cpp:535-561 | inserts and clears entry by entry up to the first failure |
| StatisticsProofs.NothingIsLost | code/trunk/Center/src/NodeSession.cpp:517-561 | in every run, per node, counters reported are counters in inserted rows plus counters held |
| StatisticsProofs.EachCounterIsConserved | code/trunk/Center/src/NodeSession.cpp:517-561 | the same for each of the four counters by itself |
| StatisticsProofs.DueReportFlushesAll | code/trunk/Center/src/NodeSession.cpp:528-561 | a report at least the interval after the last flush flushes: if no insert fails, all ever reported is then in inserted rows |
| StatisticsProofs.NotedAdds | code/trunk/Center/src/Comm.hpp:245-266 | a report adds to what is held for its node and to nothing else |
| StatisticsProofs.RowsShowReports | code/trunk/Center/src/Comm.hpp:245-266 | in every run what is held for a node, and every row inserted for it, shows the gauges of its last report by then and names it as its first report did |
| StatisticsProofs.FlushesAreSpaced | code/trunk/Center/src/NodeSession.cpp:528-536 | the flush passes, told from the times of the reports alone: k of them span at least k - 1 intervals |
| RequestStep.DataProxyClient.SendToDataProxy | code/trunk/public/DataProxyClient.cpp:132-175 | the client's new state and whether a request went out, for every outcome |
| RequestStep.DataProxyClient.AccessToLogic | code/trunk/public/DataProxyClient.cpp:177-221 | the same for logic requests |
| RequestStep.DataProxyClient.HandleEvent | code/trunk/public/DataProxyClient.cpp:62-120 | the state a reply leaves, its callback's sends included, and whether its code was known |
| RequestStep.StepDataProxyEvent.Emit | code/trunk/public/StepDataProxyEvent.cpp:22-43 | the status a step starts with |
| RequestStep.StepDataProxyEvent.CallbackLogic | code/trunk/public/StepDataProxyEvent.cpp:117-133 | the status a reply leaves |
| RequestStepProofs.SendsWithinBudget | code/trunk/public/DataProxyClient.cpp:135 | in every run replies handled plus requests under way are requests sent, at most 100 for every 2^32 attempts |
| RequestStepProofs.StepTerminates | code/trunk/public/DataProxyClient.cpp:18 | every run ends: with at most 2^32 attempts it has at most 102 events |
| RequestStepProofs.ReplyLowersMeasure | code/trunk/public/DataProxyClient.cpp:62-120 | while fewer than 2^32 attempts were counted, requests under way plus remaining budget strictly fall at every reply, even if its callback sends |
| RequestStepProofs.StorageGoesOutIff | code/trunk/public/DataProxyClient.cpp:132-175 | exactly when a storage request goes out: buffer, budget of 100, odd command, one command at a time, network |
| RequestStepProofs.LogicGoesOutIff | code/trunk/public/DataProxyClient.cpp:177-221 | exactly when a logic request goes out |
| RequestStepProofs.ReplyEndsStepIff | code/trunk/public/StepDataProxyEvent.cpp:117-133 | exactly when a reply fails the step or ends it, and that its callback ran otherwise |
| RequestStepProofs.StartEndsStepIff | code/trunk/public/StepDataProxyEvent.cpp:22-43 | exactly when a step fails or is over at its start |
| RequestStepProofs.AttemptsCounted | code/trunk/public/DataProxyClient.cpp:132-186 | which attempts use up the budget |
| RequestStepProofs.ReactFollows | code/trunk/public/StepDataProxyEvent.cpp:22-133 | the events of a run leave the client and status that the step's methods leave |
| RequestStepProofs.OneRequestRound | code/trunk/public/StepDataProxyEvent.cpp:22-133 | a request of either kind is sent, its reply reaches the right handler under 20002 or 40002, runs the callback and ends the step |
| RequestStepProofs.SendKeepsCorrelatedIff | code/trunk/public/DataProxyClient.cpp:147-157 | a send keeps all requests under way labelled by the current command if and only if it was proper |
| RequestStepProofs.ReplyIsCorrelated | code/trunk/public/StepDataProxyEvent.cpp:117-122 | a reply goes to the handler and response code of the request it answers, in any order of replies |
| RequestStepProofs.RunIsCorrelated | code/trunk/public/StepDataProxyEvent.cpp:22-133 | in every proper run the counter is sent minus handled, labels agree, and the step runs exactly while a request is under way |
| RequestStepProofs.TwoLogicRequestsAreMisread | code/trunk/public/DataProxyClient.cpp:177-221 | two logic requests at once: the second reply goes to the wrong handler and fails the step |

## Left out

- Wire.ReadRecord: does not read into groups (wire types 3 and 4); opening one is the outcome `HasGroup`, and the rest of the parse is not modelled. Unknown fields of all other wire types are kept. The protobuf runtime itself is not part of this repository; varints, fixed32, length-delimited fields and unknown fields follow the public Protocol Buffers "Encoding" specification.
- ReadLoop.DrainFrames: where the original would parse the same bytes forever, the model stops and reports `Spin`; where it would copy a body over 64 bytes into its stack buffer, or use a length no int holds, it reports `Undefined`.
- ReadLoop.Receive: does not model a failing allocation while receiving, which silently drops bytes (see `ReadFDKeepsIff`).
- BufferStates.Doubled: does not model `size_t` overflow, which needs a request above 2^63 bytes.
- ByteBuffer.CBuffer.SkipBytes: its precondition keeps the read index in range, which the original leaves to the caller.
- Registry.NodeSession.GetNewNodeID: does not model `int` overflow of identifiers, nor do the statistics model overflow of their `int` counters.
- RegistryProofs.EveryNodeKnowsWhatItNeeds: leaves out runs in which a node that had gone registers again without having forgotten what it was told, because the center only adds to what such a node believes (`RegistrationKeepsExactIff` says exactly when that shows). It says nothing about a peer equal to the center's own type, address and port, which every notice lists; every notice is taken to arrive, in the order sent.
- RegistryProofs.CountsStayCurrent: is about runs without reports, because reports of registered nodes are not announced; `ReportKeepsCurrentIff` says exactly when that shows.
- Lease.NodeStatus.CheckNodeStatus: takes the three intervals as numbers from 0 to 2^31 - 1; negative settings are not modelled.
- LeaseProofs.LeaseSafetyIff: assumes one row per node key, as the table schema is not part of the repository.
- LeaseProofs.DeletedOnlyAfterMark: does not bound a row's age while the clock is below the delete interval, where the code does not either (`EarlyClockMarksAndDeletes`).
- RequestStepProofs.ReplyLowersMeasure: says nothing once the 32-bit counter of attempts has gone round and the budget starts again.
- The C buffers behind "ip:port" (100 bytes) and the SQL texts are taken to be long enough; strings hold no NUL, as they come from JSON.
- Objects that one map owns (ring attributes, registry and statistics entries) are values, so pointers into the maps are not modelled; session and registration manager of the center are one object.
- The registration response, the server configuration message, JSON rendering, sequence numbers and `SendTo` routing.
- `IndexOf`, `Printf`, `SetBytes`, `Copyout`, `Limit` and the unchecked index setters of the buffer; `WriteFD`, which would only add another read.
- The log tables, the server-data tables and their clean-up: the same pattern as the status table with less state.
- Sockets, timers, threads, reconnecting and logging.
- `SendAck`, the error texts and the concrete sub-steps: a step's attempts are arbitrary instead.
