# Verified models of the DDS comparison bench

The repository compares DDS implementations (Fast DDS, Cyclone DDS, OpenDDS) by streaming the `AirEntity`
type between test drivers. This project models its logic in Dafny and proves it:

- **The CDR codec of the `inse` types.** `Schema` describes FINAL types, their values and key endpoints.
  `PropTable` builds the flat depth/id table with its links. `CdrStreaming` is the streamer: cursor, remembered
  alignment, zeroed padding, in-place byte swaps. `Codec` holds the generated `write`, `read`, `move`
  loops over the table, proved against direct recursion over the type for every type. `Wire` is the format as
  a function: alignment of each word under a cap (8 in XCDR1, 4 in XCDR2, 1 unaligned), see section 7.4 of
  DDS-XTypes 1.3 and section 15.3 of CORBA 3.0. `Layout` compares it with the layout in memory, `InseTypes`
  applies both to the six `inse` structs, and `PlainCopy` shows that copying their memory is encoding. `FieldPlaces`
  and `AirEntityBytes` give the byte map of `AirEntity`, and `CycloneAirEntity` streams it byte by byte.
- **The Fast DDS type support.** `FastCdr` is the second coder, which walks the type itself, counts alignment
  from behind the encapsulation and leaves padding alone. `PubSub` is `AirEntityPubSubType`: payloads, sizes,
  instance keys, and the agreement with the Cyclone coder and the OpenDDS key order.
- **The subscriber.** `Subscriber` has the drain loops of Fast DDS and OpenDDS, one by one and in loaned
  batches, over a reader with an arbitrary arrival schedule and failures. `ReaderCache` is the reader its quality of
  service configures (sections 2.2.3.18 and 2.2.3.19 of DDS 1.4): at most 200 instances, the last sample of each.
  `ReaderRuns` drains it cycle after cycle, and `Verdicts` says what the verdict of a cycle is worth.
- **The publisher and the control channel.** `Publisher` has the publishing loops and the end-to-end
  verdict; `Control` the START/STOP channel, the subscriber test that obeys it, and runs of both; `ControlRuns` which
  STARTs are served. `PublisherTest` is the publisher test tick by tick, and `DriverRuns` interleaves it with the
  subscriber test.
- **The bench.** `Distribution` has the statistics over real numbers, `Executive` the cycle executive.

Loops and updated objects of the C++ code are methods and classes here, each proved against functions over
values; the lemmas then state what those functions guarantee over all inputs and runs.

Where the code does less than it is meant to, the exact conditions are proved, with inputs that fail:

- The batched drain has the outcome of the one-by-one drain (ids, return value, loss) exactly when the samples
  beyond the expectation bring no new id, so on every queue no longer than the expectation
  (`Subscriber.BatchesRefineOneByOne`, `Subscriber.SameVerdict`). Its loss is negative exactly when more ids are
  queued than expected, up to the range of an `int` (`Subscriber.NegativeLoss`, `Subscriber.LongQueuesMayDisagree`).
- A START has its cycle drained exactly when two reads follow it before another START or STOP is sent
  (`ControlRuns.DrainedAreServed`, `ControlRuns.NoStartIsLost`): it is lost to a STOP even if it was read before
  (`ControlRuns.LostToStop`), and to another START (`ControlRuns.LostToStart`).
- In loan mode the ids are never reset, and an instance the reader manages is not freed by taking its sample while
  the writer lives. So a run receives no more than 200 ids in all (`ReaderRuns.RunHolds`). With batches of `n` and
  nothing lost, batch `k`, counted from zero, is complete exactly when `(k + 1) * n <= 200`
  (`Publisher.LoanedBatches`); three batches of 100 already fail (`Publisher.ThirdBatchRefused`). In normal mode, where
  the ids start over, every batch of at most 200 can be complete (`Publisher.RepeatedBatches`,
  `DriverRuns.BatchIdsOfRun`).
- A successful cycle has received its own batch exactly when nothing was expected, the ids that can arrive and fit are
  fewer than expected, or all of them that can be admitted are of the batch (`Verdicts.SuccessMeansOwn`). For a new
  reader and up to 200 ids: when no foreign id can arrive, or fewer ids than expected (`Verdicts.NewReaderSuccess`).
  Otherwise a late sample can make up for a lost one (`Verdicts.LateSampleMasksLoss`).
- A cycle receives what it would if the cycle before had left nothing exactly when no valid sample left is taken and
  none is displaced (`Verdicts.SameIds`), and returns the same exactly when as many valid ids are displaced as taken
  from those left, or neither count is the expectation (`Verdicts.SameReturn`, `Verdicts.SameReturnOfValid`). Nothing
  is ever left exactly when every cycle takes batches or expects as many ids as are admitted
  (`ReaderRuns.NothingLeft`).
- A START of the publisher test is served exactly when the second read behind it comes before the seventh tick, counted
  from the first matched one (`DriverRuns.StartIsServed`), and the batch is written before that read exactly when a
  matched tick came first (`DriverRuns.DrainFindsBatch`). So a subscriber that reads too rarely loses STARTs
  (`DriverRuns.TooFewReads`), and one that reads twice right behind a START drains before the batch
  is there (`DriverRuns.TooEarly`). While the counters are matched, reading at most once between two ticks and at least
  twice between a tick and the seventh after it suffices for both
  (`DriverRuns.PacedRunLosesNothing`).
- The match counters count the matches exactly when the changes by other than one add up to zero
  (`Control.CountsMatches`).

Two results generalise tests and bounds that are right for the types and calls of the repository. The end-offset
test behind `is_plain` agrees with plain layout for all six types (`InseTypes.AirEntityIsPlain`,
`InseTypes.OtherTypesArePlain`); for any type, a memory copy needs equality of all offsets and nothing more
(`PlainCopy.DecodingMemoryIsRight`), which the end alone does not imply (`PlainCopy.EndTestMisleads`). The size
bounds OpenDDS states are those of an encoding from offset zero; `InseTypes.OpenDdsBounds` says from which other
offsets they would hold.

`dafny verify dfyconfig.toml` checks the project.

## Model

| member | source | states |
|---|---|---|
| `PropTable.AppendStructContents` | lib/Cyclone-DDS/cyclonedds-cxx-install/include/ddscxx/org/eclipse/cyclonedds/core/cdr/entity_properties.hpp:226-235 | appends the rows of a nested struct without its root, each raised by the depth of the row they are put under |
| `PropTable.BuildRows` | src/IDLs_cyclone/generated/inse/inse.cpp:232-241 | pushing rows member by member, with the finished tables of nested types appended below theirs, gives the rows that recursion over the type lists, in declaration order |
| `PropTable.Link` | lib/Cyclone-DDS/cyclonedds-cxx-install/include/ddscxx/org/eclipse/cyclonedds/core/cdr/entity_properties.hpp:211-223 | after finishing, every row is linked to the next row of its level and to its first member |
| `PropTable.SetKeyValues` | lib/Cyclone-DDS/cyclonedds-cxx-install/include/ddscxx/org/eclipse/cyclonedds/core/cdr/entity_properties.hpp:191-223 | one pass along the links sets the key flag of every row from the key endpoints, and below nested members from the endpoints below, whatever flags the nested tables brought along |
| `PropTable.MemberAt` | src/IDLs_cyclone/generated/inse/inse.cpp:232-246 | for every type and member: the row of a member carries its id, depth and key flag; its sibling link leads over all nested rows to the next member, or is null after the last; and a nested struct can be walked from that row as root |
| `PropTable.FirstAt` | lib/Cyclone-DDS/cyclonedds-cxx-install/include/ddscxx/org/eclipse/cyclonedds/core/cdr/entity_properties.hpp:156-161 | the first-member link of a root leads to the row of the first member, and is null for a struct without members |
| `PropTable.GetTypeProps` | src/IDLs_cyclone/generated/inse/inse.cpp:214-250 | the finished table, from its rows, links and key list, is the table of the type by direct recursion, with all links set |
| `PropTable.FirstEntity` | lib/Cyclone-DDS/cyclonedds-cxx-install/include/ddscxx/org/eclipse/cyclonedds/core/cdr/cdr_stream.hpp:447-458 | starting below a root, the iteration stands at the first member that is streamed: without key mode where the first-member link leads, in key mode at the first row of the level that is a key, having passed only rows that are not |
| `PropTable.NextEntity` | lib/Cyclone-DDS/cyclonedds-cxx-install/include/ddscxx/org/eclipse/cyclonedds/core/cdr/cdr_stream.hpp:428-445 | from one streamed member the iteration moves to the next streamed one: without key mode along one sibling link, in key mode over rows outside the key only, to a row of the key or the end |
| `CdrStreaming.ByteSwap` | lib/Cyclone-DDS/cyclonedds-cxx-install/include/ddscxx/org/eclipse/cyclonedds/core/cdr/cdr_stream.hpp:84-123 | swapping in place reverses the bytes of a word of every size and touches no other byte |
| `CdrStreaming.CdrStream.Align` | lib/Cyclone-DDS/cyclonedds-cxx-install/include/ddscxx/org/eclipse/cyclonedds/core/cdr/cdr_stream.hpp:313-331 | moves to the next multiple of the alignment under the cap of the stream or fails at the end of the buffer without moving, zeroes exactly the skipped bytes, and may trust the remembered alignment |
| `CdrStreaming.CdrStream.SetMode` | lib/Cyclone-DDS/cyclonedds-cxx-install/include/ddscxx/org/eclipse/cyclonedds/core/cdr/cdr_stream.hpp:388-403 | starts over at position zero in the mode asked for |
| `CdrStreaming.CdrStream.WriteLeaf` | lib/Cyclone-DDS/cyclonedds-cxx-install/include/ddscxx/org/eclipse/cyclonedds/core/cdr/cdr_stream.hpp:665-691 | succeeds exactly when the aligned word fits; then the padding is zero, the bytes of the word follow in machine order or, if bytes are swapped, back to front, and the rest is unchanged |
| `CdrStreaming.CdrStream.ReadLeaf` | lib/Cyclone-DDS/cyclonedds-cxx-install/include/ddscxx/org/eclipse/cyclonedds/core/cdr/cdr_stream.hpp:589-615 | succeeds exactly when the aligned word lies in the buffer and returns it in machine order |
| `CdrStreaming.CdrStream.MoveLeaf` | lib/Cyclone-DDS/cyclonedds-cxx-install/include/ddscxx/org/eclipse/cyclonedds/core/cdr/cdr_stream.hpp:741-782 | moves as far as writing would; the maximum of a primitive is its move |
| `Wire.GetAfterPut` | src/IDLs_cyclone/generated/inse/inse.hpp:2942-3087 | over every list of leaves, start offset, padding rule and byte order, the words put are the words got |
| `Wire.PutFrame` | src/IDLs_cyclone/generated/inse/inse.hpp:2942-3010 | writing touches no byte outside the span from start to end position |
| `Wire.PutAppend` | src/IDLs_cyclone/generated/inse/inse.hpp:2942-3010 | encoding a concatenation is encoding its parts one after the other |
| `Wire.SpanIsDetermined` | lib/Cyclone-DDS/cyclonedds-cxx-install/include/ddscxx/org/eclipse/cyclonedds/core/cdr/cdr_stream.hpp:321-331 | with zeroed padding the emitted bytes depend only on the words, not on what the buffer held |
| `Wire.PaddingPolicyIsIrrelevant` | lib/Fast-DDS/fastdds-install/include/fastcdr/Cdr.h:3027-3032 | reading finds the same words whether the padding was zeroed or left alone |
| `Wire.OtherMachineReadsWords` | lib/Cyclone-DDS/cyclonedds-cxx-install/include/ddscxx/org/eclipse/cyclonedds/core/cdr/cdr_stream.hpp:605-612 | a machine of the other byte order gets exactly the words put, each in its own byte order |
| `Wire.SizeIsPeriodic` | src/IDLs_cyclone/generated/inse/inse.hpp:3096-3171 | the encoded size depends on the start offset only modulo the alignment cap |
| `Wire.EndPosMonotone` | src/IDLs_cyclone/generated/inse/inse.hpp:3096-3171 | a later start or a larger cap never ends earlier, so XCDR1 bounds XCDR2 and both bound the unaligned encoding |
| `Wire.AlikeRulesPutAlike` | src/IDLs_cyclone/generated/inse/inse.hpp:2942-3010 | padding rules that agree on the leaves of a type produce the same bytes |
| `Bytes.PaddingFormula` | lib/Fast-DDS/fastdds-install/include/fastcdr/Cdr.h:275-280 | the padding formula of the coders reaches the first multiple of the alignment |
| `Codec.Write` | src/IDLs_cyclone/generated/inse/inse.hpp:2942-3010 | for every type, the loop over the table writes exactly the selected leaves of the value by direct recursion, succeeds exactly when they fit, and leaves earlier bytes alone |
| `Codec.Read` | src/IDLs_cyclone/generated/inse/inse.hpp:3019-3087 | succeeds exactly when the encoding lies in the buffer; then the result is the value read by direct recursion and the cursor stands where writing would have left it |
| `Codec.Move` | src/IDLs_cyclone/generated/inse/inse.hpp:3096-3164 | advances the cursor by exactly the bytes writing emits, whatever the value |
| `Codec.WriteInstance` | src/IDLs_cyclone/generated/inse/inse.hpp:3012-3017 | writes a whole instance, or only its key, from position zero over the table of its type |
| `Codec.ReadInstance` | src/IDLs_cyclone/generated/inse/inse.hpp:3089-3094 | reads a whole instance, or only its key, from position zero |
| `Codec.MoveInstance` | src/IDLs_cyclone/generated/inse/inse.hpp:3166-3248 | counts an instance or its key; the maximum is the same walk |
| `Codec.StreamedBytesAreDetermined` | lib/Cyclone-DDS/cyclonedds-cxx-install/include/ddscxx/org/eclipse/cyclonedds/core/cdr/cdr_stream.hpp:321-331 | the streamer emits the same bytes into whatever buffer, padding included |
| `CycloneAirEntity.Write` | src/IDLs_cyclone/generated/inse/inse.hpp:3012-3017 | byte by byte: in key mode the four bytes of the id and nothing else; otherwise 133 bytes with every member at its offset, zeros in the eight padding bytes, and the rest of the buffer untouched |
| `CycloneAirEntity.Read` | src/IDLs_cyclone/generated/inse/inse.hpp:3089-3094 | in key mode only the id is replaced, by the first four bytes; otherwise every member is found at its offset, and the cursor ends at 4 or 133 |
| `CycloneAirEntity.Move` | src/IDLs_cyclone/generated/inse/inse.hpp:3166-3171 | ends at 4 in key mode and at 133 otherwise |
| `Codec.RoundTrip` | src/IDLs_cyclone/generated/inse/inse.hpp:2942-3087 | for every type, value, target, key selection, offset, byte order and cap: reading after writing replaces the streamed leaves of the target by those written, and no byte outside the span changes |
| `Codec.FullRoundTrip` | src/IDLs_cyclone/generated/inse/inse.hpp:2942-3087 | over all members, reading after writing returns the value written |
| `Codec.EncodingIsInjective` | src/IDLs_cyclone/generated/inse/inse.hpp:2942-3010 | different values never have the same encoding |
| `Layout.PlainIsEncoded` | src/IDLs/generated/inse/insePubSubTypes.hpp:840-852 | if every nested struct starts with a word of its own alignment and has no padding at its end, every leaf stands in memory where it stands on the wire, and both end alike |
| `Layout.MemcpyIsExact` | src/IDLs/generated/inse/insePubSubTypes.hpp:840-852 | for leaves at any offsets: decoding an image as an encoding is right for every image if and only if the offsets are those of the encoding |
| `PlainCopy.DecodingMemoryIsRight` | src/IDLs/generated/inse/insePubSubTypes.hpp:840-852 | for every type: decoding its memory as an encoding finds what is in memory, whatever is, if and only if every leaf has the same offset in memory and on the wire |
| `PlainCopy.CopyIsEncoding` | src/IDLs/generated/inse/insePubSubTypes.hpp:840-852 | if the offsets agree, copying the memory of any value gives an encoding of it: encoding the value over the copy changes no byte, and reading the copy gives the value |
| `PlainCopy.CopyReadsAsEncoding` | src/IDLs/generated/inse/insePubSubTypes.hpp:840-852 | the copy and the encoding into the same buffer hold the same words at all leaves, so they differ in padding at most |
| `PlainCopy.PlainTypesCopy` | src/IDLs/generated/inse/insePubSubTypes.hpp:840-852 | the side conditions of plain layout suffice for the copy to be the encoding, for every such type |
| `PlainCopy.AirEntityCopy` | src/IDLs/generated/inse/insePubSubTypes.hpp:840-852 | for AirEntity, every value, image and buffer: copying 133 bytes of memory is encoding, in XCDR1 and XCDR2 |
| `PlainCopy.OtherTypesCopy` | src/IDLs/generated/inse/insePubSubTypes.hpp:704-716 | the same for the five other types and the sizes their tests compare with |
| `PlainCopy.EndTestMisleads` | src/IDLs/generated/inse/insePubSubTypes.hpp:840-852 | generalised to any type, the test on the end alone is not enough: a struct that passes it although decoding its memory goes wrong |
| `InseTypes.AirEntityIsPlain` | src/IDLs/generated/inse/insePubSubTypes.hpp:840-852 | AirEntity passes the test with 133 and every one of its leaves is laid out as encoded, in XCDR1 and XCDR2 |
| `InseTypes.OtherTypesArePlain` | src/IDLs/generated/inse/insePubSubTypes.hpp:160-172 | the same for EntityID, Target, Position, Attitude and MovementAirEntity, with their own bounds |
| `InseTypes.AirEntityEnd` | src/IDLs/generated/inse/inseCdrAux.hpp:41-42 | an aligned encoding of AirEntity takes 133 bytes from the first multiple of four at or after the start |
| `InseTypes.SmallTypesEnd` | src/IDLs/generated/inse/inseCdrAux.hpp:26-39 | the stated maximum sizes 80, 4, 28, 12 and 104 are exact from offset zero in both representations |
| `InseTypes.RepresentationsAgree` | src/IDLs/generated/inse/insePubSubTypes.cxx:964-999 | XCDR1 and XCDR2 give AirEntity the same bytes from every offset |
| `InseTypes.AirEntityUnaligned` | src/IDLs_open/generated/inse/inseTypeSupportImpl.h:663-664 | without alignment AirEntity takes 125 bytes from anywhere |
| `InseTypes.OpenDdsBounds` | src/IDLs_open/generated/inse/inseTypeSupportImpl.h:656-669 | each bound covers the encoding from an offset if and only if the encoding is not XCDR1 or the offset is a multiple of four |
| `AirEntityBytes.EncodedBytes` | src/IDLs_cyclone/generated/inse/inse.hpp:2942-3010 | the byte map: behind any header and in either byte order, every one of the 28 words of AirEntity stands at a fixed offset, padding is zeroed or left alone, and nothing else changes |
| `AirEntityBytes.DecodedBytes` | src/IDLs_cyclone/generated/inse/inse.hpp:3019-3087 | from every buffer, each word is read from its offset of the byte map |
| `FieldPlaces.PutFieldAt` | src/IDLs_cyclone/generated/inse/inse.hpp:2942-3010 | for every type, writing a struct writes each member where the members before it end |
| `FieldPlaces.ReadFieldAt` | src/IDLs_cyclone/generated/inse/inse.hpp:3019-3087 | for every type, reading a struct reads each member from there |
| `FastCdr.Cdr.Alignment` | lib/Fast-DDS/fastdds-install/include/fastcdr/Cdr.h:3017-3021 | skipping the computation after a word at least as large still yields the padding to the next multiple |
| `FastCdr.Cdr.Serialize` | src/IDLs/generated/inse/inseCdrAux.ipp:855-876 | succeeds exactly when the encoding fits, with the bytes of the recursive encoding behind the header and padding left as it was |
| `FastCdr.Cdr.Deserialize` | src/IDLs/generated/inse/inseCdrAux.ipp:878-923 | succeeds exactly when the encoding lies in the buffer and returns what the recursive reading returns |
| `FastCdr.CalculateSize` | lib/Fast-DDS/fastdds-install/include/fastcdr/CdrSizeCalculator.hpp:328-386 | the size calculator returns the exact distance and position encoding would reach, from every start alignment |
| `PubSub.AirEntityPubSubType.constructor` | src/IDLs/generated/inse/insePubSubTypes.cxx:942-954 | the rounded maximum is 140 and the key buffer starts as zeros |
| `PubSub.AirEntityPubSubType.Serialize` | src/IDLs/generated/inse/insePubSubTypes.cxx:964-999 | succeeds exactly when the payload holds 137 bytes, always with the advertised maximum; then the payload is the four bytes of the header and every member at its place, padding is left alone, otherwise its length is unchanged; nothing behind the maximum size is touched |
| `PubSub.AirEntityPubSubType.Deserialize` | src/IDLs/generated/inse/insePubSubTypes.cxx:1001-1029 | succeeds exactly if the payload holds 137 bytes, byte 1 is 0, 1, 6 or 7 and byte 108 is 0 or 1; then every member is found at its place, in the byte order of the payload |
| `PubSub.AirEntityPubSubType.CalculateSerializedSize` | src/IDLs/generated/inse/insePubSubTypes.cxx:1031-1049 | equals the length serializing gives the payload |
| `PubSub.AirEntityPubSubType.ComputeKey` | src/IDLs/generated/inse/insePubSubTypes.cxx:1082-1119 | keeps the tail of the key buffer zero over every call history; the handle is the id from its most significant byte on, followed by zeros, or the digest of those four bytes |
| `PubSub.AirEntityPubSubType.ComputeKeyOfPayload` | src/IDLs/generated/inse/insePubSubTypes.cxx:1062-1080 | for exactly the payloads that deserialize, the handle is made of bytes 4 to 7 of the payload, most significant first; otherwise it is left alone |
| `PubSub.DeserializedAfterSerialized` | src/IDLs/generated/inse/insePubSubTypes.cxx:964-1029 | whatever the representation, buffer and target, deserializing a serialized value returns it, or refuses it if its boolean is invalid |
| `PubSub.OtherMachineReads` | src/IDLs/generated/inse/insePubSubTypes.cxx:1001-1029 | a machine of the other byte order deserializes the same value, every word in its own order |
| `PubSub.HandleFromPayload` | src/IDLs/generated/inse/insePubSubTypes.cxx:1062-1080 | the handle computed from a payload, on a machine of either byte order, is the handle of the value serialized; it is refused exactly if its boolean is invalid |
| `PubSub.HandlesFollowKeyOrder` | src/IDLs_open/generated/inse/inseTypeSupportImpl.h:696-703 | two handles are equal if and only if the ids are, and if and only if neither value precedes the other in the key order |
| `PubSub.AcceptedPayloads` | src/IDLs/generated/inse/insePubSubTypes.cxx:1001-1029 | for every buffer and length: which payloads deserialize, told by three of their bytes, and where every member is found |
| `PubSub.SerializedBytes` | src/IDLs/generated/inse/insePubSubTypes.cxx:964-999 | the bytes of every serialized payload |
| `PubSub.KeyOrderIsSigned` | src/IDLs_open/generated/inse/inseTypeSupportImpl.h:696-703 | the key order is the order of signed ids, byte by byte from the most significant one |
| `PubSub.KeyOnlyCoding` | src/IDLs_cyclone/generated/inse/inse.hpp:3012-3017 | in key mode the encoding takes 4 bytes from offset zero under every cap, is equal for two values if and only if their ids are, and reading it back changes only the id of the target |
| `PubSub.ReadBehindHeader` | src/IDLs/generated/inse/inseCdrAux.ipp:855-925 | for every type, a coder without a header reads what the other coder wrote behind one, whatever both do with padding |
| `PubSub.CycloneReadsFast` | src/IDLs_cyclone/generated/inse/inse.hpp:3089-3094 | the Cyclone coder reads behind the header the value Fast CDR wrote |
| `PubSub.FastReadsCyclone` | src/IDLs/generated/inse/insePubSubTypes.cxx:1001-1029 | the Fast type support deserializes the value the Cyclone coder wrote behind the header |
| `Subscriber.FastSub.RunWithoutLoan` | src/implementation/fast_dds/FastSub.hpp:282-332 | for every queue and arrival schedule: the ids received are those of the valid samples taken, at most as many as expected; true exactly when as many ids as expected; otherwise ids and loss add up to the expectation; the rest stays queued |
| `Subscriber.FastSub.RunWithLoan` | src/implementation/fast_dds/FastSub.hpp:334-385 | terminates, returns every loan, and ends on an empty queue or an error; ids are exactly those of all valid samples taken, in a prefix of the stream |
| `Subscriber.OpenSub.RunWithoutLoan` | src/implementation/open_dds/OpenSub.hpp:164-228 | the slots are resized to the expectation and hold the samples taken; ids plus loss is the expectation, loss is never negative and zero exactly on success; a missing reader loses everything and a negative expectation throws |
| `Subscriber.OneByOneOfQuiet` | src/implementation/fast_dds/FastSub.hpp:287-313 | with no arrivals the loop takes exactly the first expected samples, or all up to a failure, and leaves the rest |
| `Subscriber.AllReceivedMeans` | src/implementation/fast_dds/FastSub.hpp:315-331 | success is reported exactly when as many samples as expected were taken, all valid and with distinct ids |
| `Subscriber.NothingDisappears` | src/implementation/fast_dds/FastSub.hpp:287-313 | what was taken, the failure that stopped the loop, and what is left make up the stream |
| `Subscriber.BatchesRefineOneByOne` | src/implementation/fast_dds/FastSub.hpp:282-385 | for every queue the two drains end with the same ids, return value and loss if and only if the samples beyond the expectation bring no new id, as on every queue no longer than the expectation |
| `Subscriber.SameVerdict` | src/implementation/fast_dds/FastSub.hpp:282-385 | exactly when the return values agree, and exactly when the losses do too, for every queue and expectation |
| `Subscriber.NegativeLoss` | src/implementation/fast_dds/FastSub.hpp:365-382 | the batched loss is negative exactly when more distinct ids than expected are queued, up to the range of an int; the one-by-one loss never is |
| `Subscriber.LongQueuesMayDisagree` | src/implementation/fast_dds/FastSub.hpp:334-385 | two queues longer than expected: one on which the drains disagree with a negative loss, and one on which they agree |
| `ReaderCache.AllDeliveredIds` | src/implementation/fast_dds/FastSub.hpp:174-181 | over every delivery sequence and from every valid state: at most 200 instances are managed, none is given up, new ones come in while there is room; one sample is queued per id, of exactly the delivered ids that are managed and those queued before |
| `ReaderCache.CacheHolds` | src/implementation/fast_dds/FastSub.hpp:174-181 | a new reader holds one sample per id, and as many as there are ids delivered, up to 200 |
| `ReaderCache.CacheIsNewest` | src/implementation/fast_dds/FastSub.hpp:174-181 | what is queued of an id is the newest sample delivered of it, whatever was known before |
| `ReaderCache.NewestIsLast` | src/implementation/fast_dds/FastSub.hpp:174-181 | the newest sample of an id is the last delivered with it |
| `ReaderCache.LeftAndOwn` | src/implementation/fast_dds/FastSub.hpp:174-181 | samples queued before stay in front, without those replaced by a newer delivery, of exactly what a reader with an empty queue and the same instances holds |
| `ReaderCache.ReceivedFromCache` | src/implementation/fast_dds/FastSub.hpp:174-181 | a first drain can report success only if at most 200 ids were expected and at least that many delivered |
| `ReaderCache.CountFromCache` | src/implementation/fast_dds/FastSub.hpp:282-332 | with valid samples, either loop receives from a new reader exactly as many ids as fit its bounds |
| `ReaderRuns.CycleIsDrain` | src/implementation/fast_dds/FastSub.hpp:282-385 | over the queue of a reader after the deliveries of a cycle, the loops receive the ids and leave the samples that a cycle says |
| `ReaderRuns.RunHolds` | src/implementation/fast_dds/FastSub.hpp:174-181 | over every run of cycles, whatever is delivered and however it is drained: exactly as many instances are managed as ids were delivered, up to 200, and no other id is ever received |
| `ReaderRuns.DryRunReceives` | src/implementation/fast_dds/FastSub.hpp:282-385 | if every cycle drains dry and all samples are valid, exactly that many ids are received over the run |
| `ReaderRuns.NothingLeft` | src/implementation/fast_dds/FastSub.hpp:287-313 | over every run of cycles nothing is ever left if and only if every cycle takes batches or expects no fewer ids than are admitted |
| `ReaderRuns.CountOfCycle` | src/implementation/fast_dds/FastSub.hpp:282-385 | the exact number of ids a cycle receives when nothing was left before it, whatever instances are known |
| `ReaderRuns.OwnBatch` | src/implementation/fast_dds/FastSub.hpp:315-331 | for a batch of own ids with samples lost, repeated and reordered: success means the batch was received, which is so if and only if no id was lost and none refused for want of an instance |
| `Verdicts.SuccessMeansOwn` | src/implementation/fast_dds/FastSub.hpp:315-331 | for a reader with nothing left, any instances known, either loop, and any ids that can arrive: success means that the own batch was received if and only if nothing was expected, the ids that can arrive and fit do not fill the expectation, or all that can be admitted are of the own batch |
| `Verdicts.NewReaderSuccess` | src/implementation/fast_dds/FastSub.hpp:315-331 | for a new reader and an own batch of 1 to 200 ids: if and only if the ids that can arrive are all of the own batch, or fewer than it has |
| `Verdicts.LateSampleMasksLoss` | src/implementation/fast_dds/FastSub.hpp:315-331 | the smallest such case: a late sample of an earlier cycle makes a cycle report success although its own sample was lost |
| `Verdicts.SameIds` | src/implementation/fast_dds/FastSub.hpp:282-385 | for every given reader and cycle: the same ids are received as if the cycle before had left nothing, if and only if no valid sample left by it is taken and none is displaced by those taken |
| `Verdicts.SameReturn` | src/implementation/fast_dds/FastSub.hpp:315-331 | for every given reader and cycle: the same value is returned if and only if as many valid ids come from the samples left as are displaced by them, or neither count is the expectation |
| `Verdicts.SameReturnOfValid` | src/implementation/fast_dds/FastSub.hpp:315-331 | with valid samples, by numbers of ids: one at a time, if and only if the ids admitted suffice alone or not even with those left; in batches, if and only if nothing unreplaced was left or neither number is the expectation |
| `Verdicts.OwnDeliveriesAlone` | src/implementation/fast_dds/FastSub.hpp:282-332 | the ids received are those of a reader with nothing left for all next cycles at once if and only if nothing was left |
| `Verdicts.SameAdmission` | src/implementation/fast_dds/FastSub.hpp:174-181 | the deliveries of a cycle are admitted as by a new reader if and only if they fit beside the instances known, or those are among the ids a new reader would admit |
| `Publisher.FastPub.PublishLoan` | src/implementation/fast_dds/FastPub.hpp:206-240 | whatever the middleware answers: true exactly when all samples were written, under the next ids in order; over every history written ids increase strictly and every loan obtained is written or offered back exactly once |
| `Publisher.FastPub.PublishNext` | src/implementation/fast_dds/FastPub.hpp:208-237 | one turn: a refused loan uses no id, a refused write uses one and offers its loan back |
| `Publisher.EndToEnd` | src/stress_test/core/tests/1_1/sub_test_1_to_1.h:96-113 | for a new reader, over a network that may lose, repeat and reorder, both loops report the whole batch received if and only if no id was lost and there were at most 200 |
| `Publisher.EndToEndRun` | src/stress_test/core/tests/1_1/sub_test_1_to_1.h:91-115 | for every cycle of every run whose samples arrive in the cycle of their batch: nothing was left, success means the batch was received, and that is so if and only if no id was lost and the instances of the run so far leave room for all |
| `Publisher.LoanedBatches` | src/implementation/fast_dds/FastPub.hpp:184-221 | with ids that go on from batch to batch and nothing lost, batch k of n is received in full if and only if (k + 1) * n is at most 200; of every batch exactly what still fits is received |
| `Publisher.ThirdBatchRefused` | src/implementation/fast_dds/FastPub.hpp:184-221 | three such batches of 100: the first two are received, nothing of the third |
| `Publisher.RepeatedBatches` | src/stress_test/core/tests/1_1/pub_test_1_to_1.h:213-221 | with ids that start over for every batch, each cycle of every run reports success if and only if none of its ids was lost and there were at most 200 |
| `PublisherTest.PubTest.constructor` | src/stress_test/core/tests/1_1/pub_test_1_to_1.h:18-27 | the state ticks start from, whatever the uninitialized flag is |
| `PublisherTest.PubTest.Read` | src/stress_test/core/tests/1_1/pub_test_1_to_1.h:130-151 | the reading phase of a tick: counts the rest, asks for the next START, or sends the STOP with the number of the test, starts over with the ids and ends the simulation after the last test |
| `PublisherTest.PubTest.Write` | src/stress_test/core/tests/1_1/pub_test_1_to_1.h:155-203 | the writing phase: a START with the number of the test, the expectation and the way of draining, if fifty ticks went before; then one batch with the ids from the right one on; and what a refused message, loan or sample changes |
| `DriverRuns.RunTicks` | src/stress_test/core/tests/1_1/pub_test_1_to_1.h:130-203 | the ticks of the publisher test, if nothing is refused, leave it in the state of the run and put exactly the messages of the run into the channel |
| `DriverRuns.MessagesAreSent` | src/stress_test/core/tests/1_1/pub_test_1_to_1.h:160-168 | event by event, what the control channel carries in a run are the messages the driver sends |
| `DriverRuns.FirstStart` | src/stress_test/core/tests/1_1/pub_test_1_to_1.h:153-168 | whatever the uninitialized flag was, the first START is sent by the matched tick behind fifty others |
| `DriverRuns.NextStart` | src/stress_test/core/tests/1_1/pub_test_1_to_1.h:130-151 | after a STOP that is not the last, the next START is sent by the first matched tick from the sixth one on |
| `DriverRuns.TestsAreNumbered` | src/stress_test/core/tests/1_1/pub_test_1_to_1.h:213-224 | over every run, STARTs and STOPs carry the numbers 1, 2, 3 and so on, each STOP that of its START |
| `DriverRuns.EndOfRun` | src/stress_test/core/patterns/pattern_base.h:45-56 | a run has ended if and only if as many STOPs were sent as tests asked for, and at least one; no more are ever sent, and none if the number is negative |
| `DriverRuns.BatchIdsOfRun` | src/stress_test/core/tests/1_1/pub_test_1_to_1.h:176-189 | over every run, batches in normal mode all start at zero, and loaned batches each where the one before ended |
| `DriverRuns.StartIsServed` | src/stress_test/core/tests/1_1/pub_test_1_to_1.h:130-203 | over every interleaving of publisher ticks and subscriber reads, with matches coming and going: a START is served if and only if the second read behind it comes before the seventh tick, counted from the first matched one |
| `DriverRuns.DrainFindsBatch` | src/stress_test/core/tests/1_1/sub_test_1_to_1.h:69-122 | that read drains the cycle of the START, and finds its batch written if and only if a matched tick came first |
| `DriverRuns.TooFewReads` | src/stress_test/core/tests/1_1/pub_test_1_to_1.h:130-151 | with fewer than two reads up to the seventh tick the START is lost |
| `DriverRuns.TooEarly` | src/stress_test/core/tests/1_1/sub_test_1_to_1.h:69-98 | two reads right behind a START drain its cycle before the batch is written |
| `DriverRuns.PacedRunLosesNothing` | src/stress_test/core/tests/1_1/pub_test_1_to_1.h:130-203 | with the counters matched, if the subscriber reads at most once between two ticks and at least twice between a tick and the seventh after it: whenever the publisher is between two cycles, every START sent was served by a read behind its batch, and as many cycles were drained |
| `DriverRuns.TurnsArePaced` | src/stress_test/core/tests/1_1/sub_test_1_to_1.h:69-122 | drivers that take turns keep that pace |
| `Control.FastPubControl.PublishStart` | src/implementation/fast_dds/FastPubControl.hpp:75-93 | appends one START with the given fields, or nothing when the write is refused |
| `Control.FastPubControl.PublishStop` | src/implementation/fast_dds/FastPubControl.hpp:95-110 | appends one STOP that expects nothing and lends nothing |
| `Control.FastSubControl.PollControl` | src/implementation/fast_dds/FastSubControl.hpp:71-90 | drains the channel; the configuration becomes that of the newest valid message, and the output follows it only if there was one |
| `Control.Listener.OnMatched` | src/implementation/fast_dds/FastSubControl.hpp:94-104 | counts changes by one in either direction and ignores others |
| `Control.CountsMatches` | src/implementation/fast_dds/FastSubControl.hpp:94-104 | the counter is the number of matches if and only if the changes by other than one add up to zero; a change by two is missed |
| `Control.SplitPoll` | src/implementation/fast_dds/FastSubControl.hpp:71-90 | polling in several goes ends in the configuration of one poll, and applies something exactly when one of them does |
| `Control.OnlyNewestMatters` | src/implementation/fast_dds/FastSubControl.hpp:71-90 | nothing before a valid message influences the configuration |
| `Control.SubTest.ReadTick` | src/stress_test/core/tests/1_1/sub_test_1_to_1.h:69-115 | one read of the subscriber test: takes over a new configuration, or drains the one cycle it was started for with the expectation of that START, accounts its result and loss, and asks for the end after the last test |
| `Control.EveryRunIsConsistent` | src/stress_test/core/tests/1_1/sub_test_1_to_1.h:69-122 | over every run: the configuration is that of the newest valid message polled, and every cycle drained was asked for by a START that was polled |
| `Control.InactiveIsIdle` | src/implementation/fast_dds/FastPubControl.hpp:95-110 | over every run an inactive configuration expects nothing and lends nothing |
| `Control.ScheduleIsIrrelevant` | src/implementation/fast_dds/FastSubControl.hpp:71-90 | after a read the configuration depends only on what was sent, not on when it was polled |
| `ControlRuns.DrainedAreServed` | src/stress_test/core/tests/1_1/sub_test_1_to_1.h:69-122 | over every run the cycles drained are, once each and in order, those of the STARTs followed by two reads before the next START or STOP |
| `ControlRuns.NoStartIsLost` | src/stress_test/core/tests/1_1/sub_test_1_to_1.h:69-122 | as many cycles are drained as STARTs were sent if and only if two reads follow each START before the next START or STOP |
| `ControlRuns.LostToStop` | src/stress_test/core/tests/1_1/sub_test_1_to_1.h:72-88 | a START that was read is lost to a STOP polled by the next read |
| `ControlRuns.LostToStart` | src/stress_test/core/tests/1_1/sub_test_1_to_1.h:72-88 | a START that was read is lost to another START, without any STOP |
| `Distribution.Distribution.Mean` | src/stress_test/stats/Distribution.h:34-39 | the mean, which lies within all bounds of the values |
| `Distribution.Distribution.Min` | src/stress_test/stats/Distribution.h:41-45 | a least element |
| `Distribution.Distribution.Max` | src/stress_test/stats/Distribution.h:47-51 | a greatest element |
| `Distribution.Distribution.Mode` | src/stress_test/stats/Distribution.h:53-74 | a value of maximal frequency, in whatever order the frequencies are visited |
| `Distribution.Distribution.StdDev` | src/stress_test/stats/Distribution.h:76-87 | the square times n - 1 is the sum of squared distances from the mean; zero below two values |
| `Distribution.Distribution.LocalJitter` | src/stress_test/stats/Distribution.h:90-115 | the deviation of the absolute steps for at least three values, not a number for two, zero below |
| `Distribution.DeviationTells` | src/stress_test/stats/Distribution.h:76-87 | (n - 1) sd^2 equals the squares minus n mean^2, and is at most n (max - mean)(mean - min) |
| `Distribution.ZeroDeviation` | src/stress_test/stats/Distribution.h:76-87 | the deviation is zero if and only if all values are equal |
| `Distribution.StepIsDistance` | src/stress_test/stats/Distribution.h:96-101 | every step is the non-negative one of the two differences of its neighbours |
| `Distribution.JitterTells` | src/stress_test/stats/Distribution.h:90-115 | the jitter is zero if and only if the squares of consecutive steps are equal |
| `Executive.Executive.AddModule` | src/stress_test/core/executive.cpp:20-32 | appends a module unless its id is taken; ids stay distinct |
| `Executive.Executive.Initialize` | src/stress_test/core/executive.cpp:6-18 | initializes the modules in order and enters execution, forgetting an end requested meanwhile |
| `Executive.Executive.ExecuteCycle` | src/stress_test/core/executive.cpp:58-106 | one complete cycle even when the end is requested in it; below ten milliseconds it sleeps for the rest and accounts for ten, above it accounts for what was measured |
| `Executive.Executive.ExecuteAll` | src/stress_test/main.cpp:148-153 | a run of k cycles has the trace of k cycles, at least k times the minimum in its account, and stops early only after the end was requested |
| `Executive.EventsOfRun` | src/stress_test/core/executive.cpp:64-67 | where every event of a run stands: cycle by cycle, all reads, then all writes, then all updates, in registration order |
| `Executive.AccountedAtLeast` | src/stress_test/core/executive.cpp:102-106 | the account is never less than the minimum per cycle, nor than the measured time |

## Left out

- `is_present` flags, `must_understand`, member headers and delimiters: all types are FINAL and nothing in them is optional.
- The caching of property tables behind `initialized`: a table is built anew for every instance.
- `cdr_stream.cpp`, `entity_properties.cpp` and `Cdr.cpp` are not part of this model; their functions do what their headers say of them.
- The end of the address space (`SIZE_MAX` positions, 32-bit sizes), and strings, sequences, enumerations and mutable types: none occurs in the `inse` types.
- `float` and `double` members are opaque words in the codec; `Distribution` uses real numbers, so rounding is not modelled, and the square root is a parameter.
- PubSub.AirEntityPubSubType.Deserialize: refuses the parameter-list and delimited encapsulations, which Fast CDR also knows; what a failed read leaves in the value is only typed.
- PubSub.AirEntityPubSubType.Serialize: the two option bytes of the encapsulation are a parameter, since Fast CDR decides them; what a failed call leaves between header and maximum size is not stated.
- PubSub.AirEntityPubSubType.ComputeKey: MD5 is a parameter, any function from bytes to 16 bytes.
- FastCdr.Cdr.Deserialize: takes it that `deserialize_type` calls its functor for every member even at the end of the buffer, which the header leaves open; if it stopped there, a payload cut between two members would be accepted. The same holds for `PubSub.AirEntityPubSubType.Deserialize`.
- FastCdr.CalculateSize: recurses over the type directly, where the generated code spells out one call per member.
- Subscriber.FastSub.RunWithoutLoan: slots are not modelled, because `FastSub` reserves them without sizing them; `OpenSub` has the sized slots.
- Subscriber.FastSub.RunWithLoan: with samples arriving during the drain, which batch a sample falls in is left open, so the samples taken are stated as a prefix of the stream.
- Subscriber.OpenSub.RunWithoutLoan: `OpenSub` declares an expectation and a set of ids of its own, which hide those of the interface; the model has the hiding ones.
- ReaderCache.AllDeliveredIds: the reader is the rule of the quality of service, applied to deliveries; how the middleware keeps it is not shown in the repository. The writer is taken to live through the run, so no instance is reclaimed.
- Publisher.FastPub.PublishLoan: the id counter is unbounded.
- DriverRuns.StartIsServed: in the runs every control message and every sample is accepted by the middleware, a batch is written in one step, and there are fewer ticks than an `int` counts; `PublisherTest.PubTest.Write` says what a refusal changes.
- PublisherTest.PubTest.constructor: a negative number of messages, with which resizing the entities throws, is left out.
- Control.FastSubControl.PollControl: the channel is reliable and reports no error while it holds messages; its history depth of 1001 is not reached.
- Control.SubTest.ReadTick: the text of the final report is left out.
- Executive.Executive.ExecuteCycle: what the clock shows is an input, so the sleep is computed but not taken.
- Executive.Executive.ExecuteAll: the number of cycles is bounded by the timings it is given.
- Participants, topics, transports and quality of service other than the reader cache; the OpenDDS control classes, which repeat the Fast DDS ones; `BigSample` and `HelloWorld`, which repeat the type support; the spare fields of the control message; console reports; thread pinning.
