# WRITE_TXN_MARKER request codec — a Dafny model

This project models the request that Kafka's transaction coordinator sends to
partition leaders to make them write COMMIT or ABORT transaction markers
(`WriteTxnMarkerRequest`). It covers the following parts:

- the immutable `TxnMarkerEntry`: producer id, producer epoch, coordinator
  epoch, transaction result and partition list, with its `equals`;
- the builder and the `markers()` accessor;
- the encoder `toStruct`, which writes one marker struct per entry and groups
  each entry's partitions into one `topic_partitions` block per topic;
- the decoder (the `Struct` constructor), which flattens the blocks back into
  a `(topic, partition)` list;
- `getErrorResponse`, which stamps one error onto every partition of the
  last entry for each producer id in the request.

The request's `Struct` is modelled as a datatype tree
(`RequestStruct` → `MarkerStruct` → `TopicBlock`). Every operation is a pure
function.

Files and modules:

- `wrappers.dfy` (`Wrappers`): `Option` and `Result`.
- `protocol_types.dfy` (`ProtocolTypes`): the Java integer widths as subset
  types, `TopicPartition`, `TransactionResult` with its wire id and `ForId`,
  and `Errors`.
- `topic_grouping.dfy` (`TopicGrouping`): `groupDataByTopic` and an order-free
  description of a valid grouping (`ValidGrouping`). It also holds the
  flattening done by the decoder and the lemmas that connect the two.
- `write_txn_marker_request.dfy` (`WriteTxnMarkers`): the entry, the builder,
  the struct tree, `ToStruct`, `Decode` and `GetErrorResponse`.
- `marker_round_trip.dfy` (`MarkerRoundTrip`): round trips in both directions,
  and the coverage of the error response.

Behaviour of the code that the model keeps:

- `TxnMarkerEntry` keeps its partitions in a `List`, and neither the
  constructor nor the builder checks it. The list may be empty and may repeat
  a partition, so the model uses a `seq`.
- `toStruct` has no emptiness check. An empty request encodes to an empty
  `transaction_markers` array, and the model's `ToStruct` does the same.
- `equals` compares the partition lists in order. The encoder writes one
  block per topic, so the decoder returns each topic of an encoded marker as
  one contiguous run (`FlattenIsTopicContiguous`). The decoder itself does
  not merge blocks: a struct whose blocks repeat a topic decodes in block
  order. So a marker whose list interleaves topics is not `equals` to its
  decoded copy (`InterleavedTopicsDoNotRoundTrip`). A marker whose partitions are all on
  one topic does come back `equals` (`SingleTopicRequestRoundTrip`).
- In `getErrorResponse`, two entries with the same producer id do not merge.
  The later entry's partition map replaces the earlier one (`put` overwrites),
  and `GetErrorResponse` states exactly that.

The encoder writes `result.id` as the `transaction_result` byte, and the
decoder reads it back with `TransactionResult.forId`. `TransactionResult.java`
is not part of this model. The model assumes its mapping is ABORT 0 and
COMMIT 1, with every other id rejected. Under that assumption `ForId` rejects
every other byte, and `Decode` fails at the first marker that carries one, as
the Java constructor does when `forId` throws.

## Model

| member | source | states |
|---|---|---|
| `ProtocolTypes.TransactionResult.Id` | clients/src/main/java/org/apache/kafka/common/requests/WriteTxnMarkerRequest.java:170 | The result is written as the byte 0 or 1, and the byte is 1 exactly for COMMIT. |
| `ProtocolTypes.ForId` | clients/src/main/java/org/apache/kafka/common/requests/WriteTxnMarkerRequest.java:141 | Accepts exactly ids 0 and 1. Any result it returns has the given id, so it is a partial inverse of `Id`. |
| `ProtocolTypes.ForIdInvertsId` | clients/src/main/java/org/apache/kafka/common/requests/WriteTxnMarkerRequest.java:170 | The result written by the encoder as its id is read back as the same result, for both results. |
| `WriteTxnMarkers.EntryEquals` | clients/src/main/java/org/apache/kafka/common/requests/WriteTxnMarkerRequest.java:89-99 | `equals` holds exactly when the two entries agree on all five fields, with the partition lists compared element by element in order. |
| `WriteTxnMarkers.Build` | clients/src/main/java/org/apache/kafka/common/requests/WriteTxnMarkerRequest.java:110-128 | The built request carries the builder's marker list unchanged, for the requested version. |
| `TopicGrouping.GroupDataByTopic` | clients/src/main/java/org/apache/kafka/common/requests/WriteTxnMarkerRequest.java:172 | Its keys are exactly the topics of the partition list. Each topic maps to that topic's partition numbers in input order. |
| `TopicGrouping.GroupedBlocks` | clients/src/main/java/org/apache/kafka/common/requests/WriteTxnMarkerRequest.java:172-180 | The map's entries as a block sequence form a valid grouping of the input: distinct topics, every input topic present, and each block holding its topic's partitions in order. |
| `TopicGrouping.GroupingShape` | clients/src/main/java/org/apache/kafka/common/requests/WriteTxnMarkerRequest.java:172-181 | Any valid grouping has one block per distinct topic and no empty block. |
| `TopicGrouping.GroupingUnique` | clients/src/main/java/org/apache/kafka/common/requests/WriteTxnMarkerRequest.java:175-180 | Two valid groupings of the same list hold the same blocks and differ at most in block order. So the unspecified iteration order decides nothing else. |
| `TopicGrouping.Flatten` | clients/src/main/java/org/apache/kafka/common/requests/WriteTxnMarkerRequest.java:143-151 | The decoder's flattened list holds a `(topic, partition)` pair exactly when some block names that topic and lists that partition. |
| `TopicGrouping.FlattenOnTopic` | clients/src/main/java/org/apache/kafka/common/requests/WriteTxnMarkerRequest.java:145-150 | If the blocks have distinct topics, the flattened list's entries on topic t are exactly t's block, or nothing if no block names t. |
| `TopicGrouping.GroupingPreservesTopicOrder` | clients/src/main/java/org/apache/kafka/common/requests/WriteTxnMarkerRequest.java:143-151 | Flattening any valid grouping gives, for every topic, the same partitions in the same order as the original list. |
| `TopicGrouping.GroupingIsPermutation` | clients/src/main/java/org/apache/kafka/common/requests/WriteTxnMarkerRequest.java:143-151 | Flattening any valid grouping gives a permutation of the original list: the multiset of `(topic, partition)` pairs is the same. |
| `TopicGrouping.FlattenIsTopicContiguous` | clients/src/main/java/org/apache/kafka/common/requests/WriteTxnMarkerRequest.java:144-151 | If the blocks have distinct topics, the flattened list keeps each topic in one contiguous run. |
| `TopicGrouping.WellFormedBlocksAreGrouping` | clients/src/main/java/org/apache/kafka/common/requests/WriteTxnMarkerRequest.java:144-151 | Blocks with distinct topics and no empty block are a valid grouping of their own flattening. |
| `WriteTxnMarkers.EncodeMarker` | clients/src/main/java/org/apache/kafka/common/requests/WriteTxnMarkerRequest.java:166-181 | The marker struct copies pid, epoch and coordinator epoch, and writes the result as its id. Its topic blocks are a valid grouping of the entry's partitions. |
| `WriteTxnMarkers.ToStruct` | clients/src/main/java/org/apache/kafka/common/requests/WriteTxnMarkerRequest.java:160-187 | The marker array has exactly one element per entry, and element i encodes entry i. |
| `WriteTxnMarkers.DecodeMarkers` | clients/src/main/java/org/apache/kafka/common/requests/WriteTxnMarkerRequest.java:133-154 | Succeeds exactly when every result id is known. On success it yields one entry per struct, in order, each read from its struct with its blocks flattened. On failure it reports the first marker whose id is unknown. |
| `WriteTxnMarkers.Decode` | clients/src/main/java/org/apache/kafka/common/requests/WriteTxnMarkerRequest.java:130-157 | The same as `DecodeMarkers`, with the decoded markers wrapped in a request of the given version. |
| `WriteTxnMarkers.PartitionErrors` | clients/src/main/java/org/apache/kafka/common/requests/WriteTxnMarkerRequest.java:195-197 | The per-entry map's keys are exactly the entry's partitions, and every value is the given error. |
| `WriteTxnMarkers.ErrorsByPid` | clients/src/main/java/org/apache/kafka/common/requests/WriteTxnMarkerRequest.java:193-200 | Its keys are exactly the request's producer ids. Each pid maps to the partitions of the last entry with that pid, and every value is the error. |
| `WriteTxnMarkers.GetErrorResponse` | clients/src/main/java/org/apache/kafka/common/requests/WriteTxnMarkerRequest.java:189-203 | The response's keys are the set of pids. For each pid, its partitions are those of the last entry with that pid, and no others. Every partition carries the same error. |
| `MarkerRoundTrip.DecodeEncodedMarker` | clients/src/main/java/org/apache/kafka/common/requests/WriteTxnMarkerRequest.java:138-153 | Decoding an encoded marker gives the same pid, epoch, coordinator epoch and result. Its partitions are a permutation of the original that keeps each topic's partitions in their original order. |
| `MarkerRoundTrip.DecodeInvertsToStruct` | clients/src/main/java/org/apache/kafka/common/requests/WriteTxnMarkerRequest.java:130-187 | Decoding an encoded request succeeds with the same version and the same number of markers, in order. Each marker keeps pid, epoch, coordinator epoch and result, and its partitions are a permutation that keeps each topic's order. |
| `MarkerRoundTrip.SingleTopicRequestRoundTrip` | clients/src/main/java/org/apache/kafka/common/requests/WriteTxnMarkerRequest.java:130-187 | If each marker's partitions lie on at most one topic, decoding the encoded request gives back exactly the request. |
| `MarkerRoundTrip.InterleavedMarkerDoesNotRoundTrip` | clients/src/main/java/org/apache/kafka/common/requests/WriteTxnMarkerRequest.java:90-99 | If a marker's partition list interleaves topics, what is decoded from its encoding is not `equals` to it, whatever the block order. |
| `MarkerRoundTrip.InterleavedTopicsDoNotRoundTrip` | clients/src/main/java/org/apache/kafka/common/requests/WriteTxnMarkerRequest.java:143-151 | The same for a marker of a whole request: decoding the encoded request succeeds, but marker i is not `equals` to the original. |
| `MarkerRoundTrip.ReencodeDecodedMarker` | clients/src/main/java/org/apache/kafka/common/requests/WriteTxnMarkerRequest.java:166-181 | Take a marker struct with distinct, non-empty topic blocks. Re-encoding what is decoded from it gives the same scalar fields and the same blocks, possibly reordered. |
| `MarkerRoundTrip.ToStructInvertsDecode` | clients/src/main/java/org/apache/kafka/common/requests/WriteTxnMarkerRequest.java:160-187 | Take a struct with known result ids and distinct, non-empty blocks. Re-encoding its decoding gives each marker the same scalar fields and the same blocks, possibly reordered. |
| `MarkerRoundTrip.ErrorResponseCoversRequest` | clients/src/main/java/org/apache/kafka/common/requests/WriteTxnMarkerRequest.java:191-200 | With distinct pids, a `(pid, partition)` pair is in the error response exactly when some entry of the request has that pid and partition. |

## Left out

- Byte-level serialisation: the version schemas (`requestSchema`), `parse` and
  the `ByteBuffer` are not modelled. The model stops at the `Struct` level.
- `TransactionResult.java` is not part of this model. Its id mapping (ABORT 0,
  COMMIT 1, every other id rejected) is an assumption of the model.
- `CollectionUtils.groupDataByTopic` is not modelled from its code.
  `GroupDataByTopic` assumes that `groupDataByTopic` is a one-pass fold that appends each
  partition to its topic's list. Every encoder property uses only the
  `ValidGrouping` contract, not the fold itself.
- The iteration order of the `HashMap` that `groupDataByTopic` returns is not
  modelled. The model's encoder writes topics in first-occurrence order as a
  stand-in. The encoder's properties are proved for every valid grouping
  (`ValidGrouping`), whatever its order.
- `Errors.forException` is not part of this model. `GetErrorResponse` takes
  the resulting error value as a parameter.
- `WriteTxnMarkerResponse` internals are not modelled. The response is its
  error map.
- `toString` and `hashCode` are left out: string formatting and Java hashing
  say nothing about the protocol.
- Java `null` is left out: `null` fields, lists and array elements, and the
  `ClassCastException`s the decoder's casts could raise on a malformed struct.
- Aliasing is left out. The Java builder and request share the caller's
  mutable list. The model's lists are immutable values.
- The marker channel and channel manager are not part of this model: leader
  resolution, per-broker queues, draining, sending and completion callbacks.
  They live outside the request class and are not part of this model.
