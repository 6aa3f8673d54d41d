/** The WRITE_TXN_MARKER request: the instruction a transaction coordinator
    sends to a partition leader to write COMMIT or ABORT markers for one or
    more producers. The request's `Struct` form is modelled as a tree of
    datatypes; the byte buffer beneath it is not modelled. */
module WriteTxnMarkers {
  import opened Wrappers
  import opened ProtocolTypes
  import opened TopicGrouping

  // ---------------------------------------------------------------------
  // Entries, builder and request

  /** One marker instruction: producer id, producer epoch, coordinator epoch,
      the transaction's result and the partitions to mark. Immutable. */
  datatype TxnMarkerEntry = TxnMarkerEntry(
    pid: Int64,
    epoch: Int16,
    coordinatorEpoch: Int32,
    result: TransactionResult,
    partitions: seq<TopicPartition>)

  /** `TxnMarkerEntry.equals`: field by field, the partition lists compared
      element by element in order. It coincides with structural equality. */
  function EntryEquals(a: TxnMarkerEntry, b: TxnMarkerEntry): (eq: bool)
    ensures eq <==> a == b
  {
    && a.pid == b.pid
    && a.epoch == b.epoch
    && a.coordinatorEpoch == b.coordinatorEpoch
    && a.result == b.result
    && |a.partitions| == |b.partitions|
    && forall k :: 0 <= k < |a.partitions| ==> a.partitions[k] == b.partitions[k]
  }

  /** A request: the protocol version it is written for and its marker list
      (`markers()`). */
  datatype WriteTxnMarkerRequest = WriteTxnMarkerRequest(version: Int16, markers: seq<TxnMarkerEntry>)

  /** The request builder holds the marker list it was created with. */
  datatype Builder = Builder(markers: seq<TxnMarkerEntry>)

  /** `Builder.build`: the request carries the builder's markers unchanged,
      for the version asked for. */
  function Build(b: Builder, version: Int16): (r: WriteTxnMarkerRequest)
    ensures r.markers == b.markers
    ensures r.version == version
  {
    WriteTxnMarkerRequest(version, b.markers)
  }

  // ---------------------------------------------------------------------
  // The Struct tree

  /** One element of the `transaction_markers` array. */
  datatype MarkerStruct = MarkerStruct(
    pid: Int64,
    epoch: Int16,
    coordinatorEpoch: Int32,
    transactionResult: Int8,
    topicPartitions: seq<TopicBlock>)

  /** The request's top-level struct. */
  datatype RequestStruct = RequestStruct(transactionMarkers: seq<MarkerStruct>)

  /** `m` is a correct encoding of `e`: the scalar fields copied, the result
      written as its id, and the partitions grouped by topic in some order. */
  predicate Encodes(m: MarkerStruct, e: TxnMarkerEntry)
  {
    && m.pid == e.pid
    && m.epoch == e.epoch
    && m.coordinatorEpoch == e.coordinatorEpoch
    && m.transactionResult == e.result.Id()
    && ValidGrouping(e.partitions, m.topicPartitions)
  }

  /** The struct written for one entry. */
  function EncodeMarker(e: TxnMarkerEntry): (m: MarkerStruct)
    ensures Encodes(m, e)
  {
    MarkerStruct(e.pid, e.epoch, e.coordinatorEpoch, e.result.Id(), GroupedBlocks(e.partitions))
  }

  /** `toStruct`: one marker struct per entry, in list order. */
  function ToStruct(req: WriteTxnMarkerRequest): (s: RequestStruct)
    ensures |s.transactionMarkers| == |req.markers|
    ensures forall i :: 0 <= i < |req.markers| ==> Encodes(s.transactionMarkers[i], req.markers[i])
  {
    RequestStruct(seq(|req.markers|, i requires 0 <= i < |req.markers| => EncodeMarker(req.markers[i])))
  }

  // ---------------------------------------------------------------------
  // Decoding

  /** Decoding fails only on a `transaction_result` byte that names no result. */
  datatype DecodeError = InvalidTransactionResult(id: Int8)

  /** `e` is what the decoder reads from `m`: the scalar fields copied, the
      result looked up by id, and the topic blocks flattened in order. */
  predicate DecodesTo(m: MarkerStruct, e: TxnMarkerEntry)
  {
    && e.pid == m.pid
    && e.epoch == m.epoch
    && e.coordinatorEpoch == m.coordinatorEpoch
    && ForId(m.transactionResult) == Some(e.result)
    && e.partitions == Flatten(m.topicPartitions)
  }

  /** Every marker struct of `ms` carries a known result id. */
  predicate ValidResultIds(ms: seq<MarkerStruct>)
  {
    forall i :: 0 <= i < |ms| ==> ForId(ms[i].transactionResult).Some?
  }

  /** The decoder's loop over the marker array: it stops at the first marker
      whose result id is unknown. */
  function DecodeMarkers(ms: seq<MarkerStruct>): (r: Result<seq<TxnMarkerEntry>, DecodeError>)
    ensures r.Success? <==> ValidResultIds(ms)
    ensures r.Success? ==> |r.value| == |ms| && forall i :: 0 <= i < |ms| ==> DecodesTo(ms[i], r.value[i])
    ensures r.Failure? ==> exists i ::
      && 0 <= i < |ms|
      && ValidResultIds(ms[..i])
      && ForId(ms[i].transactionResult).None?
      && r.error == InvalidTransactionResult(ms[i].transactionResult)
  {
    if |ms| == 0 then Success([])
    else
      var m := ms[0];
      match ForId(m.transactionResult)
      case None =>
        assert ValidResultIds(ms[..0]);
        Failure(InvalidTransactionResult(m.transactionResult))
      case Some(result) =>
        var head := TxnMarkerEntry(m.pid, m.epoch, m.coordinatorEpoch, result, Flatten(m.topicPartitions));
        match DecodeMarkers(ms[1..])
        case Failure(err) =>
          assert exists i ::
            && 0 <= i < |ms|
            && ValidResultIds(ms[..i])
            && ForId(ms[i].transactionResult).None?
            && err == InvalidTransactionResult(ms[i].transactionResult) by {
            var j :| 0 <= j < |ms[1..]| && ValidResultIds(ms[1..][..j])
              && ForId(ms[1..][j].transactionResult).None? && err == InvalidTransactionResult(ms[1..][j].transactionResult);
            assert ms[..j + 1] == [m] + ms[1..][..j];
            assert ms[j + 1] == ms[1..][j];
          }
          Failure(err)
        case Success(rest) =>
          assert forall i :: 1 <= i < |ms| ==> ms[i] == ms[1..][i - 1];
          Success([head] + rest)
  }

  /** The `Struct` constructor of the request: it walks the marker array and
      flattens each marker's topic blocks into a `(topic, partition)` list.
      An unknown result id makes it fail, at the first marker that has one. */
  function Decode(s: RequestStruct, version: Int16): (r: Result<WriteTxnMarkerRequest, DecodeError>)
    ensures r.Success? <==> ValidResultIds(s.transactionMarkers)
    ensures r.Success? ==> r.value.version == version
    ensures r.Success? ==> |r.value.markers| == |s.transactionMarkers|
    ensures r.Success? ==> forall i :: 0 <= i < |s.transactionMarkers| ==>
      DecodesTo(s.transactionMarkers[i], r.value.markers[i])
    ensures r.Failure? ==> exists i ::
      && 0 <= i < |s.transactionMarkers|
      && ValidResultIds(s.transactionMarkers[..i])
      && ForId(s.transactionMarkers[i].transactionResult).None?
      && r.error == InvalidTransactionResult(s.transactionMarkers[i].transactionResult)
  {
    match DecodeMarkers(s.transactionMarkers)
    case Success(markers) => Success(WriteTxnMarkerRequest(version, markers))
    case Failure(err) => Failure(err)
  }

  // ---------------------------------------------------------------------
  // Error response

  /** The response's content: for each producer id, an error per partition. */
  datatype WriteTxnMarkerResponse = WriteTxnMarkerResponse(errors: map<Int64, map<TopicPartition, Errors>>)

  /** The per-partition map of one entry: `error` put for each of its
      partitions in turn (a repeated partition is put twice, to no effect). */
  function PartitionErrors(ps: seq<TopicPartition>, error: Errors): (m: map<TopicPartition, Errors>)
    ensures forall tp :: tp in m <==> tp in ps
    ensures forall tp :: tp in m ==> m[tp] == error
  {
    if |ps| == 0 then map[]
    else
      var init, last := ps[..|ps| - 1], ps[|ps| - 1];
      assert ps == init + [last];
      PartitionErrors(init, error)[last := error]
  }

  /** The producer ids named by `ms`. */
  function Pids(ms: seq<TxnMarkerEntry>): set<Int64>
  {
    set i | 0 <= i < |ms| :: ms[i].pid
  }

  /** `ms[i]` is the last entry of `ms` with its producer id. */
  predicate LastWithPid(ms: seq<TxnMarkerEntry>, i: int)
  {
    0 <= i < |ms| && forall j :: i < j < |ms| ==> ms[j].pid != ms[i].pid
  }

  /** The outer loop of `getErrorResponse`: one `put` per entry, so a later
      entry with the same producer id replaces an earlier one's map. */
  function ErrorsByPid(ms: seq<TxnMarkerEntry>, error: Errors): (m: map<Int64, map<TopicPartition, Errors>>)
    ensures m.Keys == Pids(ms)
    ensures forall i :: LastWithPid(ms, i) ==>
      forall tp :: tp in m[ms[i].pid] <==> tp in ms[i].partitions
    ensures forall p, tp :: p in m && tp in m[p] ==> m[p][tp] == error
  {
    if |ms| == 0 then map[]
    else
      var init, last := ms[..|ms| - 1], ms[|ms| - 1];
      var m := ErrorsByPid(init, error);
      assert ms == init + [last];
      assert Pids(ms) == Pids(init) + {last.pid} by {
        forall p | p in Pids(ms) ensures p in Pids(init) + {last.pid} {
          var i :| 0 <= i < |ms| && ms[i].pid == p;
          if i < |init| {
            assert init[i] == ms[i];
          }
        }
        forall p | p in Pids(init) ensures p in Pids(ms) {
          var i :| 0 <= i < |init| && init[i].pid == p;
          assert ms[i] == init[i];
        }
      }
      assert forall i :: LastWithPid(ms, i) && i < |init| ==> LastWithPid(init, i) && ms[i] == init[i] && ms[i].pid != last.pid;
      m[last.pid := PartitionErrors(last.partitions, error)]
  }

  /** `getErrorResponse`: the error stamped onto every partition of every
      entry, keyed by producer id. When two entries share a producer id, only
      the partitions of the later entry remain. */
  function GetErrorResponse(req: WriteTxnMarkerRequest, error: Errors): (resp: WriteTxnMarkerResponse)
    ensures resp.errors.Keys == Pids(req.markers)
    ensures forall i :: LastWithPid(req.markers, i) ==>
      forall tp :: tp in resp.errors[req.markers[i].pid] <==> tp in req.markers[i].partitions
    ensures forall p, tp :: p in resp.errors && tp in resp.errors[p] ==> resp.errors[p][tp] == error
  {
    WriteTxnMarkerResponse(ErrorsByPid(req.markers, error))
  }
}
