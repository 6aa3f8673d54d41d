/** How the request's encoder and decoder relate, and what the error
    response covers. */
module MarkerRoundTrip {
  import opened Wrappers
  import opened ProtocolTypes
  import opened TopicGrouping
  import opened WriteTxnMarkers

  /** `a` and `b` agree on every scalar field, and their partition lists are
      permutations of each other that list each topic's partitions in the
      same order. Only the interleaving of different topics may differ. */
  ghost predicate SameMarker(a: TxnMarkerEntry, b: TxnMarkerEntry)
  {
    && a.pid == b.pid
    && a.epoch == b.epoch
    && a.coordinatorEpoch == b.coordinatorEpoch
    && a.result == b.result
    && multiset(a.partitions) == multiset(b.partitions)
    && forall t :: OnTopic(a.partitions, t) == OnTopic(b.partitions, t)
  }

  /** What the decoder reads back from an encoded marker. */
  lemma DecodeEncodedMarker(m: MarkerStruct, e: TxnMarkerEntry, d: TxnMarkerEntry)
    requires Encodes(m, e) && DecodesTo(m, d)
    ensures SameMarker(d, e)
  {
    ForIdInvertsId(e.result);
    GroupingPreservesTopicOrder(e.partitions, m.topicPartitions);
    GroupingIsPermutation(e.partitions, m.topicPartitions);
  }

  /** Decoding an encoded request succeeds and gives back as many markers as
      were encoded, in the same order, each with the same producer id,
      epochs and result and a reordering of its partitions that keeps each
      topic's partitions in their original order. */
  lemma DecodeInvertsToStruct(req: WriteTxnMarkerRequest)
    ensures Decode(ToStruct(req), req.version).Success?
    ensures var d := Decode(ToStruct(req), req.version).value;
      && d.version == req.version
      && |d.markers| == |req.markers|
      && forall i :: 0 <= i < |req.markers| ==> SameMarker(d.markers[i], req.markers[i])
  {
    var s := ToStruct(req);
    forall i | 0 <= i < |s.transactionMarkers| ensures ForId(s.transactionMarkers[i].transactionResult).Some? {
      ForIdInvertsId(req.markers[i].result);
    }
    var d := Decode(s, req.version).value;
    forall i | 0 <= i < |req.markers| ensures SameMarker(d.markers[i], req.markers[i]) {
      DecodeEncodedMarker(s.transactionMarkers[i], req.markers[i], d.markers[i]);
    }
  }

  /** A partition list on at most one topic survives the round trip exactly. */
  lemma SingleTopicPartitionsRoundTrip(a: TxnMarkerEntry, b: TxnMarkerEntry, t: string)
    requires SameMarker(a, b)
    requires Topics(b.partitions) <= {t}
    ensures a == b
  {
    assert AllOnTopic(b.partitions, t) by {
      forall k | 0 <= k < |b.partitions| ensures b.partitions[k].topic == t {
        assert b.partitions[k].topic in Topics(b.partitions);
      }
    }
    assert AllOnTopic(a.partitions, t) by {
      forall k | 0 <= k < |a.partitions| ensures a.partitions[k].topic == t {
        assert a.partitions[k] in multiset(b.partitions);
        var j :| 0 <= j < |b.partitions| && b.partitions[j] == a.partitions[k];
        assert b.partitions[j].topic in Topics(b.partitions);
      }
    }
    OnTopicUniform(a.partitions, t, t);
    OnTopicUniform(b.partitions, t, t);
  }

  /** When every marker's partitions lie on a single topic, decoding the
      encoded request gives back exactly the request, so `equals` holds
      marker by marker. */
  lemma SingleTopicRequestRoundTrip(req: WriteTxnMarkerRequest)
    requires forall i :: 0 <= i < |req.markers| ==> exists t :: Topics(req.markers[i].partitions) <= {t}
    ensures Decode(ToStruct(req), req.version) == Success(req)
  {
    DecodeInvertsToStruct(req);
    var d := Decode(ToStruct(req), req.version).value;
    forall i | 0 <= i < |req.markers| ensures d.markers[i] == req.markers[i] {
      var t :| Topics(req.markers[i].partitions) <= {t};
      SingleTopicPartitionsRoundTrip(d.markers[i], req.markers[i], t);
    }
    assert d.markers == req.markers;
  }

  /** A marker whose partition list interleaves topics is NOT `equals` to
      what the decoder reads back from its encoding: the encoder puts each
      topic's partitions into one block, whatever the block order. */
  lemma InterleavedMarkerDoesNotRoundTrip(m: MarkerStruct, e: TxnMarkerEntry, d: TxnMarkerEntry)
    requires Encodes(m, e) && DecodesTo(m, d)
    requires !TopicContiguous(e.partitions)
    ensures !EntryEquals(d, e)
  {
    FlattenIsTopicContiguous(m.topicPartitions);
  }

  /** The request-level form of `InterleavedMarkerDoesNotRoundTrip`. */
  lemma InterleavedTopicsDoNotRoundTrip(req: WriteTxnMarkerRequest, i: nat)
    requires i < |req.markers|
    requires !TopicContiguous(req.markers[i].partitions)
    ensures Decode(ToStruct(req), req.version).Success?
    ensures !EntryEquals(Decode(ToStruct(req), req.version).value.markers[i], req.markers[i])
  {
    DecodeInvertsToStruct(req);
    var s := ToStruct(req);
    InterleavedMarkerDoesNotRoundTrip(s.transactionMarkers[i], req.markers[i], Decode(s, req.version).value.markers[i]);
  }

  /** A marker struct with distinct, non-empty topic blocks. */
  predicate WellFormedMarker(m: MarkerStruct)
  {
    && DistinctBlockTopics(m.topicPartitions)
    && forall j :: 0 <= j < |m.topicPartitions| ==> |m.topicPartitions[j].partitions| > 0
  }

  /** Re-encoding what was decoded from a well-formed marker struct gives the
      same scalar fields and the same topic blocks, possibly in another order. */
  lemma ReencodeDecodedMarker(m: MarkerStruct, d: TxnMarkerEntry, m': MarkerStruct)
    requires WellFormedMarker(m) && DecodesTo(m, d) && Encodes(m', d)
    ensures m'.pid == m.pid && m'.epoch == m.epoch && m'.coordinatorEpoch == m.coordinatorEpoch
    ensures m'.transactionResult == m.transactionResult
    ensures |m'.topicPartitions| == |m.topicPartitions|
    ensures forall b :: b in m'.topicPartitions <==> b in m.topicPartitions
  {
    WellFormedBlocksAreGrouping(m.topicPartitions);
    GroupingUnique(d.partitions, m.topicPartitions, m'.topicPartitions);
  }

  /** The request-level form of `ReencodeDecodedMarker`: a struct with known
      result ids and well-formed markers decodes, and re-encoding gives back
      every marker up to the order of its topic blocks. */
  lemma ToStructInvertsDecode(s: RequestStruct, version: Int16)
    requires ValidResultIds(s.transactionMarkers)
    requires forall i :: 0 <= i < |s.transactionMarkers| ==> WellFormedMarker(s.transactionMarkers[i])
    ensures Decode(s, version).Success?
    ensures var s' := ToStruct(Decode(s, version).value);
      && |s'.transactionMarkers| == |s.transactionMarkers|
      && forall i :: 0 <= i < |s.transactionMarkers| ==>
        && s'.transactionMarkers[i].pid == s.transactionMarkers[i].pid
        && s'.transactionMarkers[i].epoch == s.transactionMarkers[i].epoch
        && s'.transactionMarkers[i].coordinatorEpoch == s.transactionMarkers[i].coordinatorEpoch
        && s'.transactionMarkers[i].transactionResult == s.transactionMarkers[i].transactionResult
        && |s'.transactionMarkers[i].topicPartitions| == |s.transactionMarkers[i].topicPartitions|
        && forall b :: b in s'.transactionMarkers[i].topicPartitions <==> b in s.transactionMarkers[i].topicPartitions
  {
    var d := Decode(s, version).value;
    var s' := ToStruct(d);
    forall i | 0 <= i < |s.transactionMarkers|
      ensures |s'.transactionMarkers[i].topicPartitions| == |s.transactionMarkers[i].topicPartitions|
      ensures forall b :: b in s'.transactionMarkers[i].topicPartitions <==> b in s.transactionMarkers[i].topicPartitions
    {
      ReencodeDecodedMarker(s.transactionMarkers[i], d.markers[i], s'.transactionMarkers[i]);
    }
  }

  /** With distinct producer ids, the error response holds exactly the
      `(producer id, partition)` pairs of the request. */
  lemma ErrorResponseCoversRequest(req: WriteTxnMarkerRequest, error: Errors)
    requires forall i, j :: 0 <= i < j < |req.markers| ==> req.markers[i].pid != req.markers[j].pid
    ensures var errors := GetErrorResponse(req, error).errors;
      forall p, tp :: p in errors && tp in errors[p] <==>
        exists i :: 0 <= i < |req.markers| && req.markers[i].pid == p && tp in req.markers[i].partitions
  {
    var ms := req.markers;
    var errors := GetErrorResponse(req, error).errors;
    assert forall i :: 0 <= i < |ms| ==> LastWithPid(ms, i);
    forall p, tp | p in errors && tp in errors[p]
      ensures exists i :: 0 <= i < |ms| && ms[i].pid == p && tp in ms[i].partitions
    {
      var i :| 0 <= i < |ms| && ms[i].pid == p;
    }
  }
}
