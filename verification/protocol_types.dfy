/** Primitive values of the Kafka protocol that the transaction-marker request carries. */
module ProtocolTypes {
  import opened Wrappers

  /** Java's fixed-width signed integers. The request only copies them, so no
      arithmetic (and no wrap-around) is ever applied to them. */
  type Int8 = x: int | -0x80 <= x < 0x80
  type Int16 = x: int | -0x8000 <= x < 0x8000
  type Int32 = x: int | -0x8000_0000 <= x < 0x8000_0000
  type Int64 = x: int | -0x8000_0000_0000_0000 <= x < 0x8000_0000_0000_0000

  /** A partition of a topic; equality is structural, as for Kafka's `TopicPartition`. */
  datatype TopicPartition = TopicPartition(topic: string, partition: Int32)

  /** Outcome of a transaction that a marker records. On the wire it is the
      `transaction_result` byte: 0 for ABORT, 1 for COMMIT. */
  datatype TransactionResult = Abort | Commit {

    /** The wire id of this result: ABORT is 0 and COMMIT is 1. */
    function Id(): (id: Int8)
      ensures 0 <= id <= 1
      ensures (id == 1) == Commit?
    {
      match this
      case Abort => 0
      case Commit => 1
    }
  }

  /** The partial inverse of `Id`: every id other than 0 and 1 is rejected. */
  function ForId(id: Int8): (r: Option<TransactionResult>)
    ensures r.Some? <==> id == 0 || id == 1
    ensures r.Some? ==> r.value.Id() == id
  {
    if id == 0 then Some(Abort)
    else if id == 1 then Some(Commit)
    else None
  }

  /** The result field survives a trip to its wire id and back, for both results. */
  lemma ForIdInvertsId(r: TransactionResult)
    ensures ForId(r.Id()) == Some(r)
  {
  }

  /** A protocol error, identified by its numeric code. How an exception is
      mapped to one is outside this model, so errors are opaque values here. */
  datatype Errors = Errors(code: Int16)
}
