/** Private retrieval as row selection. */
module PirStub {
  import opened Prelude

  datatype StubError = InvalidQuery(length: nat) | OutOfRange(index: nat, numItems: nat)

  datatype StubState = StubState(db: seq<byte>, numItems: nat, rowBytes: nat)

  function Setup(db: seq<byte>, numItems: nat, itemSizeBits: nat): StubState {
    StubState(db, numItems, (itemSizeBits + 7) / 8)
  }

  function AnswerQuery(s: StubState, query: seq<byte>): Result<seq<byte>, StubError> {
    if |query| < 4 then Err(InvalidQuery(|query|))
    else
      var idx := FromLe(query[..4]);
      if idx >= s.numItems then Err(OutOfRange(idx, s.numItems))
      else
        var start := idx * s.rowBytes;
        if start + s.rowBytes > |s.db| then Err(OutOfRange(idx, s.numItems))
        else Ok(s.db[start..start + s.rowBytes])
  }

  /** The client's query for a row. */
  function RowQuery(row: nat): seq<byte> {
    ToLe(row, 4)
  }

  /** The first four bytes of a query name the row, lowest first; a row that is not stored is refused. */
  lemma AnswerByRow(s: StubState, row: nat, extra: seq<byte>)
    requires row < U32_LIMIT
    ensures AnswerQuery(s, RowQuery(row) + extra) ==
      if row < s.numItems && row * s.rowBytes + s.rowBytes <= |s.db|
      then Ok(s.db[row * s.rowBytes..row * s.rowBytes + s.rowBytes]) else Err(OutOfRange(row, s.numItems))
  {
    PowerLimits();
    LeRoundTrip(row, 4);
    assert (RowQuery(row) + extra)[..4] == RowQuery(row);
  }

  /** A query for a stored row is answered with exactly that row. */
  lemma AnswerIsRow(s: StubState, row: nat)
    requires row < s.numItems <= U32_LIMIT
    requires row * s.rowBytes + s.rowBytes <= |s.db|
    ensures AnswerQuery(s, RowQuery(row)) == Ok(s.db[row * s.rowBytes..row * s.rowBytes + s.rowBytes])
  {
    AnswerByRow(s, row, []);
    assert RowQuery(row) + [] == RowQuery(row);
  }
}
