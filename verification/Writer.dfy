/** The buffered and streaming writer, and what its readers get back. */
module Writer {
  import opened Bytes
  import opened Fragments
  import opened Headers
  import opened ParamCodec
  import opened Readers
  import opened Series

  function Distance(a: nat, b: nat): nat {
    if a <= b then b - a else a - b
  }

  /** The frame size closest to the requested one that readers accept. */
  function ClampedFrame(maxFrame: nat): (size: nat)
    ensures 0 < size <= MAX_FRAME_DATA
    ensures forall v: nat :: 0 < v <= MAX_FRAME_DATA ==> Distance(size, maxFrame) <= Distance(v, maxFrame)
  {
    if maxFrame == 0 then 1 else if maxFrame > MAX_FRAME_DATA then MAX_FRAME_DATA else maxFrame
  }

  /** What the writer appends for a transaction, or why it refuses it. */
  function Written(tx: Transaction, size: nat, maxPayload: nat): Result<bytes, TransactionError>
    requires 0 < size <= MAX_FRAME_DATA
  {
    if tx.header.flags != 0 then Err(InvalidFlags)
    else
      var _ :- Validated(tx.header, tx.payload);
      if tx.header.totalSize > maxPayload then Err(PayloadTooLarge)
      else Ok(WireBytes(FragmentsOf(tx.header, tx.payload, size)))
  }

  /** A source that ends early is a framing error, not an I/O error. */
  function EofAsSizeMismatch(e: TransactionError): TransactionError {
    if e == UnexpectedEof then SizeMismatch else e
  }

  class TransactionWriter {
    var written: bytes
    const maxFrame: nat
    const maxPayload: nat

    ghost predicate Valid() {
      0 < maxFrame <= MAX_FRAME_DATA
    }

    constructor (maxFrame: nat, maxPayload: nat)
      ensures Valid() && written == []
      ensures this.maxFrame == ClampedFrame(maxFrame) && this.maxPayload == maxPayload
    {
      this.written := [];
      this.maxFrame := ClampedFrame(maxFrame);
      this.maxPayload := maxPayload;
    }

    method WriteFrame(h: FrameHeader, chunk: bytes) returns (r: Result<(), TransactionError>)
      modifies this`written
      ensures if |chunk| < 0x1_0000_0000
              then r.Ok? && written == old(written) + FrameBytes(Frame(h.(dataSize := |chunk|), chunk))
              else r == Err(PayloadTooLarge) && written == old(written)
    {
      if |chunk| >= 0x1_0000_0000 {
        return Err(PayloadTooLarge);
      }
      var frameHeader := h.(dataSize := |chunk|);
      written := written + HeaderBytes(frameHeader);
      written := written + chunk;
      return Ok(());
    }

    method WriteTransaction(tx: Transaction) returns (r: Result<(), TransactionError>)
      requires Valid()
      modifies this`written
      ensures match Written(tx, maxFrame, maxPayload)
              case Ok(b) => r.Ok? && written == old(written) + b
              case Err(e) => r == Err(e) && written == old(written)
    {
      hide Validated, FrameBytes, WireFrom, FragmentsOf, WireBytes;
      if tx.header.flags != 0 {
        return Err(InvalidFlags);
      }
      var _ :- ValidatePayloadParts(tx.header, tx.payload);
      if tx.header.totalSize > maxPayload {
        return Err(PayloadTooLarge);
      }
      WireFromEnds(tx.header, tx.payload, maxFrame);
      if tx.payload == [] {
        var _ := WriteFrame(tx.header, []);
        return Ok(());
      }
      var offset := 0;
      ghost var all := WireFrom(tx.header, tx.payload, maxFrame, 0);
      ghost var sent: bytes := [];
      assert sent + all == all && written + sent == written;
      while offset < |tx.payload|
        invariant offset <= |tx.payload|
        invariant written == old(written) + sent
        invariant sent + WireFrom(tx.header, tx.payload, maxFrame, offset) == all
      {
        var end := Min(offset + maxFrame, |tx.payload|);
        EmitStep(sent, all, tx.header, tx.payload, maxFrame, offset);
        var chunk := tx.payload[offset..end];
        ghost var wire := FrameBytes(Frame(tx.header.(dataSize := |chunk|), chunk));
        var _ := WriteFrame(tx.header, chunk);
        assert (old(written) + sent) + wire == old(written) + (sent + wire);
        sent := sent + wire;
        offset := end;
      }
      return Ok(());
    }

    /** Copies `header.totalSize` bytes of `source` into frames without looking inside them. */
    method WriteStreaming(header: FrameHeader, source: ByteSource)
      returns (r: Result<(), TransactionError>)
      requires Valid()
      modifies this`written, source
      ensures header.flags != 0 ==> r == Err(InvalidFlags) && written == old(written)
      ensures header.flags == 0 && header.totalSize > maxPayload ==>
                r == Err(PayloadTooLarge) && written == old(written)
      ensures header.flags == 0 && header.totalSize <= maxPayload ==>
                if |old(source.data)| < header.totalSize
                then r == Err(SizeMismatch)
                     && written == old(written) + WholeFrames(header, old(source.data), maxFrame)
                else r.Ok? && source.data == old(source.data)[header.totalSize..]
                     && written == old(written)
                        + WireBytes(FragmentsOf(header, old(source.data)[..header.totalSize], maxFrame))
    {
      hide FrameBytes, StreamFrom, FragmentsOf, WireBytes, WholeFrames;
      if header.flags != 0 {
        return Err(InvalidFlags);
      }
      var total := header.totalSize;
      if total > maxPayload {
        return Err(PayloadTooLarge);
      }
      ghost var input := source.data;
      if total == 0 {
        WireFromEnds(header, [], maxFrame);
        assert source.data[0..] == source.data;
        var _ := WriteFrame(header, []);
        return Ok(());
      }
      StreamStarts(header, input, total, maxFrame);
      ghost var all := StreamFrom(header, input, total, maxFrame, 0);
      ghost var emitted: bytes := [];
      assert emitted + all == all && written + emitted == written;
      var sent: u32 := 0;
      while sent < total
        invariant sent <= |input| && sent <= total
        invariant source.data == input[sent..]
        invariant written == old(written) + emitted
        invariant emitted + StreamFrom(header, input, total, maxFrame, sent) == all
      {
        var toRead := Min(total - sent, maxFrame);
        var chunk := source.ReadExact(toRead);
        StreamStep(emitted, all, header, input, total, maxFrame, sent);
        if chunk.Err? {
          return Err(EofAsSizeMismatch(chunk.error));
        }
        assert chunk.value == input[sent..sent + toRead];
        assert source.data == input[sent + toRead..];
        ghost var wire := FrameBytes(Frame(header.(dataSize := |chunk.value|), chunk.value));
        var _ := WriteFrame(header, chunk.value);
        assert (old(written) + emitted) + wire == old(written) + (emitted + wire);
        emitted := emitted + wire;
        sent := sent + toRead;
      }
      StreamEnds(header, input, total, maxFrame);
      assert emitted + [] == emitted;
      return Ok(());
    }
  }

  // ------------------------------------------------------------- round trips

  /** A written transaction is read back, normalised, at any frame size on either side. */
  lemma WrittenIsRead(tx: Transaction, size: nat, maxPayload: nat, rest: bytes, limit: nat)
    requires 0 < size <= MAX_FRAME_DATA
    requires Written(tx, size, maxPayload).Ok? && tx.header.totalSize <= limit
    ensures TransactionAt(Written(tx, size, maxPayload).value + rest, limit)
            == Ok((Transaction(Normalised(tx.header), tx.payload), rest))
  {
    FragmentsAreRead(tx.header, tx.payload, size, rest, limit);
  }

  function WrittenAll(txs: seq<Transaction>, size: nat, maxPayload: nat): Result<bytes, TransactionError>
    requires 0 < size <= MAX_FRAME_DATA
  {
    if txs == [] then Ok([])
    else
      var b :- Written(txs[0], size, maxPayload);
      var more :- WrittenAll(txs[1..], size, maxPayload);
      Ok(b + more)
  }

  /** `n` reads in a row. */
  function ReadMany(s: bytes, n: nat, limit: nat): Result<(seq<Transaction>, bytes), TransactionError>
    decreases n
  {
    if n == 0 then Ok(([], s))
    else
      var (tx, s') :- TransactionAt(s, limit);
      var (txs, rest) :- ReadMany(s', n - 1, limit);
      Ok(([tx] + txs, rest))
  }

  function NormalisedAll(txs: seq<Transaction>): (r: seq<Transaction>)
    ensures |r| == |txs|
    ensures forall i :: 0 <= i < |txs| ==> r[i] == Transaction(Normalised(txs[i].header), txs[i].payload)
  {
    if txs == [] then [] else [Transaction(Normalised(txs[0].header), txs[0].payload)] + NormalisedAll(txs[1..])
  }

  /** Any list the writer accepts within the reader's limit is read back, nothing left over. */
  lemma {:induction false} WriteThenRead(txs: seq<Transaction>, maxFrame: nat, maxPayload: nat, rest: bytes, limit: nat)
    requires WrittenAll(txs, ClampedFrame(maxFrame), maxPayload).Ok?
    requires forall i :: 0 <= i < |txs| ==> txs[i].header.totalSize <= limit
    ensures ReadMany(WrittenAll(txs, ClampedFrame(maxFrame), maxPayload).value + rest, |txs|, limit)
            == Ok((NormalisedAll(txs), rest))
    decreases |txs|
  {
    hide Written, TransactionAt;
    var size := ClampedFrame(maxFrame);
    if txs == [] {
      assert [] + rest == rest;
    } else {
      var b := Written(txs[0], size, maxPayload).value;
      var more := WrittenAll(txs[1..], size, maxPayload).value;
      assert (b + more) + rest == b + (more + rest);
      WrittenIsRead(txs[0], size, maxPayload, more + rest, limit);
      WriteThenRead(txs[1..], maxFrame, maxPayload, rest, limit);
    }
  }

  /** Streaming a source through the writer and back through the streaming reader. */
  method CopyThroughStream(header: FrameHeader, payload: bytes, maxFrame: nat, limit: nat)
    returns (r: Result<(FrameHeader, seq<TransactionFragment>), TransactionError>)
    requires header.flags == 0 && header.totalSize == |payload| <= limit
    ensures r.Ok? && Normalised(r.value.0) == Normalised(header) && Cuts(r.value.1, payload)
  {
    var writer := new TransactionWriter(maxFrame, limit);
    var source := new ByteSource(payload);
    var w := writer.WriteStreaming(header, source);
    assert payload[..|payload|] == payload;
    var sink := new ByteSource(writer.written);
    FragmentsAreRead(header, payload, writer.maxFrame, [], limit);
    assert writer.written == WireBytes(FragmentsOf(header, payload, writer.maxFrame)) + [];
    r := ReadStreaming(sink, limit);
  }
}
