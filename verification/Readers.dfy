/** The buffered reader and the streaming reader over one byte source. */
module Readers {
  import opened Bytes
  import opened Headers
  import opened ParamCodec
  import opened Series

  datatype Transaction = Transaction(header: FrameHeader, payload: bytes)

  /** A transport whose remaining bytes are known; it only ever advances. */
  class ByteSource {
    var data: bytes

    constructor (data: bytes)
      ensures this.data == data
    {
      this.data := data;
    }

    method ReadExact(n: nat) returns (r: Result<bytes, TransactionError>)
      modifies this
      ensures if n <= |old(data)| then r == Ok(old(data)[..n]) && data == old(data)[n..]
              else r == Err(UnexpectedEof) && data == []
    {
      if n > |data| {
        data := [];
        return Err(UnexpectedEof);
      }
      r := Ok(data[..n]);
      data := data[n..];
    }
  }

  method ReadFrame(src: ByteSource, limit: nat) returns (r: Result<Frame, TransactionError>)
    modifies src
    ensures match FrameAt(old(src.data), limit)
            case Ok((f, rest)) => r == Ok(f) && src.data == rest
            case Err(e) => r == Err(e)
  {
    var head :- src.ReadExact(HEADER_LEN);
    var h := HeaderOf(head);
    if h.totalSize > limit {
      return Err(PayloadTooLarge);
    }
    if h.dataSize > MAX_FRAME_DATA {
      return Err(PayloadTooLarge);
    }
    ghost var behind := src.data;
    var data :- src.ReadExact(h.dataSize);
    assert old(src.data)[HEADER_LEN..HEADER_LEN + h.dataSize] == behind[..h.dataSize];
    assert old(src.data)[HEADER_LEN + h.dataSize..] == behind[h.dataSize..];
    return Ok(Frame(h, data));
  }

  // --------------------------------------------------------- buffered reader

  /** The frame phase followed by validation of the assembled payload. */
  function TransactionAt(s: bytes, limit: nat): Result<(Transaction, bytes), TransactionError> {
    var a :- FramePhase(s, limit);
    var _ :- Validated(a.header, a.payload);
    Ok((Transaction(a.header, a.payload), a.rest))
  }

  class TransactionReader {
    const reader: ByteSource
    const maxPayload: nat

    constructor (reader: ByteSource, maxPayload: nat)
      ensures this.reader == reader && this.maxPayload == maxPayload
    {
      this.reader := reader;
      this.maxPayload := maxPayload;
    }

    method ReadTransaction() returns (r: Result<Transaction, TransactionError>)
      modifies reader
      ensures match TransactionAt(old(reader.data), maxPayload)
              case Ok((tx, rest)) => r == Ok(tx) && reader.data == rest
              case Err(e) => r == Err(e)
    {
      hide FrameAt, HeaderBytes, HeaderOf, Validated;
      var first :- ReadFrame(reader, maxPayload);
      var header, payload := first.header, first.data;
      var _ :- FirstHeaderChecked(header, maxPayload);
      var remaining: nat := header.totalSize - header.dataSize;
      ghost var whole := Behind(payload, Continuations(header, reader.data, maxPayload, remaining));
      while remaining > 0
        invariant whole == Behind(payload, Continuations(header, reader.data, maxPayload, remaining))
        decreases remaining
      {
        var next :- ReadFrame(reader, maxPayload);
        var _ :- ContinuationChecked(header, next.header, remaining);
        BehindAssoc(payload, next.data,
                    Continuations(header, reader.data, maxPayload, remaining - next.header.dataSize));
        payload := payload + next.data;
        remaining := remaining - next.header.dataSize;
      }
      assert payload + [] == payload;
      header := Normalised(header);
      var _ :- ValidatePayloadParts(header, payload);
      return Ok(Transaction(header, payload));
    }
  }

  /** Payload bytes already collected in front of what the rest of the series yields. */
  function Behind<E>(p: bytes, r: Result<(bytes, bytes), E>): Result<(bytes, bytes), E> {
    if r.Ok? then Ok((p + r.value.0, r.value.1)) else r
  }

  lemma BehindAssoc<E>(p: bytes, q: bytes, r: Result<(bytes, bytes), E>)
    ensures Behind(p, Behind(q, r)) == Behind(p + q, r)
  {
    if r.Ok? {
      assert p + (q + r.value.0) == (p + q) + r.value.0;
    }
  }

  // -------------------------------------------------------- streaming reader

  datatype TransactionFragment = TransactionFragment(
    header: FrameHeader,
    payload: bytes,
    offset: u32,
    isLast: bool)

  function Joined(fragments: seq<TransactionFragment>): bytes {
    if fragments == [] then []
    else Joined(fragments[..|fragments| - 1]) + fragments[|fragments| - 1].payload
  }

  /** The fragments cut `payload` into consecutive pieces and flag exactly the last one. */
  predicate Cuts(fragments: seq<TransactionFragment>, payload: bytes) {
    fragments != [] && Joined(fragments) == payload
    && AllInPlace(fragments, true)
  }

  predicate AllInPlace(fragments: seq<TransactionFragment>, complete: bool) {
    forall i: nat :: i < |fragments| ==> InPlace(fragments, i, complete)
  }

  /** Fragment `i` starts where those before it end, and is flagged only as the last of all. */
  predicate InPlace(fragments: seq<TransactionFragment>, i: nat, complete: bool)
    requires i < |fragments|
  {
    fragments[i].offset == |Joined(fragments[..i])|
    && (fragments[i].isLast <==> complete && i == |fragments| - 1)
  }

  lemma InPlaceExtends(fragments: seq<TransactionFragment>, f: TransactionFragment, complete: bool)
    requires AllInPlace(fragments, false)
    requires f.offset == |Joined(fragments)| && f.isLast == complete
    ensures AllInPlace(fragments + [f], complete)
    ensures Joined(fragments + [f]) == Joined(fragments) + f.payload
  {
    var all := fragments + [f];
    assert all[..|fragments|] == fragments;
    forall i: nat | i < |all| ensures InPlace(all, i, complete) {
      if i < |fragments| {
        assert InPlace(fragments, i, false);
        assert all[..i] == fragments[..i];
      }
    }
  }

  class StreamingTransaction {
    const reader: ByteSource
    const firstHeader: FrameHeader
    const maxTotal: nat
    var remaining: u32
    var offset: u32
    var pendingFirst: Option<bytes>

    /** Bytes handed out, bytes held back and bytes still to come add up to the total. */
    ghost predicate Valid()
      reads this
    {
      match pendingFirst
      case Some(d) =>
        offset == 0 && |d| == firstHeader.dataSize && |d| + remaining == firstHeader.totalSize
      case None =>
        offset as int + remaining == firstHeader.totalSize
    }

    /** The payload bytes still to be yielded and the stream behind them. */
    ghost function Ahead(): Result<(bytes, bytes), TransactionError>
      reads this, reader
    {
      Behind(if pendingFirst.Some? then pendingFirst.value else [],
             Continuations(firstHeader, reader.data, maxTotal, remaining))
    }

    /** Reads and checks the first frame, which the caller has already taken off `reader`. */
    constructor (reader: ByteSource, first: Frame, maxTotal: nat)
      requires first.header.dataSize == |first.data| <= first.header.totalSize
      ensures Valid() && this.reader == reader && firstHeader == first.header
      ensures pendingFirst == Some(first.data) && this.maxTotal == maxTotal
      ensures remaining == first.header.totalSize - first.header.dataSize
    {
      this.reader := reader;
      this.firstHeader := first.header;
      this.maxTotal := maxTotal;
      this.remaining := first.header.totalSize - first.header.dataSize;
      this.offset := 0;
      this.pendingFirst := Some(first.data);
    }

    method NextFragment() returns (r: Result<Option<TransactionFragment>, TransactionError>)
      requires Valid()
      modifies this, reader
      ensures match r
              case Err(e) => old(Ahead()) == Err(e)
              case Ok(None) =>
                old(pendingFirst).None? && old(remaining) == 0
                && unchanged(this) && unchanged(reader)
                && Ahead() == Ok(([], reader.data))
              case Ok(Some(f)) =>
                Valid() && pendingFirst.None?
                && (old(pendingFirst).Some? || 0 < |f.payload| <= old(remaining))
                && remaining == old(remaining) - (if old(pendingFirst).Some? then 0 else |f.payload|)
                && old(Ahead()) == Behind(f.payload, Ahead())
                && SameTransaction(firstHeader, f.header) && f.header.dataSize == |f.payload|
                && f.offset == old(offset) && offset == f.offset as int + |f.payload|
                && (f.isLast <==> remaining == 0)
    {
      hide FrameAt, HeaderBytes, HeaderOf;
      if pendingFirst.Some? {
        var first := pendingFirst.value;
        pendingFirst := None;
        offset := firstHeader.dataSize;
        BehindAssoc(first, [], Continuations(firstHeader, reader.data, maxTotal, remaining));
        assert first + [] == first;
        return Ok(Some(TransactionFragment(firstHeader, first, 0, remaining == 0)));
      }
      if remaining == 0 {
        BehindNothing(Ok(([], reader.data)));
        return Ok(None);
      }
      ghost var input := reader.data;
      var next :- ReadFrame(reader, maxTotal);
      var _ :- ContinuationChecked(firstHeader, next.header, remaining);
      FrameAtSplits(input, maxTotal);
      var at := offset;
      remaining := remaining - next.header.dataSize;
      offset := offset + next.header.dataSize;
      ghost var behind := Continuations(firstHeader, reader.data, maxTotal, remaining);
      BehindAssoc([], next.data, behind);
      BehindAssoc(next.data, [], behind);
      assert next.data + [] == next.data == [] + next.data;
      return Ok(Some(TransactionFragment(next.header, next.data, at, remaining == 0)));
    }
  }

  /** Takes fragments until none is left. */
  method TakeFragments(stream: StreamingTransaction)
    returns (r: Result<seq<TransactionFragment>, TransactionError>)
    requires stream.Valid() && stream.pendingFirst.Some?
    modifies stream, stream.reader
    ensures match old(stream.Ahead())
            case Err(e) => r == Err(e)
            case Ok((payload, rest)) => r.Ok? && Cuts(r.value, payload) && stream.reader.data == rest
  {
    hide StreamingTransaction.Ahead, InPlace;
    ghost var whole := stream.Ahead();
    var fragments: seq<TransactionFragment> := [];
    BehindNothing(whole);
    while true
      invariant stream.Valid()
      invariant fragments == [] <==> stream.pendingFirst.Some?
      invariant whole == Behind(Joined(fragments), stream.Ahead())
      invariant stream.offset == |Joined(fragments)|
      invariant AllInPlace(fragments, stream.remaining == 0)
      decreases stream.remaining, stream.pendingFirst.Some?
    {
      var next :- stream.NextFragment();
      if next.None? {
        break;
      }
      var f := next.value;
      BehindAssoc(Joined(fragments), f.payload, stream.Ahead());
      InPlaceExtends(fragments, f, stream.remaining == 0);
      fragments := fragments + [f];
    }
    BehindEnd(Joined(fragments), stream.reader.data);
    return Ok(fragments);
  }

  /** Starts a streamed transaction and takes all its fragments. */
  method ReadStreaming(src: ByteSource, maxTotal: nat)
    returns (r: Result<(FrameHeader, seq<TransactionFragment>), TransactionError>)
    modifies src
    ensures match FramePhase(old(src.data), maxTotal)
            case Err(e) => r == Err(e)
            case Ok(a) =>
              r.Ok? && src.data == a.rest && Normalised(r.value.0) == a.header
              && Cuts(r.value.1, a.payload)
  {
    hide FrameAt, HeaderBytes, HeaderOf;
    ghost var input := src.data;
    var first :- ReadFrame(src, maxTotal);
    var _ :- FirstHeaderChecked(first.header, maxTotal);
    FrameAtSplits(input, maxTotal);
    var stream := new StreamingTransaction(src, first, maxTotal);
    var fragments :- TakeFragments(stream);
    return Ok((first.header, fragments));
  }

  lemma BehindEnd(p: bytes, rest: bytes)
    ensures Behind<TransactionError>(p, Ok(([], rest))) == Ok((p, rest))
  {
    assert p + [] == p;
  }

  lemma BehindNothing(r: Result<(bytes, bytes), TransactionError>)
    ensures Behind([], r) == r
  {
    if r.Ok? {
      assert [] + r.value.0 == r.value.0;
    }
  }
}
