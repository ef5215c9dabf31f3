/** The codec of whole transactions: header rules, reassembling decoder, fragmenting encoder. */
module TransactionCodec {
  import opened Bytes
  import opened Fragments
  import opened Headers
  import opened ParamCodec
  import opened Params
  import opened Readers
  import opened Series

  datatype CodecError =
    | BadFlags
    | TotalTooLarge
    | DataTooLarge
    | DataExceedsTotal
    | DataMissing
    | FlagsChanged
    | IsReplyChanged
    | TypeChanged
    | IdChanged
    | ErrorChanged
    | TotalSizeChanged
    | EmptyContinuation
    | ExceedsRemaining
    | TimedOut
    | SequenceOverflow
    | NoActiveSeries
    | FirstFrameExceedsTotal
    | EndOfInput
    | Rejected(reason: TransactionError)

  function ValidHeader(h: FrameHeader): Result<(), CodecError> {
    if h.flags != 0 then Err(BadFlags)
    else if h.totalSize > MAX_PAYLOAD_SIZE then Err(TotalTooLarge)
    else if h.dataSize > MAX_FRAME_DATA then Err(DataTooLarge)
    else if h.dataSize > h.totalSize then Err(DataExceedsTotal)
    else if h.dataSize == 0 && h.totalSize > 0 then Err(DataMissing)
    else Ok(())
  }

  function ConsistentFragment(first: FrameHeader, next: FrameHeader): Result<(), CodecError> {
    if next.flags != first.flags then Err(FlagsChanged)
    else if next.isReply != first.isReply then Err(IsReplyChanged)
    else if next.ty != first.ty then Err(TypeChanged)
    else if next.id != first.id then Err(IdChanged)
    else if next.error != first.error then Err(ErrorChanged)
    else if next.totalSize != first.totalSize then Err(TotalSizeChanged)
    else Ok(())
  }

  /** The two first-header rules and the two continuation rules accept the same headers. */
  lemma HeaderRulesAgree(first: FrameHeader, next: FrameHeader)
    ensures ValidHeader(first).Ok?
            <==> first.dataSize <= MAX_FRAME_DATA && FirstHeaderChecked(first, MAX_PAYLOAD_SIZE).Ok?
    ensures ConsistentFragment(first, next).Ok? <==> HeadersMatch(first, next)
    ensures HeadersMatch(first, next) <==> SameTransaction(first, next)
  {
  }

  // ----------------------------------------------------------------- decoder

  function ReadBytes(s: bytes, n: nat): Result<(bytes, bytes), CodecError> {
    if |s| < n then Err(EndOfInput) else Ok((s[..n], s[n..]))
  }

  function ContinuationAt(first: FrameHeader, s: bytes, remaining: nat)
    : (r: Result<(Frame, bytes), CodecError>)
    ensures r.Ok? ==> 0 < r.value.0.header.dataSize == |r.value.0.data| <= remaining
  {
    var (hdr, s1) :- ReadBytes(s, HEADER_LEN);
    var next := HeaderOf(hdr);
    var _ :- ConsistentFragment(first, next);
    if next.dataSize == 0 then Err(EmptyContinuation)
    else if next.dataSize > MAX_FRAME_DATA then Err(DataTooLarge)
    else if next.dataSize > remaining then Err(ExceedsRemaining)
    else
      var (data, s2) :- ReadBytes(s1, next.dataSize);
      Ok((Frame(next, data), s2))
  }

  function DecodeRest(first: FrameHeader, s: bytes, remaining: nat): Result<(bytes, bytes), CodecError>
    decreases remaining
  {
    if remaining == 0 then Ok(([], s))
    else
      var (f, s') :- ContinuationAt(first, s, remaining);
      var (p, rest) :- DecodeRest(first, s', remaining - f.header.dataSize);
      Ok((f.data + p, rest))
  }

  function Decoded(s: bytes): Result<Assembled, CodecError> {
    var (hdr, s1) :- ReadBytes(s, HEADER_LEN);
    var first := HeaderOf(hdr);
    var _ :- ValidHeader(first);
    var (data, s2) :- ReadBytes(s1, first.dataSize);
    var (p, rest) :- DecodeRest(first, s2, first.totalSize - first.dataSize);
    Ok(Assembled(Normalised(first), data + p, rest))
  }

  method BorrowDecode(src: ByteSource) returns (r: Result<Transaction, CodecError>)
    modifies src
    ensures match Decoded(old(src.data))
            case Ok(a) => r == Ok(Transaction(a.header, a.payload)) && src.data == a.rest
            case Err(e) => r == Err(e)
  {
    hide HeaderOf, HeaderBytes, ContinuationAt;
    var head :- TakeBytes(src, HEADER_LEN);
    var first := HeaderOf(head);
    var _ :- ValidHeader(first);
    var payload :- TakeBytes(src, first.dataSize);
    var accumulated := first.dataSize;
    ghost var whole := Behind(payload, DecodeRest(first, src.data, first.totalSize - accumulated));
    while accumulated < first.totalSize
      invariant accumulated <= first.totalSize
      invariant whole == Behind(payload, DecodeRest(first, src.data, first.totalSize - accumulated))
    {
      var remaining := first.totalSize - accumulated;
      var next :- TakeContinuation(src, first, remaining);
      BehindAssoc(payload, next.data, DecodeRest(first, src.data, remaining - next.header.dataSize));
      payload := payload + next.data;
      accumulated := accumulated + next.header.dataSize;
    }
    assert payload + [] == payload;
    return Ok(Transaction(Normalised(first), payload));
  }

  method TakeContinuation(src: ByteSource, first: FrameHeader, remaining: nat)
    returns (r: Result<Frame, CodecError>)
    modifies src
    ensures match ContinuationAt(first, old(src.data), remaining)
            case Ok((f, rest)) => r == Ok(f) && src.data == rest
            case Err(e) => r == Err(e)
  {
    hide HeaderOf, HeaderBytes;
    var head :- TakeBytes(src, HEADER_LEN);
    var next := HeaderOf(head);
    var _ :- ConsistentFragment(first, next);
    if next.dataSize == 0 {
      return Err(EmptyContinuation);
    }
    if next.dataSize > MAX_FRAME_DATA {
      return Err(DataTooLarge);
    }
    if next.dataSize > remaining {
      return Err(ExceedsRemaining);
    }
    var chunk :- TakeBytes(src, next.dataSize);
    return Ok(Frame(next, chunk));
  }

  method TakeBytes(src: ByteSource, n: nat) returns (r: Result<bytes, CodecError>)
    modifies src
    ensures match ReadBytes(old(src.data), n)
            case Ok((b, rest)) => r == Ok(b) && src.data == rest
            case Err(e) => r == Err(e)
  {
    var b := src.ReadExact(n);
    r := if b.Ok? then Ok(b.value) else Err(EndOfInput);
  }

  // ---------------------------------------- agreement with the buffered reader

  lemma ContinuationAgrees(first: FrameHeader, s: bytes, remaining: nat)
    requires first.totalSize <= MAX_PAYLOAD_SIZE
    ensures var a := ContinuationAt(first, s, remaining);
            var b := FrameAt(s, MAX_PAYLOAD_SIZE);
            (a.Ok? <==> b.Ok? && ContinuationChecked(first, b.value.0.header, remaining).Ok?)
            && (a.Ok? ==> a.value == b.value)
  {
    hide HeaderOf;
    if |s| >= HEADER_LEN {
      var next := HeaderOf(s[..HEADER_LEN]);
      HeaderRulesAgree(first, next);
      var s1 := s[HEADER_LEN..];
      if |s1| >= next.dataSize {
        assert s1[..next.dataSize] == s[HEADER_LEN..HEADER_LEN + next.dataSize];
        assert s1[next.dataSize..] == s[HEADER_LEN + next.dataSize..];
      }
    }
  }

  lemma {:induction false} RestAgrees(first: FrameHeader, s: bytes, remaining: nat)
    requires first.totalSize <= MAX_PAYLOAD_SIZE
    ensures var a := DecodeRest(first, s, remaining);
            var b := Continuations(first, s, MAX_PAYLOAD_SIZE, remaining);
            (a.Ok? <==> b.Ok?) && (a.Ok? ==> a.value == b.value)
    decreases remaining
  {
    hide FrameAt, ContinuationAt;
    if remaining > 0 {
      ContinuationAgrees(first, s, remaining);
      var c := ContinuationAt(first, s, remaining);
      if c.Ok? {
        RestAgrees(first, c.value.1, remaining - c.value.0.header.dataSize);
      }
    }
  }

  /** The codec accepts the streams the reader accepts, consuming and returning the same. */
  lemma DecodedAgrees(s: bytes, a: Assembled)
    ensures Decoded(s) == Ok(a) <==> FramePhase(s, MAX_PAYLOAD_SIZE) == Ok(a)
    ensures Decoded(s) == Ok(a) <==> Encodes(s, MAX_PAYLOAD_SIZE, a)
  {
    hide HeaderOf, DecodeRest, Continuations;
    FramePhaseIsGrammar(s, MAX_PAYLOAD_SIZE, a);
    if |s| >= HEADER_LEN {
      var first := HeaderOf(s[..HEADER_LEN]);
      HeaderRulesAgree(first, first);
      var s1 := s[HEADER_LEN..];
      if |s1| >= first.dataSize && ValidHeader(first).Ok? {
        assert s1[..first.dataSize] == s[HEADER_LEN..HEADER_LEN + first.dataSize];
        assert s1[first.dataSize..] == s[HEADER_LEN + first.dataSize..];
        RestAgrees(first, s1[first.dataSize..], first.totalSize - first.dataSize);
      }
    }
  }

  // ---------------------------------------------------------------- first fault

  /** What the codec reports of an opening header, in its numbers. */
  lemma OpeningRefused(h: FrameHeader, rest: bytes)
    ensures var r := Decoded(HeaderBytes(h) + rest);
            if h.flags != 0 then r == Err(BadFlags)
            else if h.totalSize > 1_048_576 then r == Err(TotalTooLarge)
            else if h.dataSize > 32_768 then r == Err(DataTooLarge)
            else if h.dataSize > h.totalSize then r == Err(DataExceedsTotal)
            else if h.dataSize == 0 && h.totalSize > 0 then r == Err(DataMissing)
            else |rest| < h.dataSize ==> r == Err(EndOfInput)
  {
    hide HeaderOf, HeaderBytes, DecodeRest;
    HeaderTaken(h, rest);
  }

  lemma HeaderTaken(h: FrameHeader, rest: bytes)
    ensures ReadBytes(HeaderBytes(h) + rest, HEADER_LEN) == Ok((HeaderBytes(h), rest))
    ensures HeaderOf(HeaderBytes(h)) == h
  {
    hide HeaderOf, HeaderBytes;
    var s := HeaderBytes(h) + rest;
    assert s[..HEADER_LEN] == HeaderBytes(h) && s[HEADER_LEN..] == rest;
    HeaderRoundTrip(h, s[..HEADER_LEN]);
  }

  /** What it reports of the header behind an unfinished series that owes `owed` bytes. */
  function ContinuationFault(first: FrameHeader, h: FrameHeader, owed: nat, have: nat): Option<CodecError> {
    if h.flags != first.flags then Some(FlagsChanged)
    else if h.isReply != first.isReply then Some(IsReplyChanged)
    else if h.ty != first.ty then Some(TypeChanged)
    else if h.id != first.id then Some(IdChanged)
    else if h.error != first.error then Some(ErrorChanged)
    else if h.totalSize != first.totalSize then Some(TotalSizeChanged)
    else if h.dataSize == 0 then Some(EmptyContinuation)
    else if h.dataSize > 32_768 then Some(DataTooLarge)
    else if h.dataSize > owed then Some(ExceedsRemaining)
    else if have < h.dataSize then Some(EndOfInput)
    else None
  }

  lemma RestRefused(first: FrameHeader, h: FrameHeader, rest: bytes, owed: nat)
    requires owed > 0 && ContinuationFault(first, h, owed, |rest|).Some?
    ensures DecodeRest(first, HeaderBytes(h) + rest, owed) == Err(ContinuationFault(first, h, owed, |rest|).value)
  {
    hide HeaderOf, HeaderBytes;
    HeaderTaken(h, rest);
  }

  lemma {:induction false} RestAbsorbs(fs: seq<Frame>, first: FrameHeader, tail: bytes, remaining: nat)
    requires IsTail(fs, first, |PayloadOf(fs)|) && |PayloadOf(fs)| <= remaining
    requires first.totalSize <= MAX_PAYLOAD_SIZE
    ensures var r := DecodeRest(first, tail, remaining - |PayloadOf(fs)|);
            r.Err? ==> DecodeRest(first, WireBytes(fs) + tail, remaining) == Err(r.error)
    decreases |fs|
  {
    hide FrameAt, FrameBytes, ContinuationAt;
    if fs == [] {
      assert WireBytes(fs) + tail == tail;
    } else {
      var s := WireBytes(fs[1..]) + tail;
      assert WireBytes(fs) + tail == FrameBytes(fs[0]) + s;
      FrameAtPrinted(fs[0], s, MAX_PAYLOAD_SIZE);
      ContinuationAgrees(first, FrameBytes(fs[0]) + s, remaining);
      RestAbsorbs(fs[1..], first, tail, remaining - |fs[0].data|);
    }
  }

  lemma OpeningDecodes(first: Frame, s: bytes)
    requires FirstHeaderChecked(first.header, MAX_PAYLOAD_SIZE).Ok? && FrameOf(first, first.header)
    ensures var r := DecodeRest(first.header, s, first.header.totalSize - |first.data|);
            r.Err? ==> Decoded(FrameBytes(first) + s) == Err(r.error)
  {
    hide HeaderOf, HeaderBytes, DecodeRest;
    assert FrameBytes(first) + s == HeaderBytes(first.header) + (first.data + s);
    HeaderTaken(first.header, first.data + s);
    HeaderRulesAgree(first.header, first.header);
    assert (first.data + s)[..|first.data|] == first.data && (first.data + s)[|first.data|..] == s;
  }

  lemma UnfinishedParts(fs: seq<Frame>, tail: bytes)
    requires Unfinished(fs, MAX_PAYLOAD_SIZE)
    ensures fs != [] && |PayloadOf(fs)| == |fs[0].data| + |PayloadOf(fs[1..])| < fs[0].header.totalSize
    ensures FirstHeaderChecked(fs[0].header, MAX_PAYLOAD_SIZE).Ok? && FrameOf(fs[0], fs[0].header)
    ensures IsTail(fs[1..], fs[0].header, |PayloadOf(fs[1..])|) && fs[0].header.totalSize <= MAX_PAYLOAD_SIZE
    ensures WireBytes(fs) + tail == FrameBytes(fs[0]) + (WireBytes(fs[1..]) + tail)
  {
    hide FrameBytes, IsTail;
    assert PayloadOf(fs) == fs[0].data + PayloadOf(fs[1..]);
    assert WireBytes(fs) == FrameBytes(fs[0]) + WireBytes(fs[1..]);
    assert (FrameBytes(fs[0]) + WireBytes(fs[1..])) + tail == FrameBytes(fs[0]) + (WireBytes(fs[1..]) + tail);
  }

  /** The first header that does not continue an unfinished series decides the codec's error. */
  lemma ContinuationRefused(fs: seq<Frame>, h: FrameHeader, rest: bytes)
    requires Unfinished(fs, MAX_PAYLOAD_SIZE)
    ensures var fault := ContinuationFault(fs[0].header, h, fs[0].header.totalSize - |PayloadOf(fs)|, |rest|);
            fault.Some? ==> Decoded(WireBytes(fs) + (HeaderBytes(h) + rest)) == Err(fault.value)
  {
    hide FrameBytes, HeaderBytes, DecodeRest, Decoded, ContinuationFault, IsTail, FirstHeaderChecked;
    hide Unfinished, WireBytes, PayloadOf, FrameOf;
    var tail := HeaderBytes(h) + rest;
    UnfinishedParts(fs, tail);
    var first, more := fs[0], fs[1..];
    var owed := first.header.totalSize - |PayloadOf(fs)|;
    if ContinuationFault(first.header, h, owed, |rest|).Some? {
      RestRefused(first.header, h, rest, owed);
      RestAbsorbs(more, first.header, tail, first.header.totalSize - |first.data|);
      OpeningDecodes(first, WireBytes(more) + tail);
    }
  }

  // ------------------------------------------------------------ construction

  /** Pre-assembled parts, checked as if they were one physical frame. */
  function FromParts(h: FrameHeader, payload: bytes): Result<Transaction, TransactionError> {
    if h.flags != 0 then Err(InvalidFlags)
    else if h.totalSize > MAX_PAYLOAD_SIZE || h.dataSize > MAX_FRAME_DATA then Err(PayloadTooLarge)
    else if h.dataSize > h.totalSize || (h.dataSize == 0 && h.totalSize > 0) then Err(SizeMismatch)
    else
      var _ :- Validated(h, payload);
      Ok(Transaction(h, payload))
  }

  function FromTransaction(tx: Transaction): Result<Transaction, TransactionError> {
    if tx.header.flags != 0 then Err(InvalidFlags)
    else if |tx.payload| > MAX_PAYLOAD_SIZE then Err(PayloadTooLarge)
    else
      var _ :- Validated(tx.header, tx.payload);
      Ok(Transaction(Normalised(tx.header), tx.payload))
  }

  /** A parameter list under a header whose sizes are filled in; no parameters, no payload. */
  function FromParams(h: FrameHeader, ps: seq<Param>): Result<Transaction, TransactionError> {
    if h.flags != 0 then Err(InvalidFlags)
    else
      var payload :- if ps == [] then Ok([]) else BlockOf(ps);
      if |payload| > MAX_PAYLOAD_SIZE then Err(PayloadTooLarge)
      else
        var sized := h.(totalSize := |payload|, dataSize := |payload|);
        var _ :- Validated(sized, payload);
        Ok(Transaction(sized, payload))
  }

  // ---------------------------------------------------------------- encoders

  /** What every fragmenter emits at the default frame size. */
  function DefaultWire(tx: Transaction): bytes {
    WireBytes(FragmentsOf(tx.header, tx.payload, MAX_FRAME_DATA))
  }

  /** The encoder of whole transactions; it insists on an honest total size. */
  function Encoded(tx: Transaction): Result<bytes, TransactionError> {
    if tx.header.flags != 0 then Err(InvalidFlags)
    else if |tx.payload| > MAX_PAYLOAD_SIZE then Err(PayloadTooLarge)
    else if tx.header.totalSize != |tx.payload| then Err(SizeMismatch)
    else Ok(DefaultWire(tx))
  }

  method Encode(tx: Transaction) returns (r: Result<bytes, TransactionError>)
    ensures r == Encoded(tx)
  {
    hide FrameBytes, WireFrom, FragmentsOf, WireBytes;
    if tx.header.flags != 0 {
      return Err(InvalidFlags);
    }
    if |tx.payload| > MAX_PAYLOAD_SIZE {
      return Err(PayloadTooLarge);
    }
    if tx.header.totalSize != |tx.payload| {
      return Err(SizeMismatch);
    }
    WireFromEnds(tx.header, tx.payload, MAX_FRAME_DATA);
    if tx.payload == [] {
      var header := tx.header.(dataSize := 0);
      EmptyFrameBytes(header);
      return Ok(HeaderBytes(header));
    }
    var out: bytes := [];
    var ranges := FragmentRanges(|tx.payload|);
    assert [] + DefaultWire(tx) == DefaultWire(tx);
    ghost var done := 0;
    for i := 0 to |ranges|
      invariant 0 <= done == Min(i * MAX_FRAME_DATA, |tx.payload|)
      invariant out + WireFrom(tx.header, tx.payload, MAX_FRAME_DATA, done) == DefaultWire(tx)
    {
      assert RangeAt(ranges, i, |tx.payload|);
      var (offset, len) := ranges[i];
      var chunk := tx.payload[offset..offset + len];
      var header := tx.header.(dataSize := |chunk|);
      EmitStep(out, DefaultWire(tx), tx.header, tx.payload, MAX_FRAME_DATA, offset);
      FrameBytesSplit(out, header, chunk);
      out := out + HeaderBytes(header);
      out := out + chunk;
      done := offset + len;
    }
    return Ok(out);
  }

  lemma FrameBytesSplit(out: bytes, h: FrameHeader, chunk: bytes)
    ensures out + HeaderBytes(h) + chunk == out + FrameBytes(Frame(h, chunk))
  {
  }

  lemma EmptyFrameBytes(h: FrameHeader)
    ensures HeaderBytes(h) == FrameBytes(Frame(h, []))
  {
  }
}
