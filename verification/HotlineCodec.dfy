/** The buffered codec of whole transactions: reassembly on decode, fragmenting on encode. */
module HotlineCodec {
  import opened Bytes
  import opened FrameDecoder
  import opened Fragments
  import FrameStream
  import opened Headers
  import opened ParamCodec
  import opened Params
  import opened Readers
  import opened Series
  import opened TransactionCodec
  import opened WireBlocks
  import opened Writer

  datatype Reassembly = Reassembly(firstHeader: FrameHeader, payload: bytes)

  datatype CodecStep =
    | Waiting(state: Option<Reassembly>, buf: bytes)
    | Broken(error: CodecError, state: Option<Reassembly>, buf: bytes)
    | Item(tx: Transaction, state: Option<Reassembly>, buf: bytes)

  function Finalized(h: FrameHeader, payload: bytes, rest: bytes): CodecStep {
    match FromParts(Normalised(h), payload)
    case Ok(tx) => Item(tx, None, rest)
    case Err(e) => Broken(Rejected(e), None, rest)
  }

  function Appended(st: Reassembly, f: Frame): Result<Reassembly, CodecError> {
    var _ :- ConsistentFragment(st.firstHeader, f.header);
    if f.header.dataSize == 0 then Err(EmptyContinuation)
    else if st.firstHeader.totalSize < |st.payload| then Err(FirstFrameExceedsTotal)
    else if f.header.dataSize > st.firstHeader.totalSize - |st.payload| then Err(ExceedsRemaining)
    else Ok(st.(payload := st.payload + f.data))
  }

  function DecodeNext(st: Option<Reassembly>, buf: bytes): (s: CodecStep)
    ensures !s.Broken? ==> |s.buf| <= |buf|
    ensures s.Item? ==> |s.buf| < |buf|
  {
    match FrameIn(buf)
    case Err(e) => Broken(e, st, buf)
    case Ok(None) => Waiting(st, buf)
    case Ok(Some((f, rest))) =>
      if st.Some? then
        match Appended(st.value, f)
        case Err(e) => Broken(e, st, rest)
        case Ok(st') =>
          if |st'.payload| == st'.firstHeader.totalSize
          then Finalized(st'.firstHeader, st'.payload, rest)
          else Waiting(Some(st'), rest)
      else if f.header.dataSize < f.header.totalSize then
        Waiting(Some(Reassembly(f.header, f.data)), rest)
      else
        Finalized(f.header, f.data, rest)
  }

  /** A step at end of input, where whatever is still unfinished after it is an error. */
  function DecodeLast(st: Option<Reassembly>, buf: bytes): (s: CodecStep)
    ensures s.Item? ==> |s.buf| < |buf|
  {
    match DecodeNext(st, buf)
    case Waiting(st', buf') =>
      if st'.Some? || buf' != [] then Broken(EndOfInput, st', buf') else Waiting(st', buf')
    case s => s
  }

  function CodecEncoded(tx: Transaction): Result<bytes, TransactionError> {
    if tx.header.flags != 0 then Err(InvalidFlags)
    else if |tx.payload| > MAX_PAYLOAD_SIZE then Err(PayloadTooLarge)
    else Ok(DefaultWire(tx))
  }

  class Codec {
    var reassembly: Option<Reassembly>

    constructor ()
      ensures reassembly == None
    {
      reassembly := None;
    }

    method Decode(src: ByteBuffer) returns (r: Result<Option<Transaction>, CodecError>)
      modifies this, src
      ensures match DecodeNext(old(reassembly), old(src.data))
              case Waiting(st, buf) => r == Ok(None) && reassembly == st && src.data == buf
              case Broken(e, st, buf) => r == Err(e) && reassembly == st && src.data == buf
              case Item(tx, st, buf) => r == Ok(Some(tx)) && reassembly == st && src.data == buf
    {
      hide FrameIn, FromParts;
      var taken :- TakeHotlineFrame(src);
      if taken.None? {
        return Ok(None);
      }
      var f := taken.value;
      if reassembly.Some? {
        var appended :- Appended(reassembly.value, f);
        reassembly := Some(appended);
        if |appended.payload| != appended.firstHeader.totalSize {
          return Ok(None);
        }
        reassembly := None;
        r := Finalize(appended.firstHeader, appended.payload);
        return;
      }
      if f.header.dataSize < f.header.totalSize {
        reassembly := Some(Reassembly(f.header, f.data));
        return Ok(None);
      }
      r := Finalize(f.header, f.data);
    }

    /** The last calls, once no more bytes can come. */
    method DecodeEof(src: ByteBuffer) returns (r: Result<Option<Transaction>, CodecError>)
      modifies this, src
      ensures match DecodeLast(old(reassembly), old(src.data))
              case Waiting(st, buf) => r == Ok(None) && reassembly == st && src.data == buf
              case Broken(e, st, buf) => r == Err(e) && reassembly == st && src.data == buf
              case Item(tx, st, buf) => r == Ok(Some(tx)) && reassembly == st && src.data == buf
    {
      var item :- Decode(src);
      if item.Some? {
        return Ok(item);
      }
      if reassembly.Some? || src.data != [] {
        return Err(EndOfInput);
      }
      return Ok(None);
    }

    /** Appends the frames of a transaction; unlike the other encoders it trusts the total size. */
    method Encode(tx: Transaction, dst: ByteBuffer) returns (r: Result<(), TransactionError>)
      modifies dst
      ensures match CodecEncoded(tx)
              case Ok(b) => r.Ok? && dst.data == old(dst.data) + b
              case Err(e) => r == Err(e) && dst.data == old(dst.data)
    {
      hide FrameBytes, WireFrom, FragmentsOf, WireBytes;
      if tx.header.flags != 0 {
        return Err(InvalidFlags);
      }
      if |tx.payload| > MAX_PAYLOAD_SIZE {
        return Err(PayloadTooLarge);
      }
      WireFromEnds(tx.header, tx.payload, MAX_FRAME_DATA);
      if tx.payload == [] {
        EmptyFrameBytes(tx.header.(dataSize := 0));
        dst.Append(HeaderBytes(tx.header.(dataSize := 0)));
        return Ok(());
      }
      ghost var all := DefaultWire(tx);
      ghost var sent: bytes := [];
      assert sent + all == all && dst.data + sent == dst.data;
      var offset := 0;
      while offset < |tx.payload|
        invariant offset <= |tx.payload|
        invariant dst.data == old(dst.data) + sent
        invariant sent + WireFrom(tx.header, tx.payload, MAX_FRAME_DATA, offset) == all
      {
        var end := Min(offset + MAX_FRAME_DATA, |tx.payload|);
        var chunk := tx.payload[offset..end];
        var header := tx.header.(dataSize := |chunk|);
        EmitStep(sent, all, tx.header, tx.payload, MAX_FRAME_DATA, offset);
        FrameBytesSplit(dst.data, header, chunk);
        ghost var wire := FrameBytes(Frame(header, chunk));
        assert (old(dst.data) + sent) + wire == old(dst.data) + (sent + wire);
        dst.Append(HeaderBytes(header));
        dst.Append(chunk);
        sent := sent + wire;
        offset := end;
      }
      return Ok(());
    }
  }

  method Finalize(h: FrameHeader, payload: bytes) returns (r: Result<Option<Transaction>, CodecError>)
    ensures match FromParts(Normalised(h), payload)
            case Ok(tx) => r == Ok(Some(tx))
            case Err(e) => r == Err(Rejected(e))
  {
    var tx := FromParts(Normalised(h), payload);
    r := if tx.Ok? then Ok(Some(tx.value)) else Err(Rejected(tx.error));
  }

  // ----------------------------------------------- agreement with the reader

  /** Calls the decoder until it yields, fails, or stops consuming. */
  function RunCodec(st: Option<Reassembly>, buf: bytes): Result<(Transaction, bytes), CodecError>
    decreases |buf|
  {
    match DecodeNext(st, buf)
    case Item(tx, _, rest) => Ok((tx, rest))
    case Broken(e, _, _) => Err(e)
    case Waiting(st', buf') => if |buf'| < |buf| then RunCodec(st', buf') else Err(EndOfInput)
  }

  predicate Partial(st: Reassembly) {
    ValidHeader(st.firstHeader).Ok? && |st.payload| < st.firstHeader.totalSize
  }

  function StepResult(s: CodecStep): Result<(Transaction, bytes), CodecError> {
    match s
    case Item(tx, _, rest) => Ok((tx, rest))
    case Broken(e, _, _) => Err(e)
    case Waiting(_, _) => Err(EndOfInput)
  }

  lemma AppendAgrees(st: Reassembly, s: bytes)
    requires Partial(st)
    ensures var b := FrameAt(s, MAX_PAYLOAD_SIZE);
            var a := FrameIn(s);
            var remaining := st.firstHeader.totalSize - |st.payload|;
            (a.Ok? && a.value.Some? && Appended(st, a.value.value.0).Ok?
             <==> b.Ok? && ContinuationChecked(st.firstHeader, b.value.0.header, remaining).Ok?)
            && (a.Ok? && a.value.Some? && Appended(st, a.value.value.0).Ok? ==>
                  a.value.value == b.value
                  && b.value.0.header.dataSize == |b.value.0.data| && 0 < |b.value.0.data| <= remaining
                  && Appended(st, b.value.0) == Ok(st.(payload := st.payload + b.value.0.data)))
  {
    hide FrameAt, FrameIn, HeaderOf;
    FrameStream.FrameInAgrees(s);
    FrameInShape(s);
    var b := FrameAt(s, MAX_PAYLOAD_SIZE);
    if b.Ok? {
      FrameAtSplits(s, MAX_PAYLOAD_SIZE);
      HeaderRulesAgree(st.firstHeader, b.value.0.header);
      HeaderRulesAgree(b.value.0.header, b.value.0.header);
    }
  }

  lemma {:induction false} RunContinues(st: Reassembly, s: bytes)
    requires Partial(st)
    ensures var b := Continuations(st.firstHeader, s, MAX_PAYLOAD_SIZE,
                                   st.firstHeader.totalSize - |st.payload|);
            if b.Ok? then
              RunCodec(Some(st), s)
              == StepResult(Finalized(st.firstHeader, st.payload + b.value.0, b.value.1))
            else RunCodec(Some(st), s).Err?
    decreases |s|
  {
    hide FrameAt, FrameIn, Appended, FromParts;
    AppendAgrees(st, s);
    var a := FrameIn(s);
    if a.Ok? && a.value.Some? && Appended(st, a.value.value.0).Ok? {
      var (f, rest) := a.value.value;
      var st' := st.(payload := st.payload + f.data);
      if |st'.payload| == st.firstHeader.totalSize {
        assert f.data + [] == f.data;
      } else {
        RunContinues(st', rest);
        var c := Continuations(st.firstHeader, rest, MAX_PAYLOAD_SIZE,
                               st.firstHeader.totalSize - |st'.payload|);
        if c.Ok? {
          assert st.payload + (f.data + c.value.0) == st'.payload + c.value.0;
        }
      }
    }
  }

  lemma FinalizedIs(h: FrameHeader, payload: bytes, rest: bytes)
    requires ValidHeader(h).Ok?
    ensures StepResult(Finalized(h, payload, rest))
            == if h.totalSize > MAX_FRAME_DATA then Err(Rejected(PayloadTooLarge))
               else match Validated(Normalised(h), payload)
                    case Ok(_) => Ok((Transaction(Normalised(h), payload), rest))
                    case Err(e) => Err(Rejected(e))
  {
    hide Validated;
  }

  /** The codec reads what the reader reads when it fits one frame, and rejects the rest. */
  lemma RunCodecAgrees(s: bytes)
    ensures var phase := FramePhase(s, MAX_PAYLOAD_SIZE);
            phase.Err? ==> RunCodec(None, s).Err?
    ensures var phase := FramePhase(s, MAX_PAYLOAD_SIZE);
            phase.Ok? && phase.value.header.totalSize > MAX_FRAME_DATA ==>
              RunCodec(None, s) == Err(Rejected(PayloadTooLarge))
    ensures var phase := FramePhase(s, MAX_PAYLOAD_SIZE);
            phase.Ok? && phase.value.header.totalSize <= MAX_FRAME_DATA ==>
              RunCodec(None, s) == match TransactionAt(s, MAX_PAYLOAD_SIZE)
                                   case Ok(v) => Ok(v)
                                   case Err(e) => Err(Rejected(e))
  {
    hide FrameAt, FrameIn, FromParts, Validated, HeaderOf, Appended, ContinuationChecked;
    FrameStream.FrameInAgrees(s);
    FrameInShape(s);
    var b := FrameAt(s, MAX_PAYLOAD_SIZE);
    if b.Ok? {
      FrameAtSplits(s, MAX_PAYLOAD_SIZE);
      var (f, rest) := b.value;
      HeaderRulesAgree(f.header, f.header);
      if ValidHeader(f.header).Ok? {
        if f.header.dataSize < f.header.totalSize {
          RunContinues(Reassembly(f.header, f.data), rest);
          var c := Continuations(f.header, rest, MAX_PAYLOAD_SIZE, f.header.totalSize - |f.data|);
          if c.Ok? {
            FinalizedIs(f.header, f.data + c.value.0, c.value.1);
          }
        } else {
          FinalizedIs(f.header, f.data, rest);
          assert f.data + [] == f.data;
        }
      }
    }
  }

  /** Among transactions the reader accepts, the codec agrees on exactly the single-frame-sized. */
  lemma CodecMatchesReader(s: bytes)
    requires TransactionAt(s, MAX_PAYLOAD_SIZE).Ok?
    ensures var (tx, rest) := TransactionAt(s, MAX_PAYLOAD_SIZE).value;
            RunCodec(None, s) == Ok((tx, rest)) <==> tx.header.totalSize <= MAX_FRAME_DATA
  {
    hide FramePhase, RunCodec, Validated;
    RunCodecAgrees(s);
  }

  /** A request of 40,000 bytes that the reader accepts and the codec rejects. */
  lemma LargeRequestRejected(payload: bytes)
    requires |payload| == 40_000
    ensures var tx := Transaction(FrameHeader(0, 0, FILE_NAME_LIST_ID, 1, 0, 40_000, 40_000), payload);
            TransactionAt(DefaultWire(tx), MAX_PAYLOAD_SIZE) == Ok((tx, []))
            && RunCodec(None, DefaultWire(tx)) == Err(Rejected(PayloadTooLarge))
  {
    hide FramePhase, RunCodec, FragmentsOf, WireBytes;
    var h := FrameHeader(0, 0, FILE_NAME_LIST_ID, 1, 0, 40_000, 40_000);
    var wire := DefaultWire(Transaction(h, payload));
    assert wire + [] == wire;
    FragmentsAreRead(h, payload, MAX_FRAME_DATA, [], MAX_PAYLOAD_SIZE);
    RunCodecAgrees(wire);
  }

  // ---------------------------------------------------------------- encoding

  /** The codec's output is read back as the same transaction exactly when its size is honest. */
  lemma CodecOutputReadable(tx: Transaction)
    requires tx.header.flags == 0 && |tx.payload| <= MAX_PAYLOAD_SIZE
    ensures FramePhase(DefaultWire(tx), MAX_PAYLOAD_SIZE)
            == Ok(Assembled(Normalised(tx.header), tx.payload, []))
            <==> tx.header.totalSize == |tx.payload|
  {
    var wire := DefaultWire(tx);
    if tx.header.totalSize == |tx.payload| {
      FragmentsAreRead(tx.header, tx.payload, MAX_FRAME_DATA, [], MAX_PAYLOAD_SIZE);
      assert wire + [] == wire;
    }
    var a := Assembled(Normalised(tx.header), tx.payload, []);
    if FramePhase(wire, MAX_PAYLOAD_SIZE) == Ok(a) {
      var fs := ReadIsSeries(wire, MAX_PAYLOAD_SIZE);
    }
  }

  /** A dishonest total: the codec encodes it, and no reader can make anything of the output. */
  lemma DishonestTotal()
    ensures var tx := Transaction(FrameHeader(0, 0, FILE_NAME_LIST_ID, 1, 0, 2, 2), [0]);
            CodecEncoded(tx) == Ok(DefaultWire(tx))
            && FramePhase(DefaultWire(tx), MAX_PAYLOAD_SIZE) == Err(UnexpectedEof)
  {
    hide HeaderBytes, HeaderOf;
    var h := FrameHeader(0, 0, FILE_NAME_LIST_ID, 1, 0, 2, 1);
    var f := Frame(h, [0]);
    var wire := DefaultWire(Transaction(h.(dataSize := 2), [0]));
    assert WireBytes([f]) == FrameBytes(f) + WireBytes([]);
    assert wire == FrameBytes(f) + [];
    OpeningReads(f, [], MAX_PAYLOAD_SIZE);
  }

  /** The three fragmenters differ only in what they refuse: whatever two of them accept at the
      default frame size, they emit byte for byte alike. */
  lemma FragmentersAgree(tx: Transaction)
    ensures Written(tx, MAX_FRAME_DATA, MAX_PAYLOAD_SIZE).Ok?
            <==> Encoded(tx).Ok? && Validated(tx.header, tx.payload).Ok?
    ensures Encoded(tx).Ok? <==> CodecEncoded(tx).Ok? && tx.header.totalSize == |tx.payload|
    ensures Written(tx, MAX_FRAME_DATA, MAX_PAYLOAD_SIZE).Ok? ==>
              Written(tx, MAX_FRAME_DATA, MAX_PAYLOAD_SIZE) == Encoded(tx)
    ensures Encoded(tx).Ok? ==> Encoded(tx) == CodecEncoded(tx)
  {
  }

  /** Why a fragmenter refuses: flags before anything else; then the writer validates and only then
      looks at the limit, while the encoders look at the limit first. */
  lemma RefusalReasons(tx: Transaction, size: nat, maxPayload: nat)
    requires 0 < size <= MAX_FRAME_DATA
    ensures tx.header.flags != 0 ==>
              Written(tx, size, maxPayload) == Err(InvalidFlags)
              && Encoded(tx) == Err(InvalidFlags) && CodecEncoded(tx) == Err(InvalidFlags)
    ensures tx.header.flags == 0 && |tx.payload| > 1_048_576 ==>
              Encoded(tx) == Err(PayloadTooLarge) && CodecEncoded(tx) == Err(PayloadTooLarge)
    ensures tx.header.flags == 0 && |tx.payload| <= 1_048_576 && tx.header.totalSize != |tx.payload| ==>
              Encoded(tx) == Err(SizeMismatch) && CodecEncoded(tx).Ok?
    ensures tx.header.flags == 0 && tx.header.totalSize != |tx.payload| ==>
              Written(tx, size, maxPayload) == Err(SizeMismatch)
    ensures tx.header.flags == 0 && tx.header.totalSize == |tx.payload| && Validated(tx.header, tx.payload).Err? ==>
              Written(tx, size, maxPayload) == Err(Validated(tx.header, tx.payload).error)
    ensures tx.header.flags == 0 && Validated(tx.header, tx.payload).Ok? && tx.header.totalSize > maxPayload ==>
              Written(tx, size, maxPayload) == Err(PayloadTooLarge)
  {
    hide ParseBlock, FragmentsOf, WireBytes;
  }

  /** Why given parts or a given transaction are refused, in header numbers. */
  lemma ConstructionFault(h: FrameHeader, payload: bytes)
    ensures var r := FromParts(h, payload);
            if h.flags != 0 then r == Err(InvalidFlags)
            else if h.totalSize > 1_048_576 || h.dataSize > 32_768 then r == Err(PayloadTooLarge)
            else if h.dataSize > h.totalSize || (h.dataSize == 0 && h.totalSize > 0) then r == Err(SizeMismatch)
            else r == match Validated(h, payload)
                      case Ok(_) => Ok(Transaction(h, payload))
                      case Err(e) => Err(e)
    ensures var r := FromTransaction(Transaction(h, payload));
            if h.flags != 0 then r == Err(InvalidFlags)
            else if |payload| > 1_048_576 then r == Err(PayloadTooLarge)
            else r == match Validated(h, payload)
                      case Ok(_) => Ok(Transaction(h.(dataSize := h.totalSize), payload))
                      case Err(e) => Err(e)
  {
    hide Validated;
  }

  /** A transaction made from parameters: none leave the payload empty, others are the block that
      decodes to them; it is refused exactly for flags, size or a repeat. */
  lemma ParamsMakeTransaction(h: FrameHeader, ps: seq<Param>)
    requires AllCanonical(ps)
    ensures FromParams(h, ps).Ok?
            <==> h.flags == 0
                 && (ps == [] || (BlockOf(ps).Ok? && |BlockOf(ps).value| <= 1_048_576
                                  && (BypassesDecode(h) || NoRepeats(ps, {}, AllowsRepeatedUsers(h)))))
    ensures FromParams(h, ps).Ok? ==>
              var tx := FromParams(h, ps).value;
              tx.header == h.(totalSize := |tx.payload|, dataSize := |tx.payload|)
              && (ps == [] ==> tx.payload == []) && (ps != [] ==> BlockOf(ps) == Ok(tx.payload))
  {
    hide NoRepeats, ParseBlock, EntriesBytes;
    if ps != [] && BlockOf(ps).Ok? {
      BlockParses(ps, AllowsRepeatedUsers(h));
    }
  }

  lemma BlockParses(ps: seq<Param>, users: bool)
    requires AllCanonical(ps) && BlockOf(ps).Ok?
    ensures BlockOf(ps).value != []
    ensures ParseBlock(BlockOf(ps).value, users).Ok? <==> NoRepeats(ps, {}, users)
  {
    hide NoRepeats, ParseBlock, EntriesBytes;
    var buf := BlockOf(ps).value;
    BlockAccepted(buf, ps, users);
    if ParseBlock(buf, users).Ok? {
      OnlyReading(buf, ps, users);
    }
  }

  /** Every way of making a transaction leaves a size that matches its payload. */
  predicate Honest(tx: Transaction) {
    tx.header.flags == 0 && tx.header.totalSize == |tx.payload| <= MAX_PAYLOAD_SIZE
  }

  lemma ConstructedHonest(h: FrameHeader, payload: bytes, ps: seq<Param>, s: bytes)
    ensures FromParams(h, ps).Ok? ==> Honest(FromParams(h, ps).value)
    ensures FromParts(h, payload).Ok? ==> Honest(FromParts(h, payload).value)
    ensures var tx := Transaction(h, payload);
            FromTransaction(tx).Ok? ==> Honest(FromTransaction(tx).value)
    ensures Decoded(s).Ok? ==> Honest(Transaction(Decoded(s).value.header, Decoded(s).value.payload))
  {
    hide Decoded, FramePhase;
    if Decoded(s).Ok? {
      DecodedAgrees(s, Decoded(s).value);
      var fs := ReadIsSeries(s, MAX_PAYLOAD_SIZE);
    }
  }
}
