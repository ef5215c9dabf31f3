/**
 The frame decoder of the transport: it takes physical frames off a growing buffer and
 turns each into one assembly payload, tracking at most one series in progress.
 */
module FrameDecoder {
  import opened Bytes
  import opened Headers
  import opened MessageAssembly
  import opened Series
  import opened TransactionCodec

  // --------------------------------------------------------- physical frames

  /** The first complete frame of a buffer, if there is one yet. */
  function FrameIn(buf: bytes): (r: Result<Option<(Frame, bytes)>, CodecError>)
    ensures r.Ok? && r.value.Some? ==> |r.value.value.1| < |buf|
  {
    if |buf| < HEADER_LEN then Ok(None)
    else
      var h := HeaderOf(buf[..HEADER_LEN]);
      var _ :- ValidHeader(h);
      if |buf| < HEADER_LEN + h.dataSize then Ok(None)
      else Ok(Some((Frame(h, buf[HEADER_LEN..HEADER_LEN + h.dataSize]), buf[HEADER_LEN + h.dataSize..])))
  }

  /** A receive buffer: bytes are appended at the back and taken from the front. */
  class ByteBuffer {
    var data: bytes

    constructor ()
      ensures data == []
    {
      data := [];
    }

    method Append(chunk: bytes)
      modifies this
      ensures data == old(data) + chunk
    {
      data := data + chunk;
    }

    method SplitTo(n: nat) returns (front: bytes)
      requires n <= |data|
      modifies this
      ensures front == old(data)[..n] && data == old(data)[n..]
    {
      front := data[..n];
      data := data[n..];
    }
  }

  method TakeHotlineFrame(src: ByteBuffer) returns (r: Result<Option<Frame>, CodecError>)
    modifies src
    ensures match FrameIn(old(src.data))
            case Err(e) => r == Err(e) && src.data == old(src.data)
            case Ok(None) => r == Ok(None) && src.data == old(src.data)
            case Ok(Some((f, rest))) => r == Ok(Some(f)) && src.data == rest
  {
    if |src.data| < HEADER_LEN {
      return Ok(None);
    }
    var header := HeaderOf(src.data[..HEADER_LEN]);
    var _ :- ValidHeader(header);
    var frameLen := HEADER_LEN + header.dataSize;
    if |src.data| < frameLen {
      return Ok(None);
    }
    ghost var end := HEADER_LEN + header.dataSize;
    assert src.data[HEADER_LEN..][..header.dataSize] == src.data[HEADER_LEN..end];
    assert src.data[HEADER_LEN..][header.dataSize..] == src.data[end..];
    var _ := src.SplitTo(HEADER_LEN);
    var payload := src.SplitTo(header.dataSize);
    return Ok(Some(Frame(header, payload)));
  }

  /** A frame or a bad header is recognised whatever bytes arrive later. */
  lemma FrameInExtends(buf: bytes, more: bytes)
    ensures match FrameIn(buf)
            case Err(e) => FrameIn(buf + more) == Err(e)
            case Ok(None) => true
            case Ok(Some((f, rest))) => FrameIn(buf + more) == Ok(Some((f, rest + more)))
  {
    hide HeaderOf;
    if |buf| >= HEADER_LEN {
      assert (buf + more)[..HEADER_LEN] == buf[..HEADER_LEN];
      var h := HeaderOf(buf[..HEADER_LEN]);
      var end := HEADER_LEN + h.dataSize;
      if |buf| >= end {
        assert (buf + more)[HEADER_LEN..end] == buf[HEADER_LEN..end];
        assert (buf + more)[end..] == buf[end..] + more;
      }
    }
  }

  // ------------------------------------------------------------ series tracker

  datatype SeriesState = SeriesState(
    firstHeader: FrameHeader,
    key: u64,
    remaining: u32,
    nextSequence: u32)

  /** Result of feeding one frame to the tracker: the payload or error, and the next state. */
  datatype Tracked = Tracked(output: Result<bytes, CodecError>, state: Option<SeriesState>)

  function Started(h: FrameHeader, payload: bytes): Tracked {
    if |payload| > h.totalSize then Tracked(Err(FirstFrameExceedsTotal), None)
    else
      var key := MessageKeyFor(h);
      var remaining := h.totalSize - |payload|;
      Tracked(Ok(FirstPayload(key, h, payload)),
              if remaining > 0 then Some(SeriesState(h, key, remaining, 1)) else None)
  }

  function Continued(st: SeriesState, h: FrameHeader, payload: bytes, timedOut: bool): Tracked {
    if timedOut then Tracked(Err(TimedOut), None)
    else
      var consistent := ConsistentFragment(st.firstHeader, h);
      if consistent.Err? then Tracked(Err(consistent.error), Some(st))
      else if payload == [] && st.remaining > 0 then Tracked(Err(EmptyContinuation), None)
      else if |payload| > st.remaining then Tracked(Err(ExceedsRemaining), None)
      else
        var isLast := |payload| == st.remaining;
        if !isLast && st.nextSequence == 0xFFFF_FFFF then Tracked(Err(SequenceOverflow), Some(st))
        else
          Tracked(Ok(ContinuationPayload(st.key, st.nextSequence, isLast, payload)),
                  if isLast then None
                  else Some(st.(remaining := st.remaining - |payload|,
                                nextSequence := st.nextSequence + 1)))
  }

  /** What holds of every active series: progress is still owed, and numbers cannot run out. */
  predicate Active(st: SeriesState) {
    ValidHeader(st.firstHeader).Ok?
    && st.key == MessageKeyFor(st.firstHeader)
    && 0 < st.remaining
    && 1 <= st.nextSequence
    && st.nextSequence + st.remaining <= st.firstHeader.totalSize <= MAX_PAYLOAD_SIZE
  }

  class InboundSeriesTracker {
    var state: Option<SeriesState>
    /** Body bytes put out since the series in progress began. */
    ghost var emitted: nat

    ghost predicate Valid()
      reads this
    {
      state.Some? ==>
        Active(state.value)
        && emitted + state.value.remaining == state.value.firstHeader.totalSize
        && state.value.nextSequence <= emitted
    }

    constructor ()
      ensures Valid() && state == None
    {
      state := None;
      emitted := 0;
    }

    method Start(h: FrameHeader, payload: bytes) returns (r: Result<bytes, CodecError>)
      requires Valid() && state.None? && ValidHeader(h).Ok? && |payload| == h.dataSize
      modifies this
      ensures Valid()
      ensures Tracked(r, state) == Started(h, payload)
      ensures state.Some? ==> emitted == |payload|
    {
      var key := MessageKeyFor(h);
      if |payload| > h.totalSize {
        return Err(FirstFrameExceedsTotal);
      }
      var remaining := h.totalSize - |payload|;
      if remaining > 0 {
        state := Some(SeriesState(h, key, remaining, 1));
        emitted := |payload|;
      }
      var built := FirstFramePayload(key, h, payload);
      return Ok(built.value);
    }

    method ContinueSeries(h: FrameHeader, payload: bytes, timedOut: bool)
      returns (r: Result<bytes, CodecError>)
      requires Valid()
      modifies this
      ensures Valid()
      ensures old(state).None? ==> r == Err(NoActiveSeries) && state == None
      ensures old(state).Some? ==> Tracked(r, state) == Continued(old(state).value, h, payload, timedOut)
      ensures r != Err(SequenceOverflow)
      ensures state.Some? && r.Ok? ==> emitted == old(emitted) + |payload|
    {
      if state.None? {
        return Err(NoActiveSeries);
      }
      if timedOut {
        state := None;
        return Err(TimedOut);
      }
      var active := state.value;
      var _ :- ConsistentFragment(active.firstHeader, h);
      if payload == [] && active.remaining > 0 {
        state := None;
        return Err(EmptyContinuation);
      }
      if |payload| > active.remaining {
        state := None;
        return Err(ExceedsRemaining);
      }
      var isLast := |payload| == active.remaining;
      if isLast {
        state := None;
      } else {
        state := Some(active.(remaining := active.remaining - |payload|,
                              nextSequence := active.nextSequence + 1));
        emitted := emitted + |payload|;
      }
      var built := ContinuationFramePayload(active.key, active.nextSequence, isLast, payload);
      return Ok(built.value);
    }
  }

  // ------------------------------------------------------------------ decoder

  /** The unit handed to the application: route, correlation id and assembly payload. */
  datatype Envelope = Envelope(route: u32, correlation: Option<u64>, payload: bytes)

  function RouteIdFor(ty: u16): u32 {
    if ty in {107, 121, 200, 300, 303, 304, 370, 371, 400, 410} then ty else 0
  }

  datatype Step =
    | NeedMore
    | Failed(error: CodecError, state: Option<SeriesState>, buf: bytes)
    | Emitted(envelope: Envelope, state: Option<SeriesState>, buf: bytes)

  function DecodeStep(st: Option<SeriesState>, buf: bytes, timedOut: bool): (s: Step)
    ensures s.Emitted? ==> |s.buf| < |buf|
  {
    match FrameIn(buf)
    case Err(e) => Failed(e, st, buf)
    case Ok(None) => NeedMore
    case Ok(Some((f, rest))) =>
      var t := if st.Some? then Continued(st.value, f.header, f.data, timedOut)
               else Started(f.header, f.data);
      match t.output
      case Err(e) => Failed(e, t.state, rest)
      case Ok(p) => Emitted(Envelope(RouteIdFor(f.header.ty), Some(f.header.id), p), t.state, rest)
  }

  class HotlineFrameDecoder {
    const series: InboundSeriesTracker

    constructor ()
      ensures series.Valid() && series.state == None && fresh(series)
    {
      series := new InboundSeriesTracker();
    }

    method Decode(src: ByteBuffer, timedOut: bool) returns (r: Result<Option<Envelope>, CodecError>)
      requires series.Valid()
      modifies series, src
      ensures series.Valid()
      ensures match DecodeStep(old(series.state), old(src.data), timedOut)
              case NeedMore =>
                r == Ok(None) && series.state == old(series.state) && src.data == old(src.data)
              case Failed(e, st, buf) => r == Err(e) && series.state == st && src.data == buf
              case Emitted(env, st, buf) => r == Ok(Some(env)) && series.state == st && src.data == buf
    {
      hide FirstPayload, ContinuationPayload;
      FrameInShape(src.data);
      var taken :- TakeHotlineFrame(src);
      if taken.None? {
        return Ok(None);
      }
      var f := taken.value;
      var payload;
      if series.state.Some? {
        payload :- series.ContinueSeries(f.header, f.data, timedOut);
      } else {
        payload :- series.Start(f.header, f.data);
      }
      return Ok(Some(Envelope(RouteIdFor(f.header.ty), Some(f.header.id), payload)));
    }
  }

  lemma FrameInShape(buf: bytes)
    ensures match FrameIn(buf)
            case Ok(Some((f, rest))) =>
              ValidHeader(f.header).Ok? && f.header.dataSize == |f.data| && buf == FrameBytes(f) + rest
            case _ => true
  {
    if |buf| >= HEADER_LEN {
      var h := HeaderOf(buf[..HEADER_LEN]);
      HeaderRoundTrip(h, buf[..HEADER_LEN]);
      var end := HEADER_LEN + h.dataSize;
      if |buf| >= end {
        assert buf == buf[..HEADER_LEN] + buf[HEADER_LEN..end] + buf[end..];
      }
    }
  }

  // ----------------------------------------------------------- frame by frame

  /** A frame that any decoder takes: valid header, and the data it announces. */
  predicate Sound(f: Frame) {
    ValidHeader(f.header).Ok? && f.header.dataSize == |f.data|
  }

  lemma SoundIsTaken(f: Frame, tail: bytes)
    requires Sound(f)
    ensures FrameIn(FrameBytes(f) + tail) == Ok(Some((f, tail)))
  {
    hide HeaderOf, HeaderBytes;
    var s := FrameBytes(f) + tail;
    assert s[..HEADER_LEN] == HeaderBytes(f.header);
    HeaderRoundTrip(f.header, s[..HEADER_LEN]);
    assert s[HEADER_LEN..HEADER_LEN + |f.data|] == f.data;
    assert s[HEADER_LEN + |f.data|..] == tail;
  }

  /** What the decoder makes of any header, in its numbers: the first rule it breaks, or a wait for
      the data it announces. */
  lemma HeaderFault(h: FrameHeader, rest: bytes)
    ensures var r := FrameIn(HeaderBytes(h) + rest);
            if h.flags != 0 then r == Err(BadFlags)
            else if h.totalSize > 1_048_576 then r == Err(TotalTooLarge)
            else if h.dataSize > 32_768 then r == Err(DataTooLarge)
            else if h.dataSize > h.totalSize then r == Err(DataExceedsTotal)
            else if h.dataSize == 0 && h.totalSize > 0 then r == Err(DataMissing)
            else if |rest| < h.dataSize then r == Ok(None)
            else r == Ok(Some((Frame(h, rest[..h.dataSize]), rest[h.dataSize..])))
  {
    hide HeaderOf, HeaderBytes;
    var s := HeaderBytes(h) + rest;
    assert s[..HEADER_LEN] == HeaderBytes(h);
    HeaderRoundTrip(h, s[..HEADER_LEN]);
    if h.dataSize <= |rest| {
      assert s[HEADER_LEN..HEADER_LEN + h.dataSize] == rest[..h.dataSize];
      assert s[HEADER_LEN + h.dataSize..] == rest[h.dataSize..];
    }
  }

  /** The first field in which a frame leaves its series. */
  function FirstChange(first: FrameHeader, next: FrameHeader): CodecError {
    if next.isReply != first.isReply then IsReplyChanged
    else if next.ty != first.ty then TypeChanged
    else if next.id != first.id then IdChanged
    else if next.error != first.error then ErrorChanged
    else TotalSizeChanged
  }

  /** Every sound frame behind an open series: a foreign one leaves the series open, one that is too
      long ends it, and any other continues it. */
  lemma ContinuationFrame(st: SeriesState, f: Frame, rest: bytes)
    requires Active(st) && Sound(f)
    ensures var d := DecodeStep(Some(st), FrameBytes(f) + rest, false);
            if !SameTransaction(st.firstHeader, f.header)
            then d == Failed(FirstChange(st.firstHeader, f.header), Some(st), rest)
            else if |f.data| > st.remaining then d == Failed(ExceedsRemaining, None, rest)
            else d.Emitted? && d.buf == rest && (d.state.None? <==> |f.data| == st.remaining)
  {
    hide FrameIn, FrameBytes, ContinuationPayload;
    SoundIsTaken(f, rest);
    HeaderRulesAgree(st.firstHeader, f.header);
  }

  /** A frame that comes after the deadline of the open series ends it, whatever it is; the decoder
      is as new behind it. */
  lemma LateFrame(st: SeriesState, f: Frame, rest: bytes)
    requires Sound(f)
    ensures DecodeStep(Some(st), FrameBytes(f) + rest, true) == Failed(TimedOut, None, rest)
  {
    hide FrameIn, FrameBytes;
    SoundIsTaken(f, rest);
  }

  /** The deadline means nothing to an idle decoder, or before a frame is complete. */
  lemma NoDeadline(st: Option<SeriesState>, buf: bytes)
    requires st.None? || FrameIn(buf) == Ok(None) || FrameIn(buf).Err?
    ensures DecodeStep(st, buf, true) == DecodeStep(st, buf, false)
  {
  }

  /** Every piece is addressed by the type and id of its own frame. */
  lemma PieceAddress(st: Option<SeriesState>, f: Frame, rest: bytes, timedOut: bool)
    requires Sound(f) && DecodeStep(st, FrameBytes(f) + rest, timedOut).Emitted?
    ensures var env := DecodeStep(st, FrameBytes(f) + rest, timedOut).envelope;
            env.correlation == Some(f.header.id)
            && env.route == if f.header.ty in {107, 121, 200, 300, 303, 304, 370, 371, 400, 410}
                            then f.header.ty else 0
  {
    hide FrameIn, FrameBytes, Continued, Started;
    SoundIsTaken(f, rest);
  }
}
