/** Whole runs of the frame decoder: chunk invariance and agreement with the readers. */
module FrameStream {
  import opened Bytes
  import opened FrameDecoder
  import opened Headers
  import opened MessageAssembly
  import opened Series
  import opened TransactionCodec

  // ---------------------------------------------------------- chunk invariance

  /** What a run produced: outputs in order, the error that ended it, and what is left. */
  datatype Run = Run(
    outputs: seq<Envelope>,
    error: Option<CodecError>,
    state: Option<SeriesState>,
    buf: bytes)

  /** Earlier outputs in front of a later run. */
  function Preceded(outputs: seq<Envelope>, r: Run): Run {
    r.(outputs := outputs + r.outputs)
  }

  lemma PrecededAssoc(a: seq<Envelope>, b: seq<Envelope>, r: Run)
    ensures Preceded(a, Preceded(b, r)) == Preceded(a + b, r)
    ensures Preceded([], r) == r
  {
    assert a + (b + r.outputs) == (a + b) + r.outputs;
    assert [] + r.outputs == r.outputs;
  }

  /** Decodes until more bytes are needed or an error ends the stream. */
  function Pump(st: Option<SeriesState>, buf: bytes): Run
    decreases |buf|
  {
    match DecodeStep(st, buf, false)
    case NeedMore => Run([], None, st, buf)
    case Failed(e, st', buf') => Run([], Some(e), st', buf')
    case Emitted(env, st', buf') =>
      Preceded([env], Pump(st', buf'))
  }

  /** Receives the chunks one by one, decoding as far as possible after each. */
  function Feed(st: Option<SeriesState>, buf: bytes, chunks: seq<bytes>): Run
    decreases |chunks|
  {
    if chunks == [] then Run([], None, st, buf)
    else
      var r := Pump(st, buf + chunks[0]);
      if r.error.Some? then r
      else
        Preceded(r.outputs, Feed(r.state, r.buf, chunks[1..]))
  }

  /** Two runs a client cannot tell apart; without an error they also leave the same state. */
  predicate SameRun(a: Run, b: Run) {
    a.outputs == b.outputs && a.error == b.error
    && (a.error.None? ==> a.state == b.state && a.buf == b.buf)
  }

  lemma StepExtends(st: Option<SeriesState>, buf: bytes, more: bytes)
    ensures match DecodeStep(st, buf, false)
            case NeedMore => true
            case Failed(e, st', _) =>
              DecodeStep(st, buf + more, false).Failed? && DecodeStep(st, buf + more, false).error == e
            case Emitted(env, st', buf') =>
              |buf'| < |buf| && DecodeStep(st, buf + more, false) == Emitted(env, st', buf' + more)
  {
    hide FrameIn, Continued, Started;
    FrameInExtends(buf, more);
  }

  /** A run that hit no error stops because the buffer holds no complete frame. */
  lemma {:induction false} PumpStops(st: Option<SeriesState>, buf: bytes)
    ensures var r := Pump(st, buf);
            r.error.None? ==> DecodeStep(r.state, r.buf, false) == NeedMore
    decreases |buf|
  {
    hide FrameIn, Continued, Started;
    match DecodeStep(st, buf, false)
    case Emitted(_, st', buf') => PumpStops(st', buf');
    case _ =>
  }

  lemma {:induction false} PumpExtends(st: Option<SeriesState>, buf: bytes, more: bytes)
    ensures var r := Pump(st, buf);
            var whole := Pump(st, buf + more);
            if r.error.Some? then whole.outputs == r.outputs && whole.error == r.error
            else whole == Preceded(r.outputs, Pump(r.state, r.buf + more))
    decreases |buf|
  {
    hide DecodeStep, Preceded;
    StepExtends(st, buf, more);
    match DecodeStep(st, buf, false)
    case NeedMore =>
      PrecededAssoc([], [], Pump(st, buf + more));
    case Failed(_, _, _) =>
    case Emitted(env, st', buf') =>
      PumpExtends(st', buf', more);
      var r := Pump(st', buf');
      assert Pump(st, buf) == Preceded([env], r);
      assert Pump(st, buf + more) == Preceded([env], Pump(st', buf' + more));
      PumpEmitted(env, r, Pump(st', buf' + more), Pump(r.state, r.buf + more));
  }

  lemma PumpEmitted(env: Envelope, r: Run, whole: Run, rest: Run)
    ensures Preceded([env], r).error == r.error && Preceded([env], r).state == r.state
            && Preceded([env], r).buf == r.buf
    ensures whole.outputs == r.outputs ==> Preceded([env], whole).outputs == Preceded([env], r).outputs
    ensures Preceded([env], whole).error == whole.error
    ensures whole == Preceded(r.outputs, rest) ==>
              Preceded([env], whole) == Preceded(Preceded([env], r).outputs, rest)
  {
    PrecededAssoc([env], r.outputs, rest);
  }

  lemma {:induction false} FeedIsPump(st: Option<SeriesState>, buf: bytes, chunks: seq<bytes>)
    requires DecodeStep(st, buf, false) == NeedMore
    ensures SameRun(Feed(st, buf, chunks), Pump(st, buf + Flatten(chunks)))
    decreases |chunks|
  {
    hide DecodeStep;
    if chunks == [] {
      assert buf + Flatten(chunks) == buf;
    } else {
      var tail := Flatten(chunks[1..]);
      assert buf + Flatten(chunks) == (buf + chunks[0]) + tail;
      PumpExtends(st, buf + chunks[0], tail);
      var r := Pump(st, buf + chunks[0]);
      PumpStops(st, buf + chunks[0]);
      if r.error.None? {
        FeedIsPump(r.state, r.buf, chunks[1..]);
      }
    }
  }

  /** However a byte stream is cut, a fresh decoder gives the same outputs and first error. */
  lemma ChunkInvariance(chunks: seq<bytes>, chunks': seq<bytes>)
    requires Flatten(chunks) == Flatten(chunks')
    ensures SameRun(Feed(None, [], chunks), Feed(None, [], chunks'))
    ensures SameRun(Feed(None, [], chunks), Pump(None, Flatten(chunks)))
  {
    FeedIsPump(None, [], chunks);
    FeedIsPump(None, [], chunks');
    assert [] + Flatten(chunks) == Flatten(chunks);
  }

  // ---------------------------------------------- agreement with the readers

  /** Decodes one whole series: from an idle tracker until it is idle again. */
  function Collect(st: Option<SeriesState>, buf: bytes): Result<(seq<Envelope>, bytes), CodecError>
    decreases |buf|
  {
    match DecodeStep(st, buf, false)
    case NeedMore => Err(EndOfInput)
    case Failed(e, _, _) => Err(e)
    case Emitted(env, st', buf') =>
      if st'.None? then Ok(([env], buf'))
      else
        var (envs, rest) :- Collect(st', buf');
        Ok(([env] + envs, rest))
  }

  /** Decoding a buffer that starts with a whole series puts out its pieces, then goes on. */
  lemma {:induction false} PumpCollects(st: Option<SeriesState>, buf: bytes)
    requires Collect(st, buf).Ok?
    ensures Pump(st, buf) == Preceded(Collect(st, buf).value.0, Pump(None, Collect(st, buf).value.1))
    decreases |buf|
  {
    hide DecodeStep, Preceded;
    match DecodeStep(st, buf, false)
    case Emitted(env, st', buf') =>
      if st'.Some? {
        PumpCollects(st', buf');
        var (envs, rest) := Collect(st', buf').value;
        PrecededAssoc([env], envs, Pump(None, rest));
      }
  }

  /** The body an assembly payload carries, as its parsed header delimits it. */
  function BodyIn(p: bytes): bytes {
    match Parsed(p)
    case Ok(ParsedHeader(First(_, meta, _, _, _), len)) => if |p| >= len + meta then p[len + meta..] else []
    case Ok(ParsedHeader(Continuation(_, _, _, _), len)) => if |p| >= len then p[len..] else []
    case Err(_) => []
  }

  function Bodies(envs: seq<Envelope>): bytes {
    if envs == [] then [] else BodyIn(envs[0].payload) + Bodies(envs[1..])
  }

  predicate Addressed(e: Envelope, h: FrameHeader) {
    e.route == RouteIdFor(h.ty) && e.correlation == Some(h.id)
  }

  /** Piece `i` is a continuation numbered `start + i`, flagged last exactly at the end. */
  predicate TailPiece(envs: seq<Envelope>, h: FrameHeader, start: nat, i: nat)
    requires i < |envs|
  {
    Addressed(envs[i], h)
    && start + i < 0x1_0000_0000
    && Parsed(envs[i].payload)
       == Ok(ParsedHeader(Continuation(MessageKeyFor(h), Some(start + i), |BodyIn(envs[i].payload)|,
                                       i == |envs| - 1), CONTINUATION_FRAME_HEADER_LEN))
  }

  predicate CarriesTail(envs: seq<Envelope>, h: FrameHeader, start: nat, payload: bytes) {
    Bodies(envs) == payload && forall i: nat :: i < |envs| ==> TailPiece(envs, h, start, i)
  }

  /** The pieces of one series, as the parser sees them, stand for the transaction `a`. */
  predicate Carries(envs: seq<Envelope>, a: Assembled) {
    envs != [] && Addressed(envs[0], a.header)
    && Parsed(envs[0].payload)
       == Ok(ParsedHeader(First(MessageKeyFor(a.header), HEADER_LEN, |BodyIn(envs[0].payload)|,
                                Some(a.header.totalSize), |envs| == 1), FIRST_FRAME_HEADER_LEN))
    && |envs[0].payload| >= 37 && HeaderOf(envs[0].payload[17..37]) == a.header
    && |BodyIn(envs[0].payload)| <= |a.payload|
    && a.payload[..|BodyIn(envs[0].payload)|] == BodyIn(envs[0].payload)
    && CarriesTail(envs[1..], a.header, 1, a.payload[|BodyIn(envs[0].payload)|..])
  }

  /** A complete, valid frame in the buffer is exactly a frame the reader would take. */
  lemma FrameInAgrees(s: bytes)
    ensures var a := FrameIn(s);
            var b := FrameAt(s, MAX_PAYLOAD_SIZE);
            (a.Ok? && a.value.Some? <==> b.Ok? && ValidHeader(b.value.0.header).Ok?)
            && (a.Ok? && a.value.Some? ==> a.value.value == b.value)
  {
    hide HeaderOf;
  }

  lemma ContinuedPiece(st: SeriesState, h: FrameHeader, data: bytes)
    requires Active(st) && ConsistentFragment(st.firstHeader, h).Ok? && 0 < |data| <= st.remaining
    ensures var t := Continued(st, h, data, false);
            t.output.Ok?
            && BodyIn(t.output.value) == data
            && Parsed(t.output.value)
               == Ok(ParsedHeader(Continuation(st.key, Some(st.nextSequence), |data|,
                                               |data| == st.remaining), 18))
            && (t.state.None? <==> |data| == st.remaining)
            && (t.state.Some? ==>
                  Active(t.state.value) && t.state.value.firstHeader == st.firstHeader
                  && t.state.value.remaining == st.remaining - |data|
                  && t.state.value.nextSequence == st.nextSequence + 1)
  {
    hide Parsed, ContinuationPayload;
    ContinuationIsParsed(st.key, st.nextSequence, |data| == st.remaining, data);
    ContinuationPayloadLayout(st.key, st.nextSequence, |data| == st.remaining, data);
  }

  /** A continuation step succeeds exactly when the reader accepts the next frame. */
  lemma ContinuationStep(st: SeriesState, s: bytes)
    requires Active(st)
    ensures var b := FrameAt(s, MAX_PAYLOAD_SIZE);
            var d := DecodeStep(Some(st), s, false);
            (d.Emitted? <==> b.Ok? && ContinuationChecked(st.firstHeader, b.value.0.header, st.remaining).Ok?)
            && (d.Emitted? ==>
                  var (f, rest) := b.value;
                  f.header.dataSize == |f.data| && 0 < |f.data| <= st.remaining
                  && ConsistentFragment(st.firstHeader, f.header).Ok?
                  && d.buf == rest && |rest| < |s|
                  && Addressed(d.envelope, st.firstHeader)
                  && Continued(st, f.header, f.data, false) == Tracked(Ok(d.envelope.payload), d.state))
  {
    hide HeaderOf, FrameAt, FrameIn, ContinuationPayload;
    FrameInAgrees(s);
    FrameInShape(s);
    var b := FrameAt(s, MAX_PAYLOAD_SIZE);
    if b.Ok? {
      FrameAtSplits(s, MAX_PAYLOAD_SIZE);
      HeaderRulesAgree(st.firstHeader, b.value.0.header);
      HeaderRulesAgree(b.value.0.header, b.value.0.header);
    }
  }

  lemma TailCons(env: Envelope, envs: seq<Envelope>, h: FrameHeader, start: nat, payload: bytes)
    requires start < 0x1_0000_0000 && Addressed(env, h)
    requires Parsed(env.payload)
             == Ok(ParsedHeader(Continuation(MessageKeyFor(h), Some(start), |BodyIn(env.payload)|, envs == []),
                                CONTINUATION_FRAME_HEADER_LEN))
    requires CarriesTail(envs, h, start + 1, payload)
    ensures CarriesTail([env] + envs, h, start, BodyIn(env.payload) + payload)
  {
    hide Parsed, BodyIn, MessageKeyFor;
    var all := [env] + envs;
    assert all[1..] == envs;
    assert Bodies(all) == BodyIn(env.payload) + Bodies(envs);
    forall i: nat | i < |all| ensures TailPiece(all, h, start, i) {
      if i > 0 {
        assert all[i] == envs[i - 1] && TailPiece(envs, h, start + 1, i - 1);
      }
    }
  }

  lemma {:induction false} CollectTail(st: SeriesState, s: bytes)
    requires Active(st)
    ensures var c := Collect(Some(st), s);
            var b := Continuations(st.firstHeader, s, MAX_PAYLOAD_SIZE, st.remaining);
            (c.Ok? <==> b.Ok?)
            && (c.Ok? ==> c.value.1 == b.value.1 && c.value.0 != []
                          && CarriesTail(c.value.0, st.firstHeader, st.nextSequence, b.value.0))
    decreases |s|
  {
    hide DecodeStep, FrameAt, Parsed, BodyIn, Continued, CarriesTail;
    ContinuationStep(st, s);
    var d := DecodeStep(Some(st), s, false);
    if d.Emitted? {
      var (f, rest) := FrameAt(s, MAX_PAYLOAD_SIZE).value;
      ContinuedPiece(st, f.header, f.data);
      if d.state.None? {
        EmptyTail(st.firstHeader, st.nextSequence + 1);
        TailCons(d.envelope, [], st.firstHeader, st.nextSequence, []);
        assert [d.envelope] + [] == [d.envelope];
      } else {
        CollectTail(d.state.value, rest);
        var c := Collect(d.state, rest);
        if c.Ok? {
          var b := Continuations(st.firstHeader, rest, MAX_PAYLOAD_SIZE, st.remaining - |f.data|);
          TailCons(d.envelope, c.value.0, st.firstHeader, st.nextSequence, b.value.0);
        }
      }
    }
  }

  lemma EmptyTail(h: FrameHeader, start: nat)
    ensures CarriesTail([], h, start, [])
  {
  }

  lemma StartedPiece(h: FrameHeader, data: bytes)
    requires ValidHeader(h).Ok? && |data| == h.dataSize
    ensures var t := Started(h, data);
            t.output.Ok?
            && BodyIn(t.output.value) == data
            && |t.output.value| >= 37 && HeaderOf(t.output.value[17..37]) == Normalised(h)
            && Parsed(t.output.value)
               == Ok(ParsedHeader(First(MessageKeyFor(h), HEADER_LEN, |data|, Some(h.totalSize),
                                        |data| == h.totalSize), 17))
            && (t.state.None? <==> |data| == h.totalSize)
            && (t.state.Some? ==>
                  t.state.value == SeriesState(h, MessageKeyFor(h), h.totalSize - |data|, 1)
                  && Active(t.state.value))
  {
    hide Parsed, FirstPayload, HeaderOf;
    FirstIsParsed(MessageKeyFor(h), h, data);
    FirstPayloadLayout(MessageKeyFor(h), h, data);
  }

  lemma FirstStep(s: bytes)
    ensures var b := FrameAt(s, MAX_PAYLOAD_SIZE);
            var d := DecodeStep(None, s, false);
            (d.Emitted? <==> b.Ok? && FirstHeaderChecked(b.value.0.header, MAX_PAYLOAD_SIZE).Ok?)
            && (d.Emitted? ==>
                  var (f, rest) := b.value;
                  f.header.dataSize == |f.data| && ValidHeader(f.header).Ok?
                  && d.buf == rest && Addressed(d.envelope, f.header)
                  && Started(f.header, f.data) == Tracked(Ok(d.envelope.payload), d.state))
  {
    hide HeaderOf, FrameAt, FrameIn, FirstPayload;
    FrameInAgrees(s);
    FrameInShape(s);
    var b := FrameAt(s, MAX_PAYLOAD_SIZE);
    if b.Ok? {
      FrameAtSplits(s, MAX_PAYLOAD_SIZE);
      HeaderRulesAgree(b.value.0.header, b.value.0.header);
    }
  }

  lemma TailHeaderOnly(envs: seq<Envelope>, h: FrameHeader, start: nat, payload: bytes)
    requires CarriesTail(envs, h, start, payload)
    ensures CarriesTail(envs, Normalised(h), start, payload)
  {
    hide Parsed, BodyIn, MessageKeyFor;
    var n := Normalised(h);
    NormalisedKey(h);
    forall i: nat | i < |envs| ensures TailPiece(envs, n, start, i) {
      assert TailPiece(envs, h, start, i);
    }
  }

  lemma NormalisedKey(h: FrameHeader)
    ensures MessageKeyFor(Normalised(h)) == MessageKeyFor(h)
  {
  }

  /** The decoder completes a series exactly where the reader completes a transaction, at the
      same byte, and its pieces, as parsed, carry that transaction's header and payload. */
  lemma CollectAgrees(s: bytes)
    ensures var c := Collect(None, s);
            var b := FramePhase(s, MAX_PAYLOAD_SIZE);
            (c.Ok? <==> b.Ok?)
            && (c.Ok? ==> c.value.1 == b.value.rest && Carries(c.value.0, b.value))
  {
    hide DecodeStep, FrameAt, Parsed, BodyIn, Started, CarriesTail, HeaderOf;
    FirstStep(s);
    var d := DecodeStep(None, s, false);
    if d.Emitted? {
      var (f, rest) := FrameAt(s, MAX_PAYLOAD_SIZE).value;
      StartedPiece(f.header, f.data);
      var remaining := f.header.totalSize - f.header.dataSize;
      var more := Continuations(f.header, rest, MAX_PAYLOAD_SIZE, remaining);
      if d.state.None? {
        EmptyTail(Normalised(f.header), 1);
        CarriesSeries(d.envelope, [], f, []);
        assert [d.envelope] + [] == [d.envelope];
      } else {
        CollectTail(d.state.value, rest);
        var c := Collect(d.state, rest);
        if c.Ok? {
          TailHeaderOnly(c.value.0, f.header, 1, more.value.0);
          CarriesSeries(d.envelope, c.value.0, f, more.value.0);
        }
      }
    }
  }

  lemma CarriesSeries(env: Envelope, envs: seq<Envelope>, f: Frame, payload: bytes)
    requires Addressed(env, f.header) && BodyIn(env.payload) == f.data
    requires |env.payload| >= 37 && HeaderOf(env.payload[17..37]) == Normalised(f.header)
    requires Parsed(env.payload)
             == Ok(ParsedHeader(First(MessageKeyFor(f.header), HEADER_LEN, |f.data|,
                                      Some(f.header.totalSize), envs == []), 17))
    requires CarriesTail(envs, Normalised(f.header), 1, payload)
    ensures forall rest: bytes ::
              Carries([env] + envs, Assembled(Normalised(f.header), f.data + payload, rest))
  {
    hide Parsed, BodyIn, CarriesTail, HeaderOf;
    var all := [env] + envs;
    assert all[1..] == envs;
    NormalisedKey(f.header);
    assert (f.data + payload)[|f.data|..] == payload;
    assert (f.data + payload)[..|f.data|] == f.data;
  }

  /** A series given up at its deadline costs one frame: whatever well-formed series comes behind it
      is read as by a fresh decoder. */
  lemma ServedAfterDeadline(st: SeriesState, late: Frame, fs: seq<Frame>, rest: bytes)
    requires Sound(late) && WellFormed(fs, MAX_PAYLOAD_SIZE)
    ensures var d := DecodeStep(Some(st), FrameBytes(late) + (WireBytes(fs) + rest), true);
            d.Failed? && d.error == TimedOut
            && Collect(d.state, d.buf).Ok? && Collect(d.state, d.buf).value.1 == rest
            && Carries(Collect(d.state, d.buf).value.0,
                       Assembled(Normalised(fs[0].header), PayloadOf(fs), rest))
  {
    hide DecodeStep, Collect, Carries, FramePhase, WellFormed;
    LateFrame(st, late, WireBytes(fs) + rest);
    CollectAgrees(WireBytes(fs) + rest);
    SeriesIsRead(fs, rest, MAX_PAYLOAD_SIZE);
  }
}
