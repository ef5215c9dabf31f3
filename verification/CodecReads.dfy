/** What the buffered codec delivers by the read, and what it makes of the end of the stream. */
module CodecReads {
  import opened Bytes
  import opened FrameDecoder
  import opened Headers
  import opened HotlineCodec
  import opened ParamCodec
  import opened Params
  import opened Readers
  import opened Series
  import opened TransactionCodec

  // ------------------------------------------------------- frames of a buffer

  predicate AllSound(fs: seq<Frame>) {
    forall i :: 0 <= i < |fs| ==> Sound(fs[i])
  }

  /** No complete frame opens `tail`: it is too short yet, or its header is invalid. */
  predicate NoFrame(tail: bytes) {
    FrameIn(tail) == Ok(None) || FrameIn(tail).Err?
  }

  /** Every buffer is a list of frames and a tail that holds none. */
  function FramesIn(buf: bytes): (r: (seq<Frame>, bytes))
    ensures AllSound(r.0) && NoFrame(r.1) && buf == WireBytes(r.0) + r.1
    decreases |buf|
  {
    match FrameIn(buf)
    case Ok(Some((f, rest))) =>
      var (fs, tail) := FramesIn(rest);
      OneMoreFrame(buf, fs, tail);
      ([f] + fs, tail)
    case _ =>
      assert WireBytes([]) + buf == buf;
      ([], buf)
  }

  lemma OneMoreFrame(buf: bytes, fs: seq<Frame>, tail: bytes)
    requires FrameIn(buf).Ok? && FrameIn(buf).value.Some?
    requires AllSound(fs) && FrameIn(buf).value.value.1 == WireBytes(fs) + tail
    ensures var gs := [FrameIn(buf).value.value.0] + fs;
            AllSound(gs) && buf == WireBytes(gs) + tail
  {
    hide FrameIn, FrameBytes;
    FrameInShape(buf);
    var f := FrameIn(buf).value.value.0;
    assert ([f] + fs)[1..] == fs;
    assert FrameBytes(f) + (WireBytes(fs) + tail) == (FrameBytes(f) + WireBytes(fs)) + tail;
  }

  // ------------------------------------------------------- delivery by reads

  /** What one or more reads produced. */
  datatype Delivery = Delivery(
    items: seq<Transaction>,
    error: Option<CodecError>,
    state: Option<Reassembly>,
    buf: bytes)

  function First(tx: Transaction, d: Delivery): Delivery {
    d.(items := [tx] + d.items)
  }

  lemma FirstInjective(tx: Transaction, a: Delivery, b: Delivery)
    ensures First(tx, a) == First(tx, b) <==> a == b
  {
    assert First(tx, a).items[1..] == a.items && First(tx, b).items[1..] == b.items;
  }

  /** One read as the framed transport runs it: decode until nothing is returned. */
  function AfterRead(st: Option<Reassembly>, buf: bytes): Delivery
    decreases |buf|
  {
    match DecodeNext(st, buf)
    case Waiting(st', buf') => Delivery([], None, st', buf')
    case Broken(e, st', buf') => Delivery([], Some(e), st', buf')
    case Item(tx, st', buf') => First(tx, AfterRead(st', buf'))
  }

  /** Decoding until the buffer holds no complete frame: what the buffered bytes stand for. */
  function Drained(st: Option<Reassembly>, buf: bytes): Delivery
    decreases |buf|
  {
    match DecodeNext(st, buf)
    case Waiting(st', buf') => if |buf'| < |buf| then Drained(st', buf') else Delivery([], None, st', buf')
    case Broken(e, st', buf') => Delivery([], Some(e), st', buf')
    case Item(tx, st', buf') => First(tx, Drained(st', buf'))
  }

  lemma {:induction false} DrainedShrinks(st: Option<Reassembly>, buf: bytes)
    ensures Drained(st, buf).error.None? ==> |Drained(st, buf).buf| <= |buf|
    ensures Drained(st, buf).error.None? && FrameIn(buf) != Ok(None) ==> |Drained(st, buf).buf| < |buf|
    decreases |buf|
  {
    hide FrameIn, FromParts, Appended;
    match DecodeNext(st, buf)
    case Waiting(st', buf') => if |buf'| < |buf| { DrainedShrinks(st', buf'); }
    case Broken(_, _, _) =>
    case Item(_, st', buf') => DrainedShrinks(st', buf');
  }

  /** Whatever the codec assembles under `h` with payload `p`, it hands out. */
  predicate Deliverable(h: FrameHeader, p: bytes) {
    h.totalSize <= MAX_FRAME_DATA && Validated(Normalised(h), p).Ok?
  }

  lemma FinalizedIff(h: FrameHeader, p: bytes, rest: bytes)
    requires ValidHeader(h).Ok?
    ensures if Deliverable(h, p) then Finalized(h, p, rest) == Item(Transaction(Normalised(h), p), None, rest)
            else Finalized(h, p, rest).Broken?
  {
    hide Validated;
  }

  predicate Opens(f: Frame) {
    f.header.dataSize < f.header.totalSize
  }

  /** A frame that is a transaction by itself and passes its checks. */
  predicate Whole(f: Frame) {
    !Opens(f) && Deliverable(f.header, f.data)
  }

  /** Frame `k` opens a transaction, all before it are whole ones, and the buffer goes on behind
      it with another frame or an invalid header. */
  predicate StuckAt(fs: seq<Frame>, tail: bytes, k: nat) {
    k < |fs| && Opens(fs[k]) && (k + 1 < |fs| || FrameIn(tail).Err?)
    && forall i :: 0 <= i < k ==> Whole(fs[i])
  }

  ghost predicate StallsIdle(fs: seq<Frame>, tail: bytes) {
    exists k: nat :: StuckAt(fs, tail, k)
  }

  predicate Continues(st: Reassembly, f: Frame) {
    SameTransaction(st.firstHeader, f.header) && 0 < |f.data| <= st.firstHeader.totalSize - |st.payload|
  }

  /** When a read that starts in state `st` on frames `fs` and `tail` leaves something behind. */
  ghost predicate Stalls(st: Option<Reassembly>, fs: seq<Frame>, tail: bytes) {
    match st
    case None => StallsIdle(fs, tail)
    case Some(s) =>
      fs != [] && Continues(s, fs[0])
      && if |s.payload| + |fs[0].data| < s.firstHeader.totalSize then |fs| > 1 || FrameIn(tail).Err?
         else Deliverable(s.firstHeader, s.payload + fs[0].data) && StallsIdle(fs[1..], tail)
  }

  lemma StallsLater(fs: seq<Frame>, tail: bytes)
    requires fs != [] && Whole(fs[0])
    ensures StallsIdle(fs, tail) <==> StallsIdle(fs[1..], tail)
  {
    hide Deliverable;
    var later := fs[1..];
    if k: nat :| StuckAt(fs, tail, k) {
      assert StuckAt(later, tail, k - 1) by {
        assert forall i :: 0 <= i < k - 1 ==> later[i] == fs[i + 1];
      }
    }
    if k: nat :| StuckAt(later, tail, k) {
      assert StuckAt(fs, tail, k + 1) by {
        assert forall i :: 0 < i < k + 1 ==> fs[i] == later[i - 1];
      }
    }
  }

  lemma MoreBehind(fs: seq<Frame>, tail: bytes)
    requires AllSound(fs) && NoFrame(tail)
    ensures FrameIn(WireBytes(fs) + tail) != Ok(None) <==> fs != [] || FrameIn(tail).Err?
    ensures fs == [] ==> WireBytes(fs) + tail == tail
    ensures fs != [] ==>
              FrameIn(WireBytes(fs) + tail) == Ok(Some((fs[0], WireBytes(fs[1..]) + tail)))
  {
    hide FrameIn, FrameBytes;
    if fs == [] {
      assert WireBytes(fs) + tail == tail;
    } else {
      assert WireBytes(fs) + tail == FrameBytes(fs[0]) + (WireBytes(fs[1..]) + tail);
      SoundIsTaken(fs[0], WireBytes(fs[1..]) + tail);
    }
  }

  /** From idle, a read delivers everything its buffer stands for exactly when it does not meet
      the opening frame of a fragmented transaction with something more behind it. */
  lemma {:induction false} IdleDeliversAllIff(fs: seq<Frame>, tail: bytes)
    requires AllSound(fs) && NoFrame(tail)
    ensures var buf := WireBytes(fs) + tail;
            AfterRead(None, buf) == Drained(None, buf) <==> !StallsIdle(fs, tail)
    decreases |fs|
  {
    hide FrameIn, FromParts, Appended, Deliverable, ValidHeader;
    var buf := WireBytes(fs) + tail;
    MoreBehind(fs, tail);
    if fs != [] {
      var f, rest := fs[0], WireBytes(fs[1..]) + tail;
      assert Sound(f);
      if Opens(f) {
        MoreBehind(fs[1..], tail);
        DrainedShrinks(Some(Reassembly(f.header, f.data)), rest);
        assert StallsIdle(fs, tail) <==> StuckAt(fs, tail, 0);
      } else {
        FinalizedIff(f.header, f.data, rest);
        if Whole(f) {
          StallsLater(fs, tail);
          IdleDeliversAllIff(fs[1..], tail);
          FirstInjective(Transaction(Normalised(f.header), f.data), AfterRead(None, rest), Drained(None, rest));
        }
      }
    }
  }

  lemma AppendedIff(st: Reassembly, f: Frame)
    requires Partial(st) && Sound(f)
    ensures if Continues(st, f) then Appended(st, f) == Ok(st.(payload := st.payload + f.data))
            else Appended(st, f).Err?
  {
    HeaderRulesAgree(st.firstHeader, f.header);
  }

  /** The same from every state the codec can be in, for every buffer by `FramesIn`. */
  lemma {:induction false} ReadDeliversAllIff(st: Option<Reassembly>, fs: seq<Frame>, tail: bytes)
    requires st.Some? ==> Partial(st.value)
    requires AllSound(fs) && NoFrame(tail)
    ensures var buf := WireBytes(fs) + tail;
            AfterRead(st, buf) == Drained(st, buf) <==> !Stalls(st, fs, tail)
  {
    hide FrameIn, FromParts, Appended, Deliverable, ValidHeader, StallsIdle;
    if st.None? {
      IdleDeliversAllIff(fs, tail);
    } else {
      MoreBehind(fs, tail);
      if fs != [] {
        var f, rest, s := fs[0], WireBytes(fs[1..]) + tail, st.value;
        assert Sound(f);
        AppendedIff(s, f);
        if Continues(s, f) {
          var p := s.payload + f.data;
          MoreBehind(fs[1..], tail);
          if |p| == s.firstHeader.totalSize {
            FinalizedIff(s.firstHeader, p, rest);
            if Deliverable(s.firstHeader, p) {
              IdleDeliversAllIff(fs[1..], tail);
              FirstInjective(Transaction(Normalised(s.firstHeader), p), AfterRead(None, rest), Drained(None, rest));
            }
          } else {
            DrainedShrinks(Some(s.(payload := p)), rest);
          }
        }
      }
    }
  }

  /** A frame that does not continue the open transaction is reported and dropped, and the
      transaction stays open. */
  lemma BadContinuation(st: Reassembly, f: Frame, rest: bytes)
    requires Partial(st) && Sound(f) && !Continues(st, f)
    ensures DecodeNext(Some(st), FrameBytes(f) + rest)
            == Broken(if SameTransaction(st.firstHeader, f.header) then ExceedsRemaining
                      else FirstChange(st.firstHeader, f.header), Some(st), rest)
  {
    hide FrameIn, FrameBytes;
    SoundIsTaken(f, rest);
    HeaderRulesAgree(st.firstHeader, f.header);
  }

  /** Between calls an open reassembly always owes bytes, so the law above covers every call. */
  lemma StepKeepsPartial(st: Option<Reassembly>, buf: bytes)
    requires st.Some? ==> Partial(st.value)
    ensures DecodeNext(st, buf).state.Some? ==> Partial(DecodeNext(st, buf).state.value)
  {
    hide FrameIn, FromParts, ValidHeader;
    FrameInShape(buf);
  }

  /** No transaction of several frames is delivered by the read that brings it in one go: only
      its first frame is taken. */
  lemma FragmentedSeriesStalls(fs: seq<Frame>, rest: bytes)
    requires WellFormed(fs, MAX_PAYLOAD_SIZE) && |fs| > 1
    ensures var buf := WireBytes(fs) + rest;
            AfterRead(None, buf)
            == Delivery([], None, Some(Reassembly(fs[0].header, fs[0].data)), WireBytes(fs[1..]) + rest)
            && AfterRead(None, buf) != Drained(None, buf)
  {
    hide FrameIn, HeaderBytes, WireBytes, PayloadOf, WellFormed, DecodeNext;
    SeriesFacts(fs);
    SeriesBegins(fs, rest);
    WireStarts(fs, rest);
    WireStarts(fs[1..], rest);
    SoundIsTaken(fs[1], WireBytes(fs[1..][1..]) + rest);
    DrainedShrinks(Some(Reassembly(fs[0].header, fs[0].data)), WireBytes(fs[1..]) + rest);
  }

  // ----------------------------------------------------------- end of stream

  /** The last calls, once the peer has closed: decode until nothing is returned. */
  function AfterClose(st: Option<Reassembly>, buf: bytes): Delivery
    decreases |buf|
  {
    match DecodeLast(st, buf)
    case Waiting(st', buf') => Delivery([], None, st', buf')
    case Broken(e, st', buf') => Delivery([], Some(e), st', buf')
    case Item(tx, st', buf') => First(tx, AfterClose(st', buf'))
  }

  /** One read, then the end of the stream. */
  function ReadThenClosed(buf: bytes): Delivery {
    var d := AfterRead(None, buf);
    if d.error.Some? then d
    else
      var e := AfterClose(d.state, d.buf);
      e.(items := d.items + e.items)
  }

  /** At the close, an open reassembly or the beginning of a frame is an error; an idle codec with
      an empty buffer just ends. */
  lemma UnfinishedAtClose(st: Option<Reassembly>, tail: bytes)
    requires FrameIn(tail) == Ok(None)
    ensures AfterClose(st, tail)
            == Delivery([], if st.Some? || tail != [] then Some(EndOfInput) else None, st, tail)
  {
    hide FrameIn;
  }

  function Burst(ss: seq<seq<Frame>>): bytes {
    if ss == [] then [] else WireBytes(ss[0]) + Burst(ss[1..])
  }

  function TransactionOf(fs: seq<Frame>): Transaction
    requires fs != []
  {
    Transaction(Normalised(fs[0].header), PayloadOf(fs))
  }

  predicate AllWellFormed(ss: seq<seq<Frame>>) {
    forall i :: 0 <= i < |ss| ==> WellFormed(ss[i], MAX_PAYLOAD_SIZE)
  }

  function TransactionsOf(ss: seq<seq<Frame>>): seq<Transaction>
    requires AllWellFormed(ss)
  {
    if ss == [] then [] else [TransactionOf(ss[0])] + TransactionsOf(ss[1..])
  }

  /** Frames beyond the first of each transaction. */
  function ExtraFrames(ss: seq<seq<Frame>>): nat
    requires AllWellFormed(ss)
  {
    if ss == [] then 0 else |ss[0]| - 1 + ExtraFrames(ss[1..])
  }

  predicate AllDeliverable(ss: seq<seq<Frame>>)
    requires AllWellFormed(ss)
  {
    forall i :: 0 <= i < |ss| ==> Deliverable(ss[i][0].header, PayloadOf(ss[i]))
  }

  /** All transactions of the burst came out and nothing was reported. */
  predicate Heard(d: Delivery, ss: seq<seq<Frame>>)
    requires AllWellFormed(ss)
  {
    d.items == TransactionsOf(ss) && d.error == None
  }

  lemma PayloadStarts(fs: seq<Frame>)
    requires fs != []
    ensures PayloadOf(fs) == fs[0].data + PayloadOf(fs[1..])
    ensures |fs| == 1 ==> PayloadOf(fs) == fs[0].data
  {
  }

  /** The first two frames of a series, as the codec checks them. */
  lemma SeriesFacts(fs: seq<Frame>)
    requires WellFormed(fs, MAX_PAYLOAD_SIZE)
    ensures fs != [] && Sound(fs[0]) && (Opens(fs[0]) <==> |fs| > 1)
    ensures |fs| == 1 ==> PayloadOf(fs) == fs[0].data
    ensures |fs| > 1 ==>
              Sound(fs[1]) && Continues(Reassembly(fs[0].header, fs[0].data), fs[1])
              && (|fs[0].data| + |fs[1].data| == fs[0].header.totalSize <==> |fs| == 2)
    ensures |fs| == 2 ==> PayloadOf(fs) == fs[0].data + fs[1].data
  {
    hide PayloadOf;
    PayloadStarts(fs);
    assert FrameOf(fs[0], fs[0].header);
    if |fs| > 1 {
      var next := fs[1..];
      assert next[1..] == fs[2..];
      PayloadStarts(next);
      assert FrameOf(fs[1], fs[0].header) && fs[1].data != [];
      if |fs| > 2 {
        PayloadStarts(fs[2..]);
        assert fs[2].data != [];
      }
    }
  }

  lemma {:induction false} WireStarts(fs: seq<Frame>, rest: bytes)
    requires fs != []
    ensures WireBytes(fs) + rest == FrameBytes(fs[0]) + (WireBytes(fs[1..]) + rest)
    ensures |fs| == 1 ==> WireBytes(fs[1..]) + rest == rest
  {
    hide FrameBytes;
    var tail := WireBytes(fs[1..]);
    assert WireBytes(fs) == FrameBytes(fs[0]) + tail;
    assert (FrameBytes(fs[0]) + tail) + rest == FrameBytes(fs[0]) + (tail + rest);
  }

  /** The first call on a series: a single frame is a transaction, any other is only absorbed. */
  lemma SeriesBegins(fs: seq<Frame>, rest: bytes)
    requires WellFormed(fs, MAX_PAYLOAD_SIZE)
    ensures fs != []
    ensures DecodeNext(None, WireBytes(fs) + rest)
            == if |fs| == 1 then Finalized(fs[0].header, PayloadOf(fs), rest)
               else Waiting(Some(Reassembly(fs[0].header, fs[0].data)), WireBytes(fs[1..]) + rest)
  {
    hide FrameIn, FrameBytes, WireBytes, PayloadOf, WellFormed, Finalized, ValidHeader;
    SeriesFacts(fs);
    WireStarts(fs, rest);
    SoundIsTaken(fs[0], WireBytes(fs[1..]) + rest);
  }

  /** The second call: it completes a series of two frames, and only such a series. */
  lemma SeriesGoesOn(fs: seq<Frame>, rest: bytes)
    requires WellFormed(fs, MAX_PAYLOAD_SIZE) && |fs| > 1
    ensures var s := DecodeNext(Some(Reassembly(fs[0].header, fs[0].data)), WireBytes(fs[1..]) + rest);
            if |fs| == 2 then s == Finalized(fs[0].header, PayloadOf(fs), rest)
            else s.Waiting? && s.state.Some?
  {
    hide FrameIn, FrameBytes, WireBytes, PayloadOf, WellFormed, Finalized, ValidHeader, Appended;
    SeriesFacts(fs);
    WireStarts(fs[1..], rest);
    SoundIsTaken(fs[1], WireBytes(fs[1..][1..]) + rest);
    AppendedIff(Reassembly(fs[0].header, fs[0].data), fs[1]);
  }

  lemma HeardLater(d: Delivery, ss: seq<seq<Frame>>)
    requires AllWellFormed(ss) && ss != []
    ensures Heard(First(TransactionOf(ss[0]), d), ss) <==> Heard(d, ss[1..])
  {
    assert First(TransactionOf(ss[0]), d).items[1..] == d.items;
    assert TransactionsOf(ss)[1..] == TransactionsOf(ss[1..]);
  }

  /** Whether what the codec makes of one assembled transaction keeps a burst on course. */
  lemma FinalizedHeard(ss: seq<seq<Frame>>, rest: bytes)
    requires AllWellFormed(ss) && ss != []
    ensures var s := Finalized(ss[0][0].header, PayloadOf(ss[0]), rest);
            if Deliverable(ss[0][0].header, PayloadOf(ss[0])) then s == Item(TransactionOf(ss[0]), None, rest)
            else s.Broken?
    ensures AllDeliverable(ss)
            <==> Deliverable(ss[0][0].header, PayloadOf(ss[0])) && AllDeliverable(ss[1..])
  {
    hide Deliverable, Finalized;
    SeriesFacts(ss[0]);
    FinalizedIff(ss[0][0].header, PayloadOf(ss[0]), rest);
    var later := ss[1..];
    assert forall i :: 0 < i < |ss| ==> ss[i] == later[i - 1];
  }

  /** After the close, a burst is heard out exactly when none of it is fragmented. */
  lemma {:induction false} ClosedHeardIff(ss: seq<seq<Frame>>)
    requires AllWellFormed(ss)
    ensures Heard(AfterClose(None, Burst(ss)), ss) <==> AllDeliverable(ss) && ExtraFrames(ss) == 0
    decreases |ss|
  {
    hide FrameIn, DecodeNext, AllDeliverable, WellFormed, Finalized, Heard, Deliverable, PayloadOf, WireBytes;
    if ss == [] {
      NobodyHeard();
    } else {
      var rest := Burst(ss[1..]);
      SeriesBegins(ss[0], rest);
      FinalizedHeard(ss, rest);
      HeardLater(AfterClose(None, rest), ss);
      ClosedHeardIff(ss[1..]);
      if AfterClose(None, Burst(ss)).error.Some? {
        NotHeard(AfterClose(None, Burst(ss)), ss);
      }
    }
  }

  lemma NobodyHeard()
    ensures Heard(AfterClose(None, Burst([])), []) && AllDeliverable([])
    ensures ReadThenClosed(Burst([])) == AfterClose(None, Burst([]))
  {
    assert FrameIn([]) == Ok(None);
  }

  lemma NotHeard(d: Delivery, ss: seq<seq<Frame>>)
    requires AllWellFormed(ss) && d.error.Some?
    ensures !Heard(d, ss)
  {
  }

  lemma ReadThenClosedStep(tx: Transaction, buf: bytes, rest: bytes)
    requires DecodeNext(None, buf) == Item(tx, None, rest)
    ensures ReadThenClosed(buf) == First(tx, ReadThenClosed(rest))
  {
    hide DecodeNext, DecodeLast;
    var d := AfterRead(None, rest);
    if d.error.None? {
      var e := AfterClose(d.state, d.buf);
      assert ([tx] + d.items) + e.items == [tx] + (d.items + e.items);
    }
  }

  /** A peer that sends a burst of well-formed transactions in one read and closes is heard out
      exactly when each of them fits one frame and passes its checks, and at most one frame of
      them all is a continuation. */
  lemma {:induction false} BurstHeardIff(ss: seq<seq<Frame>>)
    requires AllWellFormed(ss)
    ensures Heard(ReadThenClosed(Burst(ss)), ss) <==> AllDeliverable(ss) && ExtraFrames(ss) <= 1
    decreases |ss|
  {
    hide FrameIn, DecodeNext, DecodeLast, AllDeliverable, WellFormed, Finalized, Heard, Deliverable;
    hide PayloadOf, WireBytes;
    if ss == [] {
      NobodyHeard();
    } else {
      var rest := Burst(ss[1..]);
      SeriesBegins(ss[0], rest);
      FinalizedHeard(ss, rest);
      if |ss[0]| > 1 {
        OpenAtClose(ss);
      } else if DecodeNext(None, Burst(ss)).Item? {
        ReadThenClosedStep(TransactionOf(ss[0]), Burst(ss), rest);
        HeardLater(ReadThenClosed(rest), ss);
        BurstHeardIff(ss[1..]);
      } else {
        NotHeard(ReadThenClosed(Burst(ss)), ss);
      }
    }
  }

  /** A burst that begins with a fragmented transaction: its read absorbs one frame, the close
      one more. */
  lemma OpenAtClose(ss: seq<seq<Frame>>)
    requires AllWellFormed(ss) && ss != [] && |ss[0]| > 1
    ensures Heard(ReadThenClosed(Burst(ss)), ss)
            <==> |ss[0]| == 2 && AllDeliverable(ss) && ExtraFrames(ss[1..]) == 0
  {
    hide FrameIn, DecodeNext, AllDeliverable, WellFormed, Finalized, Heard, Deliverable;
    hide PayloadOf, WireBytes;
    var rest := Burst(ss[1..]);
    SeriesBegins(ss[0], rest);
    SeriesGoesOn(ss[0], rest);
    FinalizedHeard(ss, rest);
    HeardLater(AfterClose(None, rest), ss);
    ClosedHeardIff(ss[1..]);
    var d := ReadThenClosed(Burst(ss));
    var e := AfterClose(Some(Reassembly(ss[0][0].header, ss[0][0].data)), WireBytes(ss[0][1..]) + rest);
    assert [] + e.items == e.items;
    assert d == e;
    if d.error.Some? {
      NotHeard(d, ss);
    }
  }

  lemma OneBurst(fs: seq<Frame>)
    requires WellFormed(fs, MAX_PAYLOAD_SIZE)
    ensures Burst([fs]) == WireBytes(fs)
    ensures TransactionsOf([fs]) == [TransactionOf(fs)] && ExtraFrames([fs]) == |fs| - 1
    ensures AllDeliverable([fs]) <==> Deliverable(fs[0].header, PayloadOf(fs))
  {
    hide WireBytes, PayloadOf, Deliverable;
    assert [fs][0] == fs && [fs][1..] == [];
    assert WireBytes(fs) + [] == WireBytes(fs);
  }

  /** One series, read in one go and closed, is heard exactly when it has at most two frames, fits
      one, and passes its checks. */
  lemma SeriesHeardIff(fs: seq<Frame>)
    requires WellFormed(fs, MAX_PAYLOAD_SIZE)
    ensures var d := ReadThenClosed(WireBytes(fs));
            d.items == [TransactionOf(fs)] && d.error == None
            <==> |fs| <= 2 && fs[0].header.totalSize <= MAX_FRAME_DATA
                 && Validated(Normalised(fs[0].header), PayloadOf(fs)).Ok?
  {
    hide ReadThenClosed, WellFormed, WireBytes, PayloadOf, Validated, AllDeliverable, Burst;
    OneBurst(fs);
    BurstHeardIff([fs]);
  }

  /** A longer one is reported as incomplete although it is complete. */
  lemma LongSeriesLost(fs: seq<Frame>)
    requires WellFormed(fs, MAX_PAYLOAD_SIZE) && |fs| > 2
    ensures ReadThenClosed(WireBytes(fs)).items == []
    ensures ReadThenClosed(WireBytes(fs)).error == Some(EndOfInput)
  {
    hide DecodeNext, WellFormed, PayloadOf, WireBytes;
    assert WireBytes(fs) + [] == WireBytes(fs);
    SeriesBegins(fs, []);
    SeriesGoesOn(fs, []);
  }

  // ------------------------------------------------------------- an instance

  function OneByte(total: u32): Frame {
    Frame(FrameHeader(0, 0, FILE_NAME_LIST_ID, 1, 0, total, 1), [0])
  }

  /** A request in three frames that the reader accepts: the codec's read delivers nothing, and a
      close right after it is reported as an incomplete transaction. */
  lemma ThreeFramesLost()
    ensures var fs := [OneByte(3), OneByte(3), OneByte(3)];
            WellFormed(fs, MAX_PAYLOAD_SIZE)
            && TransactionAt(WireBytes(fs), MAX_PAYLOAD_SIZE) == Ok((TransactionOf(fs), []))
            && AfterRead(None, WireBytes(fs)).items == []
            && ReadThenClosed(WireBytes(fs)).items == []
            && ReadThenClosed(WireBytes(fs)).error == Some(EndOfInput)
  {
    hide FrameIn, DecodeNext, Finalized, WireBytes, FramePhase;
    var fs := [OneByte(3), OneByte(3), OneByte(3)];
    var wire := WireBytes(fs);
    assert wire + [] == wire;
    assert fs[1..] == [OneByte(3), OneByte(3)] && fs[1..][1..] == [OneByte(3)];
    assert PayloadOf(fs) == [0, 0, 0];
    SeriesIsRead(fs, [], MAX_PAYLOAD_SIZE);
    LongSeriesLost(fs);
    FragmentedSeriesStalls(fs, []);
  }
}
