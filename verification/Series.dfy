/**
 A transaction on the wire: a series of frames that repeat one header and split one payload.

 `WellFormed` is the grammar of a series and `Encodes` what a byte stream starting with one
 stands for. `FramePhase` is the checked reading order of the buffered reader; it is proved
 to accept exactly the streams `Encodes` describes.
 */
module Series {
  import opened Bytes
  import opened Headers

  datatype Frame = Frame(header: FrameHeader, data: bytes)

  /** A reassembled transaction and the bytes behind it. */
  datatype Assembled = Assembled(header: FrameHeader, payload: bytes, rest: bytes)

  // ---------------------------------------------------------------- grammar

  function FrameBytes(f: Frame): bytes {
    HeaderBytes(f.header) + f.data
  }

  function WireBytes(fs: seq<Frame>): bytes {
    if fs == [] then [] else FrameBytes(fs[0]) + WireBytes(fs[1..])
  }

  function PayloadOf(fs: seq<Frame>): bytes {
    if fs == [] then [] else fs[0].data + PayloadOf(fs[1..])
  }

  /** Two frames belong to one transaction when only their data sizes may differ. */
  predicate SameTransaction(a: FrameHeader, b: FrameHeader) {
    b == a.(dataSize := b.dataSize)
  }

  predicate FrameOf(f: Frame, h: FrameHeader) {
    SameTransaction(h, f.header) && f.header.dataSize == |f.data| <= MAX_FRAME_DATA
  }

  predicate WellFormed(fs: seq<Frame>, limit: nat) {
    fs != []
    && fs[0].header.flags == 0
    && fs[0].header.totalSize <= limit
    && (forall i :: 0 <= i < |fs| ==> FrameOf(fs[i], fs[0].header))
    && (|fs| > 1 ==> forall i :: 0 <= i < |fs| ==> fs[i].data != [])
    && |PayloadOf(fs)| == fs[0].header.totalSize
  }

  /** The byte stream `s` starts with a well-formed series that stands for `a`. */
  ghost predicate Encodes(s: bytes, limit: nat, a: Assembled) {
    exists fs: seq<Frame> :: WellFormed(fs, limit)
      && s == WireBytes(fs) + a.rest
      && a.header == Normalised(fs[0].header)
      && a.payload == PayloadOf(fs)
  }

  // ----------------------------------------------------------- reading order

  function FrameAt(s: bytes, limit: nat): Result<(Frame, bytes), TransactionError> {
    if |s| < HEADER_LEN then Err(UnexpectedEof)
    else
      var h := HeaderOf(s[..HEADER_LEN]);
      if h.totalSize > limit then Err(PayloadTooLarge)
      else if h.dataSize > MAX_FRAME_DATA then Err(PayloadTooLarge)
      else if |s| < HEADER_LEN + h.dataSize then Err(UnexpectedEof)
      else Ok((Frame(h, s[HEADER_LEN..HEADER_LEN + h.dataSize]), s[HEADER_LEN + h.dataSize..]))
  }

  function FirstHeaderChecked(h: FrameHeader, limit: nat): Result<(), TransactionError> {
    if h.flags != 0 then Err(InvalidFlags)
    else if h.totalSize > limit then Err(PayloadTooLarge)
    else if h.dataSize > h.totalSize then Err(SizeMismatch)
    else if h.dataSize == 0 && h.totalSize > 0 then Err(SizeMismatch)
    else Ok(())
  }

  predicate HeadersMatch(first: FrameHeader, next: FrameHeader) {
    next.ty == first.ty && next.id == first.id && next.error == first.error
    && next.totalSize == first.totalSize && next.flags == first.flags
    && next.isReply == first.isReply
  }

  function ContinuationChecked(first: FrameHeader, next: FrameHeader, remaining: nat)
    : Result<(), TransactionError>
  {
    if !HeadersMatch(first, next) then Err(HeaderMismatch)
    else if next.dataSize == 0 || next.dataSize > remaining then Err(SizeMismatch)
    else Ok(())
  }

  /** The payload bytes of the frames still missing, and the stream behind them. */
  function Continuations(first: FrameHeader, s: bytes, limit: nat, remaining: nat)
    : Result<(bytes, bytes), TransactionError>
    decreases remaining
  {
    if remaining == 0 then Ok(([], s))
    else
      var (f, s') :- FrameAt(s, limit);
      var _ :- ContinuationChecked(first, f.header, remaining);
      var (p, rest) :- Continuations(first, s', limit, remaining - f.header.dataSize);
      Ok((f.data + p, rest))
  }

  function FramePhase(s: bytes, limit: nat): Result<Assembled, TransactionError> {
    var (f, s') :- FrameAt(s, limit);
    var _ :- FirstHeaderChecked(f.header, limit);
    var (p, rest) :- Continuations(f.header, s', limit, f.header.totalSize - f.header.dataSize);
    Ok(Assembled(Normalised(f.header), f.data + p, rest))
  }

  // ------------------------------------------------- grammar against reading

  /** A frame in front of any bytes is read back, and only such bytes read as a frame. */
  lemma FrameAtPrinted(f: Frame, tail: bytes, limit: nat)
    requires f.header.dataSize == |f.data| <= MAX_FRAME_DATA && f.header.totalSize <= limit
    ensures FrameAt(FrameBytes(f) + tail, limit) == Ok((f, tail))
  {
    var s := FrameBytes(f) + tail;
    assert s[..HEADER_LEN] == HeaderBytes(f.header);
    HeaderRoundTrip(f.header, s[..HEADER_LEN]);
    assert s[HEADER_LEN..HEADER_LEN + |f.data|] == f.data;
    assert s[HEADER_LEN + |f.data|..] == tail;
  }

  lemma FrameAtSplits(s: bytes, limit: nat)
    requires FrameAt(s, limit).Ok?
    ensures var (f, tail) := FrameAt(s, limit).value;
            s == FrameBytes(f) + tail && f.header.dataSize == |f.data| <= MAX_FRAME_DATA
            && f.header.totalSize <= limit
  {
    var h := HeaderOf(s[..HEADER_LEN]);
    HeaderRoundTrip(h, s[..HEADER_LEN]);
    assert s == s[..HEADER_LEN] + s[HEADER_LEN..HEADER_LEN + h.dataSize] + s[HEADER_LEN + h.dataSize..];
  }

  /** The frames after the first one, when they carry the missing `remaining` bytes. */
  predicate IsTail(fs: seq<Frame>, first: FrameHeader, remaining: nat) {
    (forall i :: 0 <= i < |fs| ==> FrameOf(fs[i], first) && fs[i].data != []) && |PayloadOf(fs)| == remaining
  }

  /** Good continuation frames are absorbed one by one, whatever stands behind them. */
  lemma {:induction false} FramesAbsorbed(fs: seq<Frame>, first: FrameHeader, tail: bytes, limit: nat, remaining: nat)
    requires IsTail(fs, first, |PayloadOf(fs)|) && |PayloadOf(fs)| <= remaining
    requires first.totalSize <= limit
    ensures Continuations(first, WireBytes(fs) + tail, limit, remaining)
            == match Continuations(first, tail, limit, remaining - |PayloadOf(fs)|)
               case Ok((p, rest)) => Ok((PayloadOf(fs) + p, rest))
               case Err(e) => Err(e)
    decreases |fs|
  {
    hide FrameAt, HeaderBytes, HeaderOf;
    if fs == [] {
      assert WireBytes(fs) + tail == tail;
      var c := Continuations(first, tail, limit, remaining);
      assert c.Ok? ==> [] + c.value.0 == c.value.0;
    } else {
      assert WireBytes(fs) + tail == FrameBytes(fs[0]) + (WireBytes(fs[1..]) + tail);
      FrameAtPrinted(fs[0], WireBytes(fs[1..]) + tail, limit);
      FramesAbsorbed(fs[1..], first, tail, limit, remaining - |fs[0].data|);
      var c := Continuations(first, tail, limit, remaining - |PayloadOf(fs)|);
      assert c.Ok? ==> fs[0].data + (PayloadOf(fs[1..]) + c.value.0) == PayloadOf(fs) + c.value.0;
    }
  }

  lemma TailIsRead(fs: seq<Frame>, first: FrameHeader, tail: bytes, limit: nat, remaining: nat)
    requires IsTail(fs, first, remaining) && first.totalSize <= limit
    ensures Continuations(first, WireBytes(fs) + tail, limit, remaining) == Ok((PayloadOf(fs), tail))
  {
    FramesAbsorbed(fs, first, tail, limit, remaining);
    assert PayloadOf(fs) + [] == PayloadOf(fs);
  }

  lemma {:induction false} ReadIsTail(first: FrameHeader, s: bytes, limit: nat, remaining: nat)
    returns (fs: seq<Frame>)
    requires Continuations(first, s, limit, remaining).Ok?
    ensures var (p, rest) := Continuations(first, s, limit, remaining).value;
            IsTail(fs, first, remaining) && s == WireBytes(fs) + rest && p == PayloadOf(fs)
    decreases remaining
  {
    hide FrameAt, HeaderBytes, HeaderOf;
    if remaining == 0 {
      fs := [];
      assert s == [] + s;
    } else {
      var (f, s') := FrameAt(s, limit).value;
      FrameAtSplits(s, limit);
      var more := ReadIsTail(first, s', limit, remaining - f.header.dataSize);
      fs := [f] + more;
      assert fs[1..] == more;
      assert forall i :: 1 <= i < |fs| ==> fs[i] == more[i - 1];
      assert WireBytes(fs) == FrameBytes(f) + WireBytes(more);
    }
  }

  lemma TailOfSeries(fs: seq<Frame>, limit: nat)
    requires WellFormed(fs, limit)
    ensures IsTail(fs[1..], fs[0].header, fs[0].header.totalSize - |fs[0].data|)
    ensures FrameOf(fs[0], fs[0].header) && FirstHeaderChecked(fs[0].header, limit).Ok?
  {
    hide FrameAt, HeaderBytes, HeaderOf;
    if |fs| > 1 {
      assert fs[1].data != [];
    }
  }

  lemma SeriesIsRead(fs: seq<Frame>, rest: bytes, limit: nat)
    requires WellFormed(fs, limit)
    ensures FramePhase(WireBytes(fs) + rest, limit)
            == Ok(Assembled(Normalised(fs[0].header), PayloadOf(fs), rest))
  {
    hide FrameAt, HeaderBytes, HeaderOf;
    var first := fs[0];
    var tail := WireBytes(fs[1..]) + rest;
    assert WireBytes(fs) + rest == FrameBytes(first) + tail;
    TailOfSeries(fs, limit);
    FrameAtPrinted(first, tail, limit);
    TailIsRead(fs[1..], first.header, rest, limit, first.header.totalSize - |first.data|);
  }

  lemma ReadIsSeries(s: bytes, limit: nat) returns (fs: seq<Frame>)
    requires FramePhase(s, limit).Ok?
    ensures var a := FramePhase(s, limit).value;
            WellFormed(fs, limit) && s == WireBytes(fs) + a.rest
            && a.header == Normalised(fs[0].header) && a.payload == PayloadOf(fs)
  {
    hide FrameAt, HeaderBytes, HeaderOf;
    var (f, s') := FrameAt(s, limit).value;
    FrameAtSplits(s, limit);
    var more := ReadIsTail(f.header, s', limit, f.header.totalSize - f.header.dataSize);
    fs := [f] + more;
    assert fs[1..] == more;
    assert forall i :: 1 <= i < |fs| ==> fs[i] == more[i - 1];
  }

  /** The reader accepts exactly the streams that start with a well-formed series. */
  lemma FramePhaseIsGrammar(s: bytes, limit: nat, a: Assembled)
    ensures FramePhase(s, limit) == Ok(a) <==> Encodes(s, limit, a)
  {
    hide FrameAt, HeaderBytes, HeaderOf;
    if FramePhase(s, limit) == Ok(a) {
      var fs := ReadIsSeries(s, limit);
    }
    if Encodes(s, limit, a) {
      var fs: seq<Frame> :| WellFormed(fs, limit) && s == WireBytes(fs) + a.rest
                && a.header == Normalised(fs[0].header) && a.payload == PayloadOf(fs);
      SeriesIsRead(fs, a.rest, limit);
    }
  }

  /** A stream stands for at most one transaction: no series is a prefix of another reading. */
  lemma SeriesUnambiguous(s: bytes, limit: nat, a: Assembled, b: Assembled)
    requires Encodes(s, limit, a) && Encodes(s, limit, b)
    ensures a == b
  {
    FramePhaseIsGrammar(s, limit, a);
    FramePhaseIsGrammar(s, limit, b);
  }

  // ---------------------------------------------------------------- first fault

  /** A series that began well and still owes bytes. */
  predicate Unfinished(fs: seq<Frame>, limit: nat) {
    fs != [] && FirstHeaderChecked(fs[0].header, limit).Ok? && FrameOf(fs[0], fs[0].header)
    && IsTail(fs[1..], fs[0].header, |PayloadOf(fs[1..])|)
    && |PayloadOf(fs)| < fs[0].header.totalSize
  }

  /** What is made of an accepted opening frame and the continuations behind it. */
  function Opened(first: Frame, c: Result<(bytes, bytes), TransactionError>): Result<Assembled, TransactionError> {
    match c
    case Ok((p, rest)) => Ok(Assembled(Normalised(first.header), first.data + p, rest))
    case Err(e) => Err(e)
  }

  lemma OpeningReads(first: Frame, tail: bytes, limit: nat)
    requires FirstHeaderChecked(first.header, limit).Ok? && FrameOf(first, first.header)
    ensures FramePhase(FrameBytes(first) + tail, limit)
            == Opened(first, Continuations(first.header, tail, limit, first.header.totalSize - |first.data|))
  {
    hide FrameAt, FrameBytes;
    FrameAtPrinted(first, tail, limit);
  }

  lemma UnfinishedReads(fs: seq<Frame>, tail: bytes, limit: nat)
    requires Unfinished(fs, limit)
    ensures FramePhase(WireBytes(fs) + tail, limit)
            == Opened(Frame(fs[0].header, PayloadOf(fs)),
                      Continuations(fs[0].header, tail, limit, fs[0].header.totalSize - |PayloadOf(fs)|))
  {
    hide FramePhase, FrameBytes, FrameAt, ContinuationChecked;
    var first, more := fs[0], fs[1..];
    assert PayloadOf(fs) == first.data + PayloadOf(more);
    var owed := first.header.totalSize - |PayloadOf(fs)|;
    assert WireBytes(fs) + tail == FrameBytes(first) + (WireBytes(more) + tail);
    OpeningReads(first, WireBytes(more) + tail, limit);
    FramesAbsorbed(more, first.header, tail, limit, first.header.totalSize - |first.data|);
    assert owed == first.header.totalSize - |first.data| - |PayloadOf(more)|;
    var c := Continuations(first.header, tail, limit, owed);
    if c.Ok? {
      assert first.data + (PayloadOf(more) + c.value.0) == PayloadOf(fs) + c.value.0;
    }
  }

  /** The first frame that does not continue an unfinished series decides the error: another
      header, or an empty or overlong piece; an early end is reported as such. */
  lemma FirstFaultDecides(fs: seq<Frame>, g: Frame, tail: bytes, limit: nat)
    requires Unfinished(fs, limit)
    requires g.header.dataSize == |g.data| <= MAX_FRAME_DATA && g.header.totalSize <= limit
    ensures !SameTransaction(fs[0].header, g.header) ==>
              FramePhase(WireBytes(fs) + (FrameBytes(g) + tail), limit) == Err(HeaderMismatch)
    ensures SameTransaction(fs[0].header, g.header)
            && (g.data == [] || |PayloadOf(fs)| + |g.data| > fs[0].header.totalSize) ==>
              FramePhase(WireBytes(fs) + (FrameBytes(g) + tail), limit) == Err(SizeMismatch)
    ensures forall k: nat :: k < |FrameBytes(g)| ==>
              FramePhase(WireBytes(fs) + FrameBytes(g)[..k], limit) == Err(UnexpectedEof)
  {
    hide FrameAt, HeaderBytes, HeaderOf;
    UnfinishedReads(fs, FrameBytes(g) + tail, limit);
    FrameAtPrinted(g, tail, limit);
    forall k: nat | k < |FrameBytes(g)|
      ensures FramePhase(WireBytes(fs) + FrameBytes(g)[..k], limit) == Err(UnexpectedEof)
    {
      UnfinishedReads(fs, FrameBytes(g)[..k], limit);
      FrameAtTruncated(g, k, limit);
    }
  }

  lemma FrameAtTruncated(g: Frame, k: nat, limit: nat)
    requires g.header.dataSize == |g.data| <= MAX_FRAME_DATA && g.header.totalSize <= limit
    requires k < |FrameBytes(g)|
    ensures FrameAt(FrameBytes(g)[..k], limit) == Err(UnexpectedEof)
  {
    hide HeaderOf, HeaderBytes;
    var s := FrameBytes(g)[..k];
    if k >= HEADER_LEN {
      assert s[..HEADER_LEN] == HeaderBytes(g.header);
      HeaderRoundTrip(g.header, s[..HEADER_LEN]);
    }
  }

  /** What an opening frame is refused with, before and after its data is looked at. */
  lemma OpeningFault(f: Frame, tail: bytes, limit: nat)
    requires f.header.dataSize == |f.data|
    ensures var h := f.header;
            var r := FramePhase(FrameBytes(f) + tail, limit);
            if h.totalSize > limit || h.dataSize > MAX_FRAME_DATA then r == Err(PayloadTooLarge)
            else if h.flags != 0 then r == Err(InvalidFlags)
            else if h.dataSize > h.totalSize || (h.dataSize == 0 && h.totalSize > 0) then r == Err(SizeMismatch)
            else h.dataSize == h.totalSize ==> r == Ok(Assembled(h, f.data, tail))
  {
    hide HeaderOf, HeaderBytes;
    var s := FrameBytes(f) + tail;
    assert s[..HEADER_LEN] == HeaderBytes(f.header);
    HeaderRoundTrip(f.header, s[..HEADER_LEN]);
    if f.header.totalSize <= limit && |f.data| <= MAX_FRAME_DATA {
      FrameAtPrinted(f, tail, limit);
      assert f.data + [] == f.data;
    }
  }

  /** The limits in numbers: 32 KiB to a frame and 1 MiB to a transaction, and not a byte more. */
  lemma Limits(h: FrameHeader, data: bytes, tail: bytes)
    requires h.flags == 0 && h.dataSize == |data| == h.totalSize
    ensures |data| <= 32_768 ==>
              FramePhase(FrameBytes(Frame(h, data)) + tail, MAX_PAYLOAD_SIZE) == Ok(Assembled(h, data, tail))
    ensures |data| > 32_768 ==>
              FramePhase(FrameBytes(Frame(h, data)) + tail, MAX_PAYLOAD_SIZE) == Err(PayloadTooLarge)
    ensures MAX_PAYLOAD_SIZE == 1_048_576
  {
    hide FramePhase, FrameBytes;
    OpeningFault(Frame(h, data), tail, MAX_PAYLOAD_SIZE);
  }
}
