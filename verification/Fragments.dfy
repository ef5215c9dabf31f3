/** Cutting a payload into frames, and the loops of the three fragmenters. */
module Fragments {
  import opened Bytes
  import opened Headers
  import opened Series

  /** The frames of `payload` at frame size `size`; an empty payload still takes one frame. */
  function FragmentsOf(h: FrameHeader, payload: bytes, size: nat): (fs: seq<Frame>)
    requires 0 < size <= MAX_FRAME_DATA
    ensures fs != [] && PayloadOf(fs) == payload
    decreases |payload|
  {
    if |payload| <= size then
      [Frame(h.(dataSize := |payload|), payload)]
    else
      var tail := FragmentsOf(h, payload[size..], size);
      var fs := [Frame(h.(dataSize := size), payload[..size])] + tail;
      assert fs[1..] == tail;
      assert payload == payload[..size] + payload[size..];
      fs
  }

  /** Frame `i` repeats the header and is full, unless it is the last one. */
  predicate GoodFragment(fs: seq<Frame>, h: FrameHeader, size: nat, i: nat)
    requires i < |fs|
  {
    FrameOf(fs[i], h) && |fs[i].data| <= size && (i < |fs| - 1 ==> |fs[i].data| == size)
  }

  /** Every frame repeats the header; all are full but the last, which is not empty either
      unless the payload is. */
  lemma {:induction false} FragmentShape(h: FrameHeader, payload: bytes, size: nat)
    requires 0 < size <= MAX_FRAME_DATA
    ensures var fs := FragmentsOf(h, payload, size);
            (forall i: nat :: i < |fs| ==> GoodFragment(fs, h, size, i))
            && (payload != [] ==> fs[|fs| - 1].data != [])
    decreases |payload|
  {
    if |payload| > size {
      var tail := FragmentsOf(h, payload[size..], size);
      FragmentShape(h, payload[size..], size);
      var fs := [Frame(h.(dataSize := size), payload[..size])] + tail;
      assert FragmentsOf(h, payload, size) == fs;
      forall i: nat | i < |fs| ensures GoodFragment(fs, h, size, i) {
        assert i > 0 ==> fs[i] == tail[i - 1] && GoodFragment(tail, h, size, i - 1);
      }
    }
  }

  /** The number of frames is the payload length over the frame size, rounded up. */
  lemma {:induction false} FragmentCount(h: FrameHeader, payload: bytes, size: nat)
    requires 0 < size <= MAX_FRAME_DATA && payload != []
    ensures var n := |FragmentsOf(h, payload, size)|;
            (n - 1) * size < |payload| <= n * size
    decreases |payload|
  {
    if |payload| > size {
      FragmentCount(h, payload[size..], size);
      var m := |FragmentsOf(h, payload[size..], size)|;
      assert (m - 1) * size + size == m * size;
      assert m * size + size == (m + 1) * size;
    }
  }

  /** Cutting a payload that fits its header always gives a well-formed series. */
  lemma FragmentsWellFormed(h: FrameHeader, payload: bytes, size: nat, limit: nat)
    requires 0 < size <= MAX_FRAME_DATA
    requires h.flags == 0 && h.totalSize == |payload| <= limit
    ensures WellFormed(FragmentsOf(h, payload, size), limit)
    ensures Normalised(FragmentsOf(h, payload, size)[0].header) == Normalised(h)
  {
    var fs := FragmentsOf(h, payload, size);
    FragmentShape(h, payload, size);
    assert GoodFragment(fs, h, size, 0);
    forall i | 0 <= i < |fs| ensures FrameOf(fs[i], fs[0].header) && (|fs| > 1 ==> fs[i].data != []) {
      assert GoodFragment(fs, h, size, i);
      assert |fs| > 1 ==> PayloadOf(fs) == fs[0].data + PayloadOf(fs[1..]);
    }
  }

  /** Reading a cut payload gives it back, with nothing left over, at any frame size. */
  lemma FragmentsAreRead(h: FrameHeader, payload: bytes, size: nat, rest: bytes, limit: nat)
    requires 0 < size <= MAX_FRAME_DATA
    requires h.flags == 0 && h.totalSize == |payload| <= limit
    ensures FramePhase(WireBytes(FragmentsOf(h, payload, size)) + rest, limit)
            == Ok(Assembled(Normalised(h), payload, rest))
  {
    FragmentsWellFormed(h, payload, size, limit);
    SeriesIsRead(FragmentsOf(h, payload, size), rest, limit);
  }

  function Min(a: int, b: int): int {
    if a <= b then a else b
  }

  /** The wire form of the part of a payload from `offset` on; nothing once it is used up. */
  function WireFrom(h: FrameHeader, payload: bytes, size: nat, offset: nat): bytes
    requires 0 < size <= MAX_FRAME_DATA && offset <= |payload|
  {
    if offset == |payload| then [] else WireBytes(FragmentsOf(h, payload[offset..], size))
  }

  /** One turn of a fragmenting loop: the next frame, then the rest. */
  lemma WireFromStep(h: FrameHeader, payload: bytes, size: nat, offset: nat)
    requires 0 < size <= MAX_FRAME_DATA && offset < |payload|
    ensures var end := Min(offset + size, |payload|);
            var f := Frame(h.(dataSize := end - offset), payload[offset..end]);
            WireFrom(h, payload, size, offset) == FrameBytes(f) + WireFrom(h, payload, size, end)
  {
    hide HeaderBytes;
    var part := payload[offset..];
    var fs := FragmentsOf(h, part, size);
    if |part| <= size {
      assert payload[offset..|payload|] == part;
      assert WireBytes(fs) == FrameBytes(fs[0]) + WireBytes(fs[1..]);
    } else {
      assert part[..size] == payload[offset..offset + size];
      assert part[size..] == payload[offset + size..];
      assert fs[1..] == FragmentsOf(h, part[size..], size);
    }
  }

  lemma WireFromEnds(h: FrameHeader, payload: bytes, size: nat)
    requires 0 < size <= MAX_FRAME_DATA
    ensures payload != [] ==>
              WireFrom(h, payload, size, 0) == WireBytes(FragmentsOf(h, payload, size))
    ensures payload == [] ==>
              WireBytes(FragmentsOf(h, payload, size)) == FrameBytes(Frame(h.(dataSize := 0), []))
    ensures forall sent: bytes :: sent + WireFrom(h, payload, size, |payload|) == sent
  {
    assert payload[0..] == payload;
  }

  /** What a fragmenting loop keeps: bytes sent so far, then the wire form of the rest. */
  lemma EmitStep(sent: bytes, all: bytes, h: FrameHeader, payload: bytes, size: nat, offset: nat)
    requires 0 < size <= MAX_FRAME_DATA && offset < |payload|
    requires sent + WireFrom(h, payload, size, offset) == all
    ensures var end := Min(offset + size, |payload|);
            var f := Frame(h.(dataSize := end - offset), payload[offset..end]);
            sent + FrameBytes(f) + WireFrom(h, payload, size, end) == all
  {
    hide WireFrom, FrameBytes;
    WireFromStep(h, payload, size, offset);
    var end := Min(offset + size, |payload|);
    var f := Frame(h.(dataSize := end - offset), payload[offset..end]);
    assert sent + (FrameBytes(f) + WireFrom(h, payload, size, end))
           == (sent + FrameBytes(f)) + WireFrom(h, payload, size, end);
  }

  /** The full frames that `data` has bytes for; a remainder shorter than a frame is left out. */
  function WholeFrames(h: FrameHeader, data: bytes, size: nat): bytes
    requires 0 < size <= MAX_FRAME_DATA
    decreases |data|
  {
    if |data| < size then []
    else FrameBytes(Frame(h.(dataSize := size), data[..size])) + WholeFrames(h, data[size..], size)
  }

  /** What streaming `total` bytes from `data` still sends once `offset` of them are sent. */
  ghost function StreamFrom(h: FrameHeader, data: bytes, total: nat, size: nat, offset: nat): bytes
    requires 0 < size <= MAX_FRAME_DATA && offset <= |data| && offset <= total
  {
    if |data| < total then WholeFrames(h, data[offset..], size)
    else WireFrom(h, data[..total], size, offset)
  }

  lemma StreamStarts(h: FrameHeader, data: bytes, total: nat, size: nat)
    requires 0 < size <= MAX_FRAME_DATA && 0 < total
    ensures StreamFrom(h, data, total, size, 0)
            == if |data| < total then WholeFrames(h, data, size)
               else WireBytes(FragmentsOf(h, data[..total], size))
  {
    hide WholeFrames, FragmentsOf, WireBytes;
    assert data[0..] == data;
    if total <= |data| {
      WireFromEnds(h, data[..total], size);
    }
  }

  lemma StreamEnds(h: FrameHeader, data: bytes, total: nat, size: nat)
    requires 0 < size <= MAX_FRAME_DATA && 0 < total <= |data|
    ensures StreamFrom(h, data, total, size, total) == []
  {
    hide WireFrom;
    WireFromEnds(h, data[..total], size);
    var none: bytes := [];
    assert none + WireFrom(h, data[..total], size, total) == none;
  }

  /** What a streaming loop keeps: bytes sent so far, then those the source has frames for. */
  lemma StreamStep(sent: bytes, all: bytes, h: FrameHeader, data: bytes, total: nat, size: nat, offset: nat)
    requires 0 < size <= MAX_FRAME_DATA && offset <= |data| && offset < total
    requires sent + StreamFrom(h, data, total, size, offset) == all
    ensures var end := Min(offset + size, total);
            if |data| < end then sent == all
            else sent + FrameBytes(Frame(h.(dataSize := end - offset), data[offset..end]))
                 + StreamFrom(h, data, total, size, end) == all
  {
    hide FrameBytes, WireFrom;
    var end := Min(offset + size, total);
    if |data| >= total {
      EmitStep(sent, all, h, data[..total], size, offset);
      assert data[..total][offset..end] == data[offset..end];
    } else if |data| < end {
      assert sent + [] == sent;
    } else {
      var f := Frame(h.(dataSize := size), data[offset..end]);
      assert data[offset..][..size] == data[offset..end];
      assert data[offset..][size..] == data[end..];
      assert sent + (FrameBytes(f) + WholeFrames(h, data[end..], size))
             == (sent + FrameBytes(f)) + WholeFrames(h, data[end..], size);
    }
  }

  /** What a short source leaves on the wire is the beginning of what the whole payload would be. */
  lemma {:induction false} WholeFramesBegin(h: FrameHeader, payload: bytes, size: nat, k: nat)
    requires 0 < size <= MAX_FRAME_DATA && k < |payload|
    ensures WholeFrames(h, payload[..k], size) <= WireBytes(FragmentsOf(h, payload, size))
    decreases |payload|
  {
    hide FrameBytes;
    if k >= size {
      WholeFramesBegin(h, payload[size..], size, k - size);
      assert payload[..k][..size] == payload[..size];
      assert payload[..k][size..] == payload[size..][..k - size];
      var fs := FragmentsOf(h, payload, size);
      assert fs[1..] == FragmentsOf(h, payload[size..], size);
    }
  }

  /** Range `i` starts `i` frames into the payload and is as long as a frame or what is left. */
  predicate RangeAt(ranges: seq<(nat, nat)>, i: nat, totalLen: nat)
    requires i < |ranges|
  {
    ranges[i].0 == i * MAX_FRAME_DATA < totalLen
    && ranges[i].1 == Min(totalLen - ranges[i].0, MAX_FRAME_DATA)
  }

  /** Ranges handed to the callback of the shared fragment iterator: as many as it takes frames. */
  method FragmentRanges(totalLen: nat) returns (ranges: seq<(nat, nat)>)
    ensures forall i: nat :: i < |ranges| ==> RangeAt(ranges, i, totalLen)
    ensures totalLen <= |ranges| * MAX_FRAME_DATA < totalLen + MAX_FRAME_DATA
  {
    var offset := 0;
    ranges := [];
    while offset < totalLen
      invariant offset == Min(|ranges| * MAX_FRAME_DATA, totalLen)
      invariant |ranges| * MAX_FRAME_DATA < totalLen + MAX_FRAME_DATA
      invariant forall i: nat :: i < |ranges| ==> RangeAt(ranges, i, totalLen)
    {
      var remaining := totalLen - offset;
      var len := Min(remaining, MAX_FRAME_DATA);
      ghost var before := ranges;
      ranges := ranges + [(offset, len)];
      offset := offset + len;
      forall i: nat | i < |ranges| ensures RangeAt(ranges, i, totalLen) {
        assert i < |before| ==> RangeAt(before, i, totalLen);
      }
    }
  }
}
