/** Internal assembly payloads: the builders, the cursor-based parser and the message key. */
module MessageAssembly {
  import opened Bytes
  import opened Headers

  const FIRST_FRAME_TAG: byte := 0
  const CONTINUATION_FRAME_TAG: byte := 1
  const FIRST_FRAME_HEADER_LEN := 17
  const CONTINUATION_FRAME_HEADER_LEN := 18

  datatype AssemblyError =
    | ShortPayload
    | UnknownTag(tag: byte)
    | BadLastFlag(flag: byte)
    | BodyExceedsTotal
    | LengthMismatch
    | LogicalHeaderMismatch
    | BodyTooLong

  datatype AssemblyHeader =
    | First(key: u64, metadataLen: nat, bodyLen: nat, totalBodyLen: Option<nat>, isLast: bool)
    | Continuation(key: u64, sequence: Option<u32>, bodyLen: nat, isLast: bool)

  /** An assembly header and the length of its own encoding. */
  datatype ParsedHeader = ParsedHeader(header: AssemblyHeader, headerLen: nat)

  // ------------------------------------------------------------- message key

  /** Reply bit at position 63, type at 32..47, id in the low 32 bits. */
  function MessageKeyFor(h: FrameHeader): u64 {
    (h.isReply % 2) * 0x8000_0000_0000_0000 + h.ty as int * 0x1_0000_0000 + h.id as int
  }

  /** On the bits of the three fields: masked, shifted and joined, they make this number. */
  lemma KeyIsBitwise(h: FrameHeader, reply: bv8, ty: bv16, id: bv32)
    requires h.isReply == reply as int && h.ty == ty as int && h.id == id as int
    ensures ((((reply & 1) as bv64) << 63) | ((ty as bv64) << 32) | (id as bv64)) as int == MessageKeyFor(h)
  {
    KeyBits(reply, ty, id);
  }

  lemma KeyBits(reply: bv8, ty: bv16, id: bv32)
    ensures ((((reply & 1) as bv64) << 63) | ((ty as bv64) << 32) | (id as bv64)) as int
            == (reply as int % 2) * 0x8000_0000_0000_0000 + ty as int * 0x1_0000_0000 + id as int
  {
  }

  /** Two headers share a key exactly when reply bit, type and id all agree. */
  lemma MessageKeyInjective(a: FrameHeader, b: FrameHeader)
    ensures MessageKeyFor(a) == MessageKeyFor(b)
            <==> a.isReply % 2 == b.isReply % 2 && a.ty == b.ty && a.id == b.id
  {
    if MessageKeyFor(a) == MessageKeyFor(b) {
      var low := 0x1_0000_0000;
      var ka := (a.isReply % 2) * 0x8000_0000 + a.ty as int;
      var kb := (b.isReply % 2) * 0x8000_0000 + b.ty as int;
      assert MessageKeyFor(a) == ka * low + a.id as int;
      assert MessageKeyFor(b) == kb * low + b.id as int;
      assert ka == kb;
    }
  }

  // ---------------------------------------------------------------- builders

  method AssembleFramePayload(tag: byte, middle: bytes, metadata: bytes, key: u64, body: bytes)
    returns (r: Result<bytes, AssemblyError>)
    ensures r == if |body| < 0x1_0000_0000
                 then Ok([tag] + U64Bytes(key) + middle + U32Bytes(|body|) + metadata + body)
                 else Err(BodyTooLong)
  {
    if |body| >= 0x1_0000_0000 {
      return Err(BodyTooLong);
    }
    var payload: bytes := [tag];
    payload := payload + U64Bytes(key);
    payload := payload + middle;
    payload := payload + U32Bytes(|body|);
    payload := payload + metadata;
    payload := payload + body;
    return Ok(payload);
  }

  function FirstPayload(key: u64, h: FrameHeader, body: bytes): bytes
    requires |body| < 0x1_0000_0000
  {
    [FIRST_FRAME_TAG] + U64Bytes(key) + U32Bytes(h.totalSize) + U32Bytes(|body|)
    + HeaderBytes(Normalised(h)) + body
  }

  function LastFlag(isLast: bool): byte {
    if isLast then 1 else 0
  }

  function ContinuationPayload(key: u64, sequence: u32, isLast: bool, body: bytes): bytes
    requires |body| < 0x1_0000_0000
  {
    [CONTINUATION_FRAME_TAG] + U64Bytes(key) + U32Bytes(sequence) + [LastFlag(isLast)]
    + U32Bytes(|body|) + body
  }

  method FirstFramePayload(key: u64, h: FrameHeader, body: bytes)
    returns (r: Result<bytes, AssemblyError>)
    ensures r == if |body| < 0x1_0000_0000 then Ok(FirstPayload(key, h, body)) else Err(BodyTooLong)
  {
    r := AssembleFramePayload(FIRST_FRAME_TAG, U32Bytes(h.totalSize), HeaderBytes(Normalised(h)), key, body);
  }

  method ContinuationFramePayload(key: u64, sequence: u32, isLast: bool, body: bytes)
    returns (r: Result<bytes, AssemblyError>)
    ensures r == if |body| < 0x1_0000_0000 then Ok(ContinuationPayload(key, sequence, isLast, body))
                 else Err(BodyTooLong)
  {
    var middle := U32Bytes(sequence) + [LastFlag(isLast)];
    r := AssembleFramePayload(CONTINUATION_FRAME_TAG, middle, [], key, body);
    if r.Ok? {
      assert [CONTINUATION_FRAME_TAG] + U64Bytes(key) + middle + U32Bytes(|body|) + [] + body
             == ContinuationPayload(key, sequence, isLast, body);
    }
  }

  // ------------------------------------------------------------------ parser

  function ParsedFirst(p: bytes): Result<ParsedHeader, AssemblyError> {
    if |p| < FIRST_FRAME_HEADER_LEN + HEADER_LEN then Err(ShortPayload)
    else
      var total := U32Of(p[9..13]);
      var bodyLen := U32Of(p[13..17]);
      var logical := HeaderOf(p[17..37]);
      if bodyLen > total then Err(BodyExceedsTotal)
      else if |p| != FIRST_FRAME_HEADER_LEN + HEADER_LEN + bodyLen then Err(LengthMismatch)
      else if logical.totalSize != total || logical.dataSize != logical.totalSize then
        Err(LogicalHeaderMismatch)
      else
        Ok(ParsedHeader(First(U64Of(p[1..9]), HEADER_LEN, bodyLen, Some(total), bodyLen == total),
                        FIRST_FRAME_HEADER_LEN))
  }

  function ParsedContinuation(p: bytes): Result<ParsedHeader, AssemblyError> {
    if |p| < CONTINUATION_FRAME_HEADER_LEN then Err(ShortPayload)
    else if p[13] > 1 then Err(BadLastFlag(p[13]))
    else
      var bodyLen := U32Of(p[14..18]);
      if |p| != CONTINUATION_FRAME_HEADER_LEN + bodyLen then Err(LengthMismatch)
      else
        Ok(ParsedHeader(Continuation(U64Of(p[1..9]), Some(U32Of(p[9..13])), bodyLen, p[13] == 1),
                        CONTINUATION_FRAME_HEADER_LEN))
  }

  function Parsed(p: bytes): Result<ParsedHeader, AssemblyError> {
    if p == [] then Err(ShortPayload)
    else if p[0] == FIRST_FRAME_TAG then ParsedFirst(p)
    else if p[0] == CONTINUATION_FRAME_TAG then ParsedContinuation(p)
    else Err(UnknownTag(p[0]))
  }

  class PayloadCursor {
    const payload: bytes
    var pos: nat

    constructor (payload: bytes)
      ensures this.payload == payload && pos == 0
    {
      this.payload := payload;
      this.pos := 0;
    }

    method Take(len: nat) returns (r: Result<bytes, AssemblyError>)
      modifies this`pos
      ensures if old(pos) + len <= |payload|
              then pos == old(pos) + len && r == Ok(payload[old(pos)..pos])
              else pos == old(pos) && r == Err(ShortPayload)
    {
      var end := pos + len;
      if end > |payload| {
        return Err(ShortPayload);
      }
      r := Ok(payload[pos..end]);
      pos := end;
    }

    method TakeByte() returns (r: Result<byte, AssemblyError>)
      modifies this`pos
      ensures if old(pos) < |payload| then pos == old(pos) + 1 && r == Ok(payload[old(pos)])
              else pos == old(pos) && r == Err(ShortPayload)
    {
      var b :- Take(1);
      return Ok(b[0]);
    }

    method TakeU32() returns (r: Result<u32, AssemblyError>)
      modifies this`pos
      ensures if old(pos) + 4 <= |payload|
              then pos == old(pos) + 4 && r == Ok(U32Of(payload[old(pos)..pos]))
              else pos == old(pos) && r == Err(ShortPayload)
    {
      var b :- Take(4);
      return Ok(U32Of(b));
    }

    method TakeU64() returns (r: Result<u64, AssemblyError>)
      modifies this`pos
      ensures if old(pos) + 8 <= |payload|
              then pos == old(pos) + 8 && r == Ok(U64Of(payload[old(pos)..pos]))
              else pos == old(pos) && r == Err(ShortPayload)
    {
      var b :- Take(8);
      return Ok(U64Of(b));
    }
  }

  method ParseFirstFrameHeader(p: bytes) returns (r: Result<ParsedHeader, AssemblyError>)
    ensures r == ParsedFirst(p)
  {
    hide HeaderOf, U32Of, U64Of;
    if |p| < FIRST_FRAME_HEADER_LEN + HEADER_LEN {
      return Err(ShortPayload);
    }
    var cursor := new PayloadCursor(p);
    // The length check makes every read below succeed.
    var tag := cursor.TakeByte();
    var key := cursor.TakeU64();
    var total := cursor.TakeU32();
    var bodyLen := cursor.TakeU32();
    if bodyLen.value > total.value {
      return Err(BodyExceedsTotal);
    }
    if |p| != FIRST_FRAME_HEADER_LEN + HEADER_LEN + bodyLen.value {
      return Err(LengthMismatch);
    }
    var logical := HeaderOf(p[FIRST_FRAME_HEADER_LEN..FIRST_FRAME_HEADER_LEN + HEADER_LEN]);
    if logical.totalSize != total.value || logical.dataSize != logical.totalSize {
      return Err(LogicalHeaderMismatch);
    }
    return Ok(ParsedHeader(First(key.value, HEADER_LEN, bodyLen.value, Some(total.value),
                                 bodyLen.value == total.value),
                           FIRST_FRAME_HEADER_LEN));
  }

  method ParseContinuationFrameHeader(p: bytes) returns (r: Result<ParsedHeader, AssemblyError>)
    ensures r == ParsedContinuation(p)
  {
    hide HeaderOf, U32Of, U64Of;
    if |p| < CONTINUATION_FRAME_HEADER_LEN {
      return Err(ShortPayload);
    }
    var cursor := new PayloadCursor(p);
    // The length check makes every read below succeed.
    var tag := cursor.TakeByte();
    var key := cursor.TakeU64();
    var sequence := cursor.TakeU32();
    var flag := cursor.TakeByte();
    if flag.value > 1 {
      return Err(BadLastFlag(flag.value));
    }
    var bodyLen := cursor.TakeU32();
    if |p| != CONTINUATION_FRAME_HEADER_LEN + bodyLen.value {
      return Err(LengthMismatch);
    }
    return Ok(ParsedHeader(Continuation(key.value, Some(sequence.value), bodyLen.value, flag.value == 1),
                           CONTINUATION_FRAME_HEADER_LEN));
  }

  method ParseFrameHeader(p: bytes) returns (r: Result<ParsedHeader, AssemblyError>)
    ensures r == Parsed(p)
  {
    if p == [] {
      return Err(ShortPayload);
    }
    if p[0] == FIRST_FRAME_TAG {
      r := ParseFirstFrameHeader(p);
    } else if p[0] == CONTINUATION_FRAME_TAG {
      r := ParseContinuationFrameHeader(p);
    } else {
      r := Err(UnknownTag(p[0]));
    }
  }

  // ---------------------------------------------- builders against the parser

  lemma FirstPayloadLayout(key: u64, h: FrameHeader, body: bytes)
    requires |body| < 0x1_0000_0000
    ensures var p := FirstPayload(key, h, body);
            |p| == 37 + |body| && p[0] == 0 && p[1..9] == U64Bytes(key)
            && p[9..13] == U32Bytes(h.totalSize) && p[13..17] == U32Bytes(|body|)
            && p[17..37] == HeaderBytes(Normalised(h)) && p[37..] == body
  {
    hide U64Bytes, U32Bytes, HeaderBytes;
  }

  lemma ContinuationPayloadLayout(key: u64, sequence: u32, isLast: bool, body: bytes)
    requires |body| < 0x1_0000_0000
    ensures var p := ContinuationPayload(key, sequence, isLast, body);
            |p| == 18 + |body| && p[0] == 1 && p[1..9] == U64Bytes(key)
            && p[9..13] == U32Bytes(sequence) && p[13] == (if isLast then 1 else 0)
            && p[14..18] == U32Bytes(|body|) && p[18..] == body
  {
    hide U64Bytes, U32Bytes;
  }

  /** A built first-frame payload is parsed back, unless its body outgrows the total. */
  lemma FirstIsParsed(key: u64, h: FrameHeader, body: bytes)
    requires |body| < 0x1_0000_0000
    ensures var p := FirstPayload(key, h, body);
            Parsed(p) == if |body| > h.totalSize then Err(BodyExceedsTotal)
                         else Ok(ParsedHeader(First(key, HEADER_LEN, |body|, Some(h.totalSize),
                                                    |body| == h.totalSize), 17))
    ensures HeaderOf(FirstPayload(key, h, body)[17..37]) == Normalised(h)
    ensures FirstPayload(key, h, body)[37..] == body
  {
    hide U64Bytes, U32Bytes, U64Of, U32Of, HeaderOf, HeaderBytes, FirstPayload;
    var p := FirstPayload(key, h, body);
    FirstPayloadLayout(key, h, body);
    U64RoundTrip(key, p[1..9]);
    U32RoundTrip(h.totalSize, p[9..13]);
    U32RoundTrip(|body|, p[13..17]);
    HeaderRoundTrip(Normalised(h), p[17..37]);
  }

  lemma ContinuationIsParsed(key: u64, sequence: u32, isLast: bool, body: bytes)
    requires |body| < 0x1_0000_0000
    ensures Parsed(ContinuationPayload(key, sequence, isLast, body))
            == Ok(ParsedHeader(Continuation(key, Some(sequence), |body|, isLast), 18))
    ensures ContinuationPayload(key, sequence, isLast, body)[18..] == body
  {
    hide U64Bytes, U32Bytes, U64Of, U32Of, HeaderOf, ContinuationPayload;
    var p := ContinuationPayload(key, sequence, isLast, body);
    ContinuationPayloadLayout(key, sequence, isLast, body);
    U64RoundTrip(key, p[1..9]);
    U32RoundTrip(sequence, p[9..13]);
    U32RoundTrip(|body|, p[14..18]);
  }

  /** The parser accepts only payloads the builders make. */
  lemma ParsedIsBuilt(p: bytes)
    requires Parsed(p).Ok?
    ensures match Parsed(p).value.header
            case First(key, _, bodyLen, total, _) =>
              |p| == 37 + bodyLen && total.Some? && bodyLen <= total.value
              && p == FirstPayload(key, HeaderOf(p[17..37]), p[37..])
            case Continuation(key, sequence, bodyLen, isLast) =>
              |p| == 18 + bodyLen && sequence.Some?
              && p == ContinuationPayload(key, sequence.value, isLast, p[18..])
  {
    hide U64Bytes, U32Bytes, U64Of, U32Of, HeaderOf, HeaderBytes;
    U64RoundTrip(0, p[1..9]);
    U32RoundTrip(0, p[9..13]);
    if p[0] == FIRST_FRAME_TAG {
      U32RoundTrip(0, p[13..17]);
      HeaderRoundTrip(HeaderOf(p[17..37]), p[17..37]);
      assert p == [p[0]] + p[1..9] + p[9..13] + p[13..17] + p[17..37] + p[37..];
    } else {
      U32RoundTrip(0, p[14..18]);
      assert p == [p[0]] + p[1..9] + p[9..13] + [p[13]] + p[14..18] + p[18..];
    }
  }

  // ---------------------------------------------------------------- damage

  /** A first-frame payload that was cut or padded, or whose logical header names other sizes. */
  lemma DamagedFirst(key: u64, h: FrameHeader, body: bytes, k: nat, more: bytes, g: FrameHeader)
    requires |body| < 0x1_0000_0000 && |body| <= h.totalSize
    requires 0 < k < 37 + |body| && more != []
    requires g.totalSize != h.totalSize || g.dataSize != g.totalSize
    ensures var p := FirstPayload(key, h, body);
            |p| == 37 + |body|
            && Parsed(p[..k]) == Err(if k < 37 then ShortPayload else LengthMismatch)
            && Parsed(p + more) == Err(LengthMismatch)
            && Parsed(p[..17] + HeaderBytes(g) + body) == Err(LogicalHeaderMismatch)
  {
    hide U64Bytes, U32Bytes, U64Of, U32Of, HeaderOf, HeaderBytes, FirstPayload;
    var p := FirstPayload(key, h, body);
    FirstPayloadLayout(key, h, body);
    U32RoundTrip(h.totalSize, p[9..13]);
    U32RoundTrip(|body|, p[13..17]);
    if k >= 37 {
      assert p[..k][9..13] == p[9..13] && p[..k][13..17] == p[13..17];
    }
    assert (p + more)[9..13] == p[9..13] && (p + more)[13..17] == p[13..17];
    var q := p[..17] + HeaderBytes(g) + body;
    assert q[9..13] == p[9..13] && q[13..17] == p[13..17] && q[17..37] == HeaderBytes(g);
    HeaderRoundTrip(g, q[17..37]);
  }

  /** The same for continuations, whose last flag must be zero or one. */
  lemma DamagedContinuation(key: u64, sequence: u32, isLast: bool, body: bytes, k: nat, more: bytes, flag: byte)
    requires |body| < 0x1_0000_0000 && 0 < k < 18 + |body| && more != [] && flag > 1
    ensures var p := ContinuationPayload(key, sequence, isLast, body);
            |p| == 18 + |body|
            && Parsed(p[..k]) == Err(if k < 18 then ShortPayload else LengthMismatch)
            && Parsed(p + more) == Err(LengthMismatch)
            && Parsed(p[13 := flag]) == Err(BadLastFlag(flag))
  {
    hide U64Bytes, U32Bytes, U64Of, U32Of, HeaderOf, ContinuationPayload;
    var p := ContinuationPayload(key, sequence, isLast, body);
    ContinuationPayloadLayout(key, sequence, isLast, body);
    U32RoundTrip(|body|, p[14..18]);
    if k >= 18 {
      assert p[..k][14..18] == p[14..18];
    }
    assert (p + more)[14..18] == p[14..18];
  }

  lemma UnknownPayload(tag: byte, rest: bytes)
    requires tag > 1
    ensures Parsed([tag] + rest) == Err(UnknownTag(tag)) && Parsed([]) == Err(ShortPayload)
  {
  }
}
