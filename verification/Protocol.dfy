/** Single-buffer transactions and the outbound hook that obfuscates them. */
module Protocol {
  import opened Bytes
  import opened Compat
  import opened FrameDecoder
  import opened Headers
  import opened ParamCodec
  import opened Params
  import opened Readers

  /** A buffer holding exactly one unfragmented transaction. */
  function ParsedTransaction(buf: bytes): Result<Transaction, TransactionError> {
    if |buf| < HEADER_LEN then Err(SizeMismatch)
    else
      var h := HeaderOf(buf[..HEADER_LEN]);
      if h.totalSize > MAX_PAYLOAD_SIZE then Err(PayloadTooLarge)
      else if |buf| != HEADER_LEN + h.totalSize then Err(SizeMismatch)
      else
        var _ :- Validated(h, buf[HEADER_LEN..]);
        Ok(Transaction(h, buf[HEADER_LEN..]))
  }

  function ToBytes(tx: Transaction): bytes {
    HeaderBytes(tx.header) + tx.payload
  }

  /** Parsing inverts serialisation on every valid transaction within the limit, and only there. */
  lemma ParseInvertsToBytes(tx: Transaction, buf: bytes)
    ensures ParsedTransaction(ToBytes(tx)) == Ok(tx)
            <==> |tx.payload| <= MAX_PAYLOAD_SIZE && Validated(tx.header, tx.payload).Ok?
    ensures ParsedTransaction(buf).Ok? ==> ToBytes(ParsedTransaction(buf).value) == buf
  {
    hide Validated, HeaderOf, HeaderBytes;
    var w := ToBytes(tx);
    assert w[..HEADER_LEN] == HeaderBytes(tx.header) && w[HEADER_LEN..] == tx.payload;
    HeaderRoundTrip(tx.header, w[..HEADER_LEN]);
    SizeIsValidated(tx.header, tx.payload);
    if |buf| >= HEADER_LEN {
      HeaderRoundTrip(tx.header, buf[..HEADER_LEN]);
      assert buf == buf[..HEADER_LEN] + buf[HEADER_LEN..];
    }
  }

  /** Why a buffer is no transaction, in its own numbers. */
  lemma ParseFault(h: FrameHeader, rest: bytes)
    ensures var r := ParsedTransaction(HeaderBytes(h) + rest);
            if h.totalSize > 1_048_576 then r == Err(PayloadTooLarge)
            else if h.totalSize != |rest| then r == Err(SizeMismatch)
            else match Validated(h, rest)
                 case Ok(_) => r == Ok(Transaction(h, rest))
                 case Err(e) => r == Err(e)
  {
    hide Validated, HeaderOf, HeaderBytes;
    var buf := HeaderBytes(h) + rest;
    assert buf[..HEADER_LEN] == HeaderBytes(h) && buf[HEADER_LEN..] == rest;
    HeaderRoundTrip(h, buf[..HEADER_LEN]);
  }

  lemma SizeIsValidated(h: FrameHeader, payload: bytes)
    ensures Validated(h, payload).Ok? ==> h.totalSize == |payload|
  {
  }

  // ------------------------------------------------------------ outbound hook

  function Sent(enabled: bool, frame: bytes): bytes {
    if !enabled then frame
    else match ParsedTransaction(frame)
         case Err(_) => frame
         case Ok(tx) =>
           match Outbound(true, tx.payload)
           case Err(_) => frame
           case Ok(encoded) =>
             if encoded == tx.payload then frame else HeaderBytes(tx.header) + encoded
  }

  method BeforeSend(compat: XorCompatibility, frame: ByteBuffer)
    modifies frame
    ensures frame.data == Sent(compat.enabled, old(frame.data))
  {
    hide ParsedTransaction, Outbound;
    if !compat.enabled {
      return;
    }
    var tx := ParsedTransaction(frame.data);
    if tx.Err? {
      return;
    }
    var encoded := compat.EncodePayload(tx.value.payload);
    if encoded.Err? {
      return;
    }
    if encoded.value == tx.value.payload {
      return;
    }
    var header := HeaderBytes(tx.value.header);
    frame.data := [];
    frame.Append(header);
    frame.Append(encoded.value);
    assert [] + header == header;
  }

  /** A payload that validates still validates, under the same header, once obfuscated. */
  lemma OutboundKeepsValid(h: FrameHeader, payload: bytes)
    requires Validated(h, payload).Ok? && Outbound(true, payload).Ok?
    ensures Validated(h, Outbound(true, payload).value).Ok?
    ensures |Outbound(true, payload).value| == |payload|
    ensures Outbound(true, Outbound(true, payload).value) == Ok(payload)
  {
    hide ParamsOf;
    assert payload != [] ==> ParamsOf(payload).Ok?;
    assert payload == [] ==> ParamsOf(payload) == Ok([]) by { EmptyDecodes(); }
    OutboundThenInbound(payload);
    if payload != [] && !BypassesDecode(h) {
      var ps := ParamsOf(payload).value;
      var users := AllowsRepeatedUsers(h);
      SameParse(payload, ps, users);
      XorBlock(payload, ps, users);
    }
  }

  lemma EmptyDecodes()
    ensures ParamsOf([]) == Ok([])
  {
  }

  lemma SameParse(payload: bytes, ps: seq<Param>, users: bool)
    requires payload != [] && ParamsOf(payload) == Ok(ps) && ParseBlock(payload, users).Ok?
    ensures ParseBlock(payload, users) == Ok(ps)
  {
    hide ParseBlock;
    assert ParseBlock(payload, true) == Ok(ps) by { ParamsOfIs(payload); }
    var qs := ParseBlock(payload, users).value;
    BlockAccepted(payload, qs, users);
    BlockAccepted(payload, qs, true);
    NoRepeatsMonotone(qs, users);
  }

  lemma ParamsOfIs(payload: bytes)
    ensures ParamsOf(payload) == ParseBlock(payload, true)
  {
  }

  /** Sending twice restores every frame, keeps its length, and keeps it parseable or not. */
  lemma SentInvolution(frame: bytes)
    ensures Sent(true, Sent(true, frame)) == frame
    ensures |Sent(true, frame)| == |frame|
    ensures Sent(false, frame) == frame && (ParsedTransaction(frame).Err? ==> Sent(true, frame) == frame)
    ensures ParsedTransaction(frame).Ok? <==> ParsedTransaction(Sent(true, frame)).Ok?
    ensures ParsedTransaction(frame).Ok? ==>
              ParsedTransaction(Sent(true, frame)).value.header == ParsedTransaction(frame).value.header
  {
    hide Validated, HeaderOf, HeaderBytes, Outbound;
    var parsed := ParsedTransaction(frame);
    if parsed.Ok? && Outbound(true, parsed.value.payload).Ok? {
      var tx := parsed.value;
      var encoded := Outbound(true, tx.payload).value;
      if encoded != tx.payload {
        OutboundKeepsValid(tx.header, tx.payload);
        var sent := HeaderBytes(tx.header) + encoded;
        ParseInvertsToBytes(Transaction(tx.header, encoded), frame);
        ParseInvertsToBytes(tx, frame);
        assert ParsedTransaction(sent) == Ok(Transaction(tx.header, encoded));
      }
    }
  }
}
