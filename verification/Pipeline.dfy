/** The transport end to end: every consumer of the wire format, then both directions. */
module Pipeline {
  import opened Bytes
  import opened Compat
  import opened FrameDecoder
  import opened FrameStream
  import opened Fragments
  import opened Headers
  import opened HotlineCodec
  import opened MessageAssembly
  import opened ParamCodec
  import opened Protocol
  import opened Readers
  import opened Series
  import opened TransactionCodec
  import opened Writer

  /** On every byte string, at default limits, all consumers recognise the same transactions:
      those of the grammar, ending at the same byte, with the same header and payload. The
      streaming reader's method is tied to `FramePhase` by its own contract. */
  lemma ConsumersAgree(s: bytes, a: Assembled)
    ensures FramePhase(s, MAX_PAYLOAD_SIZE) == Ok(a) <==> Encodes(s, MAX_PAYLOAD_SIZE, a)
    ensures Decoded(s) == Ok(a) <==> Encodes(s, MAX_PAYLOAD_SIZE, a)
    ensures Collect(None, s).Ok? <==> exists b :: Encodes(s, MAX_PAYLOAD_SIZE, b)
    ensures Encodes(s, MAX_PAYLOAD_SIZE, a) ==>
              Collect(None, s).value.1 == a.rest && Carries(Collect(None, s).value.0, a)
    ensures Encodes(s, MAX_PAYLOAD_SIZE, a) && a.header.totalSize <= MAX_FRAME_DATA ==>
              RunCodec(None, s)
              == match Validated(a.header, a.payload)
                 case Ok(_) => Ok((Transaction(a.header, a.payload), a.rest))
                 case Err(e) => Err(Rejected(e))
    ensures Encodes(s, MAX_PAYLOAD_SIZE, a) && a.header.totalSize > MAX_FRAME_DATA ==>
              RunCodec(None, s) == Err(Rejected(PayloadTooLarge))
    ensures (forall b :: !Encodes(s, MAX_PAYLOAD_SIZE, b)) ==> RunCodec(None, s).Err?
  {
    hide Decoded, FramePhase, Encodes, Validated, Carries;
    FramePhaseIsGrammar(s, MAX_PAYLOAD_SIZE, a);
    DecodedAgrees(s, a);
    CollectAgrees(s);
    RunCodecAgrees(s);
    var phase := FramePhase(s, MAX_PAYLOAD_SIZE);
    if phase.Ok? {
      FramePhaseIsGrammar(s, MAX_PAYLOAD_SIZE, phase.value);
    } else {
      forall b ensures !Encodes(s, MAX_PAYLOAD_SIZE, b) {
        FramePhaseIsGrammar(s, MAX_PAYLOAD_SIZE, b);
      }
    }
  }

  // ------------------------------------------------------------------- inbound

  /** What the assembler hands to the router: the first piece's metadata, then all bodies. */
  function LogicalMessage(envs: seq<Envelope>): bytes
    requires envs != [] && |envs[0].payload| >= 37
  {
    envs[0].payload[17..37] + Bodies(envs)
  }

  /** The pieces of a series reassemble to a buffer that parses as the transaction itself. */
  lemma PiecesParse(envs: seq<Envelope>, a: Assembled)
    requires Carries(envs, a) && |a.payload| <= MAX_PAYLOAD_SIZE
    ensures Bodies(envs) == a.payload
    ensures Validated(a.header, a.payload).Ok? ==>
              ParsedTransaction(LogicalMessage(envs)) == Ok(Transaction(a.header, a.payload))
  {
    hide Parsed, BodyIn, HeaderOf, HeaderBytes, Validated, ParsedTransaction, MessageKeyFor;
    var body := BodyIn(envs[0].payload);
    assert Bodies(envs) == body + Bodies(envs[1..]);
    assert a.payload == a.payload[..|body|] + a.payload[|body|..];
    HeaderRoundTrip(a.header, envs[0].payload[17..37]);
    ParseInvertsToBytes(Transaction(a.header, a.payload), []);
  }

  /** The pieces of one delivery, reassembled, parse to the transaction that was sent. */
  predicate Delivers(envs: seq<Envelope>, tx: Transaction) {
    envs != [] && |envs[0].payload| >= 37
    && ParsedTransaction(LogicalMessage(envs)) == Ok(Transaction(Normalised(tx.header), tx.payload))
  }

  /** Whatever a writer sends, at any frame size, a decoder turns into pieces that reassemble and
      parse to the transaction, leaving the bytes behind it untouched. */
  lemma InboundPipeline(tx: Transaction, size: nat, maxPayload: nat, rest: bytes)
    requires 0 < size <= MAX_FRAME_DATA && Written(tx, size, maxPayload).Ok?
    requires tx.header.totalSize <= MAX_PAYLOAD_SIZE
    ensures var c := Collect(None, Written(tx, size, maxPayload).value + rest);
            c.Ok? && c.value.1 == rest && Delivers(c.value.0, tx)
  {
    hide Parsed, BodyIn, HeaderOf, Validated, ParsedTransaction, LogicalMessage, FragmentsOf, Collect;
    var s := Written(tx, size, maxPayload).value + rest;
    ValidatedNormalised(tx.header, tx.payload);
    FragmentsAreRead(tx.header, tx.payload, size, rest, MAX_PAYLOAD_SIZE);
    CollectAgrees(s);
    PiecesParse(Collect(None, s).value.0, Assembled(Normalised(tx.header), tx.payload, rest));
  }

  function Concat(groups: seq<seq<Envelope>>): seq<Envelope> {
    if groups == [] then [] else groups[0] + Concat(groups[1..])
  }

  lemma {:induction false} PumpDelivers(txs: seq<Transaction>, size: nat, maxPayload: nat)
    returns (groups: seq<seq<Envelope>>)
    requires 0 < size <= MAX_FRAME_DATA && WrittenAll(txs, size, maxPayload).Ok?
    requires forall i :: 0 <= i < |txs| ==> txs[i].header.totalSize <= MAX_PAYLOAD_SIZE
    ensures |groups| == |txs| && forall i :: 0 <= i < |txs| ==> Delivers(groups[i], txs[i])
    ensures Pump(None, WrittenAll(txs, size, maxPayload).value) == Run(Concat(groups), None, None, [])
    decreases |txs|
  {
    hide Written, Delivers, DecodeStep, Collect;
    if txs == [] {
      groups := [];
      assert Pump(None, []) == Run([], None, None, []) by { PumpNothing(); }
    } else {
      var b := Written(txs[0], size, maxPayload).value;
      var more := WrittenAll(txs[1..], size, maxPayload).value;
      InboundPipeline(txs[0], size, maxPayload, more);
      PumpCollects(None, b + more);
      var tail := PumpDelivers(txs[1..], size, maxPayload);
      groups := [Collect(None, b + more).value.0] + tail;
      assert groups[1..] == tail;
    }
  }

  lemma PumpNothing()
    ensures Pump(None, []) == Run([], None, None, [])
  {
  }

  /** Any list of transactions a writer accepts, at any frame size, cut into any chunks: the
      decoder puts out one group of pieces for each, in order, that reassembles and parses to
      it, hits no error, and ends idle with an empty buffer. */
  lemma StreamDelivered(txs: seq<Transaction>, maxFrame: nat, maxPayload: nat, chunks: seq<bytes>)
    returns (groups: seq<seq<Envelope>>)
    requires WrittenAll(txs, ClampedFrame(maxFrame), maxPayload) == Ok(Flatten(chunks))
    requires forall i :: 0 <= i < |txs| ==> txs[i].header.totalSize <= MAX_PAYLOAD_SIZE
    ensures |groups| == |txs| && forall i :: 0 <= i < |txs| ==> Delivers(groups[i], txs[i])
    ensures Feed(None, [], chunks) == Run(Concat(groups), None, None, [])
  {
    hide Delivers, WrittenAll;
    groups := PumpDelivers(txs, ClampedFrame(maxFrame), maxPayload);
    ChunkInvariance(chunks, chunks);
  }

  lemma ValidatedNormalised(h: FrameHeader, payload: bytes)
    ensures Validated(Normalised(h), payload) == Validated(h, payload)
    ensures Validated(h, payload).Ok? ==> h.totalSize == |payload|
  {
  }

  // ------------------------------------------------------------------ outbound

  /** The encoder half: the transaction in an envelope is parsed, normalised and fragmented. */
  function EncodedFrame(env: Envelope): Result<bytes, TransactionError> {
    var parsed :- ParsedTransaction(env.payload);
    var tx :- FromTransaction(parsed);
    CodecEncoded(tx)
  }

  /** The payload a client with or without the XOR mode finds on the wire. */
  function OnWire(enabled: bool, payload: bytes): bytes {
    match Outbound(enabled, payload)
    case Ok(p) => p
    case Err(_) => payload
  }

  lemma SentPayload(enabled: bool, tx: Transaction)
    requires Validated(tx.header, tx.payload).Ok? && |tx.payload| <= MAX_PAYLOAD_SIZE
    ensures ParsedTransaction(Sent(enabled, ToBytes(tx)))
            == Ok(Transaction(tx.header, OnWire(enabled, tx.payload)))
    ensures OnWire(enabled, OnWire(enabled, tx.payload)) == tx.payload
    ensures |OnWire(enabled, tx.payload)| == |tx.payload|
    ensures Validated(tx.header, OnWire(enabled, tx.payload)).Ok?
  {
    hide Validated, HeaderOf, HeaderBytes, ParsedTransaction;
    ParseInvertsToBytes(tx, []);
    if !enabled {
      assert OnWire(false, tx.payload) == tx.payload;
    } else if Outbound(true, tx.payload).Ok? {
      var p := Outbound(true, tx.payload).value;
      OutboundKeepsValid(tx.header, tx.payload);
      ParseInvertsToBytes(Transaction(tx.header, p), []);
    }
  }

  /** Whatever valid transaction the server sends, the hook, the envelope and the encoder put a
      stream on the wire from which a reader gets the header, and the payload once its own XOR is
      undone. */
  lemma OutboundPipeline(enabled: bool, tx: Transaction, env: Envelope, rest: bytes)
    requires tx.header.flags == 0 && |tx.payload| <= MAX_PAYLOAD_SIZE
    requires Validated(tx.header, tx.payload).Ok?
    requires env.payload == Sent(enabled, ToBytes(tx))
    ensures EncodedFrame(env).Ok?
    ensures FramePhase(EncodedFrame(env).value + rest, MAX_PAYLOAD_SIZE)
            == Ok(Assembled(Normalised(tx.header), OnWire(enabled, tx.payload), rest))
    ensures OnWire(enabled, OnWire(enabled, tx.payload)) == tx.payload
  {
    hide Validated, ParsedTransaction, Sent, OnWire, FramePhase, FragmentsOf;
    SentPayload(enabled, tx);
    ValidatedNormalised(tx.header, OnWire(enabled, tx.payload));
    FragmentsAreRead(Normalised(tx.header), OnWire(enabled, tx.payload), MAX_FRAME_DATA, rest, MAX_PAYLOAD_SIZE);
  }

  /** What the server puts on the wire for a transaction: hook, envelope, encoder. */
  function SentOut(enabled: bool, tx: Transaction): Result<bytes, TransactionError> {
    EncodedFrame(Envelope(RouteIdFor(tx.header.ty), Some(tx.header.id), Sent(enabled, ToBytes(tx))))
  }

  /** What a client in the same XOR mode makes of it. */
  function ClientReads(enabled: bool, wire: bytes): Result<Transaction, TransactionError> {
    var a :- FramePhase(wire, MAX_PAYLOAD_SIZE);
    Ok(Transaction(a.header, OnWire(enabled, a.payload)))
  }

  /** A transaction can be sent exactly when it is valid and within the limit, and then the client
      reads that transaction. */
  lemma SentIsRead(enabled: bool, tx: Transaction)
    requires tx.header.flags == 0
    ensures SentOut(enabled, tx).Ok?
            <==> |tx.payload| <= MAX_PAYLOAD_SIZE && Validated(tx.header, tx.payload).Ok?
    ensures SentOut(enabled, tx).Ok? ==>
              ClientReads(enabled, SentOut(enabled, tx).value)
              == Ok(Transaction(Normalised(tx.header), tx.payload))
  {
    hide Validated, FramePhase, OnWire, ParsedTransaction, HeaderOf, HeaderBytes, RouteIdFor;
    if |tx.payload| <= MAX_PAYLOAD_SIZE && Validated(tx.header, tx.payload).Ok? {
      var env := Envelope(RouteIdFor(tx.header.ty), Some(tx.header.id), Sent(enabled, ToBytes(tx)));
      OutboundPipeline(enabled, tx, env, []);
      var wire := EncodedFrame(env).value;
      assert wire + [] == wire;
    } else {
      NotParsed(tx);
    }
  }

  lemma NotParsed(tx: Transaction)
    requires !(|tx.payload| <= MAX_PAYLOAD_SIZE && Validated(tx.header, tx.payload).Ok?)
    ensures ParsedTransaction(ToBytes(tx)).Err?
  {
    hide Validated, HeaderOf, HeaderBytes;
    var w := ToBytes(tx);
    ParseInvertsToBytes(tx, w);
    if ParsedTransaction(w).Ok? {
      var tx' := ParsedTransaction(w).value;
      assert ToBytes(tx') == w;
      assert w[..HEADER_LEN] == HeaderBytes(tx.header) && w[HEADER_LEN..] == tx.payload;
      HeaderRoundTrip(tx.header, w[..HEADER_LEN]);
    }
  }
}
