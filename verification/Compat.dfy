/** XOR compatibility: text fields obfuscated with 0xFF, detected and undone per connection. */
module Compat {
  import opened Bytes
  import opened FieldIds
  import opened Headers
  import opened ParamCodec
  import opened Params
  import opened Utf8
  import opened WireBlocks

  function XorByte(b: byte): byte {
    0xFF - b
  }

  /** On the eight bits of a byte this is the exclusive or with 0xFF. */
  lemma XorIsComplement(v: bv8)
    ensures (v ^ 0xFF) as int == XorByte(v as int)
  {
  }

  function XorBytes(data: bytes): (r: bytes)
    ensures |r| == |data| && forall i :: 0 <= i < |data| ==> r[i] == XorByte(data[i])
  {
    seq(|data|, i requires 0 <= i < |data| => XorByte(data[i]))
  }

  predicate IsTextField(f: FieldId) {
    f.Login? || f.Password? || f.ServerName? || f.Data? || f.NewsCategory? || f.NewsArticle?
    || f.NewsPath? || f.NewsTitle? || f.NewsPoster? || f.NewsDataFlavor? || f.NewsArticleData?
    || f.FileName?
  }

  function XorParam(p: Param): Param {
    if IsTextField(p.field) then p.(value := XorBytes(p.value)) else p
  }

  function XorParams(ps: seq<Param>): (r: seq<Param>)
    ensures |r| == |ps| && forall i :: 0 <= i < |ps| ==> r[i] == XorParam(ps[i])
  {
    seq(|ps|, i requires 0 <= i < |ps| => XorParam(ps[i]))
  }

  predicate ValidAsIs(p: Param) {
    IsTextField(p.field) ==> ValidUtf8(p.value)
  }

  predicate HasText(ps: seq<Param>) {
    exists i :: 0 <= i < |ps| && IsTextField(ps[i].field)
  }

  /** Some text field is not UTF-8 as it stands. */
  predicate SomeTextInvalid(ps: seq<Param>) {
    exists i :: 0 <= i < |ps| && !ValidAsIs(ps[i])
  }

  predicate AllTextValid(ps: seq<Param>) {
    forall i :: 0 <= i < |ps| ==> ValidAsIs(ps[i])
  }

  /** Detection: the text is not UTF-8 as sent, but all of it is once complemented. */
  predicate Detects(ps: seq<Param>) {
    SomeTextInvalid(ps) && AllTextValid(XorParams(ps))
  }

  method DetectXor(ps: seq<Param>) returns (r: bool)
    ensures r <==> Detects(ps)
  {
    hide IsTextField, XorBytes, CharLen;
    var sawText, allValid, allXorValid := false, true, true;
    for i := 0 to |ps|
      invariant !allValid ==> sawText
      invariant allValid <==> forall j: nat :: j < i ==> ValidAsIs(ps[j])
      invariant allXorValid <==> forall j: nat :: j < i ==> ValidAsIs(XorParam(ps[j]))
    {
      if !IsTextField(ps[i].field) {
        continue;
      }
      sawText := true;
      if !ValidUtf8(ps[i].value) {
        allValid := false;
      }
      if !ValidUtf8(XorBytes(ps[i].value)) {
        allXorValid := false;
      }
    }
    r := sawText && !allValid && allXorValid;
  }

  // ---------------------------------------------------------- payload rewrite

  /** Decoded payload and whether the mode is on afterwards. */
  function Inbound(enabled: bool, payload: bytes): Result<(bytes, bool), TransactionError> {
    if payload == [] then Ok(([], enabled))
    else
      var ps :- ParamsOf(payload);
      if HasText(ps) && (enabled || Detects(ps)) then
        var encoded :- BlockOf(XorParams(ps));
        Ok((encoded, true))
      else Ok((payload, enabled))
  }

  function Outbound(enabled: bool, payload: bytes): Result<bytes, TransactionError> {
    if payload == [] || !enabled then Ok(payload)
    else
      var ps :- ParamsOf(payload);
      if HasText(ps) then BlockOf(XorParams(ps)) else Ok(payload)
  }

  class XorCompatibility {
    var enabled: bool

    constructor (enabled: bool)
      ensures this.enabled == enabled
    {
      this.enabled := enabled;
    }

    method DecodePayload(payload: bytes) returns (r: Result<bytes, TransactionError>)
      modifies this
      ensures match Inbound(old(enabled), payload)
              case Ok((p, on)) => r == Ok(p) && enabled == on
              case Err(e) => r == Err(e) && enabled == old(enabled)
    {
      hide ParamsOf, BlockOf;
      if payload == [] {
        return Ok([]);
      }
      var ps :- DecodeParams(payload);
      if !HasText(ps) {
        return Ok(payload);
      }
      var wasEnabled := enabled;
      var shouldXor := wasEnabled;
      if !wasEnabled {
        shouldXor := DetectXor(ps);
      }
      if !shouldXor {
        return Ok(payload);
      }
      var encoded :- EncodeParams(XorParams(ps));
      if !wasEnabled {
        enabled := true;
      }
      return Ok(encoded);
    }

    method EncodePayload(payload: bytes) returns (r: Result<bytes, TransactionError>)
      ensures r == Outbound(enabled, payload)
    {
      hide ParamsOf, BlockOf;
      if payload == [] || !enabled {
        return Ok(payload);
      }
      var ps :- DecodeParams(payload);
      if !HasText(ps) {
        return Ok(payload);
      }
      r := EncodeParams(XorParams(ps));
    }
  }

  // ------------------------------------------------------- laws of complement

  lemma XorBytesInvolution(data: bytes)
    ensures XorBytes(XorBytes(data)) == data
  {
  }

  lemma XorParamsInvolution(ps: seq<Param>)
    ensures XorParams(XorParams(ps)) == ps
  {
    forall i | 0 <= i < |ps| ensures XorParams(XorParams(ps))[i] == ps[i] {
      XorBytesInvolution(ps[i].value);
    }
  }

  lemma XorKeepsRepeats(ps: seq<Param>, users: bool)
    requires NoRepeats(ps, {}, users)
    ensures NoRepeats(XorParams(ps), {}, users)
  {
    var xs := XorParams(ps);
    forall j: nat | j < |xs| ensures !Repeats(xs, j, {}, users) {
      assert !Repeats(ps, j, {}, users);
      assert xs[j].field == ps[j].field;
      if i :| 0 <= i < j && xs[i].field == xs[j].field {
        assert ps[i].field == ps[j].field;
      }
    }
  }

  lemma {:induction false} XorKeepsLength(ps: seq<Param>)
    requires Fits(ps)
    ensures Fits(XorParams(ps)) && |EntriesBytes(XorParams(ps))| == |EntriesBytes(ps)|
  {
    var xs := XorParams(ps);
    assert forall i :: 0 <= i < |ps| ==> |xs[i].value| == |ps[i].value|;
    if ps != [] {
      assert xs[1..] == XorParams(ps[1..]);
      XorKeepsLength(ps[1..]);
    }
  }

  /** Complementing a block gives a block of the same length over the complemented list. */
  lemma XorBlock(payload: bytes, ps: seq<Param>, users: bool)
    requires payload != [] && ParseBlock(payload, users) == Ok(ps)
    ensures BlockOf(XorParams(ps)).Ok?
    ensures var q := BlockOf(XorParams(ps)).value;
            q != [] && |q| == |payload| && ParseBlock(q, users) == Ok(XorParams(ps))
    ensures BlockOf(ps) == Ok(payload)
  {
    hide ParseBlock;
    BlockAccepted(payload, ps, users);
    XorKeepsRepeats(ps, users);
    XorKeepsLength(ps);
    var xs := XorParams(ps);
    assert AllCanonical(xs) by {
      forall p | p in xs ensures Canonical(p.field) {
        var i :| 0 <= i < |xs| && xs[i] == p;
        assert ps[i] in ps;
      }
    }
    BlockAccepted(BlockOf(xs).value, xs, users);
  }

  /** With the mode on, what is sent is decoded to what was meant, for every decodable payload. */
  lemma OutboundThenInbound(p: bytes)
    requires ParamsOf(p).Ok?
    ensures Outbound(true, p).Ok?
    ensures |Outbound(true, p).value| == |p|
    ensures Inbound(true, Outbound(true, p).value) == Ok((p, true))
    ensures Outbound(true, Outbound(true, p).value) == Ok(p)
  {
    if p != [] {
      var ps := ParamsOf(p).value;
      XorBlock(p, ps, true);
      XorParamsInvolution(ps);
      var xs := XorParams(ps);
      assert HasText(xs) <==> HasText(ps) by {
        assert forall i :: 0 <= i < |ps| ==> xs[i].field == ps[i].field;
      }
    }
  }

  // ------------------------------------------------------------ in codes

  /** The values under text codes complemented, all others as they are. */
  function Complemented(es: seq<WireEntry>, text: set<u16>): (r: seq<WireEntry>)
    ensures |r| == |es|
    ensures forall i :: 0 <= i < |es| ==>
              r[i].code == es[i].code && |r[i].value| == |es[i].value|
              && (es[i].code !in text ==> r[i] == es[i])
              && (es[i].code in text ==> forall k :: 0 <= k < |es[i].value| ==> r[i].value[k] == 0xFF - es[i].value[k])
  {
    seq(|es|, i requires 0 <= i < |es| =>
      if es[i].code in text then WireEntry(es[i].code, XorBytes(es[i].value)) else es[i])
  }

  /** Some text is not UTF-8 as sent, and all of it is once complemented. */
  predicate LooksXored(es: seq<WireEntry>, text: set<u16>) {
    (exists i :: 0 <= i < |es| && es[i].code in text && !ValidUtf8(es[i].value))
    && (forall i :: 0 <= i < |es| && es[i].code in text ==> ValidUtf8(Complemented(es, text)[i].value))
  }

  lemma TextCodes(code: u16)
    ensures IsTextField(FieldOf(code))
            <==> code in {101, 105, 106, 162, 200, 321, 323, 325, 327, 328, 329, 333}
  {
  }

  lemma XorInCodes(es: seq<WireEntry>, text: set<u16>)
    requires text == {101, 105, 106, 162, 200, 321, 323, 325, 327, 328, 329, 333}
    ensures XorParams(Named(es)) == Named(Complemented(es, text))
    ensures HasText(Named(es)) <==> exists i :: 0 <= i < |es| && es[i].code in text
    ensures Detects(Named(es)) <==> LooksXored(es, text)
    ensures !HasText(Named(es)) ==> Complemented(es, text) == es
  {
    hide FieldOf, IsTextField, ValidUtf8, XorBytes;
    var ps, xs, cs := Named(es), XorParams(Named(es)), Complemented(es, text);
    forall i | 0 <= i < |es|
      ensures (IsTextField(ps[i].field) <==> es[i].code in text) && xs[i] == Named(cs)[i]
    {
      TextCodes(es[i].code);
      if es[i].code in text {
        assert XorBytes(es[i].value) == cs[i].value;
      }
    }
    assert xs == Named(cs);
    forall i | 0 <= i < |es| ensures ValidAsIs(xs[i]) <==> (es[i].code in text ==> ValidUtf8(cs[i].value)) {
      assert xs[i].field == ps[i].field;
    }
  }

  /** What either direction does to a block, in codes: with the mode on, the values under the twelve
      text codes are complemented and nothing else changes; with it off, that happens only to an
      inbound block that looks XORed, and switches the mode on. */
  lemma CodesRewritten(es: seq<WireEntry>, text: set<u16>)
    requires Encodable(es) && ParamsOf(BlockWire(es)).Ok?
    requires text == {101, 105, 106, 162, 200, 321, 323, 325, 327, 328, 329, 333}
    ensures Encodable(Complemented(es, text))
    ensures Outbound(true, BlockWire(es)) == Ok(BlockWire(Complemented(es, text)))
    ensures Outbound(false, BlockWire(es)) == Ok(BlockWire(es))
    ensures Inbound(true, BlockWire(es)) == Ok((BlockWire(Complemented(es, text)), true))
    ensures Inbound(false, BlockWire(es))
            == if LooksXored(es, text) then Ok((BlockWire(Complemented(es, text)), true))
               else Ok((BlockWire(es), false))
  {
    hide ParamsOf, BlockOf, BlockWire, HasText, Detects, XorParams, Named, LooksXored;
    var cs := Complemented(es, text);
    assert Encodable(cs);
    BlockWireIs(es);
    BlockWireIs(cs);
    OneReading(es);
    XorInCodes(es, text);
    TextPresent(es, text);
  }

  lemma TextPresent(es: seq<WireEntry>, text: set<u16>)
    ensures LooksXored(es, text) ==> exists i :: 0 <= i < |es| && es[i].code in text
  {
  }

  lemma OneReading(es: seq<WireEntry>)
    requires Encodable(es) && ParamsOf(BlockWire(es)).Ok?
    ensures ParamsOf(BlockWire(es)) == Ok(Named(es))
  {
    hide ParseEntries, EntriesWire, EntriesBytes;
    BlockWireIs(es);
    OnlyReading(BlockWire(es), Named(es), true);
  }

  /** A payload that does not decode is refused with the decoder's error and changes no mode. */
  lemma UndecodableRefused(enabled: bool, payload: bytes)
    requires ParamsOf(payload).Err?
    ensures Inbound(enabled, payload).Err? && Inbound(enabled, payload).error == ParamsOf(payload).error
    ensures Outbound(true, payload).Err? && Outbound(true, payload).error == ParamsOf(payload).error
    ensures Outbound(false, payload) == Ok(payload)
  {
  }

  // ----------------------------------------------------------------- whole runs

  /** A parameter list a client can send: encodable, free of repeats, text in UTF-8. */
  ghost predicate Sendable(ps: seq<Param>) {
    BlockOf(ps).Ok? && AllCanonical(ps) && NoRepeats(ps, {}, true) && AllTextValid(ps)
  }

  function PlainWire(ps: seq<Param>): bytes {
    if BlockOf(ps).Ok? then BlockOf(ps).value else []
  }

  function XorWire(ps: seq<Param>): bytes {
    PlainWire(XorParams(ps))
  }

  /** Some text field stops being UTF-8 when complemented: this is what gives the client away. */
  predicate Reveals(ps: seq<Param>) {
    SomeTextInvalid(XorParams(ps))
  }

  lemma SendableWires(ps: seq<Param>)
    requires Sendable(ps)
    ensures PlainWire(ps) != [] && ParamsOf(PlainWire(ps)) == Ok(ps)
    ensures XorWire(ps) != [] && ParamsOf(XorWire(ps)) == Ok(XorParams(ps))
    ensures BlockOf(ps) == Ok(PlainWire(ps))
  {
    EncodeThenDecode(ps);
    XorBlock(PlainWire(ps), ps, true);
  }

  /** One payload from an XOR client. */
  lemma XorClientStep(enabled: bool, ps: seq<Param>)
    requires Sendable(ps)
    ensures Inbound(enabled, XorWire(ps))
            == Ok((if enabled || Reveals(ps) then PlainWire(ps) else XorWire(ps),
                   enabled || Reveals(ps)))
  {
    hide ParamsOf, BlockOf;
    SendableWires(ps);
    XorParamsInvolution(ps);
    var xs := XorParams(ps);
    assert Detects(xs) <==> Reveals(ps);
    if !HasText(xs) {
      assert xs == ps by {
        assert forall i :: 0 <= i < |ps| ==> xs[i].field == ps[i].field;
      }
    }
  }

  /** One payload from a client that sends its text as it is. */
  lemma PlainClientStep(ps: seq<Param>)
    requires Sendable(ps)
    ensures Inbound(false, PlainWire(ps)) == Ok((PlainWire(ps), false))
  {
    hide ParamsOf, BlockOf;
    SendableWires(ps);
  }

  /** What a client sends: a parameter list, or nothing at all. */
  type Message = Option<seq<Param>>

  ghost predicate CanSend(m: Message) {
    m.Some? ==> Sendable(m.value)
  }

  function PlainPayload(m: Message): bytes {
    if m.Some? then PlainWire(m.value) else []
  }

  function XorPayload(m: Message): bytes {
    if m.Some? then XorWire(m.value) else []
  }

  predicate GivesAway(m: Message) {
    m.Some? && Reveals(m.value)
  }

  lemma MessageStep(enabled: bool, m: Message)
    requires CanSend(m)
    ensures Inbound(enabled, XorPayload(m))
            == Ok((if enabled || GivesAway(m) then PlainPayload(m) else XorPayload(m),
                   enabled || GivesAway(m)))
    ensures Inbound(false, PlainPayload(m)) == Ok((PlainPayload(m), false))
  {
    hide Sendable, XorWire, PlainWire, Reveals;
    if m.Some? {
      XorClientStep(enabled, m.value);
      PlainClientStep(m.value);
    }
  }

  /** The payloads the server works with after decoding a run of wire payloads. */
  function Served(enabled: bool, wires: seq<bytes>): seq<Result<bytes, TransactionError>>
    decreases |wires|
  {
    if wires == [] then []
    else match Inbound(enabled, wires[0])
         case Ok((p, on)) => [Ok(p)] + Served(on, wires[1..])
         case Err(e) => [Err(e)] + Served(enabled, wires[1..])
  }

  function XorWires(msgs: seq<Message>): (r: seq<bytes>)
    ensures |r| == |msgs| && forall i :: 0 <= i < |msgs| ==> r[i] == XorPayload(msgs[i])
  {
    seq(|msgs|, i requires 0 <= i < |msgs| => XorPayload(msgs[i]))
  }

  function PlainWires(msgs: seq<Message>): (r: seq<bytes>)
    ensures |r| == |msgs| && forall i :: 0 <= i < |msgs| ==> r[i] == PlainPayload(msgs[i])
  {
    seq(|msgs|, i requires 0 <= i < |msgs| => PlainPayload(msgs[i]))
  }

  /** Up to message `i` (included) some message revealed the client, or the mode was on. */
  predicate RevealedBy(enabled: bool, msgs: seq<Message>, i: nat)
    requires i < |msgs|
  {
    enabled || exists k :: 0 <= k <= i && GivesAway(msgs[k])
  }

  /** What message `i` of an XOR client should reach the server as. */
  function Understood(enabled: bool, msgs: seq<Message>, i: nat): bytes
    requires i < |msgs|
  {
    if RevealedBy(enabled, msgs, i) then PlainPayload(msgs[i]) else XorPayload(msgs[i])
  }

  /** An XOR client's payloads pass unchanged up to the first revealing one, and from that one
      on every payload is decoded to its plaintext. */
  lemma {:induction false} XorClientRun(enabled: bool, msgs: seq<Message>)
    requires forall i :: 0 <= i < |msgs| ==> CanSend(msgs[i])
    ensures |Served(enabled, XorWires(msgs))| == |msgs|
    ensures forall i: nat :: i < |msgs| ==>
              Served(enabled, XorWires(msgs))[i] == Ok(Understood(enabled, msgs, i))
    decreases |msgs|
  {
    hide CanSend, Inbound, PlainPayload, XorPayload, GivesAway, XorWires, Understood;
    if msgs != [] {
      MessageStep(enabled, msgs[0]);
      var on := enabled || GivesAway(msgs[0]);
      var tail := msgs[1..];
      assert XorWires(msgs)[1..] == XorWires(tail);
      XorClientRun(on, tail);
      var later := Served(on, XorWires(tail));
      UnderstoodFirst(enabled, msgs);
      assert Served(enabled, XorWires(msgs)) == [Ok(Understood(enabled, msgs, 0))] + later;
      forall i: nat | i < |msgs|
        ensures Served(enabled, XorWires(msgs))[i] == Ok(Understood(enabled, msgs, i))
      {
        if i > 0 {
          UnderstoodShift(enabled, msgs, i);
        }
      }
    }
  }

  lemma UnderstoodFirst(enabled: bool, msgs: seq<Message>)
    requires msgs != []
    ensures Understood(enabled, msgs, 0)
            == if enabled || GivesAway(msgs[0]) then PlainPayload(msgs[0]) else XorPayload(msgs[0])
  {
    hide PlainPayload, XorPayload, GivesAway;
  }

  lemma UnderstoodShift(enabled: bool, msgs: seq<Message>, i: nat)
    requires 0 < i < |msgs|
    ensures Understood(enabled, msgs, i)
            == Understood(enabled || GivesAway(msgs[0]), msgs[1..], i - 1)
  {
    hide PlainPayload, XorPayload, GivesAway;
    RevealedShift(enabled, msgs, i);
  }

  lemma RevealedShift(enabled: bool, msgs: seq<Message>, i: nat)
    requires 0 < i < |msgs|
    ensures RevealedBy(enabled, msgs, i)
            <==> RevealedBy(enabled || GivesAway(msgs[0]), msgs[1..], i - 1)
  {
    hide GivesAway;
    var tail := msgs[1..];
    if k :| 0 <= k <= i && GivesAway(msgs[k]) {
      assert k > 0 ==> tail[k - 1] == msgs[k];
    }
    if k :| 0 <= k <= i - 1 && GivesAway(tail[k]) {
      assert msgs[k + 1] == tail[k];
    }
  }

  /** A client sending plain UTF-8 is never altered, however long it talks. */
  lemma {:induction false} PlainClientRun(msgs: seq<Message>)
    requires forall i :: 0 <= i < |msgs| ==> CanSend(msgs[i])
    ensures |Served(false, PlainWires(msgs))| == |msgs|
    ensures forall i :: 0 <= i < |msgs| ==> Served(false, PlainWires(msgs))[i] == Ok(PlainPayload(msgs[i]))
    decreases |msgs|
  {
    hide CanSend, Inbound, PlainPayload;
    if msgs != [] {
      MessageStep(false, msgs[0]);
      var tail := msgs[1..];
      assert PlainWires(msgs)[1..] == PlainWires(tail);
      PlainClientRun(tail);
      assert forall i :: 0 < i < |msgs| ==> tail[i - 1] == msgs[i];
    }
  }

  // ---------------------------------------------------- what detection misses

  /** Text that opens with a letter, or any ASCII byte from 0x3E up, always reveals the client. */
  lemma LeadingLetterReveals(ps: seq<Param>, i: nat)
    requires i < |ps| && IsTextField(ps[i].field) && ps[i].value != []
    requires 0x3E <= ps[i].value[0] <= 0x7F
    ensures Reveals(ps)
  {
    var x := XorBytes(ps[i].value);
    assert CharLen(x) == 0;
    assert XorParams(ps)[i].value == x;
  }

  /** An XOR client is understood exactly when it is revealed or has nothing to hide. */
  lemma XorClientUnderstoodIff(enabled: bool, ps: seq<Param>)
    requires Sendable(ps)
    ensures Inbound(enabled, XorWire(ps)).Ok?
    ensures Inbound(enabled, XorWire(ps)).value.0 == PlainWire(ps)
            <==> enabled || Reveals(ps)
                 || forall i :: 0 <= i < |ps| && IsTextField(ps[i].field) ==> ps[i].value == []
  {
    hide ParamsOf, BlockOf, Inbound;
    XorClientStep(enabled, ps);
    SendableWires(ps);
    var xs := XorParams(ps);
    if !(enabled || Reveals(ps)) {
      if forall i :: 0 <= i < |ps| && IsTextField(ps[i].field) ==> ps[i].value == [] {
        assert xs == ps;
      } else {
        var i :| 0 <= i < |ps| && IsTextField(ps[i].field) && ps[i].value != [];
        assert xs[i].value[0] != ps[i].value[0];
        assert xs != ps;
      }
    }
  }

  /** Such a miss exists: a space and an at-sign are UTF-8 both ways. */
  lemma MissedDetection()
    ensures var ps := [Param(Data, [0x20, 0x40])];
            Sendable(ps) && !Reveals(ps) && Inbound(false, XorWire(ps)) != Ok((PlainWire(ps), false))
  {
    var ps := [Param(Data, [0x20, 0x40])];
    var x := XorBytes([0x20, 0x40]);
    assert x == [0xDF, 0xBF];
    assert ValidUtf8(x) by {
      assert CharLen(x) == 2 && x[2..] == [];
    }
    assert ValidUtf8([0x20, 0x40]) by {
      var t: bytes := [0x20, 0x40];
      assert CharLen(t) == 1 && t[1..] == [0x40];
      assert CharLen([0x40]) == 1 && ValidUtf8([]);
      var u: bytes := [0x40];
      assert u[1..] == [];
    }
    assert Sendable(ps);
    assert XorParams(ps) == [Param(Data, x)];
    assert !Reveals(ps);
    XorClientUnderstoodIff(false, ps);
    assert ps[0].value != [] && IsTextField(ps[0].field);
  }
}
