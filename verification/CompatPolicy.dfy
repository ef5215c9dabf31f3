/** Client classification and the banner fields added to a successful login reply. */
module CompatPolicy {
  import opened Bytes
  import opened FieldIds
  import opened Headers
  import opened ParamCodec
  import opened Params
  import opened Readers
  import opened WireBlocks

  const LOGIN_ID: u16 := 107
  const SYNHX_SUB_VERSION: u16 := 2
  const HOTLINE_85_MIN_VERSION: u16 := 151
  const HOTLINE_19_MIN_VERSION: u16 := 190
  const DEFAULT_SERVER_NAME: bytes := [0x6D, 0x78, 0x64]

  datatype ClientKind = SynHx | Hotline85 | Hotline19 | Unknown

  function KindOf(handshakeSubVersion: u16, loginVersion: Option<u16>): ClientKind {
    if handshakeSubVersion == SYNHX_SUB_VERSION then SynHx
    else match loginVersion
         case Some(v) =>
           if v >= HOTLINE_19_MIN_VERSION then Hotline19
           else if v >= HOTLINE_85_MIN_VERSION then Hotline85
           else Unknown
         case None => Unknown
  }

  predicate IncludesExtras(k: ClientKind) {
    k.Hotline85? || k.Hotline19?
  }

  predicate SuccessfulLoginReply(tx: Transaction) {
    tx.header.isReply != 0 && tx.header.error == 0 && tx.header.ty == LOGIN_ID
  }

  predicate Has(ps: seq<Param>, f: FieldId) {
    exists i :: 0 <= i < |ps| && ps[i].field == f
  }

  const BANNER_EXTRA: Param := Param(BannerId, U32Bytes(0))
  const SERVER_NAME_EXTRA: Param := Param(ServerName, DEFAULT_SERVER_NAME)

  /** The extras a parameter list is missing, banner first. */
  function Extras(ps: seq<Param>): seq<Param> {
    (if Has(ps, BannerId) then [] else [BANNER_EXTRA])
    + (if Has(ps, ServerName) then [] else [SERVER_NAME_EXTRA])
  }

  datatype Augmentation = Augmentation(result: Result<bool, TransactionError>, reply: Transaction)

  function Augmented(kind: ClientKind, reply: Transaction): Augmentation {
    if !SuccessfulLoginReply(reply) || !IncludesExtras(kind) then Augmentation(Ok(false), reply)
    else match ParamsOf(reply.payload)
         case Err(e) => Augmentation(Err(e), reply)
         case Ok(ps) =>
           if Extras(ps) == [] then Augmentation(Ok(false), reply)
           else match BlockOf(ps + Extras(ps))
                case Err(e) => Augmentation(Err(e), reply)
                case Ok(payload) =>
                  if |payload| >= 0x1_0000_0000 then
                    Augmentation(Err(PayloadTooLarge), reply.(payload := payload))
                  else
                    Augmentation(Ok(true),
                                 Transaction(reply.header.(totalSize := |payload|, dataSize := |payload|),
                                             payload))
  }

  class ClientCompatibility {
    const handshakeSubVersion: u16
    var loginVersion: Option<u16>

    constructor (handshakeSubVersion: u16)
      ensures this.handshakeSubVersion == handshakeSubVersion && loginVersion == None
    {
      this.handshakeSubVersion := handshakeSubVersion;
      this.loginVersion := None;
    }

    method RecordLoginVersion(version: u16)
      modifies this
      ensures loginVersion == Some(version)
    {
      loginVersion := Some(version);
    }

    method AugmentLoginReply(reply: Transaction)
      returns (r: Result<bool, TransactionError>, reply': Transaction)
      ensures Augmentation(r, reply') == Augmented(KindOf(handshakeSubVersion, loginVersion), reply)
    {
      hide ParamsOf, BlockOf;
      reply' := reply;
      if !SuccessfulLoginReply(reply) {
        return Ok(false), reply;
      }
      if !IncludesExtras(KindOf(handshakeSubVersion, loginVersion)) {
        return Ok(false), reply;
      }
      var decoded := DecodeParams(reply.payload);
      if decoded.Err? {
        return Err(decoded.error), reply;
      }
      var params := decoded.value;
      ghost var original := params;
      var hasBannerId := Has(params, BannerId);
      var hasServerName := Has(params, ServerName);
      if !hasBannerId {
        params := params + [BANNER_EXTRA];
      }
      if !hasServerName {
        params := params + [SERVER_NAME_EXTRA];
      }
      if hasBannerId && hasServerName {
        return Ok(false), reply;
      }
      assert params == original + Extras(original);
      var encoded := EncodeParams(params);
      if encoded.Err? {
        return Err(encoded.error), reply;
      }
      reply' := reply'.(payload := encoded.value);
      if |encoded.value| >= 0x1_0000_0000 {
        return Err(PayloadTooLarge), reply';
      }
      reply' := Transaction(reply'.header.(totalSize := |encoded.value|, dataSize := |encoded.value|),
                            encoded.value);
      return Ok(true), reply';
    }
  }

  // -------------------------------------------------------------------- laws

  lemma AppendNew(ps: seq<Param>, p: Param)
    requires NoRepeats(ps, {}, true) && !Has(ps, p.field)
    ensures NoRepeats(ps + [p], {}, true)
  {
    var all := ps + [p];
    forall j: nat | j < |all| ensures !Repeats(all, j, {}, true) {
      if j < |ps| {
        assert !Repeats(ps, j, {}, true);
        if i :| 0 <= i < j && all[i].field == all[j].field {
          assert ps[i].field == ps[j].field;
        }
      } else if i :| 0 <= i < j && all[i].field == all[j].field {
        assert ps[i].field == p.field;
      }
    }
  }

  lemma ExtrasNoRepeats(ps: seq<Param>)
    requires NoRepeats(ps, {}, true)
    ensures NoRepeats(ps + Extras(ps), {}, true)
    ensures Has(ps + Extras(ps), BannerId) && Has(ps + Extras(ps), ServerName)
  {
    var mid := if Has(ps, BannerId) then ps else ps + [BANNER_EXTRA];
    if !Has(ps, BannerId) {
      AppendNew(ps, BANNER_EXTRA);
      assert mid[|ps|].field == BannerId;
      assert forall i :: 0 <= i < |ps| ==> mid[i] == ps[i];
    }
    assert Has(mid, ServerName) <==> Has(ps, ServerName);
    var all := if Has(ps, ServerName) then mid else mid + [SERVER_NAME_EXTRA];
    if !Has(ps, ServerName) {
      AppendNew(mid, SERVER_NAME_EXTRA);
      assert all[|mid|].field == ServerName;
    }
    assert forall i :: 0 <= i < |mid| ==> all[i] == mid[i];
    assert all == ps + Extras(ps);
  }

  lemma ParsedFacts(buf: bytes)
    requires ParamsOf(buf).Ok?
    ensures var ps := ParamsOf(buf).value;
            NoRepeats(ps, {}, true) && AllCanonical(ps) && Fits(ps)
  {
    if buf != [] {
      BlockAccepted(buf, ParamsOf(buf).value, true);
    }
  }

  /** A changed reply decodes to the original parameters followed by the missing extras. */
  lemma AugmentedDecodes(kind: ClientKind, reply: Transaction)
    requires Augmented(kind, reply).result == Ok(true)
    ensures var out := Augmented(kind, reply).reply;
            ParamsOf(reply.payload).Ok?
            && ParamsOf(out.payload) == Ok(ParamsOf(reply.payload).value + Extras(ParamsOf(reply.payload).value))
            && out.header == reply.header.(totalSize := out.header.totalSize, dataSize := out.header.dataSize)
            && out.header.totalSize == out.header.dataSize == |out.payload|
            && Has(ParamsOf(out.payload).value, BannerId) && Has(ParamsOf(out.payload).value, ServerName)
  {
    hide ParamsOf, BlockOf, NoRepeats, Has, FirstRepeat;
    var ps := ParamsOf(reply.payload).value;
    ParsedFacts(reply.payload);
    ExtrasNoRepeats(ps);
    assert AllCanonical(ps + Extras(ps));
    EncodeThenDecode(ps + Extras(ps));
  }

  /** The classification in version numbers. */
  lemma KindIff(sub: u16, version: Option<u16>)
    ensures KindOf(sub, version).SynHx? <==> sub == 2
    ensures KindOf(sub, version).Hotline85? <==> sub != 2 && version.Some? && 151 <= version.value <= 189
    ensures KindOf(sub, version).Hotline19? <==> sub != 2 && version.Some? && 190 <= version.value
  {
  }

  /** The reply is for a client that gets the extras, in header and version numbers. */
  predicate Wanted(sub: u16, version: Option<u16>, h: FrameHeader) {
    h.isReply != 0 && h.error == 0 && h.ty == 107
    && sub != 2 && version.Some? && version.value >= 151
  }

  predicate HasCode(es: seq<WireEntry>, code: u16) {
    exists i :: 0 <= i < |es| && es[i].code == code
  }

  /** What a block lacks: a banner id of four zero bytes, the server name "mxd", or both. */
  function Missing(es: seq<WireEntry>): seq<WireEntry> {
    (if HasCode(es, 161) then [] else [WireEntry(161, [0, 0, 0, 0])])
    + (if HasCode(es, 162) then [] else [WireEntry(162, [0x6D, 0x78, 0x64])])
  }

  /** Only successful login replies to clients of version 151 or later that are not SynHX are ever
      touched, and they exactly when they decode, lack code 161 or 162, and fit when extended. */
  lemma AugmentedIff(sub: u16, version: Option<u16>, reply: Transaction)
    ensures !Wanted(sub, version, reply.header) ==>
              Augmented(KindOf(sub, version), reply) == Augmentation(Ok(false), reply)
    ensures Augmented(KindOf(sub, version), reply).result == Ok(true)
            <==> Wanted(sub, version, reply.header) && ParamsOf(reply.payload).Ok?
                 && var es := Coded(ParamsOf(reply.payload).value);
                    !(HasCode(es, 161) && HasCode(es, 162)) && Encodable(es + Missing(es))
                    && |BlockWire(es + Missing(es))| < 0x1_0000_0000
    ensures Augmented(KindOf(sub, version), reply).result == Ok(true) ==>
              var es := Coded(ParamsOf(reply.payload).value);
              Augmented(KindOf(sub, version), reply).reply
              == Transaction(reply.header.(totalSize := |BlockWire(es + Missing(es))|,
                                           dataSize := |BlockWire(es + Missing(es))|),
                             BlockWire(es + Missing(es)))
  {
    hide ParamsOf, BlockOf, BlockWire, Has, HasCode;
    if Wanted(sub, version, reply.header) && ParamsOf(reply.payload).Ok? {
      ParsedFacts(reply.payload);
      ExtrasInCodes(ParamsOf(reply.payload).value);
    }
  }

  lemma ExtrasInCodes(ps: seq<Param>)
    requires Fits(ps) && AllCanonical(ps)
    ensures var es := Coded(ps);
            (Extras(ps) == [] <==> HasCode(es, 161) && HasCode(es, 162))
            && (BlockOf(ps + Extras(ps)).Ok? <==> Encodable(es + Missing(es)))
            && (Encodable(es + Missing(es)) ==> BlockOf(ps + Extras(ps)) == Ok(BlockWire(es + Missing(es))))
  {
    hide FieldOf, CodeOf, Canonical, EntriesBytes, EntriesWire;
    var es := Coded(ps);
    CodedIs(ps);
    NamedExtras();
    SameHas(ps, BannerId);
    SameHas(ps, ServerName);
    var all := es + Missing(es);
    assert Named(all) == ps + Extras(ps);
    if Encodable(all) {
      BlockWireIs(all);
    }
    if BlockOf(ps + Extras(ps)).Ok? {
      forall i | 0 <= i < |all| ensures |all[i].value| < 0x1_0000 {
        assert Named(all)[i] in ps + Extras(ps);
      }
    }
  }

  lemma SameHas(ps: seq<Param>, f: FieldId)
    requires AllCanonical(ps) && Canonical(f)
    ensures Has(ps, f) <==> HasCode(Coded(ps), CodeOf(f))
  {
    hide FieldOf, CodeOf, Canonical;
    FieldRoundTrip(f);
    if i :| 0 <= i < |ps| && Coded(ps)[i].code == CodeOf(f) {
      assert ps[i] in ps;
      FieldRoundTrip(ps[i].field);
    }
    if i :| 0 <= i < |ps| && ps[i].field == f {
      assert Coded(ps)[i].code == CodeOf(f);
    }
  }

  lemma NamedExtras()
    ensures Param(FieldOf(161), [0, 0, 0, 0]) == BANNER_EXTRA
    ensures Param(FieldOf(162), [0x6D, 0x78, 0x64]) == SERVER_NAME_EXTRA
    ensures CodeOf(BannerId) == 161 && CodeOf(ServerName) == 162
    ensures Canonical(BannerId) && Canonical(ServerName)
  {
  }

  /** The other replies, and what an error leaves behind. */
  lemma UntouchedReplies(sub: u16, version: Option<u16>, reply: Transaction)
    ensures Augmented(KindOf(sub, version), reply).result == Ok(false) ==>
              Augmented(KindOf(sub, version), reply).reply == reply
    ensures Wanted(sub, version, reply.header) && ParamsOf(reply.payload).Err? ==>
              Augmented(KindOf(sub, version), reply)
              == Augmentation(Err(ParamsOf(reply.payload).error), reply)
    ensures Augmented(KindOf(sub, version), reply).result.Err? && ParamsOf(reply.payload).Ok? ==>
              var es := Coded(ParamsOf(reply.payload).value);
              Augmented(KindOf(sub, version), reply)
              == Augmentation(Err(PayloadTooLarge),
                              if Encodable(es + Missing(es))
                              then reply.(payload := BlockWire(es + Missing(es))) else reply)
  {
    hide ParamsOf, BlockWire, Has, HasCode;
    if ParamsOf(reply.payload).Ok? {
      ParsedFacts(reply.payload);
      ExtrasInCodes(ParamsOf(reply.payload).value);
    }
  }

  /** Augmenting again changes nothing, so each extra is present once. */
  lemma AugmentIdempotent(kind: ClientKind, reply: Transaction)
    requires Augmented(kind, reply).result.Ok?
    ensures Augmented(kind, Augmented(kind, reply).reply)
            == Augmentation(Ok(false), Augmented(kind, reply).reply)
  {
    hide ParamsOf, BlockOf;
    if Augmented(kind, reply).result == Ok(true) {
      AugmentedDecodes(kind, reply);
    }
  }
}
