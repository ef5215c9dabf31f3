/** The parameter iterator, decoder, validator and encoder as they run. */
module ParamCodec {
  import opened Bytes
  import opened FieldIds
  import opened Headers
  import opened Params

  function Prepend(ps: seq<Param>, r: Result<seq<Param>, TransactionError>)
    : Result<seq<Param>, TransactionError>
  {
    if r.Ok? then Ok(ps + r.value) else r
  }

  lemma PrependLaws(a: seq<Param>, b: seq<Param>, r: Result<seq<Param>, TransactionError>)
    ensures Prepend([], r) == r
    ensures Prepend(a, Ok([])) == Ok(a)
    ensures Prepend(a, Prepend(b, r)) == Prepend(a + b, r)
  {
    if r.Ok? {
      assert [] + r.value == r.value;
      assert a + (b + r.value) == (a + b) + r.value;
    }
    assert a + [] == a;
  }

  /** Iterator over the entries of a block: it yields field, start and length. */
  class ParamIter {
    const buf: bytes
    const users: bool
    var offset: nat
    var remaining: nat
    var seen: set<u16>
    var error: Option<TransactionError>

    ghost predicate Valid()
      reads this
    {
      offset <= |buf|
    }

    /** What draining the iterator and finishing it will report. */
    ghost function Outcome(): Result<seq<Param>, TransactionError>
      requires Valid()
      reads this
    {
      if error.Some? then Err(error.value)
      else ParseEntries(buf[offset..], remaining, seen, users)
    }

    constructor (buf: bytes, users: bool, offset: nat, remaining: nat)
      requires offset <= |buf|
      ensures Valid() && this.buf == buf && this.users == users
      ensures this.remaining == remaining
      ensures Outcome() == ParseEntries(buf[offset..], remaining, {}, users)
    {
      this.buf := buf;
      this.users := users;
      this.offset := offset;
      this.remaining := remaining;
      this.seen := {};
      this.error := None;
    }

    method Next() returns (item: Option<(FieldId, nat, nat)>)
      requires Valid()
      modifies this
      ensures Valid()
      ensures item.None? ==> Outcome() == old(Outcome()) && (remaining == 0 || error.Some?)
      ensures match item
              case None => remaining == old(remaining)
              case Some((f, start, len)) =>
                start + len <= |buf| && remaining == old(remaining) - 1
                && old(Outcome()) == Prepend([Param(f, buf[start..start + len])], Outcome())
    {
      if remaining == 0 || error.Some? {
        return None;
      }
      ghost var rest := buf[offset..];
      if offset + 4 > |buf| {
        error := Some(SizeMismatch);
        return None;
      }
      assert rest[..2] == buf[offset..offset + 2];
      assert rest[2..4] == buf[offset + 2..offset + 4];
      var code := U16Of(buf[offset..offset + 2]);
      var len := U16Of(buf[offset + 2..offset + 4]) as int;
      offset := offset + 4;
      var start := offset;
      if start + len > |buf| {
        error := Some(SizeMismatch);
        return None;
      }
      var f := FieldOf(code);
      assert rest[4..4 + len] == buf[start..start + len];
      assert rest[4 + len..] == buf[start + len..];
      if !DuplicateAllowed(f, users) {
        if CodeOf(f) in seen {
          error := Some(DuplicateField(CodeOf(f)));
          return None;
        }
        seen := seen + {CodeOf(f)};
      }
      offset := offset + len;
      remaining := remaining - 1;
      return Some((f, start, len));
    }

    method Finish() returns (r: Result<(), TransactionError>)
      requires Valid() && (remaining == 0 || error.Some?)
      ensures r.Ok? <==> Outcome() == Ok([])
      ensures r.Err? ==> Outcome() == Err(r.error)
    {
      if error.Some? {
        return Err(error.value);
      }
      if offset != |buf| {
        return Err(SizeMismatch);
      }
      return Ok(());
    }

    /** Collects every entry and finishes: the loop shared by decoder and validator. */
    method Drain() returns (r: Result<seq<Param>, TransactionError>)
      requires Valid()
      modifies this
      ensures r == old(Outcome())
    {
      hide ParamIter.Outcome;
      var params: seq<Param> := [];
      ghost var whole := Outcome();
      PrependLaws([], [], whole);
      while true
        invariant Valid()
        invariant whole == Prepend(params, Outcome())
        decreases remaining
      {
        var item := Next();
        match item {
          case None => break;
          case Some((f, start, len)) =>
            var p := Param(f, buf[start..start + len]);
            PrependLaws(params, [p], Outcome());
            params := params + [p];
        }
      }
      var done := Finish();
      PrependLaws(params, [], Ok([]));
      r := if done.Ok? then Ok(params) else Err(done.error);
    }
  }

  method DecodeParams(buf: bytes) returns (r: Result<seq<Param>, TransactionError>)
    ensures r == ParamsOf(buf)
  {
    if buf == [] {
      return Ok([]);
    }
    if |buf| < 2 {
      return Err(SizeMismatch);
    }
    var iter := new ParamIter(buf, true, 2, U16Of(buf[..2]));
    ghost var whole := iter.Outcome();
    assert whole == ParamsOf(buf);
    r := iter.Drain();
  }

  // -------------------------------------------------------------- validation

  predicate AllowsRepeatedUsers(h: FrameHeader) {
    h.isReply != 0 && h.ty == USER_NAME_LIST_ID
  }

  /** Request types whose payload is opaque to the parameter decoder. */
  predicate BypassesDecode(h: FrameHeader) {
    h.isReply == 0
    && (h.ty == FILE_NAME_LIST_ID || h.ty == DOWNLOAD_BANNER_ID || h.ty == USER_NAME_LIST_ID)
  }

  function Validated(h: FrameHeader, payload: bytes): Result<(), TransactionError> {
    if h.totalSize != |payload| then Err(SizeMismatch)
    else if payload == [] || BypassesDecode(h) then Ok(())
    else
      var _ :- ParseBlock(payload, AllowsRepeatedUsers(h));
      Ok(())
  }

  method ValidatePayloadParts(h: FrameHeader, payload: bytes)
    returns (r: Result<(), TransactionError>)
    ensures r == Validated(h, payload)
  {
    if h.totalSize != |payload| {
      return Err(SizeMismatch);
    }
    if payload == [] {
      return Ok(());
    }
    if BypassesDecode(h) {
      return Ok(());
    }
    if |payload| < 2 {
      return Err(SizeMismatch);
    }
    var iter := new ParamIter(payload, AllowsRepeatedUsers(h), 2, U16Of(payload[..2]));
    var params := iter.Drain();
    r := if params.Ok? then Ok(()) else Err(params.error);
  }

  ghost predicate UserEntryRepeats(ps: seq<Param>) {
    exists i, j :: 0 <= i < j < |ps| && ps[i].field == UserNameWithInfo == ps[j].field
  }

  lemma RepeatsByContext(ps: seq<Param>, users: bool)
    requires NoRepeats(ps, {}, true)
    ensures NoRepeats(ps, {}, users) <==> users || !UserEntryRepeats(ps)
  {
    if !users {
      if i, j :| 0 <= i < j < |ps| && ps[i].field == UserNameWithInfo == ps[j].field {
        assert Repeats(ps, j, {}, users);
      }
      if j: nat :| j < |ps| && Repeats(ps, j, {}, users) {
        assert !Repeats(ps, j, {}, true);
      }
    }
  }

  lemma NoRepeatsMonotone(ps: seq<Param>, users: bool)
    requires NoRepeats(ps, {}, users)
    ensures NoRepeats(ps, {}, true)
  {
    forall j: nat | j < |ps| ensures !Repeats(ps, j, {}, true) {
      assert !Repeats(ps, j, {}, users);
    }
  }

  /** Outside the bypass, a payload that passes validation always decodes. */
  lemma ValidatedDecodes(h: FrameHeader, payload: bytes)
    requires Validated(h, payload).Ok? && !BypassesDecode(h)
    ensures ParamsOf(payload).Ok?
  {
    if payload != [] {
      var users := AllowsRepeatedUsers(h);
      var ps := ParseBlock(payload, users).value;
      BlockAccepted(payload, ps, users);
      NoRepeatsMonotone(ps, users);
      BlockAccepted(payload, ps, true);
    }
  }

  /** A decodable payload of the declared length fails only by repeating a user entry. */
  lemma DecodableValidates(h: FrameHeader, payload: bytes)
    requires h.totalSize == |payload| && ParamsOf(payload).Ok?
    ensures Validated(h, payload).Ok?
            <==> BypassesDecode(h) || AllowsRepeatedUsers(h)
                 || !UserEntryRepeats(ParamsOf(payload).value)
    ensures Validated(h, payload).Err? ==>
              Validated(h, payload).error == DuplicateField(USER_NAME_LIST_ID)
  {
    if payload != [] {
      var ps := ParamsOf(payload).value;
      var users := AllowsRepeatedUsers(h);
      BlockAccepted(payload, ps, true);
      RepeatsByContext(ps, users);
      BlockAccepted(payload, ps, users);
      if !NoRepeats(ps, {}, users) {
        var k: nat :| k < |ps| && Repeats(ps, k, {}, users);
        var j := LeastRepeat(ps, k, users);
        assert !Repeats(ps, j, {}, true);
        assert payload[2..] == EntriesBytes(ps) && payload[..2] == U16Bytes(|ps|);
        U16RoundTrip(|ps|, payload[..2]);
        RepeatIsRejected(ps, j, {}, users);
      }
    }
  }

  // ---------------------------------------------------------------- encoding

  lemma {:induction false} EntriesAppend(a: seq<Param>, b: seq<Param>)
    requires Fits(a) && Fits(b)
    ensures Fits(a + b) && EntriesBytes(a + b) == EntriesBytes(a) + EntriesBytes(b)
  {
    if a == [] {
      assert a + b == b;
    } else {
      assert (a + b)[1..] == a[1..] + b;
      EntriesAppend(a[1..], b);
    }
  }

  /** One turn of the encoding loop. */
  lemma EncodeStep(ps: seq<Param>, i: nat, buf: bytes)
    requires i < |ps| && Fits(ps[..i]) && |ps[i].value| < 0x1_0000
    ensures Fits(ps[..i + 1])
    ensures buf + EntriesBytes(ps[..i]) + U16Bytes(CodeOf(ps[i].field)) + U16Bytes(|ps[i].value|) + ps[i].value
            == buf + EntriesBytes(ps[..i + 1])
  {
    hide U16Bytes, CodeOf;
    var p := ps[i];
    assert ps[..i + 1] == ps[..i] + [p];
    assert Fits([p]) && EntriesBytes([p]) == EntryBytes(p) + EntriesBytes([]);
    assert EntryBytes(p) + [] == EntryBytes(p);
    EntriesAppend(ps[..i], [p]);
  }

  method EncodeParams(ps: seq<Param>) returns (r: Result<bytes, TransactionError>)
    ensures r == BlockOf(ps)
  {
    hide EntriesBytes, CodeOf, U16Bytes;
    if |ps| > 0xFFFF {
      return Err(PayloadTooLarge);
    }
    var buf := U16Bytes(|ps|);
    assert buf + EntriesBytes([]) == buf by { NothingToEncode(); }
    for i := 0 to |ps|
      invariant Fits(ps[..i])
      invariant buf == U16Bytes(|ps|) + EntriesBytes(ps[..i])
    {
      buf := buf + U16Bytes(CodeOf(ps[i].field));
      if |ps[i].value| > 0xFFFF {
        assert ps[i] in ps;
        return Err(PayloadTooLarge);
      }
      EncodeStep(ps, i, U16Bytes(|ps|));
      buf := buf + U16Bytes(|ps[i].value|);
      buf := buf + ps[i].value;
    }
    assert ps[..|ps|] == ps;
    return Ok(buf);
  }

  lemma NothingToEncode()
    ensures EntriesBytes([]) == []
  {
  }

  // -------------------------------------------------------------- map lookup

  /** The values of field `f`, in wire order. */
  function ValuesOf(ps: seq<Param>, f: FieldId): seq<bytes> {
    if ps == [] then []
    else ValuesOf(ps[..|ps| - 1], f)
         + (if ps[|ps| - 1].field == f then [ps[|ps| - 1].value] else [])
  }

  method DecodeParamsMap(buf: bytes)
    returns (r: Result<map<FieldId, seq<bytes>>, TransactionError>)
    ensures r.Err? <==> ParamsOf(buf).Err?
    ensures r.Err? ==> r.error == ParamsOf(buf).error
    ensures r.Ok? ==> forall f :: f in r.value <==> ValuesOf(ParamsOf(buf).value, f) != []
    ensures r.Ok? ==> forall f :: f in r.value ==> r.value[f] == ValuesOf(ParamsOf(buf).value, f)
  {
    var decoded := DecodeParams(buf);
    if decoded.Err? {
      return Err(decoded.error);
    }
    var ps := decoded.value;
    var m: map<FieldId, seq<bytes>> := map[];
    for i := 0 to |ps|
      invariant forall f :: f in m <==> ValuesOf(ps[..i], f) != []
      invariant forall f :: f in m ==> m[f] == ValuesOf(ps[..i], f)
    {
      assert ps[..i + 1][..i] == ps[..i];
      var f := ps[i].field;
      var before := if f in m then m[f] else [];
      m := m[f := before + [ps[i].value]];
    }
    assert ps[..|ps|] == ps;
    return Ok(m);
  }

  lemma {:induction false} ValuesOfAbsent(ps: seq<Param>, f: FieldId)
    ensures ValuesOf(ps, f) == [] <==> forall i :: 0 <= i < |ps| ==> ps[i].field != f
  {
    if ps != [] {
      var init := ps[..|ps| - 1];
      ValuesOfAbsent(init, f);
      assert forall i :: 0 <= i < |init| ==> ps[i] == init[i];
    }
  }

  lemma ValuesLast(ps: seq<Param>, p: Param, f: FieldId)
    ensures ValuesOf([], f) == []
    ensures ValuesOf(ps + [p], f) == ValuesOf(ps, f) + if p.field == f then [p.value] else []
  {
    assert (ps + [p])[..|ps|] == ps;
  }

  /** Collecting keeps every value and their order: lists are collected piece by piece, and a single
      parameter counts exactly for its own field. */
  lemma {:induction false} ValuesJoin(a: seq<Param>, b: seq<Param>, p: Param, f: FieldId)
    ensures ValuesOf(a + b, f) == ValuesOf(a, f) + ValuesOf(b, f)
    ensures ValuesOf([p], f) == if p.field == f then [p.value] else []
    decreases |b|
  {
    hide ValuesOf;
    ValuesLast([], p, f);
    assert [] + [p] == [p];
    if b == [] {
      assert a + b == a && ValuesOf(a, f) + [] == ValuesOf(a, f);
    } else {
      var init, last := b[..|b| - 1], b[|b| - 1];
      ValuesJoin(a, init, p, f);
      ValuesLast(init, last, f);
      ValuesLast(a + init, last, f);
      assert b == init + [last] && a + b == (a + init) + [last];
    }
  }

  /** The first collected value of a field is its first occurrence on the wire. */
  lemma {:induction false} FirstValueIsFirstOnWire(ps: seq<Param>, f: FieldId, k: nat)
    requires k < |ps| && ps[k].field == f
    requires forall i :: 0 <= i < k ==> ps[i].field != f
    ensures ValuesOf(ps, f) != [] && ValuesOf(ps, f)[0] == ps[k].value
  {
    var init := ps[..|ps| - 1];
    if k < |init| {
      FirstValueIsFirstOnWire(init, f, k);
    } else {
      ValuesOfAbsent(init, f);
    }
  }
}
