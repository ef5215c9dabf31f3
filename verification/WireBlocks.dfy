/** Parameter blocks in numbers: what decoding and validation do, said of codes and bytes alone. */
module WireBlocks {
  import opened Bytes
  import opened FieldIds
  import opened Headers
  import opened ParamCodec
  import opened Params

  datatype WireEntry = WireEntry(code: u16, value: bytes)

  predicate Encodable(es: seq<WireEntry>) {
    |es| < 0x1_0000 && AllShort(es)
  }

  predicate AllShort(es: seq<WireEntry>) {
    forall i :: 0 <= i < |es| ==> |es[i].value| < 0x1_0000
  }

  function EntriesWire(es: seq<WireEntry>): bytes
    requires AllShort(es)
  {
    if es == [] then []
    else U16Bytes(es[0].code) + U16Bytes(|es[0].value|) + es[0].value + EntriesWire(es[1..])
  }

  function BlockWire(es: seq<WireEntry>): bytes
    requires Encodable(es)
  {
    U16Bytes(|es|) + EntriesWire(es)
  }

  /** The parameters a list of codes and values stands for. */
  function Named(es: seq<WireEntry>): (ps: seq<Param>)
    ensures |ps| == |es| && forall i :: 0 <= i < |es| ==> ps[i] == Param(FieldOf(es[i].code), es[i].value)
  {
    seq(|es|, i requires 0 <= i < |es| => Param(FieldOf(es[i].code), es[i].value))
  }

  function Coded(ps: seq<Param>): (es: seq<WireEntry>)
    ensures |es| == |ps| && forall i :: 0 <= i < |ps| ==> es[i] == WireEntry(CodeOf(ps[i].field), ps[i].value)
  {
    seq(|ps|, i requires 0 <= i < |ps| => WireEntry(CodeOf(ps[i].field), ps[i].value))
  }

  lemma NamedIs(es: seq<WireEntry>)
    requires AllShort(es)
    ensures Fits(Named(es)) && AllCanonical(Named(es)) && Coded(Named(es)) == es
  {
    hide FieldOf, CodeOf, Canonical;
    var ps := Named(es);
    forall i | 0 <= i < |es| ensures Canonical(ps[i].field) && CodeOf(ps[i].field) == es[i].code {
      CodeRoundTrip(es[i].code);
    }
  }

  lemma CodedIs(ps: seq<Param>)
    requires Fits(ps) && AllCanonical(ps)
    ensures AllShort(Coded(ps)) && Named(Coded(ps)) == ps
  {
    hide FieldOf, CodeOf, Canonical;
    forall i | 0 <= i < |ps| ensures Named(Coded(ps))[i] == ps[i] && |ps[i].value| < 0x1_0000 {
      assert ps[i] in ps;
      FieldRoundTrip(ps[i].field);
    }
  }

  lemma {:induction false} EntriesWireIs(es: seq<WireEntry>)
    requires AllShort(es) && Fits(Named(es))
    ensures EntriesBytes(Named(es)) == EntriesWire(es)
    decreases |es|
  {
    hide FieldOf, CodeOf;
    if es != [] {
      var ps := Named(es);
      assert ps[1..] == Named(es[1..]);
      assert ps[0] in ps;
      CodeRoundTrip(es[0].code);
      EntriesWireIs(es[1..]);
    }
  }

  /** The wire form of a parameter list is that of its codes and values. */
  lemma BlockWireIs(es: seq<WireEntry>)
    requires Encodable(es)
    ensures BlockOf(Named(es)) == Ok(BlockWire(es)) && BlockWire(es) != []
    ensures IsBlock(BlockWire(es), Named(es))
  {
    hide FieldOf, CodeOf, Canonical;
    NamedIs(es);
    EntriesWireIs(es);
  }

  // ----------------------------------------------------------- duplicate rule

  /** Entry `j` brings back a code that is not among the `free` ones. */
  predicate BringsBack(es: seq<WireEntry>, j: nat, free: set<u16>) {
    j < |es| && es[j].code !in free && exists i :: 0 <= i < j && es[i].code == es[j].code
  }

  ghost predicate NoneBack(es: seq<WireEntry>, free: set<u16>) {
    forall j: nat :: !BringsBack(es, j, free)
  }

  lemma FreeFields(code: u16, users: bool)
    ensures DuplicateAllowed(FieldOf(code), users)
            <==> code in (if users then {200, 300, 321, 323} else {200, 321, 323})
  {
  }

  lemma SameRepeats(es: seq<WireEntry>, j: nat, users: bool, free: set<u16>)
    requires j < |es| && free == if users then {200, 300, 321, 323} else {200, 321, 323}
    ensures Repeats(Named(es), j, {}, users) <==> BringsBack(es, j, free)
  {
    hide FieldOf, CodeOf, DuplicateAllowed;
    var ps := Named(es);
    FreeFields(es[j].code, users);
    CodeRoundTrip(es[j].code);
    if i :| 0 <= i < j && ps[i].field == ps[j].field {
      CodeRoundTrip(es[i].code);
    }
    if i :| 0 <= i < j && es[i].code == es[j].code {
      assert ps[i].field == ps[j].field;
    }
  }

  /** A block decodes to what it says exactly when no code comes twice but 200, 321, 323 and, where
      user entries may repeat, 300; otherwise the first other code to come again is reported. */
  lemma DuplicateRule(es: seq<WireEntry>, users: bool, free: set<u16>)
    requires Encodable(es) && free == if users then {200, 300, 321, 323} else {200, 321, 323}
    ensures ParseBlock(BlockWire(es), users).Ok? <==> NoneBack(es, free)
    ensures NoneBack(es, free) ==> ParseBlock(BlockWire(es), users) == Ok(Named(es))
    ensures forall j: nat :: BringsBack(es, j, free) && (forall i: nat :: i < j ==> !BringsBack(es, i, free)) ==>
              ParseBlock(BlockWire(es), users) == Err(DuplicateField(es[j].code))
  {
    hide FieldOf, CodeOf, Canonical, DuplicateAllowed, EntriesWire, EntriesBytes, Repeats, BringsBack;
    var ps := Named(es);
    NamedIs(es);
    BlockWireIs(es);
    forall j: nat | j < |es| ensures Repeats(ps, j, {}, users) <==> BringsBack(es, j, free) {
      SameRepeats(es, j, users, free);
    }
    forall j: nat ensures BringsBack(es, j, free) ==> j < |es| {
      BackInRange(es, j, free);
    }
    assert NoRepeats(ps, {}, users) <==> NoneBack(es, free);
    BlockAccepted(BlockWire(es), ps, users);
    if ParseBlock(BlockWire(es), users).Ok? {
      OnlyReading(BlockWire(es), ps, users);
    }
    forall j: nat | BringsBack(es, j, free) && forall i: nat :: i < j ==> !BringsBack(es, i, free)
      ensures ParseBlock(BlockWire(es), users) == Err(DuplicateField(es[j].code))
    {
      assert FirstRepeat(ps, j, {}, users);
      BlockRejected(ps, j, users);
      assert Coded(ps)[j] == es[j];
    }
  }

  lemma BackInRange(es: seq<WireEntry>, j: nat, free: set<u16>)
    ensures BringsBack(es, j, free) ==> j < |es|
  {
  }

  /** A block has one reading. */
  lemma OnlyReading(buf: bytes, ps: seq<Param>, users: bool)
    requires IsBlock(buf, ps) && buf != [] && ParseBlock(buf, users).Ok?
    ensures ParseBlock(buf, users) == Ok(ps)
  {
    hide ParseBlock, NoRepeats;
    var qs := ParseBlock(buf, users).value;
    BlockAccepted(buf, qs, users);
    SameBlock(buf, ps, qs);
  }

  lemma SameBlock(buf: bytes, ps: seq<Param>, qs: seq<Param>)
    requires IsBlock(buf, ps) && IsBlock(buf, qs)
    ensures ps == qs
  {
    hide EntriesBytes;
    assert buf[..2] == U16Bytes(|ps|) == U16Bytes(|qs|);
    U16RoundTrip(|ps|, buf[..2]);
    U16RoundTrip(|qs|, buf[..2]);
    assert buf[2..] == EntriesBytes(ps) == EntriesBytes(qs);
    SameEntries(ps, qs);
  }

  lemma {:induction false} SameEntries(ps: seq<Param>, qs: seq<Param>)
    requires |ps| == |qs| && Fits(ps) && Fits(qs) && AllCanonical(ps) && AllCanonical(qs)
    requires EntriesBytes(ps) == EntriesBytes(qs)
    ensures ps == qs
    decreases |ps|
  {
    hide FieldOf, CodeOf, Canonical, EntryBytes;
    if ps != [] {
      assert ps[0] in ps && qs[0] in qs;
      EntryBytesLayout(ps[0], EntriesBytes(ps[1..]));
      EntryBytesLayout(qs[0], EntriesBytes(qs[1..]));
      FieldRoundTrip(ps[0].field);
      FieldRoundTrip(qs[0].field);
      SameEntries(ps[1..], qs[1..]);
      assert ps == [ps[0]] + ps[1..] && qs == [qs[0]] + qs[1..];
    }
  }

  lemma BlockRejected(ps: seq<Param>, j: nat, users: bool)
    requires AllCanonical(ps) && BlockOf(ps).Ok? && FirstRepeat(ps, j, {}, users)
    ensures ParseBlock(BlockOf(ps).value, users) == Err(DuplicateField(CodeOf(ps[j].field)))
  {
    hide EntriesBytes, ParseEntries, FirstRepeat;
    var buf := BlockOf(ps).value;
    assert buf[..2] == U16Bytes(|ps|) && buf[2..] == EntriesBytes(ps);
    U16RoundTrip(|ps|, buf[..2]);
    RepeatIsRejected(ps, j, {}, users);
  }

  // ------------------------------------------------------------------- damage

  lemma {:induction false} PaddedEntries(ps: seq<Param>, more: bytes, seen: set<u16>, users: bool)
    requires Fits(ps) && AllCanonical(ps) && NoRepeats(ps, seen, users) && more != []
    ensures ParseEntries(EntriesBytes(ps) + more, |ps|, seen, users) == Err(SizeMismatch)
    decreases |ps|
  {
    hide DuplicateAllowed, CodeOf, FieldOf, Canonical, EntryBytes, U16Of, Remember, NoRepeats;
    if ps == [] {
      assert EntriesBytes(ps) + more == more;
    } else {
      var p, tail := ps[0], ps[1..];
      assert p in ps;
      NoRepeatsShift(ps, seen, users);
      PaddedEntries(tail, more, Remember(seen, p.field, users), users);
      ParsePrintedStep(p, EntriesBytes(tail) + more, |tail|, seen, users);
      assert EntriesBytes(ps) + more == EntryBytes(p) + (EntriesBytes(tail) + more);
    }
  }

  lemma CutEntry(p: Param, k: nat, n: nat, seen: set<u16>, users: bool)
    requires |p.value| < 0x1_0000 && k < |EntryBytes(p)|
    ensures ParseEntries(EntryBytes(p)[..k], n + 1, seen, users) == Err(SizeMismatch)
  {
    EntryBytesLayout(p, []);
    var b := EntryBytes(p);
    assert b + [] == b;
    if k >= 4 {
      assert b[..k][2..4] == b[2..4];
    }
  }

  lemma {:induction false} CutEntries(ps: seq<Param>, k: nat, seen: set<u16>, users: bool)
    requires Fits(ps) && AllCanonical(ps) && NoRepeats(ps, seen, users) && k < |EntriesBytes(ps)|
    ensures ParseEntries(EntriesBytes(ps)[..k], |ps|, seen, users) == Err(SizeMismatch)
    decreases |ps|
  {
    hide DuplicateAllowed, CodeOf, FieldOf, Canonical, EntryBytes, U16Of, Remember, NoRepeats, ParseEntries;
    var p, tail := ps[0], ps[1..];
    var n := |EntryBytes(p)|;
    assert p in ps;
    if k < n {
      assert EntriesBytes(ps)[..k] == EntryBytes(p)[..k];
      CutEntry(p, k, |tail|, seen, users);
    } else {
      NoRepeatsShift(ps, seen, users);
      CutEntries(tail, k - n, Remember(seen, p.field, users), users);
      ParsePrintedStep(p, EntriesBytes(tail)[..k - n], |tail|, seen, users);
      assert EntriesBytes(ps)[..k] == EntryBytes(p) + EntriesBytes(tail)[..k - n];
    }
  }

  /** A good block that loses its end, or has bytes behind it, is a size mismatch at any length. */
  lemma DamagedBlock(es: seq<WireEntry>, k: nat, more: bytes, users: bool, free: set<u16>)
    requires Encodable(es) && free == if users then {200, 300, 321, 323} else {200, 321, 323}
    requires NoneBack(es, free) && 0 < k < |BlockWire(es)| && more != []
    ensures ParseBlock(BlockWire(es)[..k], users) == Err(SizeMismatch)
    ensures ParseBlock(BlockWire(es) + more, users) == Err(SizeMismatch)
  {
    hide DuplicateAllowed, CodeOf, FieldOf, Canonical, ParseEntries, EntriesWire, NoneBack;
    var ps, b := Named(es), BlockWire(es);
    DuplicateRule(es, users, free);
    BlockWireIs(es);
    NamedIs(es);
    BlockAccepted(b, ps, users);
    assert b[..2] == U16Bytes(|ps|) && b[2..] == EntriesBytes(ps);
    U16RoundTrip(|ps|, b[..2]);
    assert (b + more)[..2] == b[..2] && (b + more)[2..] == EntriesBytes(ps) + more;
    PaddedEntries(ps, more, {}, users);
    if k >= 2 {
      assert b[..k][..2] == b[..2] && b[..k][2..] == EntriesBytes(ps)[..k - 2];
      CutEntries(ps, k - 2, {}, users);
    }
  }

  // --------------------------------------------------------------- validation

  /** `payload` is a block in which only the `free` codes come more than once. */
  ghost predicate BlockWithin(payload: bytes, free: set<u16>) {
    exists es: seq<WireEntry> :: Encodable(es) && payload == BlockWire(es) && NoneBack(es, free)
  }

  lemma ParsesIff(payload: bytes, users: bool, free: set<u16>)
    requires payload != [] && free == if users then {200, 300, 321, 323} else {200, 321, 323}
    ensures ParseBlock(payload, users).Ok? <==> BlockWithin(payload, free)
  {
    hide EntriesBytes, EntriesWire, ParseEntries, FieldOf, CodeOf, Canonical, NoneBack, NoRepeats;
    if es: seq<WireEntry> :| Encodable(es) && payload == BlockWire(es) && NoneBack(es, free) {
      DuplicateRule(es, users, free);
    }
    if ParseBlock(payload, users).Ok? {
      var ps := ParseBlock(payload, users).value;
      BlockAccepted(payload, ps, users);
      CodedIs(ps);
      var es := Coded(ps);
      BlockWireIs(es);
      DuplicateRule(es, users, free);
    }
  }

  /** What passes validation, in header numbers and codes: the declared length, and an empty
      payload, an opaque request of type 200, 212 or 300, or a block without forbidden repeats. */
  lemma ValidatedIff(h: FrameHeader, payload: bytes)
    ensures Validated(h, payload).Ok?
            <==> h.totalSize == |payload|
                 && (payload == [] || (h.isReply == 0 && h.ty in {200, 212, 300})
                     || BlockWithin(payload, if h.isReply != 0 && h.ty == 300 then {200, 300, 321, 323}
                                             else {200, 321, 323}))
    ensures h.totalSize != |payload| ==> Validated(h, payload) == Err(SizeMismatch)
  {
    hide ParseBlock, BlockWithin;
    if payload != [] {
      var users := h.isReply != 0 && h.ty == 300;
      ParsesIff(payload, users, if users then {200, 300, 321, 323} else {200, 321, 323});
    }
  }

  /** One block, byte by byte: a login named "a" under code 105. */
  lemma BlockInBytes()
    ensures BlockOf([Param(Login, [0x61])]).Ok?
    ensures BlockOf([Param(Login, [0x61])]).value == [0, 1, 0, 105, 0, 1, 0x61]
  {
    var ps := [Param(Login, [0x61])];
    assert ps[1..] == [];
    assert EntryBytes(ps[0]) == [0, 105, 0, 1, 0x61];
    assert EntriesBytes(ps) == EntryBytes(ps[0]) + [];
  }
}
