/**
 The parameter block: a 16-bit count, then one `code, length, value` entry a parameter.

 `IsBlock` is the grammar of such a block and `Repeats` the duplicate rule. Both are
 stated without reference to the scanning loop; the parser is proved to accept exactly
 the byte strings they describe.
 */
module Params {
  import opened Bytes
  import opened FieldIds
  import opened Headers

  datatype Param = Param(field: FieldId, value: bytes)

  const USER_NAME_LIST_ID: u16 := 300
  const FILE_NAME_LIST_ID: u16 := 200
  const DOWNLOAD_BANNER_ID: u16 := 212

  // ---------------------------------------------------------------- grammar

  predicate Fits(ps: seq<Param>) {
    forall p <- ps :: |p.value| < 0x1_0000
  }

  predicate AllCanonical(ps: seq<Param>) {
    forall p <- ps :: Canonical(p.field)
  }

  function EntryBytes(p: Param): (b: bytes)
    requires |p.value| < 0x1_0000
  {
    U16Bytes(CodeOf(p.field)) + U16Bytes(|p.value|) + p.value
  }

  function EntriesBytes(ps: seq<Param>): bytes
    requires Fits(ps)
  {
    if ps == [] then [] else EntryBytes(ps[0]) + EntriesBytes(ps[1..])
  }

  /** `buf` is the wire form of the parameter list `ps`. */
  predicate IsBlock(buf: bytes, ps: seq<Param>) {
    |ps| < 0x1_0000 && Fits(ps) && AllCanonical(ps)
    && buf == U16Bytes(|ps|) + EntriesBytes(ps)
  }

  /** Whether a field may occur more than once; `users` is the context-dependent case. */
  predicate DuplicateAllowed(f: FieldId, users: bool) {
    match f
    case UserNameWithInfo => users
    case NewsCategory => true
    case NewsArticle => true
    case FileName => true
    case _ => false
  }

  /** Entry `j` repeats a field that may not be repeated, or one already in `seen`. */
  ghost predicate Repeats(ps: seq<Param>, j: nat, seen: set<u16>, users: bool)
    requires j < |ps|
  {
    !DuplicateAllowed(ps[j].field, users)
    && (CodeOf(ps[j].field) in seen || exists i :: 0 <= i < j && ps[i].field == ps[j].field)
  }

  ghost predicate NoRepeats(ps: seq<Param>, seen: set<u16>, users: bool) {
    forall j: nat :: j < |ps| ==> !Repeats(ps, j, seen, users)
  }

  ghost predicate FirstRepeat(ps: seq<Param>, j: nat, seen: set<u16>, users: bool) {
    j < |ps| && Repeats(ps, j, seen, users)
    && forall i: nat :: i < j ==> !Repeats(ps, i, seen, users)
  }

  // ---------------------------------------------------------------- parser

  function Remember(seen: set<u16>, f: FieldId, users: bool): set<u16> {
    if DuplicateAllowed(f, users) then seen else seen + {CodeOf(f)}
  }

  function ParseEntries(buf: bytes, remaining: nat, seen: set<u16>, users: bool)
    : Result<seq<Param>, TransactionError>
    decreases remaining
  {
    if remaining == 0 then
      if buf == [] then Ok([]) else Err(SizeMismatch)
    else if |buf| < 4 then
      Err(SizeMismatch)
    else
      var len := U16Of(buf[2..4]) as int;
      var f := FieldOf(U16Of(buf[..2]));
      if |buf| < 4 + len then
        Err(SizeMismatch)
      else if !DuplicateAllowed(f, users) && CodeOf(f) in seen then
        Err(DuplicateField(CodeOf(f)))
      else
        var rest :- ParseEntries(buf[4 + len..], remaining - 1, Remember(seen, f, users), users);
        Ok([Param(f, buf[4..4 + len])] + rest)
  }

  function ParseBlock(buf: bytes, users: bool): Result<seq<Param>, TransactionError> {
    if buf == [] then Ok([])
    else if |buf| < 2 then Err(SizeMismatch)
    else ParseEntries(buf[2..], U16Of(buf[..2]), {}, users)
  }

  function ParamsOf(buf: bytes): Result<seq<Param>, TransactionError> {
    ParseBlock(buf, true)
  }

  function BlockOf(ps: seq<Param>): Result<bytes, TransactionError> {
    if |ps| < 0x1_0000 && Fits(ps) then Ok(U16Bytes(|ps|) + EntriesBytes(ps))
    else Err(PayloadTooLarge)
  }

  // ------------------------------------------------- grammar against parser

  lemma EntryBytesLayout(p: Param, tail: bytes)
    requires |p.value| < 0x1_0000
    ensures var b := EntryBytes(p) + tail;
            |b| == 4 + |p.value| + |tail|
            && U16Of(b[..2]) == CodeOf(p.field)
            && U16Of(b[2..4]) == |p.value|
            && b[4..4 + |p.value|] == p.value
            && b[4 + |p.value|..] == tail
  {
    var b := EntryBytes(p) + tail;
    assert b[..2] == U16Bytes(CodeOf(p.field));
    assert b[2..4] == U16Bytes(|p.value|);
    U16RoundTrip(CodeOf(p.field), b[..2]);
    U16RoundTrip(|p.value|, b[..2]);
  }

  lemma RepeatsShift(ps: seq<Param>, j: nat, seen: set<u16>, users: bool)
    requires 0 < j < |ps| && AllCanonical(ps)
    ensures Repeats(ps, j, seen, users)
            <==> Repeats(ps[1..], j - 1, Remember(seen, ps[0].field, users), users)
  {
    FieldRoundTrip(ps[0].field);
    FieldRoundTrip(ps[j].field);
    var tail := ps[1..];
    assert tail[j - 1] == ps[j];
    if i :| 0 <= i < j && ps[i].field == ps[j].field {
      assert i > 0 ==> tail[i - 1].field == tail[j - 1].field;
    }
    if i :| 0 <= i < j - 1 && tail[i].field == tail[j - 1].field {
      assert ps[i + 1].field == ps[j].field;
    }
  }

  lemma NoRepeatsShift(ps: seq<Param>, seen: set<u16>, users: bool)
    requires ps != [] && AllCanonical(ps)
    ensures NoRepeats(ps, seen, users)
            <==> (DuplicateAllowed(ps[0].field, users) || CodeOf(ps[0].field) !in seen)
                 && NoRepeats(ps[1..], Remember(seen, ps[0].field, users), users)
  {
    var seen' := Remember(seen, ps[0].field, users);
    forall j: nat | 0 < j < |ps|
      ensures Repeats(ps, j, seen, users) <==> Repeats(ps[1..], j - 1, seen', users)
    {
      RepeatsShift(ps, j, seen, users);
    }
    assert Repeats(ps, 0, seen, users)
           <==> !DuplicateAllowed(ps[0].field, users) && CodeOf(ps[0].field) in seen;
    if NoRepeats(ps, seen, users) {
      forall k: nat | k < |ps[1..]| ensures !Repeats(ps[1..], k, seen', users) {
        assert !Repeats(ps, k + 1, seen, users);
      }
    }
  }

  /** The leading entry of a long enough buffer is the printed form of what is read from it. */
  lemma EntrySplit(buf: bytes, len: nat)
    requires |buf| >= 4 + len && U16Of(buf[2..4]) == len
    ensures var p := Param(FieldOf(U16Of(buf[..2])), buf[4..4 + len]);
            Canonical(p.field) && buf == EntryBytes(p) + buf[4 + len..]
  {
    CodeRoundTrip(U16Of(buf[..2]));
    U16RoundTrip(0, buf[..2]);
    U16RoundTrip(0, buf[2..4]);
    assert buf == buf[..2] + buf[2..4] + buf[4..4 + len] + buf[4 + len..];
  }

  lemma NothingRepeats(seen: set<u16>, users: bool)
    ensures NoRepeats([], seen, users)
  {
  }

  /** Whatever the parser accepts is the printed form of what it returns, free of repeats. */
  lemma {:induction false} ParsedIsPrinted(buf: bytes, n: nat, seen: set<u16>, users: bool)
    requires ParseEntries(buf, n, seen, users).Ok?
    ensures var ps := ParseEntries(buf, n, seen, users).value;
            |ps| == n && Fits(ps) && AllCanonical(ps)
            && buf == EntriesBytes(ps) && NoRepeats(ps, seen, users)
    decreases n
  {
    hide NoRepeats, CodeOf, EntryBytes;
    if n == 0 {
      NothingRepeats(seen, users);
    } else {
      var len := U16Of(buf[2..4]) as int;
      var f := FieldOf(U16Of(buf[..2]));
      var seen' := Remember(seen, f, users);
      ParsedIsPrinted(buf[4 + len..], n - 1, seen', users);
      EntrySplit(buf, len);
      var tail := ParseEntries(buf[4 + len..], n - 1, seen', users).value;
      var ps := [Param(f, buf[4..4 + len])] + tail;
      assert ps[1..] == tail;
      NoRepeatsShift(ps, seen, users);
    }
  }

  /** How the parser treats one printed entry in front of anything. */
  lemma ParsePrintedStep(p: Param, tail: bytes, n: nat, seen: set<u16>, users: bool)
    requires |p.value| < 0x1_0000 && Canonical(p.field)
    ensures var r := ParseEntries(tail, n, Remember(seen, p.field, users), users);
            ParseEntries(EntryBytes(p) + tail, n + 1, seen, users)
            == if !DuplicateAllowed(p.field, users) && CodeOf(p.field) in seen then
                 Err(DuplicateField(CodeOf(p.field)))
               else if r.Ok? then Ok([p] + r.value)
               else r
  {
    EntryBytesLayout(p, tail);
    FieldRoundTrip(p.field);
  }

  /** A printed list free of repeats is parsed back. */
  lemma {:induction false} PrintedIsParsed(ps: seq<Param>, seen: set<u16>, users: bool)
    requires Fits(ps) && AllCanonical(ps) && NoRepeats(ps, seen, users)
    ensures ParseEntries(EntriesBytes(ps), |ps|, seen, users) == Ok(ps)
  {
    hide DuplicateAllowed, CodeOf, FieldOf, Canonical, EntryBytes, U16Of, Remember, NoRepeats;
    if ps != [] {
      var p, tail := ps[0], ps[1..];
      assert p in ps;
      NoRepeatsShift(ps, seen, users);
      PrintedIsParsed(tail, Remember(seen, p.field, users), users);
      ParsePrintedStep(p, EntriesBytes(tail), |tail|, seen, users);
      assert ps == [p] + tail;
      assert EntriesBytes(ps) == EntryBytes(p) + EntriesBytes(tail);
    }
  }

  /** A printed list with a repeat is rejected with the code of the first one. */
  lemma {:induction false} RepeatIsRejected(ps: seq<Param>, j: nat, seen: set<u16>, users: bool)
    requires Fits(ps) && AllCanonical(ps) && FirstRepeat(ps, j, seen, users)
    ensures ParseEntries(EntriesBytes(ps), |ps|, seen, users)
            == Err(DuplicateField(CodeOf(ps[j].field)))
    decreases j
  {
    hide DuplicateAllowed, CodeOf, FieldOf, Canonical, EntryBytes, U16Of, Remember;
    ParsePrintedStep(ps[0], EntriesBytes(ps[1..]), |ps| - 1, seen, users);
    if j > 0 {
      var seen' := Remember(seen, ps[0].field, users);
      RepeatsShift(ps, j, seen, users);
      forall i: nat | i < j - 1 ensures !Repeats(ps[1..], i, seen', users) {
        RepeatsShift(ps, i + 1, seen, users);
      }
      assert !Repeats(ps, 0, seen, users);
      RepeatIsRejected(ps[1..], j - 1, seen', users);
    }
  }

  /** The parser accepts a non-empty buffer exactly when it is a block without repeats. */
  lemma BlockAccepted(buf: bytes, ps: seq<Param>, users: bool)
    requires buf != []
    ensures ParseBlock(buf, users) == Ok(ps) <==> IsBlock(buf, ps) && NoRepeats(ps, {}, users)
  {
    if IsBlock(buf, ps) && NoRepeats(ps, {}, users) {
      assert buf[..2] == U16Bytes(|ps|) && buf[2..] == EntriesBytes(ps);
      U16RoundTrip(|ps|, buf[..2]);
      PrintedIsParsed(ps, {}, users);
    }
    if ParseBlock(buf, users) == Ok(ps) {
      U16RoundTrip(0, buf[..2]);
      ParsedIsPrinted(buf[2..], U16Of(buf[..2]), {}, users);
      assert buf == buf[..2] + buf[2..];
    }
  }

  /** Lists of distinct fields never repeat one. */
  lemma DistinctNoRepeats(ps: seq<Param>, users: bool)
    requires forall i, j :: 0 <= i < j < |ps| ==> ps[i].field != ps[j].field
    ensures NoRepeats(ps, {}, users)
  {
  }

  /** Every non-empty buffer the decoder accepts is reproduced exactly by the encoder. */
  lemma DecodeThenEncode(buf: bytes)
    requires buf != [] && ParamsOf(buf).Ok?
    ensures BlockOf(ParamsOf(buf).value) == Ok(buf)
  {
    BlockAccepted(buf, ParamsOf(buf).value, true);
  }

  /** Decoding an encoded list returns it, or reports its first repeated field. */
  lemma EncodeThenDecode(ps: seq<Param>)
    requires AllCanonical(ps) && BlockOf(ps).Ok?
    ensures NoRepeats(ps, {}, true) ==> ParamsOf(BlockOf(ps).value) == Ok(ps)
    ensures forall j: nat :: FirstRepeat(ps, j, {}, true) ==>
              ParamsOf(BlockOf(ps).value) == Err(DuplicateField(CodeOf(ps[j].field)))
    ensures !NoRepeats(ps, {}, true) ==> exists j: nat :: FirstRepeat(ps, j, {}, true)
  {
    var buf := BlockOf(ps).value;
    BlockAccepted(buf, ps, true);
    assert buf[..2] == U16Bytes(|ps|) && buf[2..] == EntriesBytes(ps);
    U16RoundTrip(|ps|, buf[..2]);
    forall j: nat | FirstRepeat(ps, j, {}, true)
      ensures ParamsOf(buf) == Err(DuplicateField(CodeOf(ps[j].field)))
    {
      RepeatIsRejected(ps, j, {}, true);
    }
    if !NoRepeats(ps, {}, true) {
      var j: nat :| j < |ps| && Repeats(ps, j, {}, true);
      var k := LeastRepeat(ps, j, true);
    }
  }

  lemma {:induction false} LeastRepeat(ps: seq<Param>, j: nat, users: bool) returns (k: nat)
    requires j < |ps| && Repeats(ps, j, {}, users)
    ensures FirstRepeat(ps, k, {}, users)
    decreases j
  {
    if i: nat :| i < j && Repeats(ps, i, {}, users) {
      k := LeastRepeat(ps, i, users);
    } else {
      k := j;
    }
  }
}
