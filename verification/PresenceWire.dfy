/** Presence on the wire: the packed list entry, the change and departure notices. */
module PresenceWire {
  import opened Allocator
  import opened Bytes
  import opened FieldIds
  import opened Headers
  import opened ParamCodec
  import opened Params
  import opened Pipeline
  import opened Presence
  import opened Protocol
  import opened Readers
  import opened WireBlocks

  const NOTIFY_CHANGE_USER_ID: u16 := 301
  const NOTIFY_DELETE_USER_ID: u16 := 302

  /** What a client shows of another user. */
  datatype Entry = Entry(iconId: u16, statusFlags: u16, name: bytes)

  function EntryOf(s: PresenceSnapshot): Entry {
    Entry(s.iconId, s.statusFlags, s.displayName)
  }

  /** Two's complement, as a signed 32-bit integer is written. */
  function I32Bytes(v: i32): (b: bytes)
    ensures |b| == 4
  {
    U32Bytes(if v < 0 then v + 0x1_0000_0000 else v)
  }

  function I32Of(b: bytes): i32
    requires |b| == 4
  {
    var u := U32Of(b) as int;
    if u >= 0x8000_0000 then u - 0x1_0000_0000 else u
  }

  lemma I32RoundTrip(v: i32)
    ensures I32Of(I32Bytes(v)) == v
  {
    U32RoundTrip(if v < 0 then v + 0x1_0000_0000 else v, I32Bytes(v));
  }

  // ----------------------------------------------------------- list entries

  function ListEntry(s: PresenceSnapshot): Result<bytes, TransactionError> {
    if !(0 <= s.userId < 0x1_0000) || |s.displayName| >= 0x1_0000 then
      Err(InvalidParamValue(UserNameWithInfo))
    else
      Ok(U16Bytes(s.userId) + U16Bytes(s.iconId) + U16Bytes(s.statusFlags)
         + U16Bytes(|s.displayName|) + s.displayName)
  }

  /** How a client reads a packed entry. */
  function UserIn(b: bytes): Option<(int, Entry)> {
    if |b| < 8 || |b| != 8 + U16Of(b[6..8]) then None
    else Some((U16Of(b[..2]), Entry(U16Of(b[2..4]), U16Of(b[4..6]), b[8..])))
  }

  lemma ListEntryRead(s: PresenceSnapshot)
    requires ListEntry(s).Ok?
    ensures |ListEntry(s).value| == 8 + |s.displayName|
    ensures UserIn(ListEntry(s).value) == Some((s.userId, EntryOf(s)))
  {
    var b := ListEntry(s).value;
    assert b[..2] == U16Bytes(s.userId);
    assert b[2..4] == U16Bytes(s.iconId);
    assert b[4..6] == U16Bytes(s.statusFlags);
    assert b[6..8] == U16Bytes(|s.displayName|);
    assert b[8..] == s.displayName;
    U16RoundTrip(s.userId, b[..2]);
    U16RoundTrip(s.iconId, b[..2]);
    U16RoundTrip(s.statusFlags, b[..2]);
    U16RoundTrip(|s.displayName|, b[..2]);
  }

  function ListParams(xs: seq<PresenceSnapshot>): Result<seq<Param>, TransactionError> {
    if xs == [] then Ok([])
    else
      var init :- ListParams(xs[..|xs| - 1]);
      var b :- ListEntry(xs[|xs| - 1]);
      Ok(init + [Param(UserNameWithInfo, b)])
  }

  /** The payload of the user list reply. */
  function ListPayload(xs: seq<PresenceSnapshot>): Result<bytes, TransactionError> {
    var ps :- ListParams(xs);
    BlockOf(ps)
  }

  /** The list a client builds from the entries it can read. */
  function ListedUsers(ps: seq<Param>): map<int, Entry> {
    if ps == [] then map[]
    else
      var last := ps[|ps| - 1];
      var init := ListedUsers(ps[..|ps| - 1]);
      match UserIn(last.value)
      case Some((id, e)) => if last.field == UserNameWithInfo then init[id := e] else init
      case None => init
  }

  lemma {:induction false} ListParamsAre(xs: seq<PresenceSnapshot>)
    requires forall i :: 0 <= i < |xs| ==> IsPresenceId(xs[i].userId)
    ensures ListParams(xs).Ok? <==> forall i :: 0 <= i < |xs| ==> |xs[i].displayName| < 0x1_0000
    ensures ListParams(xs).Ok? ==>
              |ListParams(xs).value| == |xs|
              && forall i :: 0 <= i < |xs| ==>
                   ListEntry(xs[i]).Ok?
                   && ListParams(xs).value[i] == Param(UserNameWithInfo, ListEntry(xs[i]).value)
    decreases |xs|
  {
    hide ListEntry;
    if xs != [] {
      var init := xs[..|xs| - 1];
      ListParamsAre(init);
      assert forall i :: 0 <= i < |init| ==> xs[i] == init[i];
      EntryEncodes(xs[|xs| - 1]);
      forall i | 0 <= i < |xs| ensures IsPresenceId(xs[i].userId) {}
    }
  }

  lemma EntryEncodes(s: PresenceSnapshot)
    requires IsPresenceId(s.userId)
    ensures ListEntry(s).Ok? <==> |s.displayName| < 0x1_0000
  {
  }

  lemma {:induction false} AscendingBound(xs: seq<PresenceSnapshot>, i: nat)
    requires i < |xs| && IsPresenceId(xs[0].userId)
    requires forall a, b :: 0 <= a < b < |xs| ==> xs[a].userId < xs[b].userId
    ensures xs[i].userId >= i + 1
  {
    if i > 0 {
      AscendingBound(xs, i - 1);
    }
  }

  lemma OnlineEntries(r: Registry)
    requires Consistent(r)
    ensures var xs := OnlineSnapshots(r);
            |xs| <= ID_COUNT
            && (forall i :: 0 <= i < |xs| ==>
                  IsPresenceId(xs[i].userId) && xs[i].connectionId in r.snapshots
                  && xs[i] == r.snapshots[xs[i].connectionId])
            && (forall c :: c in r.snapshots ==> exists i :: 0 <= i < |xs| && xs[i] == r.snapshots[c])
            && (forall i, j :: 0 <= i < j < |xs| ==> xs[i].userId < xs[j].userId)
  {
    hide OnlineSnapshots;
    var xs := OnlineSnapshots(r);
    OnlineStrictlyAscending(r);
    forall i | 0 <= i < |xs|
      ensures IsPresenceId(xs[i].userId) && xs[i].connectionId in r.snapshots
              && xs[i] == r.snapshots[xs[i].connectionId]
    {
      assert xs[i] in xs;
    }
    if xs != [] {
      AscendingBound(xs, |xs| - 1);
    }
    forall c | c in r.snapshots ensures exists i :: 0 <= i < |xs| && xs[i] == r.snapshots[c] {
      assert r.snapshots[c] in xs;
    }
  }

  lemma ListFits(xs: seq<PresenceSnapshot>)
    requires |xs| <= ID_COUNT && forall i :: 0 <= i < |xs| ==> IsPresenceId(xs[i].userId)
    ensures ListPayload(xs).Ok? <==> forall i :: 0 <= i < |xs| ==> |xs[i].displayName| <= 65527
  {
    hide ListEntry;
    ListParamsAre(xs);
    if ListParams(xs).Ok? {
      var ps := ListParams(xs).value;
      forall i | 0 <= i < |xs| ensures |ps[i].value| == 8 + |xs[i].displayName| && ps[i] in ps {
        ListEntryRead(xs[i]);
      }
    }
  }

  lemma ListPayloadIff(r: Registry)
    requires Consistent(r)
    ensures ListPayload(OnlineSnapshots(r)).Ok? <==> NamesFit(r)
  {
    hide OnlineSnapshots, ListPayload;
    OnlineEntries(r);
    ListFits(OnlineSnapshots(r));
  }

  /** A list of users that holds exactly the registered ones. */
  ghost predicate Lists(users: map<int, Entry>, r: Registry) {
    (forall c :: c in r.snapshots ==>
       r.snapshots[c].userId as int in users
       && users[r.snapshots[c].userId as int] == EntryOf(r.snapshots[c]))
    && (forall id :: id in users ==> exists c :: c in r.snapshots && r.snapshots[c].userId == id)
  }

  /** A client that reads the list reply knows exactly the registered users. */
  lemma ListIsRead(r: Registry, payload: bytes)
    requires Consistent(r) && ListPayload(OnlineSnapshots(r)) == Ok(payload)
    ensures ParamsOf(payload).Ok?
    ensures Lists(ListedUsers(ParamsOf(payload).value), r)
  {
    hide OnlineSnapshots, ListedUsers, ListEntry, ParamsOf, ListParams, BlockOf, Consistent, Lists, OnList, HasId;
    var xs := OnlineSnapshots(r);
    OnlineEntries(r);
    ListParamsAre(xs);
    var ps := ListParams(xs).value;
    ListDecodes(ps);
    ListedAre(xs, ps);
    IndexedLists(ListedUsers(ps), xs, r);
  }

  lemma IndexedLists(users: map<int, Entry>, xs: seq<PresenceSnapshot>, r: Registry)
    requires forall i :: 0 <= i < |xs| ==>
               xs[i].connectionId in r.snapshots && xs[i] == r.snapshots[xs[i].connectionId]
    requires forall c :: c in r.snapshots ==> exists i :: 0 <= i < |xs| && xs[i] == r.snapshots[c]
    requires forall i :: 0 <= i < |xs| ==> OnList(users, xs[i])
    requires forall id :: id in users ==> HasId(xs, id)
    ensures Lists(users, r)
  {
    forall c | c in r.snapshots
      ensures r.snapshots[c].userId as int in users
              && users[r.snapshots[c].userId as int] == EntryOf(r.snapshots[c])
    {
      var i :| 0 <= i < |xs| && xs[i] == r.snapshots[c];
      assert OnList(users, xs[i]);
    }
    forall id | id in users ensures exists c :: c in r.snapshots && r.snapshots[c].userId == id {
      assert HasId(xs, id);
      var i :| 0 <= i < |xs| && xs[i].userId == id;
      assert xs[i].connectionId in r.snapshots;
    }
  }

  lemma ListDecodes(ps: seq<Param>)
    requires BlockOf(ps).Ok? && forall i :: 0 <= i < |ps| ==> ps[i].field == UserNameWithInfo
    ensures ParamsOf(BlockOf(ps).value) == Ok(ps)
  {
    hide ParamsOf, BlockOf;
    EncodeThenDecode(ps);
  }

  lemma ListedStep(ps: seq<Param>, s: PresenceSnapshot)
    requires ps != [] && ListEntry(s).Ok?
    requires ps[|ps| - 1] == Param(UserNameWithInfo, ListEntry(s).value)
    ensures ListedUsers(ps) == ListedUsers(ps[..|ps| - 1])[s.userId as int := EntryOf(s)]
  {
    hide ListEntry, UserIn;
    ListEntryRead(s);
  }

  /** Entry `i` is on the list a client builds from `ps`. */
  predicate OnList(users: map<int, Entry>, s: PresenceSnapshot) {
    s.userId as int in users && users[s.userId as int] == EntryOf(s)
  }

  ghost predicate HasId(xs: seq<PresenceSnapshot>, id: int) {
    exists i :: 0 <= i < |xs| && xs[i].userId == id
  }

  lemma ListGrows(users: map<int, Entry>, xs: seq<PresenceSnapshot>, n: nat)
    requires n + 1 == |xs|
    requires forall a, b :: 0 <= a < b < |xs| ==> xs[a].userId < xs[b].userId
    requires forall i :: 0 <= i < n ==> OnList(users, xs[i])
    requires forall id :: id in users ==> HasId(xs[..n], id)
    ensures var users' := users[xs[n].userId as int := EntryOf(xs[n])];
            (forall i :: 0 <= i < |xs| ==> OnList(users', xs[i]))
            && (forall id :: id in users' ==> HasId(xs, id))
  {
    var users' := users[xs[n].userId as int := EntryOf(xs[n])];
    forall id | id in users' ensures HasId(xs, id) {
      if id in users {
        var i :| 0 <= i < n && xs[..n][i].userId == id;
        assert xs[i].userId == id;
      } else {
        assert xs[n].userId == id;
      }
    }
  }

  lemma {:induction false} ListedAre(xs: seq<PresenceSnapshot>, ps: seq<Param>)
    requires |ps| == |xs|
    requires forall i :: 0 <= i < |xs| ==>
               ListEntry(xs[i]).Ok? && ps[i] == Param(UserNameWithInfo, ListEntry(xs[i]).value)
    requires forall a, b :: 0 <= a < b < |xs| ==> xs[a].userId < xs[b].userId
    ensures forall i :: 0 <= i < |xs| ==> OnList(ListedUsers(ps), xs[i])
    ensures forall id :: id in ListedUsers(ps) ==> HasId(xs, id)
    decreases |xs|
  {
    hide ListEntry, ListedUsers, OnList, HasId;
    if xs == [] {
      ListedNobody();
    } else {
      var n := |xs| - 1;
      var xs', ps' := xs[..n], ps[..n];
      ListedAre(xs', ps');
      forall i | 0 <= i < n ensures OnList(ListedUsers(ps'), xs[i]) {
        assert xs'[i] == xs[i];
      }
      ListedStep(ps, xs[n]);
      ListGrows(ListedUsers(ps'), xs, n);
    }
  }

  lemma ListedNobody()
    ensures ListedUsers([]) == map[]
  {
  }

  // ------------------------------------------------------------- the list reply

  /** A reply header mirrors its request; a length beyond 32 bits stops the program. */
  function ReplyHeader(req: FrameHeader, error: u32, payloadLen: nat): Option<FrameHeader> {
    if payloadLen < 0x1_0000_0000
    then Some(FrameHeader(0, 1, req.ty, req.id, error, payloadLen, payloadLen))
    else None
  }

  datatype Reply = Built(tx: Transaction) | Refused(error: TransactionError) | Panicked

  function UserNameListReply(req: FrameHeader, xs: seq<PresenceSnapshot>): Reply {
    match ListPayload(xs)
    case Err(e) => Refused(e)
    case Ok(payload) =>
      match ReplyHeader(req, 0, |payload|)
      case Some(h) => Built(Transaction(h, payload))
      case None => Panicked
  }

  /** The reply on the wire, if it gets there. */
  function ListSent(enabled: bool, req: FrameHeader, r: Registry): Option<bytes>
    requires Consistent(r)
  {
    match UserNameListReply(req, OnlineSnapshots(r))
    case Built(tx) => if SentOut(enabled, tx).Ok? then Some(SentOut(enabled, tx).value) else None
    case _ => None
  }

  /** Every name leaves room for the eight packed bytes of its entry. */
  predicate NamesFit(r: Registry) {
    forall c :: c in r.snapshots ==> |r.snapshots[c].displayName| <= 65527
  }

  /** Every name's length can be written in its entry at all. */
  predicate NamesCounted(r: Registry) {
    forall c :: c in r.snapshots ==> |r.snapshots[c].displayName| <= 65535
  }

  lemma RefusedBecause(r: Registry)
    requires Consistent(r) && ListPayload(OnlineSnapshots(r)).Err?
    ensures ListPayload(OnlineSnapshots(r))
            == Err(if NamesCounted(r) then PayloadTooLarge else InvalidParamValue(UserNameWithInfo))
  {
    hide OnlineSnapshots, BlockOf, ListEntry;
    var xs := OnlineSnapshots(r);
    OnlineEntries(r);
    ListParamsAre(xs);
    BlockRefuses();
    if ListParams(xs).Err? {
      ListParamsError(xs);
      var i :| 0 <= i < |xs| && |xs[i].displayName| >= 0x1_0000;
      assert xs[i].connectionId in r.snapshots;
    }
  }

  lemma BlockRefuses()
    ensures forall ps: seq<Param> :: BlockOf(ps).Err? ==> BlockOf(ps) == Err(PayloadTooLarge)
  {
  }

  lemma {:induction false} ListParamsError(xs: seq<PresenceSnapshot>)
    requires ListParams(xs).Err?
    ensures ListParams(xs) == Err(InvalidParamValue(UserNameWithInfo))
    decreases |xs|
  {
    if xs != [] && ListParams(xs[..|xs| - 1]).Err? {
      ListParamsError(xs[..|xs| - 1]);
    }
  }

  function EntriesSize(xs: seq<PresenceSnapshot>): nat {
    if xs == [] then 0 else 12 + |xs[0].displayName| + EntriesSize(xs[1..])
  }

  /** The bytes the list takes: a count, then twelve and the name for every user. */
  function ListSize(r: Registry): nat
    requires Consistent(r)
  {
    2 + EntriesSize(OnlineSnapshots(r))
  }

  lemma {:induction false} EntriesLength(xs: seq<PresenceSnapshot>, ps: seq<Param>)
    requires Fits(ps) && |ps| == |xs|
    requires forall i :: 0 <= i < |xs| ==> |ps[i].value| == 8 + |xs[i].displayName|
    ensures |EntriesBytes(ps)| == EntriesSize(xs)
    decreases |xs|
  {
    if xs != [] {
      EntriesLength(xs[1..], ps[1..]);
    }
  }

  lemma ListLength(r: Registry)
    requires Consistent(r) && ListPayload(OnlineSnapshots(r)).Ok?
    ensures |ListPayload(OnlineSnapshots(r)).value| == ListSize(r)
  {
    hide OnlineSnapshots, ListEntry;
    var xs := OnlineSnapshots(r);
    OnlineEntries(r);
    ListParamsAre(xs);
    var ps := ListParams(xs).value;
    forall i | 0 <= i < |xs| ensures |ps[i].value| == 8 + |xs[i].displayName| {
      ListEntryRead(xs[i]);
    }
    EntriesLength(xs, ps);
  }

  /** The reply is built, refused or beyond its header, and which of them depends on the names
      and their total alone. */
  lemma ListBuiltIff(r: Registry, req: FrameHeader)
    requires Consistent(r)
    ensures var reply := UserNameListReply(req, OnlineSnapshots(r));
            (reply.Refused? <==> !NamesFit(r))
            && (reply.Refused? ==>
                  reply.error == if NamesCounted(r) then PayloadTooLarge else InvalidParamValue(UserNameWithInfo))
            && (reply.Panicked? <==> NamesFit(r) && ListSize(r) >= 0x1_0000_0000)
            && (reply.Built? ==>
                  |reply.tx.payload| == ListSize(r) && ListPayload(OnlineSnapshots(r)) == Ok(reply.tx.payload))
  {
    hide OnlineSnapshots, ListPayload, NamesFit, NamesCounted, ListSize;
    ListPayloadIff(r);
    if ListPayload(OnlineSnapshots(r)).Ok? {
      ListLength(r);
    } else {
      RefusedBecause(r);
    }
  }

  /** The user list reaches a client exactly when every name fits its entry and all entries
      together fit one transaction. */
  lemma ListSentIff(r: Registry, req: FrameHeader, enabled: bool)
    requires Consistent(r) && req.ty == USER_NAME_LIST_ID
    ensures ListSent(enabled, req, r).Some? <==> NamesFit(r) && ListSize(r) <= MAX_PAYLOAD_SIZE
  {
    hide OnlineSnapshots, ListPayload, NamesFit, ListSize, SentOut, Validated, ParamsOf, ListedUsers, Lists;
    ListBuiltIff(r, req);
    var reply := UserNameListReply(req, OnlineSnapshots(r));
    if reply.Built? {
      ListIsRead(r, reply.tx.payload);
      DecodableValidates(reply.tx.header, reply.tx.payload);
      SentIsRead(enabled, reply.tx);
    }
  }

  /** The users a client knows from what it read off the wire. */
  function ClientList(enabled: bool, wire: bytes): map<int, Entry> {
    match ClientReads(enabled, wire)
    case Err(_) => map[]
    case Ok(tx) =>
      match ParamsOf(tx.payload)
      case Err(_) => map[]
      case Ok(ps) => ListedUsers(ps)
  }

  /** A client that receives the reply knows exactly the registered users. */
  lemma ListArrives(r: Registry, req: FrameHeader, enabled: bool, wire: bytes)
    requires Consistent(r) && ListSent(enabled, req, r) == Some(wire)
    ensures ClientReads(enabled, wire).Ok? && Lists(ClientList(enabled, wire), r)
    ensures var h := ClientReads(enabled, wire).value.header;
            h == FrameHeader(0, 1, req.ty, req.id, 0, h.totalSize, h.totalSize) && h.totalSize == ListSize(r)
  {
    hide OnlineSnapshots, ListPayload, SentOut, ClientReads, Validated, ParamsOf, ListedUsers, Lists;
    var tx := UserNameListReply(req, OnlineSnapshots(r)).tx;
    SentIsRead(enabled, tx);
    ListIsRead(r, tx.payload);
    ListLength(r);
  }

  /** The packed entry of a user, byte by byte. */
  function EntryInBytes(id: u16, icon: u16, flags: u16, name: bytes): bytes
    requires |name| < 0x1_0000
  {
    [id / 0x100, id % 0x100, icon / 0x100, icon % 0x100, flags / 0x100, flags % 0x100,
     |name| / 0x100, |name| % 0x100] + name
  }

  /** The list payload in codes: one entry under 300 for every user, in order. */
  lemma ListInCodes(xs: seq<PresenceSnapshot>, es: seq<WireEntry>)
    requires ListPayload(xs).Ok? && |es| == |xs|
    requires forall i :: 0 <= i < |xs| ==>
               IsPresenceId(xs[i].userId) && |xs[i].displayName| < 0x1_0000
               && es[i] == WireEntry(300, EntryInBytes(xs[i].userId, xs[i].iconId, xs[i].statusFlags,
                                                       xs[i].displayName))
    ensures Encodable(es) && ListPayload(xs).value == BlockWire(es)
  {
    hide BlockWire, EntriesBytes, EntryInBytes, ListEntry;
    ListParamsAre(xs);
    var ps := ListParams(xs).value;
    forall i | 0 <= i < |xs| ensures ps[i] == Named(es)[i] && |es[i].value| < 0x1_0000 {
      EntryIs(xs[i]);
      assert ps[i] in ps;
    }
    assert ps == Named(es);
    BlockWireIs(es);
  }

  lemma EntryIs(s: PresenceSnapshot)
    requires ListEntry(s).Ok?
    ensures |s.displayName| < 0x1_0000 && 0 <= s.userId < 0x1_0000
    ensures ListEntry(s).value == EntryInBytes(s.userId, s.iconId, s.statusFlags, s.displayName)
    ensures FieldOf(300) == UserNameWithInfo
  {
  }

  // --------------------------------------------------------------- notices

  function ServerNotification(ty: u16, payload: bytes): Transaction {
    var len := if |payload| < 0x1_0000_0000 then |payload| else 0xFFFF_FFFF;
    Transaction(FrameHeader(0, 0, ty, 0, 0, len, len), payload)
  }

  function ChangeFields(s: PresenceSnapshot): seq<Param> {
    [Param(UserId, I32Bytes(s.userId)), Param(IconId, U16Bytes(s.iconId)),
     Param(UserFlags, U16Bytes(s.statusFlags)), Param(Name, s.displayName)]
  }

  function NotifyChange(s: PresenceSnapshot): Result<Transaction, TransactionError> {
    var payload :- BlockOf(ChangeFields(s));
    Ok(ServerNotification(NOTIFY_CHANGE_USER_ID, payload))
  }

  function NotifyDelete(userId: i32): Result<Transaction, TransactionError> {
    var payload :- BlockOf([Param(UserId, I32Bytes(userId))]);
    Ok(ServerNotification(NOTIFY_DELETE_USER_ID, payload))
  }

  /** How a client changes its list on a server notice; anything else leaves it alone. */
  function Noticed(users: map<int, Entry>, tx: Transaction): map<int, Entry> {
    match ParamsOf(tx.payload)
    case Err(_) => users
    case Ok(ps) =>
      if tx.header.ty == NOTIFY_CHANGE_USER_ID && |ps| == 4
         && ps[0].field == UserId && |ps[0].value| == 4
         && ps[1].field == IconId && |ps[1].value| == 2
         && ps[2].field == UserFlags && |ps[2].value| == 2 && ps[3].field == Name
      then users[I32Of(ps[0].value) as int := Entry(U16Of(ps[1].value), U16Of(ps[2].value), ps[3].value)]
      else if tx.header.ty == NOTIFY_DELETE_USER_ID && |ps| == 1
              && ps[0].field == UserId && |ps[0].value| == 4
      then users - {I32Of(ps[0].value) as int}
      else users
  }

  lemma ChangeIsNoticed(users: map<int, Entry>, s: PresenceSnapshot)
    ensures NotifyChange(s).Ok? <==> |s.displayName| < 0x1_0000
    ensures NotifyChange(s).Ok? ==>
              Noticed(users, NotifyChange(s).value) == users[s.userId as int := EntryOf(s)]
  {
    hide I32Bytes, I32Of, U16Bytes, U16Of, EntriesBytes, ParamsOf;
    var ps := ChangeFields(s);
    assert Fits(ps) <==> |s.displayName| < 0x1_0000 by {
      assert ps[3] in ps;
    }
    if NotifyChange(s).Ok? {
      ChangeDecodes(s);
      I32RoundTrip(s.userId);
      U16RoundTrip(s.iconId, U16Bytes(0));
      U16RoundTrip(s.statusFlags, U16Bytes(0));
    }
  }

  lemma ChangeDecodes(s: PresenceSnapshot)
    requires BlockOf(ChangeFields(s)).Ok?
    ensures ParamsOf(BlockOf(ChangeFields(s)).value) == Ok(ChangeFields(s))
  {
    hide ParamsOf, BlockOf, NoRepeats, CodeOf, FieldOf, I32Bytes, U16Bytes;
    var ps := ChangeFields(s);
    assert |ps| == 4 && ps[0].field == UserId && ps[1].field == IconId
           && ps[2].field == UserFlags && ps[3].field == Name;
    DistinctNoRepeats(ps, true);
    EncodeThenDecode(ps);
  }

  lemma DeleteIsNoticed(users: map<int, Entry>, userId: i32)
    ensures NotifyDelete(userId).Ok?
    ensures Noticed(users, NotifyDelete(userId).value) == users - {userId as int}
  {
    hide I32Bytes, I32Of, EntriesBytes, ParamsOf;
    var ps := [Param(UserId, I32Bytes(userId))];
    EncodeThenDecode(ps);
    I32RoundTrip(userId);
  }

  /** Every notice is a valid unfragmented transaction: what is pushed parses back to it. */
  lemma NoticesParse(s: PresenceSnapshot, userId: i32)
    ensures NotifyChange(s).Ok? ==> ParsedTransaction(ToBytes(NotifyChange(s).value)) == NotifyChange(s)
    ensures ParsedTransaction(ToBytes(NotifyDelete(userId).value)) == NotifyDelete(userId)
  {
    hide ParsedTransaction, ToBytes, ParamsOf, I32Bytes, U16Bytes;
    if NotifyChange(s).Ok? {
      ChangeDecodes(s);
      var ps := ChangeFields(s);
      ChangeLength(s);
      NoticeParses(NOTIFY_CHANGE_USER_ID, BlockOf(ps).value, ps);
    }
    DeleteIsNoticed(map[], userId);
    var ps := [Param(UserId, I32Bytes(userId))];
    EncodeThenDecode(ps);
    assert |EntriesBytes(ps)| == |EntryBytes(ps[0])| + |EntriesBytes([])|;
    NoticeParses(NOTIFY_DELETE_USER_ID, BlockOf(ps).value, ps);
  }

  lemma ChangeLength(s: PresenceSnapshot)
    requires BlockOf(ChangeFields(s)).Ok?
    ensures |BlockOf(ChangeFields(s)).value| == 26 + |s.displayName|
    ensures |s.displayName| < 0x1_0000
  {
    hide I32Bytes, U16Bytes;
    var ps := ChangeFields(s);
    assert ps[3] in ps;
    assert ps[1..][1..] == ps[2..] && ps[2..][1..] == ps[3..];
    assert |EntriesBytes(ps[3..])| == 4 + |s.displayName|;
    assert |EntriesBytes(ps[2..])| == 6 + |EntriesBytes(ps[3..])|;
    assert |EntriesBytes(ps[1..])| == 6 + |EntriesBytes(ps[2..])|;
  }

  lemma NoticeParses(ty: u16, payload: bytes, ps: seq<Param>)
    requires |payload| <= MAX_PAYLOAD_SIZE && ParamsOf(payload) == Ok(ps)
    requires ty == NOTIFY_CHANGE_USER_ID || ty == NOTIFY_DELETE_USER_ID
    requires forall i :: 0 <= i < |ps| ==> ps[i].field != UserNameWithInfo
    ensures var tx := ServerNotification(ty, payload); ParsedTransaction(ToBytes(tx)) == Ok(tx)
  {
    hide ParsedTransaction, ToBytes, ParamsOf, Validated;
    var tx := ServerNotification(ty, payload);
    DecodableValidates(tx.header, payload);
    ParseInvertsToBytes(tx, []);
  }

  /** Every notice that is pushed reaches the client as it is, in either XOR mode. */
  lemma NoticesArrive(enabled: bool, s: PresenceSnapshot, userId: i32)
    ensures NotifyChange(s).Ok? ==>
              SentOut(enabled, NotifyChange(s).value).Ok?
              && ClientReads(enabled, SentOut(enabled, NotifyChange(s).value).value) == NotifyChange(s)
    ensures NotifyDelete(userId).Ok?
            && SentOut(enabled, NotifyDelete(userId).value).Ok?
            && ClientReads(enabled, SentOut(enabled, NotifyDelete(userId).value).value) == NotifyDelete(userId)
  {
    hide ParsedTransaction, ToBytes, SentOut, ClientReads, Validated;
    NoticesParse(s, userId);
    if NotifyChange(s).Ok? {
      var tx := NotifyChange(s).value;
      ParseInvertsToBytes(tx, []);
      SentIsRead(enabled, tx);
    }
    DeleteIsNoticed(map[], userId);
    var tx := NotifyDelete(userId).value;
    ParseInvertsToBytes(tx, []);
    SentIsRead(enabled, tx);
  }

  /** The notices in numbers: types 301 and 302, codes 103, 104, 112 and 102. */
  lemma NoticesInCodes(s: PresenceSnapshot, userId: i32)
    ensures NotifyChange(s).Ok? ==>
              var es := [WireEntry(103, I32Bytes(s.userId)), WireEntry(104, U16Bytes(s.iconId)),
                         WireEntry(112, U16Bytes(s.statusFlags)), WireEntry(102, s.displayName)];
              var n := 26 + |s.displayName|;
              Encodable(es) && n < 0x1_0000_0000
              && NotifyChange(s) == Ok(Transaction(FrameHeader(0, 0, 301, 0, 0, n, n), BlockWire(es)))
    ensures var es := [WireEntry(103, I32Bytes(userId))];
            Encodable(es)
            && NotifyDelete(userId) == Ok(Transaction(FrameHeader(0, 0, 302, 0, 0, 10, 10), BlockWire(es)))
  {
    hide I32Bytes, U16Bytes, BlockWire, EntriesBytes;
    if NotifyChange(s).Ok? {
      ChangeLength(s);
      var es := [WireEntry(103, I32Bytes(s.userId)), WireEntry(104, U16Bytes(s.iconId)),
                 WireEntry(112, U16Bytes(s.statusFlags)), WireEntry(102, s.displayName)];
      assert Named(es) == ChangeFields(s);
      BlockWireIs(es);
    }
    var es := [WireEntry(103, I32Bytes(userId))];
    assert Named(es) == [Param(UserId, I32Bytes(userId))];
    BlockWireIs(es);
    DeleteLength(userId);
  }

  lemma DeleteLength(userId: i32)
    ensures BlockOf([Param(UserId, I32Bytes(userId))]).Ok?
    ensures |BlockOf([Param(UserId, I32Bytes(userId))]).value| == 10
  {
    hide I32Bytes;
    var ps := [Param(UserId, I32Bytes(userId))];
    assert ps[1..] == [];
    assert EntriesBytes(ps) == EntryBytes(ps[0]) + [];
  }

  /** Ids and sizes on the wire are big-endian, a negative id in two's complement. */
  lemma I32InBytes(v: i32)
    ensures BigEndian(I32Bytes(v)) == if v < 0 then v + 0x1_0000_0000 else v
  {
    hide U32Bytes, U32Of;
    var u := if v < 0 then v + 0x1_0000_0000 else v;
    U32RoundTrip(u, I32Bytes(v));
    ReadBigEndian(I32Bytes(v));
  }
}
