/** Runs of the presence registry and the user list every registered peer keeps of it. */
module Replica {
  import opened Allocator
  import opened Bytes
  import opened Headers
  import opened Pipeline
  import opened Presence
  import opened PresenceWire
  import opened Readers

  /** A connection publishes its snapshot, or goes away. */
  datatype PresenceOp = Publish(snapshot: PresenceSnapshot) | Disconnect(connection: u64)

  /** The registry after a step, and the notice sent with its targets. */
  datatype Outcome = Outcome(registry: Registry, targets: seq<u64>, notice: Option<Transaction>)

  function Published(r: Registry, s: PresenceSnapshot): Outcome {
    if NotifyChange(s).Err? then Outcome(r, [], None)
    else
      var (up, r') := Upserted(r, s);
      if up.Err? then Outcome(r', [], None)
      else match NotifyChange(up.value.snapshot)
           case Ok(tx) => Outcome(r', up.value.peerIds, Some(tx))
           case Err(_) => Outcome(r', [], None)
  }

  function Disconnected(r: Registry, connection: u64): Outcome {
    var (removal, r') := Removed(r, connection);
    if removal.None? then Outcome(r', [], None)
    else match NotifyDelete(removal.value.departed.userId)
         case Ok(tx) => Outcome(r', removal.value.remainingPeerIds, Some(tx))
         case Err(_) => Outcome(r', [], None)
  }

  function Step(r: Registry, op: PresenceOp): Outcome {
    match op
    case Publish(s) => Published(r, s)
    case Disconnect(c) => Disconnected(r, c)
  }

  /** What peer `p` makes of one step: it sees the notice only when it is a target. */
  function Received(p: u64, users: map<int, Entry>, o: Outcome): map<int, Entry> {
    if p in o.targets && o.notice.Some? then Noticed(users, o.notice.value) else users
  }

  function RunReplica(p: u64, users: map<int, Entry>, r: Registry, ops: seq<PresenceOp>): map<int, Entry>
    decreases |ops|
  {
    if ops == [] then users
    else
      var o := Step(r, ops[0]);
      RunReplica(p, Received(p, users, o), o.registry, ops[1..])
  }

  // --------------------------------------------------------- registry invariant

  lemma StepKeeps(r: Registry, op: PresenceOp, c: u64)
    requires Consistent(r)
    ensures Consistent(Step(r, op).registry)
    ensures c in r.snapshots && op != Disconnect(c) ==>
              c in Step(r, op).registry.snapshots
              && Step(r, op).registry.snapshots[c].userId == r.snapshots[c].userId
  {
    hide Upserted, Removed, NotifyChange, NotifyDelete, Consistent;
    match op
    case Publish(s) =>
      if Upserted(r, s).0.Ok? { UpsertKeeps(r, s); } else { UpsertFailsIff(r, s); }
    case Disconnect(d) =>
      RemoveKeeps(r, d);
      RemovedIs(r, d);
  }

  lemma RemovedIs(r: Registry, d: u64)
    ensures Removed(r, d).0.None? <==> d !in r.snapshots
    ensures d in r.snapshots ==> Removed(r, d).0.value.departed == r.snapshots[d]
    ensures d !in r.snapshots ==> Removed(r, d).1 == r
  {
    hide PeerIds;
  }

  /** The registry after a run; every reachable registry is consistent. */
  function RunRegistry(r: Registry, ops: seq<PresenceOp>): (r': Registry)
    requires Consistent(r)
    ensures Consistent(r')
    decreases |ops|
  {
    if ops == [] then r
    else
      StepKeeps(r, ops[0], 0);
      RunRegistry(Step(r, ops[0]).registry, ops[1..])
  }

  /** A connection that stays registered keeps its id through any run. */
  lemma {:induction false} RunKeepsId(r: Registry, ops: seq<PresenceOp>, c: u64)
    requires Consistent(r) && c in r.snapshots && Disconnect(c) !in ops
    ensures c in RunRegistry(r, ops).snapshots
    ensures RunRegistry(r, ops).snapshots[c].userId == r.snapshots[c].userId
    decreases |ops|
  {
    hide Step, Consistent;
    if ops != [] {
      StepKeeps(r, ops[0], c);
      RunKeepsId(Step(r, ops[0]).registry, ops[1..], c);
    }
  }

  // --------------------------------------------------------- replica consistency

  /** Apart from `p`'s own id, `users` holds exactly the registry's entries of the others. */
  ghost predicate Mirrors(users: map<int, Entry>, r: Registry, p: u64)
    requires p in r.snapshots
  {
    (forall c :: c in r.snapshots && c != p ==>
       r.snapshots[c].userId as int in users
       && users[r.snapshots[c].userId as int] == EntryOf(r.snapshots[c]))
    && (forall id :: id in users && id != r.snapshots[p].userId ==>
          exists c :: c in r.snapshots && c != p && r.snapshots[c].userId == id)
  }

  /** A freshly read list mirrors the registry it was made from. */
  lemma ListMirrors(users: map<int, Entry>, r: Registry, p: u64)
    requires p in r.snapshots
    requires Lists(users, r)
    ensures Mirrors(users, r, p)
  {
  }

  lemma PublishMirrored(p: u64, users: map<int, Entry>, r: Registry, s: PresenceSnapshot)
    requires Consistent(r) && p in r.snapshots && Mirrors(users, r, p)
    ensures var o := Published(r, s);
            p in o.registry.snapshots && Mirrors(Received(p, users, o), o.registry, p)
  {
    hide Upserted, NotifyChange, Noticed;
    ChangeIsNoticed(users, s);
    if NotifyChange(s).Ok? {
      if Upserted(r, s).0.Err? {
        UpsertFailsIff(r, s);
      } else {
        var up, r' := Upserted(r, s).0.value, Upserted(r, s).1;
        UpsertKeeps(r, s);
        UpsertPeers(r, s, p);
        ChangeIsNoticed(users, up.snapshot);
        var users' := users[up.snapshot.userId as int := EntryOf(up.snapshot)];
        assert Received(p, users, Published(r, s)) == if s.connectionId == p then users else users';
        ChangeMirrored(p, users, r, r', up.snapshot);
      }
    }
  }

  lemma UpsertPeers(r: Registry, s: PresenceSnapshot, p: u64)
    requires Consistent(r) && p in r.snapshots && Upserted(r, s).0.Ok?
    ensures p in Upserted(r, s).0.value.peerIds <==> s.connectionId != p
  {
    hide Search, SortedIds;
    UpsertKeeps(r, s);
    PeersAre(Upserted(r, s).1, Some(s.connectionId), p);
  }

  lemma ChangeMirrored(p: u64, users: map<int, Entry>, r: Registry, r': Registry, s: PresenceSnapshot)
    requires Consistent(r) && Consistent(r') && p in r.snapshots && Mirrors(users, r, p)
    requires r'.snapshots == r.snapshots[s.connectionId := s]
    requires s.connectionId in r.snapshots ==> r.snapshots[s.connectionId].userId == s.userId
    ensures s.connectionId == p ==> Mirrors(users, r', p)
    ensures s.connectionId != p ==> Mirrors(users[s.userId as int := EntryOf(s)], r', p)
  {
    var c := s.connectionId;
    var users' := if c == p then users else users[s.userId as int := EntryOf(s)];
    forall d | d in r'.snapshots && d != p
      ensures r'.snapshots[d].userId as int in users'
              && users'[r'.snapshots[d].userId as int] == EntryOf(r'.snapshots[d])
    {
      if d != c {
        assert r'.snapshots[d] == r.snapshots[d];
        assert r'.snapshots[d].userId != r'.snapshots[c].userId;
      }
    }
    forall id | id in users' && id != r'.snapshots[p].userId
      ensures exists d :: d in r'.snapshots && d != p && r'.snapshots[d].userId == id
    {
      if c != p && id == s.userId {
        assert r'.snapshots[c].userId == id;
      } else {
        assert r'.snapshots[p].userId == r.snapshots[p].userId;
        var d :| d in r.snapshots && d != p && r.snapshots[d].userId == id;
        assert r'.snapshots[d].userId == id;
      }
    }
  }

  lemma DisconnectMirrored(p: u64, users: map<int, Entry>, r: Registry, d: u64)
    requires Consistent(r) && p in r.snapshots && Mirrors(users, r, p) && d != p
    ensures var o := Disconnected(r, d);
            p in o.registry.snapshots && Mirrors(Received(p, users, o), o.registry, p)
  {
    hide Removed, NotifyDelete, Noticed;
    RemovedIs(r, d);
    if d in r.snapshots {
      var r' := Removed(r, d).1;
      RemoveKeeps(r, d);
      RemovePeers(r, d, p);
      var gone := r.snapshots[d].userId;
      DeleteIsNoticed(users, gone);
      var users' := users - {gone as int};
      assert Received(p, users, Disconnected(r, d)) == users';
      forall id | id in users' && id != r'.snapshots[p].userId
        ensures exists c :: c in r'.snapshots && c != p && r'.snapshots[c].userId == id
      {
        var c :| c in r.snapshots && c != p && r.snapshots[c].userId == id;
        assert r'.snapshots[c].userId == id;
      }
    }
  }

  lemma RemovePeers(r: Registry, d: u64, p: u64)
    requires Consistent(r) && p in r.snapshots && d in r.snapshots && d != p
    ensures p in Removed(r, d).0.value.remainingPeerIds
  {
    hide SortedIds;
    RemoveKeeps(r, d);
    PeersAre(Removed(r, d).1, None, p);
  }

  /** A mirrored list stays a mirror through any run in which its owner stays connected. */
  lemma {:induction false} ReplicaFollows(p: u64, users: map<int, Entry>, r: Registry, ops: seq<PresenceOp>)
    requires Consistent(r) && p in r.snapshots && Mirrors(users, r, p) && Disconnect(p) !in ops
    ensures p in RunRegistry(r, ops).snapshots
    ensures Mirrors(RunReplica(p, users, r, ops), RunRegistry(r, ops), p)
    decreases |ops|
  {
    hide Published, Disconnected, Received, Consistent, Mirrors;
    if ops != [] {
      var o := Step(r, ops[0]);
      StepKeeps(r, ops[0], p);
      match ops[0] {
        case Publish(s) => PublishMirrored(p, users, r, s);
        case Disconnect(d) => DisconnectMirrored(p, users, r, d);
      }
      ReplicaFollows(p, Received(p, users, o), o.registry, ops[1..]);
    }
  }

  /** Replica consistency: after any history, a registered peer that receives the list reply and
      then applies the notices addressed to it, each of which arrives as it was sent by
      `NoticesArrive`, knows exactly the other registered users, whatever ids were freed and
      handed out again in between. */
  lemma ReplicaConsistency(history: seq<PresenceOp>, p: u64, req: FrameHeader, enabled: bool, wire: bytes,
                           ops: seq<PresenceOp>)
    requires p in RunRegistry(EMPTY_REGISTRY, history).snapshots && Disconnect(p) !in ops
    requires ListSent(enabled, req, RunRegistry(EMPTY_REGISTRY, history)) == Some(wire)
    ensures var r := RunRegistry(EMPTY_REGISTRY, history);
            p in RunRegistry(r, ops).snapshots
            && Mirrors(RunReplica(p, ClientList(enabled, wire), r, ops), RunRegistry(r, ops), p)
  {
    hide ListSent, RunRegistry, RunReplica, ClientReads, ClientList, Lists, Mirrors;
    var r := RunRegistry(EMPTY_REGISTRY, history);
    ListArrives(r, req, enabled, wire);
    ListMirrors(ClientList(enabled, wire), r, p);
    ReplicaFollows(p, ClientList(enabled, wire), r, ops);
  }

  // ------------------------------------------------------- allocation over runs

  /** The op gives a connection that was not registered an id. */
  predicate Allocates(r: Registry, op: PresenceOp) {
    op.Publish? && op.snapshot.connectionId !in r.snapshots
    && NotifyChange(op.snapshot).Ok? && Upserted(r, op.snapshot).0.Ok?
  }

  /** The initial cursor, then every id a run hands out to a new connection, in order. */
  function HandedOut(r: Registry, ops: seq<PresenceOp>): seq<u16>
    decreases |ops|
  {
    if ops == [] then [r.nextPresenceId]
    else
      var r' := Step(r, ops[0]).registry;
      if Allocates(r, ops[0]) then [r.nextPresenceId] + HandedOut(r', ops[1..]) else HandedOut(r', ops[1..])
  }

  /** For each of those ids, the ids that were active when it was chosen. */
  function SeenActive(r: Registry, ops: seq<PresenceOp>): seq<set<u16>>
    decreases |ops|
  {
    if ops == [] then []
    else
      var r' := Step(r, ops[0]).registry;
      if Allocates(r, ops[0]) then [ActiveIds(r.snapshots)] + SeenActive(r', ops[1..]) else SeenActive(r', ops[1..])
  }

  lemma StepCursor(r: Registry, op: PresenceOp)
    requires Consistent(r)
    ensures if Allocates(r, op) then
              Search(ActiveIds(r.snapshots), r.nextPresenceId, ID_COUNT)
              == Found(Some(Step(r, op).registry.nextPresenceId), Step(r, op).registry.nextPresenceId)
              && op.snapshot.connectionId in Step(r, op).registry.snapshots
              && Step(r, op).registry.snapshots[op.snapshot.connectionId].userId
                 == Step(r, op).registry.nextPresenceId
            else Step(r, op).registry.nextPresenceId == r.nextPresenceId
  {
    hide NotifyChange, NotifyDelete, Search, PeerIds;
    match op
    case Publish(s) =>
      SearchComplete(ActiveIds(r.snapshots), r.nextPresenceId);
      if Upserted(r, s).0.Err? {
        UpsertFailsIff(r, s);
      }
    case Disconnect(_) =>
  }

  /** The ids a run hands out are an allocation sequence of the cursor. */
  lemma {:induction false} RunAllocates(r: Registry, ops: seq<PresenceOp>)
    requires Consistent(r)
    ensures AllocationRun(HandedOut(r, ops), SeenActive(r, ops))
    ensures HandedOut(r, ops)[0] == r.nextPresenceId
    decreases |ops|
  {
    hide Step, Search, Allocates, Consistent, ActiveIds;
    if ops != [] {
      var r' := Step(r, ops[0]).registry;
      StepKeeps(r, ops[0], 0);
      StepCursor(r, ops[0]);
      RunAllocates(r', ops[1..]);
      var cursors, actives := HandedOut(r', ops[1..]), SeenActive(r', ops[1..]);
      if Allocates(r, ops[0]) {
        var cs, actives' := [r.nextPresenceId] + cursors, [ActiveIds(r.snapshots)] + actives;
        forall i | 0 <= i < |actives'|
          ensures Search(actives'[i], cs[i], ID_COUNT) == Found(Some(cs[i + 1]), cs[i + 1])
        {
          if i > 0 {
            assert actives'[i] == actives[i - 1] && cs[i] == cursors[i - 1] && cs[i + 1] == cursors[i];
          }
        }
      }
    }
  }

  /** So no id is reused over any run until the cursor has gone over every other id, each handed
      out or found active when it did. */
  lemma PresenceIdsFair(ops: seq<PresenceOp>, i: nat, j: nat, y: u16)
    requires 0 < i < j < |HandedOut(EMPTY_REGISTRY, ops)| && IsPresenceId(y)
    requires HandedOut(EMPTY_REGISTRY, ops)[i] == HandedOut(EMPTY_REGISTRY, ops)[j]
    ensures PassedOver(HandedOut(EMPTY_REGISTRY, ops), SeenActive(EMPTY_REGISTRY, ops), i, j, y)
  {
    hide HandedOut, SeenActive;
    RunAllocates(EMPTY_REGISTRY, ops);
    AllocationFair(HandedOut(EMPTY_REGISTRY, ops), SeenActive(EMPTY_REGISTRY, ops), i, j, y);
  }
}
