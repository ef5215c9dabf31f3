/** The registry of online connections, its invariant, and its queries. */
module Presence {
  import opened Allocator
  import opened Bytes
  import opened FieldIds
  import opened Headers

  datatype PresenceSnapshot = PresenceSnapshot(
    connectionId: u64,
    userId: i32,
    displayName: bytes,
    iconId: u16,
    statusFlags: u16)

  datatype Registry = Registry(snapshots: map<u64, PresenceSnapshot>, nextPresenceId: u16)

  datatype PresenceUpsert = PresenceUpsert(snapshot: PresenceSnapshot, peerIds: seq<u64>)
  datatype PresenceRemoval = PresenceRemoval(departed: PresenceSnapshot, remainingPeerIds: seq<u64>)

  const EMPTY_REGISTRY := Registry(map[], 0)

  // --------------------------------------------------------------- sorted keys

  lemma {:induction false} LeastExists(s: set<u64>) returns (m: u64)
    requires s != {}
    ensures m in s && forall x <- s :: m <= x
    decreases |s|
  {
    var a :| a in s;
    if s == {a} {
      m := a;
    } else {
      var rest := s - {a};
      assert rest != {};
      var b := LeastExists(rest);
      m := if a <= b then a else b;
      assert forall x <- s :: x == a || x in rest;
    }
  }

  function Least(s: set<u64>): (m: u64)
    requires s != {}
    ensures m in s && forall x <- s :: m <= x
  {
    assert exists m :: m in s && forall x <- s :: m <= x by {
      var m := LeastExists(s);
    }
    var m :| m in s && forall x <- s :: m <= x;
    m
  }

  predicate Ascending(xs: seq<u64>) {
    forall i, j :: 0 <= i < j < |xs| ==> xs[i] < xs[j]
  }

  function SortedIds(s: set<u64>): (xs: seq<u64>)
    ensures Ascending(xs) && forall x :: x in xs <==> x in s
    decreases |s|
  {
    if s == {} then []
    else
      var m := Least(s);
      [m] + SortedIds(s - {m})
  }

  // ------------------------------------------------------------------ registry

  function ActiveIds(m: map<u64, PresenceSnapshot>): set<u16> {
    set c | c in m && 0 <= m[c].userId < 0x1_0000 :: m[c].userId
  }

  /** Targets of a notification, in ascending order. */
  function PeerIds(m: map<u64, PresenceSnapshot>, excluded: Option<u64>): seq<u64> {
    SortedIds(set c | c in m && excluded != Some(m[c].connectionId) :: m[c].connectionId)
  }

  function Assigned(r: Registry, connection: u64): (Result<i32, TransactionError>, u16) {
    if connection in r.snapshots then (Ok(r.snapshots[connection].userId), r.nextPresenceId)
    else
      var found := Search(ActiveIds(r.snapshots), r.nextPresenceId, ID_COUNT);
      (if found.id.Some? then Ok(found.id.value) else Err(InvalidParamValue(UserNameWithInfo)), found.cursor)
  }

  function Upserted(r: Registry, snapshot: PresenceSnapshot)
    : (Result<PresenceUpsert, TransactionError>, Registry)
  {
    var (id, cursor) := Assigned(r, snapshot.connectionId);
    if id.Err? then (Err(id.error), r.(nextPresenceId := cursor))
    else
      var stored := snapshot.(userId := id.value);
      var m := r.snapshots[snapshot.connectionId := stored];
      (Ok(PresenceUpsert(stored, PeerIds(m, Some(snapshot.connectionId)))), Registry(m, cursor))
  }

  function Removed(r: Registry, connection: u64): (Option<PresenceRemoval>, Registry) {
    if connection !in r.snapshots then (None, r)
    else
      var m := r.snapshots - {connection};
      (Some(PresenceRemoval(r.snapshots[connection], PeerIds(m, None))), r.(snapshots := m))
  }

  /** Keys are connection ids; presence ids are in range and pairwise distinct; the cursor has
      moved off its initial zero once anyone is registered. */
  predicate Consistent(r: Registry) {
    (forall c :: c in r.snapshots ==> r.snapshots[c].connectionId == c)
    && (forall c :: c in r.snapshots ==> IsPresenceId(r.snapshots[c].userId))
    && (forall c, d :: c in r.snapshots && d in r.snapshots && c != d ==>
          r.snapshots[c].userId != r.snapshots[d].userId)
    && (r.snapshots != map[] ==> IsPresenceId(r.nextPresenceId))
  }

  class PresenceRegistry {
    var snapshots: map<u64, PresenceSnapshot>
    var nextPresenceId: u16

    function State(): Registry
      reads this
    {
      Registry(snapshots, nextPresenceId)
    }

    constructor ()
      ensures State() == EMPTY_REGISTRY
    {
      snapshots := map[];
      nextPresenceId := 0;
    }

    method Upsert(snapshot: PresenceSnapshot) returns (r: Result<PresenceUpsert, TransactionError>)
      modifies this
      ensures (r, State()) == Upserted(old(State()), snapshot)
    {
      hide Search, SortedIds;
      var connection := snapshot.connectionId;
      var id: i32;
      if connection in snapshots {
        id := snapshots[connection].userId;
      } else {
        var found := NextAvailable(ActiveIds(snapshots), nextPresenceId);
        nextPresenceId := found.cursor;
        if found.id.None? {
          return Err(InvalidParamValue(UserNameWithInfo));
        }
        id := found.id.value;
      }
      var stored := snapshot.(userId := id);
      snapshots := snapshots[connection := stored];
      return Ok(PresenceUpsert(stored, PeerIds(snapshots, Some(connection))));
    }

    method Remove(connection: u64) returns (r: Option<PresenceRemoval>)
      modifies this
      ensures (r, State()) == Removed(old(State()), connection)
    {
      hide SortedIds;
      if connection !in snapshots {
        return None;
      }
      var departed := snapshots[connection];
      snapshots := snapshots - {connection};
      return Some(PresenceRemoval(departed, PeerIds(snapshots, None)));
    }
  }

  // -------------------------------------------------------------- preservation

  /** Upsert of a new connection fails exactly when all 65,535 ids are active, and a failed call
      changes neither the snapshots nor the cursor. */
  lemma UpsertFailsIff(r: Registry, snapshot: PresenceSnapshot)
    requires Consistent(r)
    ensures Upserted(r, snapshot).0.Err?
            <==> snapshot.connectionId !in r.snapshots
                 && forall v: u16 :: IsPresenceId(v) ==> v in ActiveIds(r.snapshots)
    ensures Upserted(r, snapshot).0.Err? ==>
              Upserted(r, snapshot) == (Err(InvalidParamValue(UserNameWithInfo)), r)
  {
    hide Search, SortedIds;
    SearchComplete(ActiveIds(r.snapshots), r.nextPresenceId);
    var one: u16 := 1;
    assert IsPresenceId(one);
    assert r.snapshots == map[] ==> one !in ActiveIds(r.snapshots);
  }

  /** Upsert keeps the invariant, keeps the id of a registered connection, gives a new one an id
      nobody holds, and leaves every other entry alone. */
  lemma UpsertKeeps(r: Registry, snapshot: PresenceSnapshot)
    requires Consistent(r) && Upserted(r, snapshot).0.Ok?
    ensures Consistent(Upserted(r, snapshot).1)
    ensures var r' := Upserted(r, snapshot).1;
            var c := snapshot.connectionId;
            var up := Upserted(r, snapshot).0.value;
            r'.snapshots == r.snapshots[c := up.snapshot]
            && r'.snapshots.Keys == r.snapshots.Keys + {c}
            && r'.snapshots[c] == up.snapshot == snapshot.(userId := up.snapshot.userId)
            && (c in r.snapshots ==> up.snapshot.userId == r.snapshots[c].userId)
            && (c !in r.snapshots ==>
                  forall d :: d in r.snapshots ==> r.snapshots[d].userId != up.snapshot.userId)
            && (forall d :: d in r.snapshots && d != c ==> r'.snapshots[d] == r.snapshots[d])
  {
    hide Search, PeerIds, Consistent;
    var c := snapshot.connectionId;
    var stored := Upserted(r, snapshot).0.value.snapshot;
    AssignedIs(r, c);
    StoreKeeps(r, stored, Upserted(r, snapshot).1.nextPresenceId);
  }

  /** The id assigned to a connection is its own, or one nobody holds. */
  lemma AssignedIs(r: Registry, c: u64)
    requires Consistent(r) && Assigned(r, c).0.Ok?
    ensures IsPresenceId(Assigned(r, c).0.value) && IsPresenceId(Assigned(r, c).1)
    ensures c in r.snapshots ==> Assigned(r, c).0.value == r.snapshots[c].userId
    ensures forall d :: d in r.snapshots && d != c ==> r.snapshots[d].userId != Assigned(r, c).0.value
  {
    hide Search;
    SearchComplete(ActiveIds(r.snapshots), r.nextPresenceId);
    forall d | d in r.snapshots && d != c ensures r.snapshots[d].userId != Assigned(r, c).0.value {
      assert r.snapshots[d].userId in ActiveIds(r.snapshots);
    }
  }

  lemma StoreKeeps(r: Registry, s: PresenceSnapshot, cursor: u16)
    requires Consistent(r) && IsPresenceId(s.userId) && IsPresenceId(cursor)
    requires forall d :: d in r.snapshots && d != s.connectionId ==> r.snapshots[d].userId != s.userId
    ensures Consistent(Registry(r.snapshots[s.connectionId := s], cursor))
  {
  }

  lemma RemoveKeeps(r: Registry, connection: u64)
    requires Consistent(r)
    ensures Consistent(Removed(r, connection).1)
    ensures Removed(r, connection).1.snapshots == r.snapshots - {connection}
  {
    hide SortedIds;
  }

  /** Exactly the other registered connections are notified. */
  lemma PeersAre(r: Registry, excluded: Option<u64>, p: u64)
    requires Consistent(r)
    ensures p in PeerIds(r.snapshots, excluded) <==> p in r.snapshots && excluded != Some(p)
    ensures Ascending(PeerIds(r.snapshots, excluded))
  {
    var s := set c | c in r.snapshots && excluded != Some(r.snapshots[c].connectionId)
               :: r.snapshots[c].connectionId;
    if p in r.snapshots && excluded != Some(p) {
      assert r.snapshots[p].connectionId in s;
    }
  }

  // ------------------------------------------------------------------- queries

  predicate Before(m: map<u64, PresenceSnapshot>, a: u64, b: u64)
    requires a in m && b in m
  {
    m[a].userId < m[b].userId || (m[a].userId == m[b].userId && m[a].connectionId < m[b].connectionId)
  }

  lemma {:induction false} FirstExists(m: map<u64, PresenceSnapshot>, s: set<u64>) returns (a: u64)
    requires s != {} && s <= m.Keys
    requires forall c <- m :: m[c].connectionId == c
    ensures a in s && forall x <- s :: x == a || Before(m, a, x)
    decreases |s|
  {
    var b :| b in s;
    if s == {b} {
      a := b;
    } else {
      var rest := s - {b};
      assert rest != {};
      var f := FirstExists(m, rest);
      a := if Before(m, f, b) then f else b;
      assert forall x <- s :: x == b || x in rest;
    }
  }

  function First(m: map<u64, PresenceSnapshot>, s: set<u64>): (a: u64)
    requires s != {} && s <= m.Keys
    requires forall c <- m :: m[c].connectionId == c
    ensures a in s && forall x <- s :: x == a || Before(m, a, x)
  {
    assert exists a :: a in s && forall x <- s :: x == a || Before(m, a, x) by {
      var a := FirstExists(m, s);
    }
    var a :| a in s && forall x <- s :: x == a || Before(m, a, x);
    a
  }

  /** The snapshots of the connections in `s`, sorted by presence id, then connection id. */
  function SortedSnapshots(m: map<u64, PresenceSnapshot>, s: set<u64>): (xs: seq<PresenceSnapshot>)
    requires s <= m.Keys && forall c <- m :: m[c].connectionId == c
    ensures |xs| == |s|
    ensures forall x :: x in xs <==> x.connectionId in s && x == m[x.connectionId]
    ensures forall i, j :: 0 <= i < j < |xs| ==>
              xs[i].connectionId in m && xs[j].connectionId in m
              && Before(m, xs[i].connectionId, xs[j].connectionId)
    decreases |s|
  {
    if s == {} then []
    else
      var a := First(m, s);
      [m[a]] + SortedSnapshots(m, s - {a})
  }

  function OnlineSnapshots(r: Registry): seq<PresenceSnapshot>
    requires Consistent(r)
  {
    SortedSnapshots(r.snapshots, r.snapshots.Keys)
  }

  /** The public list has every registered snapshot once, strictly ascending by presence id. */
  lemma OnlineStrictlyAscending(r: Registry)
    requires Consistent(r)
    ensures var xs := OnlineSnapshots(r);
            |xs| == |r.snapshots|
            && (forall x :: x in xs <==> x.connectionId in r.snapshots && x == r.snapshots[x.connectionId])
            && (forall i, j :: 0 <= i < j < |xs| ==> xs[i].userId < xs[j].userId)
  {
    hide SortedSnapshots;
    var xs := OnlineSnapshots(r);
    forall i, j | 0 <= i < j < |xs| ensures xs[i].userId < xs[j].userId {
      assert xs[i] in xs && xs[j] in xs;
      assert Before(r.snapshots, xs[i].connectionId, xs[j].connectionId);
    }
  }

  function Holders(r: Registry, userId: int): set<u64> {
    set c | c in r.snapshots && r.snapshots[c].userId == userId
  }

  /** Lookup by presence id; among several holders the lowest connection id would win. */
  function SnapshotForUserId(r: Registry, userId: int): Option<PresenceSnapshot> {
    if Holders(r, userId) == {} then None else Some(r.snapshots[Least(Holders(r, userId))])
  }

  /** The lookup finds the one holder of an id; its tie-break never has two to choose from. */
  lemma LookupIsUnique(r: Registry, userId: int)
    requires Consistent(r)
    ensures |Holders(r, userId)| <= 1
    ensures match SnapshotForUserId(r, userId)
            case Some(s) => s.connectionId in r.snapshots && s == r.snapshots[s.connectionId]
                            && s.userId == userId
            case None => forall c :: c in r.snapshots ==> r.snapshots[c].userId != userId
    ensures forall c :: c in r.snapshots && r.snapshots[c].userId == userId ==>
              SnapshotForUserId(r, userId) == Some(r.snapshots[c])
  {
    var holders := Holders(r, userId);
    if holders != {} {
      var d :| d in holders;
      assert holders == {d};
    }
    forall c | c in r.snapshots && r.snapshots[c].userId == userId
      ensures SnapshotForUserId(r, userId) == Some(r.snapshots[c])
    {
      assert c in holders;
    }
  }
}
