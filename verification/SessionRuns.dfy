/** Whole runs of the server: any number of connections, logins, updates and departures. */
module SessionRuns {
  import opened Bytes
  import opened Headers
  import opened Presence
  import opened PresenceWire
  import opened Replica
  import opened Sessions

  datatype World = World(sessions: map<u64, SessionState>, registry: Registry)

  datatype Event =
    | Connect(connection: u64)
    | Login(connection: u64, check: LoginCheck, replySent: bool)
    | Update(connection: u64, update: UserInfoUpdate, replySent: bool)
    | Drop(connection: u64)

  const EMPTY_WORLD := World(map[], EMPTY_REGISTRY)

  /** The handler an event runs, if the connection is there to run it. */
  function HandledBy(w: World, e: Event): Option<Handled> {
    if e.connection !in w.sessions then None
    else match e
         case Login(c, check, sent) => Some(LoginHandled(w.sessions[c], w.registry, c, check, sent))
         case Update(c, u, sent) => Some(UpdateHandled(w.sessions[c], w.registry, c, u, sent))
         case _ => None
  }

  function After(w: World, e: Event): World {
    match e
    case Connect(c) => if c in w.sessions then w else w.(sessions := w.sessions[c := FRESH_SESSION])
    case Drop(c) => World(w.sessions - {c}, Disconnected(w.registry, c).registry)
    case _ =>
      match HandledBy(w, e)
      case Some(h) => World(w.sessions[e.connection := h.session], h.outcome.registry)
      case None => w
  }

  // ----------------------------------------------------------------- invariant

  /** What holds of one session, whatever happened to it. */
  predicate SessionOk(s: SessionState) {
    (s.autoResponse.Some? ==> s.flags.autoResponse)
    && (match s.userId
        case Some(_) => s.privileges == GRANTED && s.phase == Online
        case None => s == FRESH_SESSION)
  }

  /** Registered connections are connected, online and visible. */
  predicate WorldOk(w: World) {
    Consistent(w.registry)
    && (forall c :: c in w.sessions ==> SessionOk(w.sessions[c]))
    && (forall c :: c in w.registry.snapshots ==>
          c in w.sessions && w.sessions[c].userId.Some? && ShowsInUserList(w.sessions[c]))
  }

  lemma PublishedKeys(r: Registry, s: PresenceSnapshot)
    requires Consistent(r)
    ensures Consistent(Published(r, s).registry)
    ensures forall c :: c in Published(r, s).registry.snapshots ==>
              c in r.snapshots || c == s.connectionId
    ensures CanPublish(r, s) ==>
              s.connectionId in Published(r, s).registry.snapshots
              && EntryOf(Published(r, s).registry.snapshots[s.connectionId]) == EntryOf(s)
  {
    hide Upserted, NotifyChange, Consistent;
    if Upserted(r, s).0.Ok? {
      UpsertKeeps(r, s);
    } else {
      UpsertFailsIff(r, s);
    }
  }

  lemma GrantedShows()
    ensures SHOW_IN_LIST in GRANTED && NO_AGREEMENT in GRANTED
    ensures GRANTED !! {CREATE_USER, DELETE_USER, OPEN_USER, MODIFY_USER, DISCONNECT_USER, BROADCAST}
  {
  }

  lemma HandledKeeps(w: World, e: Event)
    requires WorldOk(w) && HandledBy(w, e).Some?
    ensures var h := HandledBy(w, e).value;
            SessionOk(h.session) && Consistent(h.outcome.registry)
            && (forall c :: c in h.outcome.registry.snapshots ==>
                  c in w.registry.snapshots || c == e.connection)
            && (w.sessions[e.connection].userId.Some? ==> h.session.userId.Some?)
            && (e.connection in h.outcome.registry.snapshots ==>
                  h.session.userId.Some? && ShowsInUserList(h.session))
  {
    hide Published, CanPublish, Consistent, NotifyChange;
    GrantedShows();
    var h := HandledBy(w, e).value;
    var s := SnapshotOf(h.session, e.connection);
    if s.Some? {
      PublishedKeys(w.registry, s.value);
    }
  }

  lemma AfterKeeps(w: World, e: Event)
    requires WorldOk(w)
    ensures WorldOk(After(w, e))
  {
    hide Consistent, LoginHandled, UpdateHandled, Disconnected, SessionOk;
    match e
    case Connect(c) =>
      assert SessionOk(FRESH_SESSION) by { FreshOk(); }
    case Drop(c) =>
      DisconnectedIs(w.registry, c);
    case _ =>
      if HandledBy(w, e).Some? {
        HandledKeeps(w, e);
      }
  }

  lemma FreshOk()
    ensures SessionOk(FRESH_SESSION)
  {
  }

  lemma DisconnectedIs(r: Registry, c: u64)
    requires Consistent(r)
    ensures Consistent(Disconnected(r, c).registry)
    ensures Disconnected(r, c).registry.snapshots == r.snapshots - {c}
  {
    hide Consistent, NotifyDelete, Removed;
    RemoveKeeps(r, c);
  }

  /** The world after a run; the invariant holds after every one. */
  function Run(trace: seq<Event>): (w: World)
    ensures WorldOk(w)
  {
    if trace == [] then EMPTY_WORLD
    else
      var w := Run(trace[..|trace| - 1]);
      AfterKeeps(w, trace[|trace| - 1]);
      After(w, trace[|trace| - 1])
  }

  /** Spelled out: response text only while its flag is set, nobody half logged in, and every
      registered connection connected, logged in, online and visible. */
  lemma EveryRun(trace: seq<Event>, c: u64)
    ensures var w := Run(trace);
            (c in w.sessions ==>
               (w.sessions[c].autoResponse.Some? ==> w.sessions[c].flags.autoResponse)
               && w.sessions[c].phase != PendingAgreement
               && (w.sessions[c].phase.Online? <==> w.sessions[c].userId.Some?))
            && (c in w.registry.snapshots ==>
                  c in w.sessions && w.sessions[c].userId.Some? && ShowsInUserList(w.sessions[c]))
  {
    hide Run;
    assert c in Run(trace).sessions ==> SessionOk(Run(trace).sessions[c]);
  }

  /** The account of the latest successful login of a connection since it connected. */
  function LatestLogin(trace: seq<Event>, c: u64): Option<i32> {
    if trace == [] then None
    else
      var last := trace[|trace| - 1];
      var before := trace[..|trace| - 1];
      if last.connection != c then LatestLogin(before, c)
      else match last
           case Login(_, Accepted(userId, _), _) =>
             if c in Run(before).sessions then Some(userId) else LatestLogin(before, c)
           case Drop(_) => None
           case _ => LatestLogin(before, c)
  }

  // ------------------------------------------------------------------- gating

  lemma HandledUser(w: World, e: Event)
    requires HandledBy(w, e).Some?
    ensures HandledBy(w, e).value.session.userId
            == if e.Login? && e.check.Accepted? then Some(e.check.userId)
               else w.sessions[e.connection].userId
  {
    hide Published, CanPublish, NotifyChange;
  }

  /** A session carries the account of its latest successful login, and nothing otherwise. */
  lemma {:induction false} UserIsLatestLogin(trace: seq<Event>, c: u64)
    ensures c in Run(trace).sessions ==> Run(trace).sessions[c].userId == LatestLogin(trace, c)
    ensures c !in Run(trace).sessions ==> LatestLogin(trace, c) == None
    decreases |trace|
  {
    hide LoginHandled, UpdateHandled, Disconnected, WorldOk;
    if trace != [] {
      var before := trace[..|trace| - 1];
      var e := trace[|trace| - 1];
      UserIsLatestLogin(before, c);
      if HandledBy(Run(before), e).Some? {
        HandledUser(Run(before), e);
      }
    }
  }

  /** A guarded handler body runs exactly when the connection's latest login succeeded and the
      privileges it was granted cover what the handler demands. */
  lemma GuardRunsIff(trace: seq<Event>, c: u64, required: Privileges)
    requires c in Run(trace).sessions
    ensures RequirePrivilege(Run(trace).sessions[c], required)
            == (match LatestLogin(trace, c)
                case None => Err(NotAuthenticated)
                case Some(_) => if required <= {2, 9, 10, 13, 18, 19, 20, 21, 24, 27} then Ok(())
                                else Err(InsufficientPrivileges(required)))
  {
    hide Run, LatestLogin;
    UserIsLatestLogin(trace, c);
    assert GRANTED == {2, 9, 10, 13, 18, 19, 20, 21, 24, 27};
    assert SessionOk(Run(trace).sessions[c]);
  }

  // ------------------------------------------------------------- latest writer

  /** Event `e` is an info update the server acts on after the run `before`. */
  predicate Applied(before: seq<Event>, e: Event) {
    e.Update? && e.connection in Run(before).sessions && LatestLogin(before, e.connection).Some?
  }

  predicate LogsIn(before: seq<Event>, e: Event) {
    e.Login? && e.check.Accepted? && e.connection in Run(before).sessions
  }

  /** The name set last: by a successful login, or by an applied update that carries one. */
  function LatestName(trace: seq<Event>, c: u64): bytes {
    if trace == [] then []
    else
      var e, before := trace[|trace| - 1], trace[..|trace| - 1];
      if e.connection == c && e.Drop? then []
      else if e.connection == c && LogsIn(before, e) then e.check.username
      else if e.connection == c && Applied(before, e) && e.update.displayName.Some? then e.update.displayName.value
      else LatestName(before, c)
  }

  function LatestIcon(trace: seq<Event>, c: u64): u16 {
    if trace == [] then 0
    else
      var e, before := trace[|trace| - 1], trace[..|trace| - 1];
      if e.connection == c && (e.Drop? || LogsIn(before, e)) then 0
      else if e.connection == c && Applied(before, e) && e.update.iconId.Some? then e.update.iconId.value
      else LatestIcon(before, c)
  }

  function LatestFlags(trace: seq<Event>, c: u64): ConnectionFlags {
    if trace == [] then NO_FLAGS
    else
      var e, before := trace[|trace| - 1], trace[..|trace| - 1];
      if e.connection == c && (e.Drop? || LogsIn(before, e)) then NO_FLAGS
      else if e.connection == c && Applied(before, e) && e.update.options.Some? then e.update.options.value
      else LatestFlags(before, c)
  }

  /** The response text set last while the flag has been on without a break. */
  function LatestAutoResponse(trace: seq<Event>, c: u64): Option<bytes> {
    if trace == [] || !LatestFlags(trace, c).autoResponse then None
    else
      var e, before := trace[|trace| - 1], trace[..|trace| - 1];
      if e.connection == c && Applied(before, e) && e.update.autoResponse.Some? then e.update.autoResponse
      else LatestAutoResponse(before, c)
  }

  lemma HandledProfile(w: World, e: Event)
    requires HandledBy(w, e).Some?
    ensures var s, s' := w.sessions[e.connection], HandledBy(w, e).value.session;
            s' == match e
                  case Login(_, Accepted(id, name), _) => LoggedIn(s, id, name, GRANTED)
                  case Update(_, u, _) => if s.userId.Some? then InfoUpdated(s, u) else s
                  case _ => s
  {
    hide Published, CanPublish, NotifyChange;
  }

  /** After every run, each field of a session is what was last written to it. */
  lemma {:induction false} ProfileIsLatest(trace: seq<Event>, c: u64)
    ensures c in Run(trace).sessions ==>
              var s := Run(trace).sessions[c];
              s.displayName == LatestName(trace, c) && s.iconId == LatestIcon(trace, c)
              && s.flags == LatestFlags(trace, c) && s.autoResponse == LatestAutoResponse(trace, c)
    ensures c !in Run(trace).sessions ==>
              LatestName(trace, c) == [] && LatestIcon(trace, c) == 0 && LatestFlags(trace, c) == NO_FLAGS
    decreases |trace|
  {
    hide LoginHandled, UpdateHandled, Disconnected, LatestLogin, WorldOk;
    if trace != [] {
      var before := trace[..|trace| - 1];
      var e := trace[|trace| - 1];
      ProfileIsLatest(before, c);
      UserIsLatestLogin(before, c);
      if HandledBy(Run(before), e).Some? {
        HandledProfile(Run(before), e);
      }
    }
  }

  // ------------------------------------------------------------ published state

  /** Some presence id is held by nobody. */
  ghost predicate IdLeft(r: Registry) {
    exists v: u16 :: 1 <= v <= 65535 && HeldByNobody(r, v)
  }

  ghost predicate HeldByNobody(r: Registry, v: u16) {
    forall c :: c in r.snapshots ==> r.snapshots[c].userId != v
  }

  lemma CanPublishIff(r: Registry, s: PresenceSnapshot)
    requires Consistent(r)
    ensures CanPublish(r, s) <==> |s.displayName| < 0x1_0000 && (s.connectionId in r.snapshots || IdLeft(r))
    ensures Published(r, s).registry == if |s.displayName| < 0x1_0000 then Upserted(r, s).1 else r
  {
    hide NotifyChange, Upserted;
    ChangeIsNoticed(map[], s);
    UpsertFailsIff(r, s);
    forall v: u16 | 1 <= v <= 65535 ensures v in ActiveIds(r.snapshots) <==> !HeldByNobody(r, v) {
    }
    if Upserted(r, s).0.Ok? {
      UpsertKeeps(r, s);
      ChangeIsNoticed(map[], Upserted(r, s).0.value.snapshot);
    }
  }

  /** A login or update on an open connection, and whether it comes with a reply. */
  predicate Served(trace: seq<Event>, e: Event) {
    (e.Login? || e.Update?) && e.connection in Run(trace).sessions
  }

  predicate Replied(e: Event)
    requires e.Login? || e.Update?
  {
    e.replySent && !(e.Login? && e.check.LookupFailed?)
  }

  /** The session a handler leaves is the one of the longer run, and shows what that run says. */
  lemma ServedSession(trace: seq<Event>, e: Event)
    requires Served(trace, e)
    ensures HandledBy(Run(trace), e).Some?
    ensures var c, s := e.connection, HandledBy(Run(trace), e).value.session;
            c in Run(trace + [e]).sessions && Run(trace + [e]).sessions[c] == s
            && SnapshotOf(s, c)
               == match LatestLogin(trace + [e], c)
                  case None => None
                  case Some(id) =>
                    Some(PresenceSnapshot(c, id, LatestName(trace + [e], c), LatestIcon(trace + [e], c), 0))
  {
    hide Run, LatestLogin, LatestName, LatestIcon, LoginHandled, UpdateHandled;
    var c := e.connection;
    RunStep(trace, e);
    UserIsLatestLogin(trace + [e], c);
    ProfileIsLatest(trace + [e], c);
    assert SessionOk(Run(trace + [e]).sessions[c]);
    GrantedShows();
  }

  /** Whether a login or update ends without error, over every run: it is answered, and nobody is
      logged in afterwards, or the name then in force fits a notice and the connection has an id
      or can be given one. */
  lemma ServedOkIff(trace: seq<Event>, e: Event)
    requires Served(trace, e)
    ensures var c, r := e.connection, Run(trace).registry;
            HandledBy(Run(trace), e).Some?
            && (HandledBy(Run(trace), e).value.ok
                <==> Replied(e)
                     && (LatestLogin(trace + [e], c).None?
                         || (|LatestName(trace + [e], c)| < 0x1_0000 && (c in r.snapshots || IdLeft(r)))))
  {
    hide Run, LatestLogin, LatestName, LatestIcon, IdLeft, CanPublish, Published, NotifyChange, Consistent;
    ServedSession(trace, e);
    var s := SnapshotOf(HandledBy(Run(trace), e).value.session, e.connection);
    if s.Some? {
      CanPublishIff(Run(trace).registry, s.value);
      ChangeIsNoticed(map[], s.value);
    }
    HandledProfile(Run(trace), e);
  }

  /** In particular an accepted and answered login succeeds exactly when its name fits a notice and
      an id can be had. */
  lemma LoginOkIff(trace: seq<Event>, c: u64, id: i32, name: bytes)
    requires c in Run(trace).sessions
    ensures var h := HandledBy(Run(trace), Login(c, Accepted(id, name), true));
            h.Some?
            && (h.value.ok
                <==> |name| < 0x1_0000 && (c in Run(trace).registry.snapshots || IdLeft(Run(trace).registry)))
  {
    hide Run, IdLeft, HandledBy;
    var e := Login(c, Accepted(id, name), true);
    ServedOkIff(trace, e);
    assert (trace + [e])[..|trace|] == trace;
  }

  /** What such an event does to the registry: it stores what the run says of the connection, or
      nothing at all. */
  lemma ServedPublishes(trace: seq<Event>, e: Event)
    requires Served(trace, e)
    ensures var c, r := e.connection, Run(trace).registry;
            Run(trace + [e]).registry
            == if Replied(e) && LatestLogin(trace + [e], c).Some? && |LatestName(trace + [e], c)| < 0x1_0000
               then Upserted(r, PresenceSnapshot(c, LatestLogin(trace + [e], c).value, LatestName(trace + [e], c),
                                                 LatestIcon(trace + [e], c), 0)).1
               else r
  {
    hide Run, LatestLogin, LatestName, LatestIcon, CanPublish, Published, NotifyChange, Consistent, Upserted;
    RunStep(trace, e);
    ServedSession(trace, e);
    var s := SnapshotOf(HandledBy(Run(trace), e).value.session, e.connection);
    if s.Some? {
      CanPublishIff(Run(trace).registry, s.value);
      ChangeIsNoticed(map[], s.value);
    }
    HandledProfile(Run(trace), e);
  }

  /** After a login or update that ends without error, the registry shows the session as it is,
      or does not list it at all because nobody is logged in. */
  lemma ErrorFreeInSync(trace: seq<Event>, e: Event)
    requires HandledBy(Run(trace), e).Some? && HandledBy(Run(trace), e).value.ok
    ensures var w := Run(trace + [e]);
            var c := e.connection;
            c in w.sessions
            && (w.sessions[c].userId.None? ==> c !in w.registry.snapshots)
            && (w.sessions[c].userId.Some? ==>
                  c in w.registry.snapshots
                  && EntryOf(w.registry.snapshots[c])
                     == Entry(w.sessions[c].iconId, 0, w.sessions[c].displayName))
  {
    hide Run, Published, CanPublish, Consistent, NotifyChange;
    RunStep(trace, e);
    var w := Run(trace);
    var h := HandledBy(w, e).value;
    HandledKeeps(w, e);
    GrantedShows();
    var s := SnapshotOf(h.session, e.connection);
    if s.Some? {
      PublishedKeys(w.registry, s.value);
    }
  }

  lemma RunStep(trace: seq<Event>, e: Event)
    ensures Run(trace + [e]) == After(Run(trace), e)
  {
    assert (trace + [e])[..|trace|] == trace;
  }

  // --------------------------------------------------- runs as presence histories

  /** The presence step an event amounts to, if any. */
  function OpOf(w: World, e: Event): seq<PresenceOp> {
    match e
    case Drop(c) => [Disconnect(c)]
    case Connect(_) => []
    case _ =>
      match HandledBy(w, e)
      case None => []
      case Some(h) =>
        if h.outcome == Quiet(w.registry) then []
        else match SnapshotOf(h.session, e.connection)
             case Some(s) => [Publish(s)]
             case None => []
  }

  function OpsOf(trace: seq<Event>): seq<PresenceOp> {
    if trace == [] then []
    else OpsOf(trace[..|trace| - 1]) + OpOf(Run(trace[..|trace| - 1]), trace[|trace| - 1])
  }

  lemma {:induction false} RunAppend(r: Registry, a: seq<PresenceOp>, b: seq<PresenceOp>)
    requires Consistent(r)
    ensures RunRegistry(r, a + b) == RunRegistry(RunRegistry(r, a), b)
    decreases |a|
  {
    hide Step;
    if a == [] {
      assert a + b == b;
    } else {
      assert (a + b)[1..] == a[1..] + b;
      StepKeeps(r, a[0], 0);
      RunAppend(Step(r, a[0]).registry, a[1..], b);
    }
  }

  lemma AfterIsOp(w: World, e: Event)
    requires WorldOk(w)
    ensures After(w, e).registry == RunRegistry(w.registry, OpOf(w, e))
  {
    hide Published, CanPublish, Disconnected, NotifyChange;
    var ops := OpOf(w, e);
    if ops != [] {
      assert ops[1..] == [];
      assert RunRegistry(w.registry, ops) == Step(w.registry, ops[0]).registry;
    }
  }

  /** The registry of every run is that of a history of publishes and departures, so whatever
      holds of all such histories, replica consistency included, holds of the server. */
  lemma {:induction false} RegistryIsHistory(trace: seq<Event>)
    ensures Run(trace).registry == RunRegistry(EMPTY_REGISTRY, OpsOf(trace))
    decreases |trace|
  {
    hide After, OpOf;
    if trace != [] {
      var before := trace[..|trace| - 1];
      var e := trace[|trace| - 1];
      RegistryIsHistory(before);
      AfterIsOp(Run(before), e);
      RunAppend(EMPTY_REGISTRY, OpsOf(before), OpOf(Run(before), e));
    }
  }

  // ------------------------------------------------------- replicas of the server

  /** The notice an event makes the server send, with its targets. */
  function OutcomeOf(w: World, e: Event): Outcome {
    match e
    case Connect(_) => Quiet(w.registry)
    case Drop(c) => Disconnected(w.registry, c)
    case _ =>
      match HandledBy(w, e)
      case Some(h) => h.outcome
      case None => Quiet(w.registry)
  }

  /** The user list of connection `p` after `trace`, when it had `users` after `history`. */
  function ListAfter(p: u64, users: map<int, Entry>, history: seq<Event>, trace: seq<Event>): map<int, Entry> {
    if trace == [] then users
    else
      var before := trace[..|trace| - 1];
      Received(p, ListAfter(p, users, history, before), OutcomeOf(Run(history + before), trace[|trace| - 1]))
  }

  lemma EventMirrored(w: World, e: Event, p: u64, users: map<int, Entry>)
    requires WorldOk(w) && p in w.registry.snapshots && Mirrors(users, w.registry, p) && e != Drop(p)
    ensures p in After(w, e).registry.snapshots
    ensures Mirrors(Received(p, users, OutcomeOf(w, e)), After(w, e).registry, p)
  {
    hide Published, Disconnected, CanPublish, NotifyChange, Mirrors, Consistent, Noticed;
    match e
    case Connect(_) =>
    case Drop(c) => DisconnectMirrored(p, users, w.registry, c);
    case _ =>
      if HandledBy(w, e).Some? {
        var s := SnapshotOf(HandledBy(w, e).value.session, e.connection);
        if s.Some? {
          PublishMirrored(p, users, w.registry, s.value);
        }
      }
  }

  /** Replica consistency of the whole server: whatever clients did before and do after, a
      visible connection that receives the user list and applies the notices pushed to it knows
      exactly the other registered users for as long as it stays. */
  lemma {:induction false} ServerReplicaConsistency(history: seq<Event>, p: u64, req: FrameHeader, enabled: bool,
                                                    wire: bytes, trace: seq<Event>)
    requires p in Run(history).registry.snapshots && Drop(p) !in trace
    requires ListSent(enabled, req, Run(history).registry) == Some(wire)
    ensures var w := Run(history + trace);
            p in w.registry.snapshots
            && Mirrors(ListAfter(p, ClientList(enabled, wire), history, trace), w.registry, p)
    decreases |trace|
  {
    hide ListSent, ClientList, Lists, Received, OutcomeOf, After, Mirrors;
    hide Consistent, SessionOk;
    var users := ClientList(enabled, wire);
    if trace == [] {
      assert history + trace == history;
      ListArrives(Run(history).registry, req, enabled, wire);
      ListMirrors(users, Run(history).registry, p);
    } else {
      var before := trace[..|trace| - 1];
      var e := trace[|trace| - 1];
      ServerReplicaConsistency(history, p, req, enabled, wire, before);
      assert history + trace == (history + before) + [e];
      RunStep(history + before, e);
      EventMirrored(Run(history + before), e, p, ListAfter(p, users, history, before));
    }
  }
}
