/** Sessions and the handlers that change them and publish them to the registry. */
module Sessions {
  import opened Bytes
  import opened Presence
  import opened PresenceWire
  import opened Replica

  /** A privilege is a bit position of the access bitmap. */
  type Privileges = set<nat>

  const DOWNLOAD_FILE: nat := 2
  const READ_CHAT: nat := 9
  const SEND_CHAT: nat := 10
  const SHOW_IN_LIST: nat := 13
  const CREATE_USER: nat := 14
  const DELETE_USER: nat := 15
  const OPEN_USER: nat := 16
  const MODIFY_USER: nat := 17
  const CHANGE_OWN_PASSWORD: nat := 18
  const SEND_PRIVATE_MESSAGE: nat := 19
  const NEWS_READ_ARTICLE: nat := 20
  const NEWS_POST_ARTICLE: nat := 21
  const DISCONNECT_USER: nat := 22
  const GET_CLIENT_INFO: nat := 24
  const NO_AGREEMENT: nat := 27
  const BROADCAST: nat := 32

  const DEFAULT_USER: Privileges :=
    {DOWNLOAD_FILE, READ_CHAT, SEND_CHAT, SHOW_IN_LIST, SEND_PRIVATE_MESSAGE, NEWS_READ_ARTICLE,
     NEWS_POST_ARTICLE, GET_CLIENT_INFO, CHANGE_OWN_PASSWORD}

  /** What every successful login is granted. */
  const GRANTED: Privileges := DEFAULT_USER + {NO_AGREEMENT}

  datatype SessionPhase = Unauthenticated | PendingAgreement | Online

  datatype ConnectionFlags = ConnectionFlags(refusesMessages: bool, refusesChat: bool, autoResponse: bool)

  datatype SessionState = SessionState(
    userId: Option<i32>,
    privileges: Privileges,
    phase: SessionPhase,
    displayName: bytes,
    iconId: u16,
    flags: ConnectionFlags,
    autoResponse: Option<bytes>)

  datatype PrivilegeError = NotAuthenticated | InsufficientPrivileges(required: Privileges)

  datatype UserInfoUpdate = UserInfoUpdate(
    displayName: Option<bytes>,
    iconId: Option<u16>,
    options: Option<ConnectionFlags>,
    autoResponse: Option<bytes>)

  const NO_FLAGS := ConnectionFlags(false, false, false)
  const FRESH_SESSION := SessionState(None, {}, Unauthenticated, [], 0, NO_FLAGS, None)

  function RequirePrivilege(s: SessionState, required: Privileges): Result<(), PrivilegeError> {
    match (s.userId.Some?, required <= s.privileges)
    case (false, _) => Err(NotAuthenticated)
    case (true, false) => Err(InsufficientPrivileges(required))
    case (true, true) => Ok(())
  }

  predicate ShowsInUserList(s: SessionState) {
    s.phase.Online? && SHOW_IN_LIST in s.privileges
  }

  function PresenceFlags(s: SessionState): u16 {
    if s.privileges !! {CREATE_USER, DELETE_USER, OPEN_USER, MODIFY_USER, DISCONNECT_USER, BROADCAST}
    then 0 else 2
  }

  function SnapshotOf(s: SessionState, connection: u64): Option<PresenceSnapshot> {
    if s.userId.None? || !ShowsInUserList(s) then None
    else Some(PresenceSnapshot(connection, s.userId.value, s.displayName, s.iconId, PresenceFlags(s)))
  }

  function LoggedIn(s: SessionState, userId: i32, username: bytes, privileges: Privileges): SessionState {
    SessionState(Some(userId), privileges,
                 if NO_AGREEMENT in privileges then Online else PendingAgreement,
                 username, 0, NO_FLAGS, None)
  }

  function InfoUpdated(s: SessionState, u: UserInfoUpdate): SessionState {
    var name := if u.displayName.Some? then u.displayName.value else s.displayName;
    var icon := if u.iconId.Some? then u.iconId.value else s.iconId;
    var flags := if u.options.Some? then u.options.value else s.flags;
    var auto := if !flags.autoResponse then None
                else if u.autoResponse.Some? then u.autoResponse else s.autoResponse;
    s.(displayName := name, iconId := icon, flags := flags, autoResponse := auto)
  }

  /** Of any session, in privilege bits: it is shown exactly when someone is logged in, online and
      holds bit 13, and marked as an administrator exactly for one of six bits. */
  lemma SnapshotIff(s: SessionState, connection: u64)
    ensures SnapshotOf(s, connection).Some? <==> s.userId.Some? && s.phase == Online && 13 in s.privileges
    ensures SnapshotOf(s, connection).Some? ==>
              SnapshotOf(s, connection).value
              == PresenceSnapshot(connection, s.userId.value, s.displayName, s.iconId,
                                  if exists b :: b in s.privileges && b in {14, 15, 16, 17, 22, 32} then 2 else 0)
  {
    var admin: set<nat> := {14, 15, 16, 17, 22, 32};
    assert s.privileges !! admin <==> !exists b :: b in s.privileges && b in admin;
  }

  /** A login asks for the agreement exactly when bit 27 is missing. */
  lemma LoginPhase(s: SessionState, userId: i32, username: bytes, privileges: Privileges)
    ensures LoggedIn(s, userId, username, privileges).phase
            == if 27 in privileges then Online else PendingAgreement
  {
  }

  // ------------------------------------------------------------------ handlers

  class Session {
    var userId: Option<i32>
    var privileges: Privileges
    var phase: SessionPhase
    var displayName: bytes
    var iconId: u16
    var flags: ConnectionFlags
    var autoResponse: Option<bytes>

    function State(): SessionState
      reads this
    {
      SessionState(userId, privileges, phase, displayName, iconId, flags, autoResponse)
    }

    constructor ()
      ensures State() == FRESH_SESSION
    {
      userId := None;
      privileges := {};
      phase := Unauthenticated;
      displayName := [];
      iconId := 0;
      flags := NO_FLAGS;
      autoResponse := None;
    }

    method ApplyLogin(userId: i32, username: bytes, privileges: Privileges)
      modifies this
      ensures State() == LoggedIn(old(State()), userId, username, privileges)
    {
      this.userId := Some(userId);
      this.privileges := privileges;
      this.displayName := username;
      this.iconId := 0;
      this.autoResponse := None;
      this.flags := NO_FLAGS;
      this.phase := if NO_AGREEMENT !in this.privileges then PendingAgreement else Online;
    }

    method ApplyUserInfoUpdate(u: UserInfoUpdate)
      modifies this
      ensures State() == InfoUpdated(old(State()), u)
    {
      if u.displayName.Some? {
        displayName := u.displayName.value;
      }
      if u.iconId.Some? {
        iconId := u.iconId.value;
      }
      var finalFlags := if u.options.Some? then u.options.value else flags;
      if u.options.Some? {
        flags := u.options.value;
      }
      if finalFlags.autoResponse {
        if u.autoResponse.Some? {
          autoResponse := u.autoResponse;
        }
      } else {
        autoResponse := None;
      }
    }
  }

  /** What the account lookup and password check came to. */
  datatype LoginCheck = LookupFailed | Denied | Accepted(userId: i32, username: bytes)

  /** State after a handler, whether it ended without error, and the notice it sent. */
  datatype Handled = Handled(session: SessionState, ok: bool, outcome: Outcome)

  function Quiet(r: Registry): Outcome {
    Outcome(r, [], None)
  }

  predicate CanPublish(r: Registry, s: PresenceSnapshot) {
    NotifyChange(s).Ok? && Upserted(r, s).0.Ok?
  }

  function LoginHandled(s: SessionState, r: Registry, connection: u64, check: LoginCheck, replySent: bool)
    : Handled
  {
    if check.LookupFailed? then Handled(s, false, Quiet(r))
    else
      var s' := if check.Accepted? then LoggedIn(s, check.userId, check.username, GRANTED) else s;
      if !replySent then Handled(s', false, Quiet(r))
      else match SnapshotOf(s', connection)
           case None => Handled(s', true, Quiet(r))
           case Some(snapshot) => Handled(s', CanPublish(r, snapshot), Published(r, snapshot))
  }

  function UpdateHandled(s: SessionState, r: Registry, connection: u64, u: UserInfoUpdate, replySent: bool)
    : Handled
  {
    if s.userId.None? then Handled(s, replySent, Quiet(r))
    else
      var s' := InfoUpdated(s, u);
      match SnapshotOf(s', connection)
      case None => Handled(s', replySent, Quiet(r))
      case Some(snapshot) =>
        if NotifyChange(snapshot).Err? || !replySent then Handled(s', false, Quiet(r))
        else Handled(s', CanPublish(r, snapshot), Published(r, snapshot))
  }

  /** Publishes a checked snapshot and returns the notice with its targets. */
  method PublishSnapshot(presence: PresenceRegistry, snapshot: PresenceSnapshot)
    returns (ok: bool, outcome: Outcome)
    modifies presence
    ensures ok == CanPublish(old(presence.State()), snapshot)
    ensures outcome == Published(old(presence.State()), snapshot)
    ensures presence.State() == outcome.registry
  {
    hide Upserted, NotifyChange;
    var candidate := NotifyChange(snapshot);
    if candidate.Err? {
      return false, Quiet(presence.State());
    }
    var upsert := presence.Upsert(snapshot);
    if upsert.Err? {
      return false, Quiet(presence.State());
    }
    // The stored snapshot has the candidate's name, so its notice encodes as well.
    UpsertKeepsName(old(presence.State()), snapshot);
    var notice := NotifyChange(upsert.value.snapshot);
    return true, Outcome(presence.State(), upsert.value.peerIds, Some(notice.value));
  }

  lemma UpsertKeepsName(r: Registry, snapshot: PresenceSnapshot)
    requires NotifyChange(snapshot).Ok? && Upserted(r, snapshot).0.Ok?
    ensures NotifyChange(Upserted(r, snapshot).0.value.snapshot).Ok?
  {
    hide NotifyChange;
    ChangeIsNoticed(map[], snapshot);
    ChangeIsNoticed(map[], Upserted(r, snapshot).0.value.snapshot);
  }

  method ProcessLoginWithPresence(session: Session, presence: PresenceRegistry, connection: u64,
                                  check: LoginCheck, replySent: bool)
    returns (ok: bool, outcome: Outcome)
    modifies session, presence
    ensures Handled(session.State(), ok, outcome)
            == LoginHandled(old(session.State()), old(presence.State()), connection, check, replySent)
    ensures presence.State() == outcome.registry
  {
    hide Published, CanPublish;
    if check.LookupFailed? {
      return false, Quiet(presence.State());
    }
    if check.Accepted? {
      session.ApplyLogin(check.userId, check.username, GRANTED);
    }
    if !replySent {
      return false, Quiet(presence.State());
    }
    var snapshot := SnapshotOf(session.State(), connection);
    if snapshot.None? {
      return true, Quiet(presence.State());
    }
    ok, outcome := PublishSnapshot(presence, snapshot.value);
  }

  method ProcessSetClientUserInfo(session: Session, presence: PresenceRegistry, connection: u64,
                                  u: UserInfoUpdate, replySent: bool)
    returns (ok: bool, outcome: Outcome)
    modifies session, presence
    ensures Handled(session.State(), ok, outcome)
            == UpdateHandled(old(session.State()), old(presence.State()), connection, u, replySent)
    ensures presence.State() == outcome.registry
  {
    hide Published, CanPublish, NotifyChange;
    if session.userId.None? {
      return replySent, Quiet(presence.State());
    }
    session.ApplyUserInfoUpdate(u);
    var snapshot := SnapshotOf(session.State(), connection);
    if snapshot.Some? {
      var candidate := NotifyChange(snapshot.value);
      if candidate.Err? {
        return false, Quiet(presence.State());
      }
    }
    if !replySent {
      return false, Quiet(presence.State());
    }
    if snapshot.None? {
      return true, Quiet(presence.State());
    }
    ok, outcome := PublishSnapshot(presence, snapshot.value);
  }
}
