/** Reachable worlds whose user list cannot be sent: one long name, or many users. */
module ListLimits {
  import opened Allocator
  import opened Bytes
  import opened Headers
  import opened Params
  import opened Presence
  import opened PresenceWire
  import opened Replica
  import opened SessionRuns
  import opened Sessions

  // ------------------------------------------------------------------ crowds

  /** Connection `c` is opened and logs in under `name`. */
  function Joining(c: u64, name: bytes): seq<Event> {
    [Connect(c), Login(c, Accepted(1, name), true)]
  }

  function Crowd(n: u64, name: bytes): seq<Event> {
    if n == 0 then [] else Crowd(n - 1, name) + Joining(n - 1, name)
  }

  function Member(c: u16, name: bytes): PresenceSnapshot
    requires c < ID_COUNT
  {
    PresenceSnapshot(c, c + 1, name, 0, 0)
  }

  /** The registry once `n` users called `name` have joined: ids one to `n` in order. */
  function CrowdRegistry(n: u16, name: bytes): Registry
    requires n <= ID_COUNT
  {
    Registry(map c: u64 | c < n :: Member(c, name), n)
  }

  lemma NextFree(n: u16, name: bytes)
    requires n < ID_COUNT
    ensures Search(ActiveIds(CrowdRegistry(n, name).snapshots), n, ID_COUNT) == Found(Some(n + 1), n + 1)
  {
    var c: u16 := n + 1;
    assert Next(n) == c;
    assert c !in ActiveIds(CrowdRegistry(n, name).snapshots);
  }

  lemma CrowdGrows(n: u16, name: bytes, s: PresenceSnapshot)
    requires n < ID_COUNT && |name| < 0x1_0000
    requires s.connectionId == n && s.displayName == name && s.iconId == 0 && s.statusFlags == 0
    ensures Published(CrowdRegistry(n, name), s).registry == CrowdRegistry(n + 1, name)
  {
    hide Search, PeerIds, ActiveIds, NotifyChange;
    NextFree(n, name);
    var r := CrowdRegistry(n, name);
    ChangeIsNoticed(map[], s);
    assert n as u64 !in r.snapshots;
    assert Upserted(r, s).0.Ok?;
    assert r.snapshots[n as u64 := s.(userId := n + 1)] == CrowdRegistry(n + 1, name).snapshots;
    ChangeIsNoticed(map[], Upserted(r, s).0.value.snapshot);
  }

  lemma JoinRuns(w: World, c: u64, name: bytes)
    requires c !in w.sessions
    ensures var w' := After(After(w, Connect(c)), Login(c, Accepted(1, name), true));
            w'.sessions.Keys == w.sessions.Keys + {c}
            && w'.sessions[c].userId == Some(1)
            && w'.registry == Published(w.registry, PresenceSnapshot(c, 1, name, 0, 0)).registry
  {
    hide Published, CanPublish;
    GrantedShows();
  }

  lemma {:induction false} CrowdJoins(n: u16, name: bytes)
    requires n <= ID_COUNT && |name| < 0x1_0000
    ensures var w := Run(Crowd(n, name));
            w.registry == CrowdRegistry(n, name) && forall c: u64 :: c in w.sessions <==> c < n
  {
    hide Run, After, Published, CrowdRegistry;
    if n == 0 {
      NobodyJoins(name);
    } else {
      var m: u16 := n - 1;
      var before := Crowd(m, name);
      CrowdJoins(m, name);
      var connect, login := Connect(m), Login(m, Accepted(1, name), true);
      RunStep(before, connect);
      RunStep(before + [connect], login);
      assert before + [connect] + [login] == before + Joining(m, name);
      JoinRuns(Run(before), m, name);
      CrowdGrows(m, name, PresenceSnapshot(m, 1, name, 0, 0));
    }
  }

  lemma NobodyJoins(name: bytes)
    ensures Run(Crowd(0, name)) == EMPTY_WORLD && CrowdRegistry(0, name) == EMPTY_REGISTRY
  {
  }

  lemma {:induction false} EvenSize(xs: seq<PresenceSnapshot>, name: bytes)
    requires forall i :: 0 <= i < |xs| ==> xs[i].displayName == name
    ensures EntriesSize(xs) == |xs| * (12 + |name|)
    decreases |xs|
  {
    if xs != [] {
      EvenSize(xs[1..], name);
      assert |xs| * (12 + |name|) == (|xs| - 1) * (12 + |name|) + (12 + |name|);
    }
  }

  lemma CrowdSize(n: u16, name: bytes)
    requires n <= ID_COUNT && Consistent(CrowdRegistry(n, name))
    ensures ListSize(CrowdRegistry(n, name)) == 2 + n * (12 + |name|)
  {
    hide OnlineSnapshots;
    var r := CrowdRegistry(n, name);
    OnlineStrictlyAscending(r);
    var xs := OnlineSnapshots(r);
    assert |xs| == n by { CrowdCount(n, name); }
    forall i | 0 <= i < |xs| ensures xs[i].displayName == name {
      assert xs[i] in xs;
    }
    EvenSize(xs, name);
  }

  lemma {:induction false} CrowdCount(n: u16, name: bytes)
    ensures |CrowdRegistry(n, name).snapshots| == n
  {
    if n == 0 {
      assert CrowdRegistry(0, name).snapshots == map[];
    } else {
      var m: u16 := n - 1;
      CrowdCount(m, name);
      var before := CrowdRegistry(m, name).snapshots;
      assert CrowdRegistry(n, name).snapshots == before[m as u64 := Member(m, name)];
    }
  }

  /** `n` users who all log in under one name can be listed exactly when the name fits an entry
      and `n` such entries fit a transaction. */
  lemma CrowdListedIff(n: u16, name: bytes, req: FrameHeader, enabled: bool)
    requires n <= ID_COUNT && |name| < 0x1_0000 && req.ty == USER_NAME_LIST_ID
    ensures ListSent(enabled, req, Run(Crowd(n, name)).registry).Some?
            <==> (n == 0 || |name| <= 65527) && 2 + n * (12 + |name|) <= MAX_PAYLOAD_SIZE
    ensures UserNameListReply(req, OnlineSnapshots(Run(Crowd(n, name)).registry)).Panicked?
            <==> (n == 0 || |name| <= 65527) && 2 + n * (12 + |name|) >= 0x1_0000_0000
  {
    hide Run, ListSent, UserNameListReply, ListSize, OnlineSnapshots, Consistent;
    CrowdJoins(n, name);
    CrowdSize(n, name);
    var r := CrowdRegistry(n, name);
    ListSentIff(r, req, enabled);
    ListBuiltIff(r, req);
    assert NamesFit(r) <==> n == 0 || |name| <= 65527 by {
      if n > 0 {
        var c: u64 := 0;
        assert c in r.snapshots;
      }
    }
  }

  /** Seventeen users whose names each fit their entry are too many, and the full house with such
      names stops the program. */
  lemma NamesFitListDoesNot(name: bytes, req: FrameHeader, enabled: bool)
    requires |name| == 65527 && req.ty == USER_NAME_LIST_ID
    ensures NamesFit(Run(Crowd(17, name)).registry)
            && ListSent(enabled, req, Run(Crowd(17, name)).registry) == None
    ensures UserNameListReply(req, OnlineSnapshots(Run(Crowd(ID_COUNT, name)).registry)).Panicked?
  {
    hide Run, ListSent, UserNameListReply, OnlineSnapshots;
    CrowdListedIff(17, name, req, enabled);
    CrowdListedIff(ID_COUNT, name, req, enabled);
    CrowdJoins(17, name);
  }

  // ------------------------------------------------------------ one long name

  lemma RenameRuns(w: World, c: u64, name: bytes)
    requires WorldOk(w) && c in w.registry.snapshots && |name| < 0x1_0000
    ensures var w' := After(w, Update(c, UserInfoUpdate(Some(name), None, None, None), true));
            c in w'.registry.snapshots && w'.registry.snapshots[c].displayName == name
  {
    hide Published, NotifyChange, Upserted;
    var h := UpdateHandled(w.sessions[c], w.registry, c, UserInfoUpdate(Some(name), None, None, None), true);
    var s := SnapshotOf(h.session, c).value;
    ChangeIsNoticed(map[], s);
    UpsertFailsIff(w.registry, s);
    PublishedKeys(w.registry, s);
  }

  /** A user who has logged in takes a name of 65,528 bytes: the notice can be built, and from
      then on nobody gets the list. */
  lemma LongNameBlocksList(name: bytes, req: FrameHeader, enabled: bool)
    requires |name| == 65528
    ensures var rename := Update(0, UserInfoUpdate(Some(name), None, None, None), true);
            var w := Run(Joining(0, []) + [rename]);
            0 in w.registry.snapshots && NotifyChange(w.registry.snapshots[0]).Ok?
            && UserNameListReply(req, OnlineSnapshots(w.registry)).Refused?
            && ListSent(enabled, req, w.registry) == None
  {
    hide Run, UserNameListReply, OnlineSnapshots, NotifyChange, After;
    var rename := Update(0, UserInfoUpdate(Some(name), None, None, None), true);
    CrowdJoins(1, []);
    assert Crowd(1, []) == Joining(0, []) by { OneJoins(); }
    RunStep(Joining(0, []), rename);
    RenameRuns(Run(Joining(0, [])), 0, name);
    var r := Run(Joining(0, []) + [rename]).registry;
    ChangeIsNoticed(map[], r.snapshots[0]);
    ListBuiltIff(r, req);
  }

  lemma OneJoins()
    ensures Crowd(1, []) == Joining(0, [])
  {
    assert Crowd(0, []) == [];
    assert Crowd(1, []) == Crowd(0, []) + Joining(0, []);
  }
}
