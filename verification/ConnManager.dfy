// The connection table (service/chat/conn_manager.go) as the program keeps it: three maps over
// connection objects that the methods update in place, each method proved against ConnSpec. A
// method is one section under the table's lock.
module ConnManager {
  import opened Options
  import opened ConnSpec

  class WsConn {
    var snowID: string
    var userId: string
    var authorized: bool
    var conn: Socket
    var createdAt: int
    var updatedAt: int
    var ttl: int
    var expireAt: int
    var heartbeat: int

    constructor (snowID: string, userId: string, conn: Socket, ttl: int, now: int)
      ensures Describe() == Born(snowID, userId, conn, ttl, now)
      ensures this.snowID == snowID && this.userId == userId && this.conn == conn
      ensures authorized <==> userId != ""
      ensures createdAt == updatedAt == heartbeat == now
      ensures this.ttl == ttl && expireAt == now + ttl
    {
      this.snowID, this.userId, this.authorized, this.conn := snowID, userId, userId != "", conn;
      createdAt, updatedAt, heartbeat := now, now, now;
      this.ttl, expireAt := ttl, now + ttl;
    }

    function Describe(): Info
      reads this
    {
      Info(snowID, userId, authorized, conn, createdAt, updatedAt, ttl, expireAt, heartbeat)
    }

    /** Made at `now` for a user who is known. */
    predicate MadeFor(user: string, snow: string, socket: Socket, lease: int, now: int)
      reads this
    {
      && userId == user && authorized && snowID == snow && conn == socket
      && createdAt == updatedAt == heartbeat == now && ttl == lease && expireAt == now + lease
    }

    /** The fields BindUser changes. */
    method Authorise(user: string, ttl: int, now: int)
      modifies this
      ensures Describe() == BoundTo(old(Describe()), user, ttl, now)
      ensures userId == user && authorized && this.ttl == ttl
      ensures updatedAt == heartbeat == now && expireAt == now + ttl
      ensures snowID == old(snowID) && conn == old(conn) && createdAt == old(createdAt)
    {
      userId := user;
      authorized := true;
      this.ttl := ttl;
      expireAt := now + ttl;
      updatedAt := now;
      heartbeat := now;
    }
  }

  class ConnManager {
    var conns: map<string, Socket>
    var bySnow: map<string, WsConn>
    var byUser: map<string, map<string, WsConn>>
    const conf: Conf

    ghost function Infos(): (m: map<string, Info>)
      reads this, bySnow.Values
    {
      map s | s in bySnow :: bySnow[s].Describe()
    }

    ghost function View(): State
      reads this, bySnow.Values
    {
      State(Infos(), conns)
    }

    ghost predicate Valid()
      reads this, bySnow.Values
    {
      Consistent(View()) && Indexed(bySnow, byUser, Infos())
    }

    lemma Stored(s: string)
      requires s in bySnow
      ensures s in View().bySnow && View().bySnow[s] == bySnow[s].Describe()
    {
    }

    lemma InfosAre(m: map<string, Info>)
      requires m.Keys == bySnow.Keys
      requires forall s :: s in bySnow ==> m[s] == bySnow[s].Describe()
      ensures Infos() == m
    {
    }

    /** The sets of the specification, in terms of the connection objects. */
    lemma Objects(user: string, now: int)
      ensures forall s :: s in Of(View(), user) <==>
        s in bySnow && bySnow[s].authorized && bySnow[s].userId == user
      ensures forall s :: s in Expired(View(), now) <==> s in bySnow && bySnow[s].expireAt < now
      ensures forall s :: s in Unauthorised(View()) <==> s in bySnow && !bySnow[s].authorized
    {
    }

    ghost predicate OneObjectEach()
      reads this`bySnow
    {
      forall s, t :: s in bySnow && t in bySnow && s != t ==> bySnow[s] != bySnow[t]
    }

    lemma EachHasItsOwn()
      requires Valid()
      ensures OneObjectEach()
      ensures forall s :: s in bySnow ==> bySnow[s].snowID == s
    {
      assert forall s :: s in bySnow ==> Infos()[s] == bySnow[s].Describe();
    }

    constructor (conf: Conf)
      ensures Valid() && this.conf == Norm(conf) && View() == State(map[], map[])
      ensures this.conf.unauthTTL == if conf.unauthTTL <= 0 then 300 else conf.unauthTTL
      ensures this.conf.authTTL == if conf.authTTL <= 0 then 720000 else conf.authTTL
      ensures this.conf.maxPerUser == conf.maxPerUser && this.conf.evictOldest == conf.evictOldest
    {
      this.conf := Norm(conf);
      conns, bySnow, byUser := map[], map[], map[];
    }

    method AddUnauth(snowID: string, conn: Option<Socket>, now: int) returns (r: Option<WsConn>)
      requires Valid()
      modifies this`bySnow
      ensures Valid()
      ensures r.Some? <==> snowID != "" && conn.Some? && snowID !in old(bySnow)
      ensures r.None? ==> bySnow == old(bySnow)
      ensures r.Some? ==> fresh(r.value) && bySnow == old(bySnow)[snowID := r.value]
      ensures r.Some? ==>
        && r.value.snowID == snowID && !r.value.authorized && r.value.conn == conn.value
        && r.value.createdAt == r.value.heartbeat == now
        && r.value.ttl == conf.unauthTTL && r.value.expireAt == now + conf.unauthTTL
      ensures Next(conf, old(View()), Event.AddUnauth(snowID, conn, now), View())
    {
      hide Consistent, Indexed;
      if snowID == "" || conn.None? {
        return None;
      }
      if snowID in bySnow {
        return None;
      }
      var w := new WsConn(snowID, "", conn.value, conf.unauthTTL, now);
      AddUnauthorised(View(), snowID, w.Describe());
      AddUnlisted(bySnow, byUser, Infos(), snowID, w.Describe(), w);
      bySnow := bySnow[snowID := w];
      assert Infos() == old(Infos())[snowID := w.Describe()];
      return Some(w);
    }

    method Heartbeat(snowID: string, now: int) returns (ok: bool)
      requires Valid()
      modifies if snowID in bySnow then {bySnow[snowID]} else {}
      ensures Valid()
      ensures ok <==> snowID != "" && snowID in bySnow
      ensures ok ==> var w := bySnow[snowID];
        && w.heartbeat == w.updatedAt == now && w.expireAt == now + old(bySnow[snowID].ttl)
        && w.ttl == old(bySnow[snowID].ttl) && w.createdAt == old(bySnow[snowID].createdAt)
        && w.authorized == old(bySnow[snowID].authorized) && w.conn == old(bySnow[snowID].conn)
        && w.userId == old(bySnow[snowID].userId)
      ensures !ok ==> View() == old(View())
      ensures Next(conf, old(View()), Beat(snowID, now), View())
    {
      hide Consistent, Indexed;
      if snowID == "" {
        return false;
      }
      if snowID !in bySnow {
        return false;
      }
      var w := bySnow[snowID];
      EachHasItsOwn();
      ghost var i := Renewed(w.Describe(), now);
      TimesKeep(View(), snowID, i);
      TimesIndexed(bySnow, byUser, Infos(), snowID, i);
      w.heartbeat := now;
      w.expireAt := now + w.ttl;
      w.updatedAt := now;
      assert Infos() == old(Infos())[snowID := i];
      return true;
    }

    /** Takes `sid` out of the three indexes; an old-index entry that pointed at it is given to any
        connection the user has left. */
    method Unlink(sid: string)
      requires Valid() && sid in bySnow
      modifies this`conns, this`bySnow, this`byUser
      ensures Valid()
      ensures bySnow == old(bySnow) - {sid}
      ensures Dropped(old(View()), sid, View())
    {
      hide Consistent, IndexedBut, Dropped, Lists;
      var w := bySnow[sid];
      ghost var st, users := View(), byUser;
      UnlinkFacts(sid);
      UnlinkIndexed(bySnow, byUser, Infos(), sid);
      IndexedLists(bySnow, byUser, Infos(), None, None, w.userId);
      bySnow := bySnow - {sid};
      if w.authorized && w.userId != "" && w.userId in byUser {
        var mm := byUser[w.userId] - {sid};
        if mm == map[] {
          byUser := byUser - {w.userId};
          if w.userId in conns && conns[w.userId] == w.conn {
            conns := conns - {w.userId};
          }
        } else {
          byUser := byUser[w.userId := mm];
          if w.userId in conns && conns[w.userId] == w.conn {
            var rest :| rest in mm;
            conns := conns[w.userId := mm[rest].conn];
          }
        }
      }
      assert Infos() == st.bySnow - {sid};
      UnlinkDropped(users, st, sid, View());
      DroppedKeeps(st, sid, View());
    }

    lemma UnlinkFacts(sid: string)
      requires Valid() && sid in bySnow
      ensures var w := bySnow[sid];
        && (w.authorized <==> w.userId != "")
        && (w.authorized ==> w.userId in byUser && w.userId in conns)
        && (w.authorized ==> forall s :: s in byUser[w.userId] ==>
          s in bySnow && byUser[w.userId][s] == bySnow[s])
    {
      assert LegacyFor(View(), bySnow[sid].userId);
    }

    method RemoveBySnow(snowID: string)
      requires Valid()
      modifies this`conns, this`bySnow, this`byUser
      ensures Valid()
      ensures bySnow == if snowID == "" then old(bySnow) else old(bySnow) - {snowID}
      ensures snowID == "" || snowID !in old(bySnow) ==> View() == old(View())
      ensures snowID in old(bySnow) ==> var w := old(bySnow)[snowID];
        forall u :: u in old(conns) && (!w.authorized || w.userId != u || w.conn != old(conns)[u]) ==>
          u in conns && conns[u] == old(conns)[u]
      ensures Next(conf, old(View()), Drop(snowID), View())
    {
      if snowID == "" {
        return;
      }
      if snowID !in bySnow {
        return;
      }
      Stored(snowID);
      ghost var st := View();
      Unlink(snowID);
      DroppedSpares(st, snowID, View());
    }

    /** Unlinks one more connection of a pass over the table. */
    method UnlinkNext(ghost st: State, ghost gone: set<string>, sid: string)
      requires Valid() && Without(st, gone, View()) && sid in bySnow
      modifies this`conns, this`bySnow, this`byUser
      ensures Valid() && Without(st, gone + {sid}, View())
      ensures bySnow == old(bySnow) - {sid}
    {
      hide Consistent, IndexedBut, Dropped, Without;
      ghost var mid := View();
      Unlink(sid);
      WithoutOneMore(st, gone, mid, sid, View());
    }

    /** Removes every connection whose time is up, visiting the table in any order. */
    method SweepOnce(now: int)
      requires Valid()
      modifies this`conns, this`bySnow, this`byUser
      ensures Valid()
      ensures forall s :: s in bySnow <==> s in old(bySnow) && old(bySnow)[s].expireAt >= now
      ensures forall s :: s in bySnow ==> bySnow[s] == old(bySnow)[s]
      ensures Next(conf, old(View()), Sweep(now), View())
    {
      Objects("", now);
      hide Valid, Without, Of, Expired, Unauthorised;
      Visit(now);
    }

    /** The loop of SweepOnce. */
    method Visit(now: int)
      requires Valid()
      modifies this`conns, this`bySnow, this`byUser
      ensures Valid()
      ensures bySnow == old(bySnow) - Expired(old(View()), now)
      ensures Without(old(View()), Expired(old(View()), now), View())
    {
      hide Consistent, IndexedBut, Without;
      ghost var st, all := View(), Expired(View(), now);
      WithoutNone(st);
      var todo := bySnow.Keys;
      assert all - todo == {} && all - {} == all;
      while todo != {}
        invariant Valid() && Without(st, all - todo, View())
        invariant todo <= bySnow.Keys <= st.bySnow.Keys && bySnow == old(bySnow) - (all - todo)
        decreases todo
      {
        var sid :| sid in todo;
        WithoutIs(st, all - todo, View());
        Stored(sid);
        OneLess(all, todo, sid);
        MinusOneMore(old(bySnow), all - todo, sid);
        if now > bySnow[sid].expireAt {
          UnlinkNext(st, all - todo, sid);
        }
        todo := todo - {sid};
      }
    }

    /** Unlinks the connection if it is unauthorised. */
    method KickOne(ghost st: State, ghost gone: set<string>, sid: string) returns (kicked: bool)
      requires Valid() && Without(st, gone, View()) && sid in bySnow
      modifies this`conns, this`bySnow, this`byUser
      ensures kicked <==> sid in Unauthorised(st)
      ensures Valid() && Without(st, if kicked then gone + {sid} else gone, View())
      ensures bySnow == if kicked then old(bySnow) - {sid} else old(bySnow)
    {
      hide Consistent, IndexedBut, Without;
      WithoutIs(st, gone, View());
      Stored(sid);
      if !bySnow[sid].authorized {
        UnlinkNext(st, gone, sid);
        return true;
      }
      return false;
    }

    method KickAllUnauth() returns (n: nat)
      requires Valid()
      modifies this`conns, this`bySnow, this`byUser
      ensures Valid()
      ensures forall s :: s in bySnow <==> s in old(bySnow) && old(bySnow)[s].authorized
      ensures forall s :: s in bySnow ==> bySnow[s] == old(bySnow)[s]
      ensures Next(conf, old(View()), KickUnauth, View())
      ensures n == |Unauthorised(old(View()))|
    {
      Objects("", 0);
      hide Valid, Without, Of, Expired, Unauthorised;
      n := KickEach();
    }

    /** The loop of KickAllUnauth. */
    method KickEach() returns (n: nat)
      requires Valid()
      modifies this`conns, this`bySnow, this`byUser
      ensures Valid()
      ensures bySnow == old(bySnow) - Unauthorised(old(View()))
      ensures Without(old(View()), Unauthorised(old(View())), View())
      ensures n == |Unauthorised(old(View()))|
    {
      hide Valid, Consistent, IndexedBut, Without, Unauthorised;
      ghost var st, all := View(), Unauthorised(View());
      WithoutNone(st) by { Agrees(); }
      UnauthorisedInside(st);
      n := 0;
      var todo := bySnow.Keys;
      assert all - todo == {} && all - {} == all;
      while todo != {}
        invariant Valid() && Without(st, all - todo, View())
        invariant todo <= bySnow.Keys && bySnow == old(bySnow) - (all - todo)
        invariant n == |all - todo|
        decreases todo
      {
        var sid :| sid in todo;
        OneLess(all, todo, sid);
        MinusOneMore(old(bySnow), all - todo, sid);
        var kicked := KickOne(st, all - todo, sid);
        if kicked {
          n := n + 1;
        }
        todo := todo - {sid};
      }
    }

    lemma Agrees()
      requires Valid()
      ensures Consistent(View())
    {
    }

    /** Forgets the user's connections: what Remove and Add do first. */
    method Clear(user: string)
      requires Valid()
      modifies this`conns, this`bySnow, this`byUser
      ensures Valid() && byUser == old(byUser) - {user}
      ensures bySnow == old(bySnow) - Of(old(View()), user)
      ensures conns == old(conns) - {user}
      ensures Without(old(View()), Of(old(View()), user), View())
    {
      hide Consistent, IndexedBut, Lists;
      ghost var st := View();
      UserFacts(user);
      RemoveUserIndexed(bySnow, byUser, st, user);
      conns := conns - {user};
      if user in byUser {
        var mm := byUser[user];
        var todo := mm.Keys;
        while todo != {}
          invariant todo <= mm.Keys
          invariant bySnow == old(bySnow) - (mm.Keys - todo)
          invariant conns == old(conns) - {user} && byUser == old(byUser)
          decreases todo
        {
          var sid :| sid in todo;
          assert old(bySnow) - (mm.Keys - todo) - {sid} == old(bySnow) - (mm.Keys - (todo - {sid}));
          todo := todo - {sid};
          bySnow := bySnow - {sid};
        }
        assert mm.Keys - todo == mm.Keys;
        byUser := byUser - {user};
      } else {
        assert old(bySnow) - {} == bySnow && old(byUser) - {user} == byUser;
      }
      assert Infos() == st.bySnow - Of(st, user);
      RemoveUserKeeps(st, user, View());
    }

    lemma UserFacts(user: string)
      requires Valid()
      ensures user in byUser ==> byUser[user].Keys == Of(View(), user)
      ensures user !in byUser ==> Of(View(), user) == {}
      ensures user in byUser ==> forall s :: s in byUser[user] ==>
        s in bySnow && byUser[user][s] == bySnow[s]
    {
      IndexedLists(bySnow, byUser, Infos(), None, None, user);
    }

    method Remove(user: string)
      requires Valid()
      modifies this`conns, this`bySnow, this`byUser
      ensures Valid()
      ensures user == "" ==> View() == old(View())
      ensures user != "" ==>
        && Of(View(), user) == {} && user !in byUser && conns == old(conns) - {user}
        && (forall s :: s in bySnow <==>
              s in old(bySnow) && (!old(bySnow)[s].authorized || old(bySnow)[s].userId != user))
        && (forall s :: s in bySnow ==> bySnow[s] == old(bySnow)[s])
      ensures Next(conf, old(View()), RemoveUser(user), View())
    {
      Objects(user, 0);
      if user == "" {
        return;
      }
      Clear(user);
    }

    method Close()
      requires Valid()
      modifies this`conns, this`bySnow, this`byUser
      ensures Valid() && Next(conf, old(View()), Event.Close, View())
      ensures conns == map[] && bySnow == map[] && byUser == map[]
    {
      conns, bySnow, byUser := map[], map[], map[];
    }

    /** The user keeps this connection only. The indexes agree afterwards exactly if `sid` was not in
        use for another user. */
    method Add(user: string, sid: string, conn: Option<Socket>, now: int)
      requires Valid()
      modifies this`conns, this`bySnow, this`byUser
      ensures user == "" || conn.None? ==> Valid() && View() == old(View())
      ensures user != "" && conn.Some? ==>
        View() == State((old(View()).bySnow - Of(old(View()), user))[sid :=
                          Born(sid, user, conn.value, conf.authTTL, now)],
                        old(View()).legacy[user := conn.value])
      ensures user != "" && conn.Some? ==>
        && sid in bySnow && fresh(bySnow[sid])
        && bySnow[sid].MadeFor(user, sid, conn.value, conf.authTTL, now)
        && user in byUser && byUser[user] == map[sid := bySnow[sid]]
        && conns == old(conns)[user := conn.value]
        && (forall s :: s != sid ==>
              (s in bySnow <==>
               s in old(bySnow) && (!old(bySnow)[s].authorized || old(bySnow)[s].userId != user)))
        && (forall s :: s in bySnow && s != sid ==> bySnow[s] == old(bySnow)[s])
      ensures user != "" && conn.Some? ==> (Valid() <==> !Anothers(old(View()), sid, user))
      ensures Valid() ==> Next(conf, old(View()), Event.Add(user, sid, conn, now), View())
    {
      Objects(user, 0);
      hide Consistent, Indexed, IndexedBut, Without, Of, Expired, Unauthorised;
      if user == "" || conn.None? {
        return;
      }
      ghost var st := View();
      Clear(user);
      WithoutIs(st, Of(st, user), View());
      Place(st, user, sid, conn.value, now);
    }

    /** The rest of Add, once the user has no connection. */
    method Place(ghost st: State, user: string, sid: string, conn: Socket, now: int)
      requires Valid() && user != "" && user !in conns && user !in byUser
      requires View().bySnow == st.bySnow - Of(st, user) && conns == st.legacy - {user}
      modifies this`conns, this`bySnow, this`byUser
      ensures View() == State((st.bySnow - Of(st, user))[sid :=
                                Born(sid, user, conn, conf.authTTL, now)],
                              st.legacy[user := conn])
      ensures sid in bySnow && fresh(bySnow[sid]) && bySnow == old(bySnow)[sid := bySnow[sid]]
      ensures bySnow[sid].MadeFor(user, sid, conn, conf.authTTL, now)
      ensures conns == old(conns)[user := conn]
      ensures byUser == old(byUser)[user := map[sid := bySnow[sid]]]
      ensures Valid() <==> !Anothers(st, sid, user)
    {
      hide Consistent, Indexed, IndexedBut, Of;
      ghost var mid, b, m := View(), bySnow, byUser;
      var w := new WsConn(sid, user, conn, conf.authTTL, now);
      conns := conns[user := conn];
      bySnow := bySnow[sid := w];
      byUser := byUser[user := map[sid := w]];
      assert Infos() == mid.bySnow[sid := w.Describe()];
      PutBack(st.legacy, user, conn);
      AddOutcome(b, m, st, mid, w.Describe(), w);
    }

    // ---- the cap on connections per user ----

    /** One of the connections made first. */
    method FindOldest(mm: map<string, WsConn>) returns (oldest: string)
      requires mm != map[]
      ensures oldest in mm
      ensures forall x :: x in mm ==> mm[oldest].createdAt <= mm[x].createdAt
    {
      var found: Option<string> := None;
      var todo := mm.Keys;
      while todo != {}
        invariant todo <= mm.Keys
        invariant found.None? <==> todo == mm.Keys
        invariant found.Some? ==> found.value in mm
        invariant found.Some? ==>
          forall x :: x in mm.Keys - todo ==> mm[found.value].createdAt <= mm[x].createdAt
        decreases todo
      {
        var sid :| sid in todo;
        if found.None? || mm[sid].createdAt < mm[found.value].createdAt {
          found := Some(sid);
        }
        todo := todo - {sid};
      }
      return found.value;
    }

    /** A call must not reach the cap when eviction is off. */
    ghost predicate RoomOrEviction(user: string)
      reads this, bySnow.Values
    {
      conf.maxPerUser > 0 && |Of(View(), user)| >= conf.maxPerUser ==> conf.evictOldest
    }

    ghost predicate Midway(loose: Option<string>, room: Option<string>)
      reads this, bySnow.Values
    {
      Consistent(View()) && IndexedBut(bySnow, byUser, Infos(), loose, room)
    }

    /** The connection, if any, that is under no user yet is not this user's. */
    ghost predicate NotOf(user: string, loose: Option<string>)
      reads this, bySnow.Values
    {
      loose.Some? && loose.value in bySnow ==> !Owns(bySnow[loose.value].Describe(), user)
    }

    lemma MemberOf(user: string, loose: Option<string>, s: string)
      requires Midway(loose, None) && NotOf(user, loose)
      requires user in byUser && s in byUser[user]
      ensures s in bySnow && byUser[user][s] == bySnow[s] && Owns(Infos()[s], user)
      ensures Lists(byUser, Infos(), user)
    {
      UserMap(bySnow, byUser, View(), loose, user);
    }

    lemma OldestOf(user: string, loose: Option<string>, s: string)
      requires Midway(loose, None) && NotOf(user, loose)
      requires user in byUser && s in byUser[user]
      requires forall x :: x in byUser[user] ==>
        byUser[user][s].createdAt <= byUser[user][x].createdAt
      ensures Oldest(View(), user, s)
    {
      UserMap(bySnow, byUser, View(), loose, user);
    }

    /** Takes one of the user's oldest connections out. The user's map stays, even when this
        empties it. */
    method Evict(user: string, ghost loose: Option<string>) returns (oldest: string)
      requires Midway(loose, None) && NotOf(user, loose)
      requires user in byUser && byUser[user] != map[]
      modifies this`conns, this`bySnow, this`byUser
      ensures Midway(loose, Some(user))
      ensures Oldest(old(View()), user, oldest) && Dropped(old(View()), oldest, View())
      ensures var mm := old(byUser)[user];
        oldest in mm && forall y :: y in mm ==> mm[oldest].createdAt <= mm[y].createdAt
      ensures bySnow == old(bySnow) - {oldest}
      ensures byUser == old(byUser)[user := old(byUser)[user] - {oldest}]
    {
      hide *;
      oldest := FindOldest(byUser[user]);
      OldestOf(user, loose, oldest);
      TakeOut(user, oldest, loose);
    }

    method TakeOut(user: string, oldest: string, ghost loose: Option<string>)
      requires Midway(loose, None) && NotOf(user, loose)
      requires user in byUser && oldest in byUser[user]
      modifies this`conns, this`bySnow, this`byUser
      ensures Midway(loose, Some(user))
      ensures Dropped(old(View()), oldest, View())
      ensures bySnow == old(bySnow) - {oldest}
      ensures byUser == old(byUser)[user := old(byUser)[user] - {oldest}]
    {
      hide Consistent, IndexedBut, Dropped, Lists, NotOf;
      ghost var st, users := View(), byUser;
      MemberOf(user, loose, oldest);
      EvictIndexed(bySnow, byUser, Infos(), loose, user, oldest);
      var w := byUser[user][oldest];
      var mm := byUser[user] - {oldest};
      if user in conns && conns[user] == w.conn {
        if mm != map[] {
          var rest :| rest in mm;
          MemberOf(user, loose, rest);
          conns := conns[user := mm[rest].conn];
        } else {
          conns := conns - {user};
        }
      }
      byUser := byUser[user := mm];
      bySnow := bySnow - {oldest};
      assert Infos() == st.bySnow - {oldest};
      UnlinkDropped(users, st, oldest, View());
      DroppedKeeps(st, oldest, View());
    }

    /** Makes room for one more connection of the user: at the cap, one of those made first goes. */
    method EnsureRoom(user: string, ghost loose: Option<string>)
      returns (ghost evicted: Option<string>)
      requires Midway(loose, None) && NotOf(user, loose) && RoomOrEviction(user)
      modifies this`conns, this`bySnow, this`byUser
      ensures Midway(loose, Some(user))
      ensures Evicted(old(View()), user, conf.maxPerUser, View())
      ensures evicted.Some? <==>
        conf.maxPerUser > 0 && |MapOf(old(byUser), user)| >= conf.maxPerUser
      ensures |MapOf(old(byUser), user)| == |Of(old(View()), user)|
      ensures forall s :: s in bySnow ==> s in old(bySnow) && bySnow[s] == old(bySnow)[s]
      ensures forall v :: v in byUser && v != user ==> v in old(byUser) && byUser[v] == old(byUser)[v]
      ensures evicted.None? ==>
        bySnow == old(bySnow) && conns == old(conns) && byUser == old(byUser)
      ensures evicted.Some? ==>
        && var x, mm := evicted.value, MapOf(old(byUser), user);
        && x in mm && (forall y :: y in mm ==> mm[x].createdAt <= mm[y].createdAt)
        && bySnow == old(bySnow) - {x} && byUser == old(byUser)[user := mm - {x}]
    {
      hide *;
      RoomFacts(user, loose);
      ghost var st := View();
      evicted := None;
      if conf.maxPerUser <= 0 {
        return;
      }
      var mm := MapOf(byUser, user);
      if |mm| < conf.maxPerUser {
        return;
      }
      UserKnown(user);
      var oldest := Evict(user, loose);
      OneEvicted(st, user, conf.maxPerUser, oldest, View());
      evicted := Some(oldest);
    }

    lemma UserKnown(user: string)
      requires MapOf(byUser, user) != map[]
      ensures user in byUser && MapOf(byUser, user) == byUser[user]
    {
    }

    lemma RoomFacts(user: string, loose: Option<string>)
      requires Midway(loose, None) && NotOf(user, loose)
      ensures Midway(loose, Some(user))
      ensures |MapOf(byUser, user)| == |Of(View(), user)|
      ensures conf.maxPerUser <= 0 || |Of(View(), user)| < conf.maxPerUser ==>
        Evicted(View(), user, conf.maxPerUser, View())
    {
      UserMap(bySnow, byUser, View(), loose, user);
      var mm := MapOf(byUser, user);
      assert |mm| == |mm.Keys|;
    }

    // ---- connections of a user ----

    /** Registers a connection that is already known to be the user's. */
    method AddAuthorized(user: string, snowID: string, conn: Option<Socket>, now: int)
      returns (ok: bool, ghost evicted: Option<string>)
      requires Valid()
      requires user != "" && snowID != "" && conn.Some? && snowID !in bySnow ==> RoomOrEviction(user)
      modifies this`conns, this`bySnow, this`byUser
      ensures Valid()
      ensures ok <==> user != "" && snowID != "" && conn.Some? && snowID !in old(bySnow)
      ensures !ok ==> View() == old(View()) && evicted.None?
      ensures ok && evicted.None? ==>
        conns == if user in old(conns) then old(conns) else old(conns)[user := conn.value]
      ensures ok ==>
        && snowID in bySnow && fresh(bySnow[snowID])
        && bySnow[snowID].MadeFor(user, snowID, conn.value, conf.authTTL, now)
        && (evicted.Some? <==>
              conf.maxPerUser > 0 && |MapOf(old(byUser), user)| >= conf.maxPerUser)
        && (evicted.None? ==> bySnow == old(bySnow)[snowID := bySnow[snowID]])
        && (evicted.Some? ==>
              && var x, mm := evicted.value, MapOf(old(byUser), user);
              && x in mm && (forall y :: y in mm ==> mm[x].createdAt <= mm[y].createdAt)
              && bySnow == (old(bySnow) - {x})[snowID := bySnow[snowID]])
      ensures Next(conf, old(View()), Event.AddAuthorized(user, snowID, conn, now), View())
    {
      hide Consistent, IndexedBut, Evicted, Of;
      if user == "" || snowID == "" || conn.None? {
        return false, None;
      }
      if snowID in bySnow {
        return false, None;
      }
      evicted := EnsureRoom(user, None);
      ghost var mid := View();
      Enlist(user, snowID, conn.value, now);
      assert Evicted(old(View()), user, conf.maxPerUser, mid);
      return true, evicted;
    }

    /** The rest of AddAuthorized, once there is room. */
    method Enlist(user: string, snowID: string, conn: Socket, now: int)
      requires Midway(None, Some(user)) && user != "" && snowID !in bySnow
      modifies this`conns, this`bySnow, this`byUser
      ensures Valid()
      ensures View() == Attach(old(View()), Born(snowID, user, conn, conf.authTTL, now))
      ensures snowID in bySnow && fresh(bySnow[snowID])
      ensures bySnow == old(bySnow)[snowID := bySnow[snowID]]
      ensures bySnow[snowID].MadeFor(user, snowID, conn, conf.authTTL, now)
      ensures conns == if user in old(conns) then old(conns) else old(conns)[user := conn]
    {
      hide Consistent, IndexedBut;
      ghost var mid, b, m := View(), bySnow, byUser;
      var w := new WsConn(snowID, user, conn, conf.authTTL, now);
      bySnow := bySnow[snowID := w];
      var mm: map<string, WsConn> := if user in byUser then byUser[user] else map[];
      byUser := byUser[user := mm[snowID := w]];
      if user !in conns {
        conns := conns[user := conn];
      }
      ghost var i := w.Describe();
      InfosAre(mid.bySnow[snowID := i]);
      NewAttached(b, m, mid, i, w, mm);
    }

    /** Gives an unauthorised connection to a user, or moves an authorised one to another user.
        Before the call: the indexes are sure to agree afterwards exactly if the connection is
        unauthorised; or is another user's, whose old-index entry points at another of their
        connections; or is the user's own, and the user is below the cap or has an older one.
        After the call: they agree exactly if, in the last case, the connection was not evicted to
        make room for itself. */
    method BindUser(snowID: string, user: string, now: int)
      returns (ok: bool, ghost mid: State, ghost evicted: Option<string>)
      requires Valid()
      requires snowID != "" && user != "" && snowID in bySnow ==> RoomOrEviction(user)
      modifies this`conns, this`bySnow, this`byUser
      modifies if snowID in bySnow then {bySnow[snowID]} else {}
      ensures ok <==> snowID != "" && user != "" && snowID in old(bySnow)
      ensures !ok ==> Valid() && View() == old(View())
      ensures ok ==> (evicted.Some? <==>
        conf.maxPerUser > 0 && |Of(old(View()), user)| >= conf.maxPerUser)
      ensures ok && evicted.Some? ==> bySnow == old(bySnow) - {evicted.value}
      ensures ok && evicted.None? ==> bySnow == old(bySnow)
      ensures ok && evicted.None? ==>
        conns == if user in old(conns) then old(conns)
                 else old(conns)[user := old(bySnow[snowID].conn)]
      ensures ok ==> var st := old(View());
        var i := st.bySnow[snowID];
        && Evicted(st, user, conf.maxPerUser, mid)
        && View() == Bound(mid, BoundTo(i, user, conf.authTTL, now))
        && (!Owns(i, user) ==> snowID in mid.bySnow)
        && (Valid() <==> Bindable(st, snowID, user, mid))
        && (SafeToBind(st, snowID, user, conf.maxPerUser) ==> Valid())
      ensures ok && snowID in bySnow ==>
        && var w := bySnow[snowID];
        && w == old(bySnow)[snowID] && w.userId == user && w.authorized && w.snowID == snowID
        && w.ttl == conf.authTTL && w.expireAt == now + conf.authTTL && w.heartbeat == now
        && w.createdAt == old(bySnow[snowID].createdAt) && w.conn == old(bySnow[snowID].conn)
        && user in byUser && snowID in byUser[user] && byUser[user][snowID] == w
      ensures Valid() ==> Next(conf, old(View()), Bind(snowID, user, now), View())
    {
      mid, evicted := View(), None;
      if snowID == "" || user == "" {
        return false, mid, None;
      }
      if snowID !in bySnow {
        return false, mid, None;
      }
      Stored(snowID);
      EachHasItsOwn();
      ghost var st := View();
      mid, evicted := Move(bySnow[snowID], user, now);
      hide Valid, Consistent, Evicted, Of, Bindable, SafeToBind;
      if snowID in bySnow {
        Stored(snowID);
      }
      return true, mid, evicted;
    }

    /** The rest of BindUser, for a connection that is there. */
    method Move(w: WsConn, user: string, now: int)
      returns (ghost mid: State, ghost evicted: Option<string>)
      requires Valid() && w.snowID in bySnow && bySnow[w.snowID] == w
      requires user != "" && RoomOrEviction(user)
      modifies this`conns, this`bySnow, this`byUser, w
      ensures old(w.snowID) in bySnow ==> bySnow[old(w.snowID)] == w
      ensures evicted.None? ==> bySnow == old(bySnow)
      ensures evicted.None? ==>
        conns == if user in old(conns) then old(conns) else old(conns)[user := old(w.conn)]
      ensures evicted.Some? ==> bySnow == old(bySnow) - {evicted.value}
      ensures evicted.Some? <==>
        conf.maxPerUser > 0 && |Of(old(View()), user)| >= conf.maxPerUser
      ensures user in byUser && old(w.snowID) in byUser[user] && byUser[user][old(w.snowID)] == w
      ensures var st, s := old(View()), old(w.snowID);
        var i := st.bySnow[s];
        && Evicted(st, user, conf.maxPerUser, mid)
        && View() == Bound(mid, BoundTo(i, user, conf.authTTL, now))
        && (!Owns(i, user) ==> s in mid.bySnow)
        && (Valid() <==> Bindable(st, s, user, mid))
        && (SafeToBind(st, s, user, conf.maxPerUser) ==> Valid())
    {
      hide Consistent, IndexedBut, Evicted, Of, Bindable, Bound, SafeToBind;
      ghost var st, s := View(), w.snowID;
      EachHasItsOwn();
      ghost var loose := Detach(w, user);
      evicted := EnsureRoom(user, loose);
      mid := View();
      ghost var b, m := bySnow, byUser;
      assert forall v :: v in m && v != user ==> s !in m[v];
      Settle(w, user, now);
      MoveOutcome(b, m, st, conf.maxPerUser, mid, loose, s, user,
                  BoundTo(st.bySnow[s], user, conf.authTTL, now), w, MapOf(m, user));
    }

    /** Takes an authorised connection out of its present user's map, if that is another user. */
    method Detach(w: WsConn, user: string) returns (ghost loose: Option<string>)
      requires Valid() && w.snowID in bySnow && bySnow[w.snowID] == w
      modifies this`byUser
      ensures loose == if w.authorized && w.userId != user then Some(w.snowID) else None
      ensures View() == old(View())
      ensures Midway(loose, None) && NotOf(user, loose)
      ensures forall v :: v in byUser && v != user ==> w.snowID !in byUser[v]
    {
      hide Consistent, IndexedBut;
      UnlinkFacts(w.snowID);
      if w.authorized && w.userId != "" && w.userId != user {
        DetachIndexed(bySnow, byUser, Infos(), w.snowID);
        if w.userId in byUser {
          var mm := byUser[w.userId] - {w.snowID};
          if mm == map[] {
            byUser := byUser - {w.userId};
          } else {
            byUser := byUser[w.userId := mm];
          }
        }
        InfosAre(old(Infos()));
        return Some(w.snowID);
      }
      InNoOtherMap(bySnow, byUser, Infos(), None, None, w.snowID, user);
      return None;
    }

    static function MapOf(users: map<string, map<string, WsConn>>, user: string): map<string, WsConn> {
      if user in users then users[user] else map[]
    }

    /** The rest of BindUser, once there is room. */
    method Settle(w: WsConn, user: string, now: int)
      requires forall s :: s in bySnow ==> (bySnow[s] == w <==> s == w.snowID)
      modifies this`conns, this`byUser, w
      ensures byUser == old(byUser)[user :=
        MapOf(old(byUser), user)[old(w.snowID) := w]]
      ensures View() == Bound(old(View()), BoundTo(old(w.Describe()), user, conf.authTTL, now))
      ensures w.userId == user && w.authorized && w.ttl == conf.authTTL
      ensures w.expireAt == now + conf.authTTL && w.heartbeat == now
      ensures w.snowID == old(w.snowID) && w.conn == old(w.conn) && w.createdAt == old(w.createdAt)
      ensures conns == if user in old(conns) then old(conns) else old(conns)[user := w.conn]
    {
      hide BoundTo;
      ghost var mid, i := View(), BoundTo(w.Describe(), user, conf.authTTL, now);
      BoundKeeps(w.Describe(), user, conf.authTTL, now);
      var mm: map<string, WsConn> := if user in byUser then byUser[user] else map[];
      byUser := byUser[user := mm[w.snowID := w]];
      w.Authorise(user, conf.authTTL, now);
      if user !in conns {
        conns := conns[user := w.conn];
      }
      InfosAre(if i.snow in mid.bySnow then mid.bySnow[i.snow := i] else mid.bySnow);
    }

    /** One connection of the user: the one asked for by its ID, or, for an empty ID, any. */
    method Get(user: string, connId: string) returns (r: Option<Socket>)
      requires Valid()
      ensures connId != "" ==>
        (r.Some? <==> connId in bySnow && bySnow[connId].authorized && bySnow[connId].userId == user)
      ensures connId != "" && r.Some? ==> r.value == bySnow[connId].conn
      ensures connId == "" ==>
        (r.Some? <==> exists s :: s in bySnow && bySnow[s].authorized && bySnow[s].userId == user)
      ensures connId == "" && r.Some? ==>
        exists s :: s in bySnow && bySnow[s].authorized && bySnow[s].userId == user
          && bySnow[s].conn == r.value
    {
      Objects(user, 0);
      UserFacts(user);
      assert LegacyFor(View(), user);
      if connId != "" {
        if user in byUser && connId in byUser[user] {
          return Some(byUser[user][connId].conn);
        }
        return None;
      }
      if user in conns {
        return Some(conns[user]);
      }
      return None;
    }
  }
}
