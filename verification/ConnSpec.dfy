// The connection table (service/chat/conn_manager.go) as values: what each
// connection is, what it means for the three indexes to agree, and what each
// operation does to the table.
module ConnSpec {

  import opened Options

  /** A websocket; its identity is all that matters here. */
  type Socket = nat

  datatype Info = Info(
    snow: string,
    user: string,
    authorized: bool,
    conn: Socket,
    created: int,
    updated: int,
    ttl: int,
    expire: int,
    beat: int)

  /** `legacy` is the old index: one socket per user. */
  datatype State = State(bySnow: map<string, Info>, legacy: map<string, Socket>)

  datatype Conf = Conf(unauthTTL: int, authTTL: int, maxPerUser: int, evictOldest: bool)

  /** The defaults of the configuration, in seconds. */
  function Norm(c: Conf): Conf {
    c.(unauthTTL := if c.unauthTTL <= 0 then 300 else c.unauthTTL,
       authTTL := if c.authTTL <= 0 then 720000 else c.authTTL)
  }

  /** A connection made at `now`; it is authorised if it comes with a user. */
  function Born(s: string, u: string, conn: Socket, ttl: int, now: int): Info {
    Info(s, u, u != "", conn, now, now, ttl, now + ttl, now)
  }

  /** A heartbeat renews the lease. */
  function Renewed(i: Info, now: int): Info {
    i.(beat := now, expire := now + i.ttl, updated := now)
  }

  predicate Owns(i: Info, u: string) {
    i.authorized && i.user == u
  }

  /** The user's connections. */
  function Of(st: State, u: string): set<string> {
    set s | s in st.bySnow && Owns(st.bySnow[s], u)
  }

  /** The old index has an entry for exactly the users with connections, and it is one of theirs. */
  ghost predicate LegacyFor(st: State, u: string) {
    && (u in st.legacy <==> exists s :: s in st.bySnow && Owns(st.bySnow[s], u))
    && (u in st.legacy ==>
      exists s :: s in st.bySnow && Owns(st.bySnow[s], u) && st.bySnow[s].conn == st.legacy[u])
  }

  ghost predicate Consistent(st: State) {
    && (forall s :: s in st.bySnow ==>
      st.bySnow[s].snow == s && (st.bySnow[s].authorized <==> st.bySnow[s].user != ""))
    && (forall u :: LegacyFor(st, u))
  }

  /** The main and the per-user index hold the same connections: `byUser[u][s]` is `w` exactly when
      `bySnow[s]` is `w` and `w` is authorised for `u`. Inside an operation one connection may be
      `loose`, listed under no user yet, and one user may have been left an empty map as `room`. */
  ghost predicate IndexedBut<R>(bySnow: map<string, R>, byUser: map<string, map<string, R>>,
                                infos: map<string, Info>, loose: Option<string>,
                                room: Option<string>)
  {
    && infos.Keys == bySnow.Keys
    && (forall u :: u in byUser && Some(u) != room ==> byUser[u] != map[])
    && (forall u, s :: u in byUser && s in byUser[u] ==>
      s in bySnow && bySnow[s] == byUser[u][s] && Owns(infos[s], u))
    && (forall s :: s in bySnow && infos[s].authorized && Some(s) != loose ==>
      infos[s].user in byUser && s in byUser[infos[s].user])
  }

  ghost predicate Indexed<R>(bySnow: map<string, R>, byUser: map<string, map<string, R>>,
                             infos: map<string, Info>)
  {
    IndexedBut(bySnow, byUser, infos, None, None)
  }

  /** The parts of a connection the indexes depend on. */
  predicate SamePlace(i: Info, j: Info) {
    i.snow == j.snow && i.user == j.user && i.authorized == j.authorized && i.conn == j.conn
  }

  /** Changing a connection's times, or adding an unauthorised one, disturbs no index. */
  lemma TimesKeep(st: State, s: string, i: Info)
    requires Consistent(st) && s in st.bySnow && SamePlace(i, st.bySnow[s])
    ensures Consistent(st.(bySnow := st.bySnow[s := i]))
  {
    var t := st.(bySnow := st.bySnow[s := i]);
    forall u ensures LegacyFor(t, u) {
      assert LegacyFor(st, u);
      assert forall x :: x in t.bySnow ==> SamePlace(t.bySnow[x], st.bySnow[x]);
    }
  }

  lemma TimesIndexed<R>(bySnow: map<string, R>, byUser: map<string, map<string, R>>,
                        infos: map<string, Info>, s: string, i: Info)
    requires Indexed(bySnow, byUser, infos) && s in infos && SamePlace(i, infos[s])
    ensures Indexed(bySnow, byUser, infos[s := i])
  {
  }

  lemma AddUnauthorised(st: State, s: string, i: Info)
    requires Consistent(st) && s !in st.bySnow && i.snow == s && !i.authorized && i.user == ""
    ensures Consistent(st.(bySnow := st.bySnow[s := i]))
  {
    var t := st.(bySnow := st.bySnow[s := i]);
    forall u ensures LegacyFor(t, u) {
      assert LegacyFor(st, u);
      assert forall x :: x in st.bySnow ==> t.bySnow[x] == st.bySnow[x];
    }
  }

  lemma AddUnlisted<R>(bySnow: map<string, R>, byUser: map<string, map<string, R>>,
                       infos: map<string, Info>, s: string, i: Info, w: R)
    requires Indexed(bySnow, byUser, infos) && s !in bySnow && !i.authorized
    ensures Indexed(bySnow[s := w], byUser, infos[s := i])
  {
  }

  // ---- taking a connection out ----

  predicate SameLegacy(st: State, t: State, u: string) {
    (u in st.legacy <==> u in t.legacy) && (u in st.legacy ==> st.legacy[u] == t.legacy[u])
  }

  /** Connection `s` is gone; its user's old-index entry is repaired if it pointed there. */
  ghost predicate Dropped(st: State, s: string, t: State) {
    && s in st.bySnow && t.bySnow == st.bySnow - {s}
    && var i := st.bySnow[s];
    && (forall u :: !Owns(i, u) ==> SameLegacy(st, t, u))
    && (i.authorized ==>
      if i.user in st.legacy && st.legacy[i.user] != i.conn
      then SameLegacy(st, t, i.user) else LegacyFor(t, i.user))
  }

  lemma DroppedKeeps(st: State, s: string, t: State)
    requires Consistent(st) && Dropped(st, s, t)
    ensures Consistent(t)
  {
    var i := st.bySnow[s];
    forall u ensures LegacyFor(t, u) {
      assert LegacyFor(st, u);
      if !Owns(i, u) || (u in st.legacy && st.legacy[u] != i.conn) {
        assert SameLegacy(st, t, u);
        if u in st.legacy {
          var x :| x in st.bySnow && Owns(st.bySnow[x], u) && st.bySnow[x].conn == st.legacy[u];
          assert x in t.bySnow && Owns(t.bySnow[x], u);
        }
        assert forall x :: x in t.bySnow ==> x in st.bySnow && t.bySnow[x] == st.bySnow[x];
      }
    }
  }

  /** Only an entry that pointed at the connection can change. */
  lemma DroppedSpares(st: State, s: string, t: State)
    requires Dropped(st, s, t)
    ensures var i := st.bySnow[s];
      forall u :: u in st.legacy && (!Owns(i, u) || i.conn != st.legacy[u]) ==>
        u in t.legacy && t.legacy[u] == st.legacy[u]
  {
    forall u | u in st.legacy && (!Owns(st.bySnow[s], u) || st.bySnow[s].conn != st.legacy[u])
      ensures u in t.legacy && t.legacy[u] == st.legacy[u]
    {
      assert SameLegacy(st, t, u);
    }
  }

  /** The user's old-index entry points at none of the connections `gone`. */
  ghost predicate Spared(st: State, gone: set<string>, u: string) {
    && u in st.legacy
    && (forall s :: s in gone && s in st.bySnow && Owns(st.bySnow[s], u) ==>
      st.bySnow[s].conn != st.legacy[u])
  }

  /** The connections `gone` are out and the rest is untouched; an old-index entry is kept unless it
      pointed at one of those. */
  ghost predicate Without(st: State, gone: set<string>, t: State) {
    && t.bySnow == st.bySnow - gone
    && Consistent(t)
    && (forall u :: Spared(st, gone, u) ==> SameLegacy(st, t, u))
  }

  lemma WithoutNone(st: State)
    requires Consistent(st)
    ensures Without(st, {}, st)
  {
    assert st.bySnow - {} == st.bySnow;
  }

  lemma WithoutIs(st: State, gone: set<string>, t: State)
    requires Without(st, gone, t)
    ensures t.bySnow == st.bySnow - gone
    ensures forall s :: s in t.bySnow ==> s in st.bySnow && t.bySnow[s] == st.bySnow[s]
  {
  }

  lemma WithoutOneMore(st: State, gone: set<string>, mid: State, s: string, t: State)
    requires Without(st, gone, mid) && Dropped(mid, s, t)
    ensures Without(st, gone + {s}, t)
  {
    DroppedKeeps(mid, s, t);
    assert st.bySnow - (gone + {s}) == (st.bySnow - gone) - {s};
    var i := mid.bySnow[s];
    assert st.bySnow[s] == i;
    forall u | Spared(st, gone + {s}, u) ensures SameLegacy(st, t, u) {
      assert forall x :: x in gone ==> x in gone + {s};
      assert Spared(st, gone, u);
      assert SameLegacy(st, mid, u);
      if Owns(i, u) {
        assert s in gone + {s} && mid.legacy[u] != i.conn;
      }
      assert SameLegacy(mid, t, u);
    }
  }

  // ---- how the three maps change when `s` is unlinked ----

  function UserIndexWithout<R>(byUser: map<string, map<string, R>>, i: Info, s: string)
      : map<string, map<string, R>>
  {
    if !i.authorized || i.user !in byUser then byUser
    else
      var mm := byUser[i.user] - {s};
      if mm == map[] then byUser - {i.user} else byUser[i.user := mm]
  }

  lemma UnlinkIndexed<R>(bySnow: map<string, R>, byUser: map<string, map<string, R>>,
                         infos: map<string, Info>, s: string)
    requires Indexed(bySnow, byUser, infos) && s in bySnow
    ensures Indexed(bySnow - {s}, UserIndexWithout(byUser, infos[s], s), infos - {s})
  {
    var i := infos[s];
    var byUser' := UserIndexWithout(byUser, i, s);
    forall x | x in bySnow - {s} && infos[x].authorized
      ensures infos[x].user in byUser' && x in byUser'[infos[x].user]
    {
      if i.authorized && infos[x].user == i.user {
        assert x in byUser[i.user] - {s};
      }
    }
  }

  /** The per-user index lists exactly the user's connections. */
  ghost predicate Lists<R>(byUser: map<string, map<string, R>>, infos: map<string, Info>, u: string) {
    forall x :: (u in byUser && x in byUser[u]) <==> (x in infos && Owns(infos[x], u))
  }

  lemma IndexedLists<R>(bySnow: map<string, R>, byUser: map<string, map<string, R>>,
                        infos: map<string, Info>, loose: Option<string>, room: Option<string>,
                        u: string)
    requires IndexedBut(bySnow, byUser, infos, loose, room)
    requires loose.Some? && loose.value in infos ==> !Owns(infos[loose.value], u)
    ensures Lists(byUser, infos, u)
  {
  }

  /** The old index after unlinking: repaired with any connection that is left, or emptied. */
  lemma UnlinkDropped<R>(byUser: map<string, map<string, R>>, st: State, s: string, t: State)
    requires Consistent(st) && s in st.bySnow && t.bySnow == st.bySnow - {s}
    requires st.bySnow[s].authorized ==> Lists(byUser, st.bySnow, st.bySnow[s].user)
    requires var i := st.bySnow[s];
      if !i.authorized || i.user !in st.legacy || st.legacy[i.user] != i.conn
      then t.legacy == st.legacy
      else if i.user !in byUser || byUser[i.user] - {s} == map[] then t.legacy == st.legacy - {i.user}
      else (exists x ::
        x in byUser[i.user] - {s} && t.legacy == st.legacy[i.user := st.bySnow[x].conn])
    ensures Dropped(st, s, t)
  {
    var i := st.bySnow[s];
    assert LegacyFor(st, i.user);
    if i.authorized && st.legacy[i.user] == i.conn {
      assert i.user in byUser && s in byUser[i.user];
      var mm := byUser[i.user] - {s};
      if mm == map[] {
        assert forall x :: x in t.bySnow && Owns(t.bySnow[x], i.user) ==> x in mm;
      } else {
        var x :| x in mm && t.legacy == st.legacy[i.user := st.bySnow[x].conn];
        assert x in t.bySnow && Owns(t.bySnow[x], i.user);
      }
    }
  }

  // ---- all the connections of a user, or all that have expired ----

  function Expired(st: State, now: int): set<string> {
    set s | s in st.bySnow && st.bySnow[s].expire < now
  }

  function Unauthorised(st: State): set<string> {
    set s | s in st.bySnow && !st.bySnow[s].authorized
  }

  lemma RemoveUserKeeps(st: State, u: string, t: State)
    requires Consistent(st)
    requires t == State(st.bySnow - Of(st, u), st.legacy - {u})
    ensures Without(st, Of(st, u), t)
  {
    forall v ensures LegacyFor(t, v) {
      assert LegacyFor(st, v);
      assert v != u ==> forall x :: x in st.bySnow && Owns(st.bySnow[x], v) ==> x in t.bySnow;
    }
    forall v | Spared(st, Of(st, u), v) ensures SameLegacy(st, t, v) {
      assert LegacyFor(st, v);
    }
  }

  lemma RemoveUserIndexed<R>(bySnow: map<string, R>, byUser: map<string, map<string, R>>,
                             st: State, u: string)
    requires Indexed(bySnow, byUser, st.bySnow)
    ensures Indexed(bySnow - Of(st, u), byUser - {u}, st.bySnow - Of(st, u))
  {
  }

  // ---- listing a connection under a user ----

  /** Connection `i` as stored, listed under its user; the old index gets it if it had nothing. */
  function Attach(st: State, i: Info): State {
    State(st.bySnow[i.snow := i],
          if i.user in st.legacy then st.legacy else st.legacy[i.user := i.conn])
  }

  /** Listing keeps the old index right for everyone but a user the connection is taken from; for
      that user it stays right exactly if the entry points at another of their connections. */
  lemma AttachLegacy(st: State, i: Info, u: string)
    requires Consistent(st) && i.authorized && i.user != ""
    requires i.snow in st.bySnow && st.bySnow[i.snow].authorized ==> st.bySnow[i.snow].conn == i.conn
    ensures (i.snow in st.bySnow && Owns(st.bySnow[i.snow], u) ==> u == i.user) ==>
      LegacyFor(Attach(st, i), u)
    ensures i.snow in st.bySnow && Owns(st.bySnow[i.snow], u) && u != i.user ==>
      (LegacyFor(Attach(st, i), u) <==> PointsElsewhere(st, u, i.snow))
  {
    var t := Attach(st, i);
    assert LegacyFor(st, u);
    assert forall x :: x in st.bySnow && x != i.snow ==> x in t.bySnow && t.bySnow[x] == st.bySnow[x];
    assert i.snow in t.bySnow && t.bySnow[i.snow] == i;
  }

  /** The user's old-index entry points at one of the user's connections other than `s`. */
  ghost predicate PointsElsewhere(st: State, u: string, s: string) {
    && u in st.legacy
    && exists x :: x in st.bySnow && x != s && Owns(st.bySnow[x], u)
         && st.bySnow[x].conn == st.legacy[u]
  }

  lemma AttachKeeps(st: State, i: Info)
    requires Consistent(st) && i.authorized && i.user != ""
    requires i.snow in st.bySnow && st.bySnow[i.snow].authorized ==> st.bySnow[i.snow].conn == i.conn
    requires i.snow in st.bySnow && st.bySnow[i.snow].authorized ==> st.bySnow[i.snow].user == i.user
    ensures Consistent(Attach(st, i))
  {
    forall u ensures LegacyFor(Attach(st, i), u) {
      AttachLegacy(st, i, u);
    }
  }

  lemma AttachIndexed<R>(bySnow: map<string, R>, byUser: map<string, map<string, R>>,
                         infos: map<string, Info>, i: Info, w: R, mm: map<string, R>)
    requires IndexedBut(bySnow, byUser, infos, Some(i.snow), Some(i.user)) && i.authorized
    requires forall v :: v in byUser && v != i.user ==> i.snow !in byUser[v]
    requires mm == if i.user in byUser then byUser[i.user] else map[]
    ensures Indexed(bySnow[i.snow := w], byUser[i.user := mm[i.snow := w]], infos[i.snow := i])
  {
    var b, m, f := bySnow[i.snow := w], byUser[i.user := mm[i.snow := w]], infos[i.snow := i];
    assert i.user in m && i.snow in m[i.user];
    forall s | s in b && f[s].authorized ensures f[s].user in m && s in m[f[s].user] {
      assert s != i.snow ==> infos[s].user in byUser && s in byUser[infos[s].user];
    }
    forall v, s | v in m && s in m[v] ensures s in b && b[s] == m[v][s] && Owns(f[s], v) {
      assert s != i.snow ==> v in byUser && s in byUser[v];
    }
  }

  // ---- making room ----

  ghost predicate Oldest(st: State, u: string, s: string) {
    && s in Of(st, u)
    && forall x :: x in Of(st, u) ==> st.bySnow[s].created <= st.bySnow[x].created
  }

  /** A user at the cap loses one of the oldest connections; below it, nothing changes. */
  ghost predicate Evicted(st: State, u: string, cap: int, t: State) {
    if cap <= 0 || |Of(st, u)| < cap then t == st
    else exists s :: Oldest(st, u, s) && Dropped(st, s, t)
  }

  lemma OneEvicted(st: State, u: string, cap: int, s: string, t: State)
    requires cap <= |Of(st, u)| && cap > 0 && Oldest(st, u, s) && Dropped(st, s, t)
    ensures Evicted(st, u, cap, t)
  {
  }

  lemma EvictIndexed<R>(bySnow: map<string, R>, byUser: map<string, map<string, R>>,
                        infos: map<string, Info>, loose: Option<string>, u: string, s: string)
    requires IndexedBut(bySnow, byUser, infos, loose, None)
    requires u in byUser && s in byUser[u]
    ensures IndexedBut(bySnow - {s}, byUser[u := byUser[u] - {s}], infos - {s}, loose, Some(u))
  {
    var m := byUser[u := byUser[u] - {s}];
    forall x | x in bySnow - {s} && infos[x].authorized && Some(x) != loose
      ensures infos[x].user in m && x in m[infos[x].user]
    {
      assert infos[x].user in byUser && x in byUser[infos[x].user];
      assert infos[x].user == u ==> x in byUser[u] - {s};
    }
    forall v, x | v in m && x in m[v]
      ensures x in bySnow - {s} && bySnow[x] == m[v][x] && Owns(infos[x], v)
    {
      assert v in byUser && x in byUser[v];
      assert Owns(infos[s], u);
    }
  }

  /** Connection `s` is in use for another user. */
  predicate Anothers(st: State, s: string, u: string) {
    s in st.bySnow && st.bySnow[s].authorized && st.bySnow[s].user != u
  }

  /** Add after the user's connections are cleared: the indexes agree exactly if the connection was
      not in use for another user. */
  lemma AddOutcome<R>(bySnow: map<string, R>, byUser: map<string, map<string, R>>, st: State,
                      mid: State, i: Info, w: R)
    requires Consistent(mid) && Indexed(bySnow, byUser, mid.bySnow)
    requires i.authorized && i.user != "" && mid.bySnow == st.bySnow - Of(st, i.user)
    requires i.user !in byUser && i.user !in mid.legacy
    requires i.snow in bySnow ==> bySnow[i.snow] != w
    ensures Anothers(st, i.snow, i.user)
      ==> !Indexed(bySnow[i.snow := w], byUser[i.user := map[i.snow := w]], mid.bySnow[i.snow := i])
    ensures !(Anothers(st, i.snow, i.user))
      ==> (&& Consistent(Attach(mid, i))
           && Indexed(bySnow[i.snow := w], byUser[i.user := map[i.snow := w]],
                      mid.bySnow[i.snow := i]))
  {
    if Anothers(st, i.snow, i.user) {
      var v := st.bySnow[i.snow].user;
      assert i.snow in mid.bySnow && mid.bySnow[i.snow] == st.bySnow[i.snow];
      assert v in byUser && i.snow in byUser[v];
      var byUser' := byUser[i.user := map[i.snow := w]];
      assert v in byUser' && i.snow in byUser'[v];
    } else {
      AttachKeeps(mid, i);
      AttachIndexed(bySnow, byUser, mid.bySnow, i, w, map[]);
    }
  }

  lemma OneLess(all: set<string>, todo: set<string>, x: string)
    requires x in todo
    ensures x in all ==> all - (todo - {x}) == (all - todo) + {x}
    ensures x in all ==> |all - (todo - {x})| == |all - todo| + 1
    ensures x !in all ==> all - (todo - {x}) == all - todo
  {
    if x in all {
      assert all - (todo - {x}) == (all - todo) + {x};
    }
  }

  lemma MinusOneMore<V>(m: map<string, V>, a: set<string>, x: string)
    ensures m - a - {x} == m - (a + {x})
  {
  }

  lemma PutBack<V>(m: map<string, V>, k: string, v: V)
    ensures (m - {k})[k := v] == m[k := v]
  {
  }

  lemma UnauthorisedInside(st: State)
    ensures Unauthorised(st) <= st.bySnow.Keys
  {
  }

  /** What the per-user index says about one user's connections. */
  lemma UserMap<R>(bySnow: map<string, R>, byUser: map<string, map<string, R>>, st: State,
                   loose: Option<string>, u: string)
    requires IndexedBut(bySnow, byUser, st.bySnow, loose, None)
    requires loose.Some? && loose.value in st.bySnow ==> !Owns(st.bySnow[loose.value], u)
    ensures IndexedBut(bySnow, byUser, st.bySnow, loose, Some(u))
    ensures Lists(byUser, st.bySnow, u)
    ensures u in byUser ==> byUser[u].Keys == Of(st, u)
    ensures u !in byUser ==> Of(st, u) == {}
    ensures u in byUser ==> forall s :: s in byUser[u] ==> s in bySnow && byUser[u][s] == bySnow[s]
  {
    IndexedLists(bySnow, byUser, st.bySnow, loose, None, u);
  }

  // ---- binding a connection to a user ----

  /** What binding leaves of a connection: its identity and birth, under a new user with a new lease. */
  function BoundTo(i: Info, u: string, ttl: int, now: int): Info {
    i.(user := u, authorized := true, ttl := ttl, expire := now + ttl, updated := now, beat := now)
  }

  lemma BoundKeeps(i: Info, u: string, ttl: int, now: int)
    ensures BoundTo(i, u, ttl, now).snow == i.snow && BoundTo(i, u, ttl, now).conn == i.conn
    ensures Owns(BoundTo(i, u, ttl, now), u)
  {
  }

  /** Weakening: nothing is loose, so nothing but `s` is. */
  lemma LooseOrNot<R>(bySnow: map<string, R>, byUser: map<string, map<string, R>>,
                      infos: map<string, Info>, loose: Option<string>, u: string, s: string)
    requires IndexedBut(bySnow, byUser, infos, loose, Some(u))
    requires loose == None || loose == Some(s)
    ensures IndexedBut(bySnow, byUser, infos, Some(s), Some(u))
  {
  }

  /** Like Attach, except that a connection which has just been evicted is not stored again. */
  function Bound(st: State, i: Info): State {
    if i.snow in st.bySnow then Attach(st, i) else Attach(st, i).(bySnow := st.bySnow)
  }

  /** The first step of rebinding takes the connection from its present user's map only. */
  lemma DetachIndexed<R>(bySnow: map<string, R>, byUser: map<string, map<string, R>>,
                         infos: map<string, Info>, s: string)
    requires Indexed(bySnow, byUser, infos) && s in bySnow
    ensures var m := UserIndexWithout(byUser, infos[s], s);
      IndexedBut(bySnow, m, infos, Some(s), None) && forall v :: v in m ==> s !in m[v]
  {
    var i := infos[s];
    var m := UserIndexWithout(byUser, i, s);
    forall v, x | v in m && x in m[v] ensures v in byUser && x in byUser[v] && x != s {
      assert s in byUser[v] ==> Owns(i, v);
    }
    forall x | x in bySnow && infos[x].authorized && x != s
      ensures infos[x].user in m && x in m[infos[x].user]
    {
      if i.authorized && infos[x].user == i.user {
        assert x in byUser[i.user] - {s};
      }
    }
    forall v, x | v in m && x in m[v]
      ensures x in bySnow && bySnow[x] == m[v][x] && Owns(infos[x], v)
    {
      assert m[v][x] == byUser[v][x];
    }
  }

  /** Making room for one user takes nothing from the others. */
  lemma EvictedFacts(st: State, u: string, cap: int, t: State)
    requires Evicted(st, u, cap, t)
    ensures forall x :: x in t.bySnow ==> x in st.bySnow && t.bySnow[x] == st.bySnow[x]
    ensures forall x :: x in st.bySnow && !Owns(st.bySnow[x], u) ==> x in t.bySnow
    ensures forall v :: v != u ==> SameLegacy(st, t, v)
  {
  }

  /** A connection survives its own user's eviction if the user is below the cap or another of the
      user's connections is older; it does not if it is the only oldest one. */
  lemma EvictionChoice(st: State, u: string, cap: int, t: State, s: string)
    requires Evicted(st, u, cap, t) && s in Of(st, u)
    ensures cap <= 0 || |Of(st, u)| < cap || !Oldest(st, u, s) ==> s in t.bySnow
    ensures (0 < cap <= |Of(st, u)| && forall x :: Oldest(st, u, x) <==> x == s) ==> s !in t.bySnow
  {
  }

  /** Binding a connection that was another user's keeps the old index right exactly if the former
      user's entry points at another of that user's connections. */
  lemma RebindOutcome(st: State, u: string, cap: int, mid: State, i: Info)
    requires Consistent(mid) && Evicted(st, u, cap, mid)
    requires i.authorized && i.user == u && u != "" && i.snow in st.bySnow
    requires var j := st.bySnow[i.snow]; j.authorized && j.user != u && j.conn == i.conn
    ensures Consistent(Attach(mid, i)) <==> PointsElsewhere(st, st.bySnow[i.snow].user, i.snow)
  {
    var v := st.bySnow[i.snow].user;
    EvictedFacts(st, u, cap, mid);
    assert i.snow in mid.bySnow;
    assert SameLegacy(st, mid, v);
    assert PointsElsewhere(mid, v, i.snow) <==> PointsElsewhere(st, v, i.snow);
    var t := Attach(mid, i);
    AttachLegacy(mid, i, v);
    forall x | x != v ensures LegacyFor(t, x) {
      AttachLegacy(mid, i, x);
    }
  }

  /** A connection that is no other user's is in no other user's map. */
  lemma InNoOtherMap<R>(bySnow: map<string, R>, byUser: map<string, map<string, R>>,
                        infos: map<string, Info>, loose: Option<string>, room: Option<string>,
                        s: string, u: string)
    requires IndexedBut(bySnow, byUser, infos, loose, room)
    requires s in infos && infos[s].authorized ==> infos[s].user == u
    ensures forall v :: v in byUser && v != u ==> s !in byUser[v]
  {
  }

  /** A connection that was not in the table yet. */
  lemma NewAttached<R>(bySnow: map<string, R>, byUser: map<string, map<string, R>>, mid: State,
                       i: Info, w: R, mm: map<string, R>)
    requires Consistent(mid) && IndexedBut(bySnow, byUser, mid.bySnow, None, Some(i.user))
    requires i.authorized && i.user != "" && i.snow !in bySnow
    requires mm == if i.user in byUser then byUser[i.user] else map[]
    ensures Consistent(Attach(mid, i))
    ensures Indexed(bySnow[i.snow := w], byUser[i.user := mm[i.snow := w]], mid.bySnow[i.snow := i])
  {
    assert i.snow !in mid.bySnow;
    AttachKeeps(mid, i);
    LooseOrNot(bySnow, byUser, mid.bySnow, None, i.user, i.snow);
    InNoOtherMap(bySnow, byUser, mid.bySnow, None, Some(i.user), i.snow, i.user);
    AttachIndexed(bySnow, byUser, mid.bySnow, i, w, mm);
  }

  /** When a connection may be bound: always if unauthorised; if it is another user's, when that
      user's old-index entry points at another of their connections; if it is already the user's,
      when making room spared it. */
  ghost predicate Bindable(st: State, s: string, u: string, mid: State)
    requires s in st.bySnow
  {
    var i := st.bySnow[s];
    if !i.authorized then true
    else if i.user != u then PointsElsewhere(st, i.user, s)
    else s in mid.bySnow
  }

  lemma BindOutcome<R>(bySnow: map<string, R>, byUser: map<string, map<string, R>>, st: State,
                       cap: int, mid: State, s: string, u: string, i: Info, w: R, mm: map<string, R>)
    requires Consistent(st) && Consistent(mid) && s in st.bySnow && st.bySnow[s].snow == s
    requires u != "" && Evicted(st, u, cap, mid)
    requires i.snow == s && i.user == u && i.authorized && i.conn == st.bySnow[s].conn
    requires IndexedBut(bySnow, byUser, mid.bySnow, Some(s), Some(u))
    requires forall v :: v in byUser && v != u ==> s !in byUser[v]
    requires s in bySnow ==> bySnow[s] == w
    requires mm == if u in byUser then byUser[u] else map[]
    ensures (Consistent(Bound(mid, i))
             && Indexed(bySnow, byUser[u := mm[s := w]], Bound(mid, i).bySnow))
      <==> Bindable(st, s, u, mid)
  {
    EvictedFacts(st, u, cap, mid);
    hide Consistent, Evicted;
    var byUser' := byUser[u := mm[s := w]];
    if s in mid.bySnow {
      assert bySnow[s := w] == bySnow;
      AttachIndexed(bySnow, byUser, mid.bySnow, i, w, mm);
      if st.bySnow[s].authorized && st.bySnow[s].user != u {
        RebindOutcome(st, u, cap, mid, i);
      } else {
        AttachKeeps(mid, i);
      }
    } else {
      assert u in byUser' && s in byUser'[u] && s !in bySnow;
    }
  }

  /** The same condition before the call, where the eviction has not chosen yet: the user's own
      connection is safe below the cap or if another of the user's connections is older. */
  ghost predicate SafeToBind(st: State, s: string, u: string, cap: int)
    requires s in st.bySnow
  {
    var i := st.bySnow[s];
    if !i.authorized then true
    else if i.user != u then PointsElsewhere(st, i.user, s)
    else cap <= 0 || |Of(st, u)| < cap || !Oldest(st, u, s)
  }

  lemma DroppedExists(st: State, s: string) returns (t: State)
    requires Consistent(st) && s in st.bySnow
    ensures Dropped(st, s, t)
  {
    var i := st.bySnow[s];
    t := State(st.bySnow - {s}, st.legacy);
    if i.authorized && i.user in st.legacy && st.legacy[i.user] == i.conn {
      if x :| x in t.bySnow && Owns(t.bySnow[x], i.user) {
        t := t.(legacy := st.legacy[i.user := t.bySnow[x].conn]);
        assert LegacyFor(t, i.user);
      } else {
        t := t.(legacy := st.legacy - {i.user});
      }
    } else {
      assert LegacyFor(st, i.user);
    }
  }

  lemma {:induction false} OldestAmong(st: State, some: set<string>) returns (s: string)
    requires some != {} && some <= st.bySnow.Keys
    ensures s in some
    ensures forall x :: x in some ==> st.bySnow[s].created <= st.bySnow[x].created
    decreases some
  {
    s :| s in some;
    var rest := some - {s};
    assert forall x :: x in some && x != s ==> x in rest;
    if rest == {} {
    } else {
      var x := OldestAmong(st, rest);
      s := if st.bySnow[x].created < st.bySnow[s].created then x else s;
    }
  }

  lemma EvictedExists(st: State, u: string, cap: int) returns (t: State)
    requires Consistent(st)
    ensures Evicted(st, u, cap, t)
  {
    t := st;
    if 0 < cap <= |Of(st, u)| {
      var s := OldestAmong(st, Of(st, u));
      t := DroppedExists(st, s);
      assert Oldest(st, u, s);
    }
  }

  /** The guard is exact: whatever the eviction chooses, the connection can be bound, if and only if
      the guard holds. */
  lemma AlwaysBindableIff(st: State, s: string, u: string, cap: int)
    requires Consistent(st) && s in st.bySnow
    ensures (forall mid :: Evicted(st, u, cap, mid) ==> Bindable(st, s, u, mid))
      <==> SafeToBind(st, s, u, cap)
  {
    var i := st.bySnow[s];
    if SafeToBind(st, s, u, cap) {
      forall mid | Evicted(st, u, cap, mid) ensures Bindable(st, s, u, mid) {
        if Owns(i, u) {
          EvictionChoice(st, u, cap, mid, s);
        }
      }
    } else if i.user != u {
      var mid := EvictedExists(st, u, cap);
      assert Evicted(st, u, cap, mid) && !Bindable(st, s, u, mid);
    } else {
      var mid := DroppedExists(st, s);
      OneEvicted(st, u, cap, s, mid);
      assert Evicted(st, u, cap, mid) && !Bindable(st, s, u, mid);
    }
  }

  /** What a whole bind comes to, from the table as it is once there is room. */
  lemma MoveOutcome<R>(bySnow: map<string, R>, byUser: map<string, map<string, R>>, st: State,
                       cap: int, mid: State, loose: Option<string>, s: string, u: string, i: Info,
                       w: R, mm: map<string, R>)
    requires Consistent(st) && Consistent(mid) && s in st.bySnow && st.bySnow[s].snow == s
    requires u != "" && Evicted(st, u, cap, mid)
    requires i.snow == s && i.user == u && i.authorized && i.conn == st.bySnow[s].conn
    requires IndexedBut(bySnow, byUser, mid.bySnow, loose, Some(u))
    requires loose == None || loose == Some(s)
    requires forall v :: v in byUser && v != u ==> s !in byUser[v]
    requires s in bySnow ==> bySnow[s] == w
    requires mm == if u in byUser then byUser[u] else map[]
    ensures (Consistent(Bound(mid, i))
             && Indexed(bySnow, byUser[u := mm[s := w]], Bound(mid, i).bySnow))
      <==> Bindable(st, s, u, mid)
    ensures SafeToBind(st, s, u, cap) ==> Bindable(st, s, u, mid)
    ensures !Owns(st.bySnow[s], u) ==> s in mid.bySnow
  {
    EvictedFacts(st, u, cap, mid);
    LooseOrNot(bySnow, byUser, mid.bySnow, loose, u, s);
    BindOutcome(bySnow, byUser, st, cap, mid, s, u, i, w, mm);
    AlwaysBindableIff(st, s, u, cap);
  }

  // ---- the table as a state machine ----

  datatype Event =
    | AddUnauth(snow: string, socket: Option<Socket>, now: int)
    | AddAuthorized(user: string, snow: string, socket: Option<Socket>, now: int)
    | Add(user: string, snow: string, socket: Option<Socket>, now: int)
    | Bind(snow: string, user: string, now: int)
    | Beat(snow: string, now: int)
    | Drop(snow: string)
    | RemoveUser(user: string)
    | KickUnauth
    | Sweep(now: int)
    | Close

  /** What each operation does, under the conditions that keep the indexes in agreement. */
  ghost predicate Next(c: Conf, st: State, e: Event, t: State) {
    match e
    case AddUnauth(s, socket, now) =>
      if s == "" || socket.None? || s in st.bySnow then t == st
      else t == st.(bySnow := st.bySnow[s := Born(s, "", socket.value, c.unauthTTL, now)])
    case AddAuthorized(u, s, socket, now) =>
      if u == "" || s == "" || socket.None? || s in st.bySnow then t == st
      else (exists mid ::
        && Evicted(st, u, c.maxPerUser, mid)
        && t == Attach(mid, Born(s, u, socket.value, c.authTTL, now)))
    case Add(u, s, socket, now) =>
      if u == "" || socket.None? then t == st
      else (
        && !Anothers(st, s, u)
        && t == State((st.bySnow - Of(st, u))[s := Born(s, u, socket.value, c.authTTL, now)],
                      st.legacy[u := socket.value]))
    case Bind(s, u, now) =>
      if s == "" || u == "" || s !in st.bySnow then t == st
      else (exists mid ::
        && Evicted(st, u, c.maxPerUser, mid)
        && Bindable(st, s, u, mid)
        && t == Bound(mid, BoundTo(st.bySnow[s], u, c.authTTL, now)))
    case Beat(s, now) =>
      if s == "" || s !in st.bySnow then t == st
      else t == st.(bySnow := st.bySnow[s := Renewed(st.bySnow[s], now)])
    case Drop(s) => if s == "" || s !in st.bySnow then t == st else Dropped(st, s, t)
    case RemoveUser(u) => if u == "" then t == st else Without(st, Of(st, u), t)
    case KickUnauth => Without(st, Unauthorised(st), t)
    case Sweep(now) => Without(st, Expired(st, now), t)
    case Close => t == State(map[], map[])
  }
}
