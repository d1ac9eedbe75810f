// The presence API: every call runs its script on the shared database in place.
module OnlineStore {
  import opened Options
  import opened Presence
  import opened PresenceIndex

  datatype Error = UnauthDisabled | RecordExists

  predicate IsSpace(c: char) {
    || c == ' ' || '\t' <= c <= '\r' || c == '\U{85}' || c == '\U{A0}' || c == '\U{1680}'
    || '\U{2000}' <= c <= '\U{200A}' || c == '\U{2028}' || c == '\U{2029}' || c == '\U{202F}'
    || c == '\U{205F}' || c == '\U{3000}'
  }

  /** The code points with the White_Space property. */
  lemma SpacesAre(c: char)
    ensures IsSpace(c) <==> c in {' ', '\t', '\n', '\r', '\U{0B}', '\U{0C}', '\U{85}', '\U{A0}',
      '\U{1680}', '\U{2000}', '\U{2001}', '\U{2002}', '\U{2003}', '\U{2004}', '\U{2005}', '\U{2006}',
      '\U{2007}', '\U{2008}', '\U{2009}', '\U{200A}', '\U{2028}', '\U{2029}', '\U{202F}',
      '\U{205F}', '\U{3000}'}
  {
  }

  predicate Blank(s: string) {
    forall i :: 0 <= i < |s| ==> IsSpace(s[i])
  }

  /** No index but `i` differs. */
  ghost predicate OtherIndexesSame(s: Store, t: Store, i: IndexKey) {
    forall j: IndexKey :: j != i ==>
      (j in s.zsets <==> j in t.zsets) && (j in s.zsets ==> s.zsets[j] == t.zsets[j])
  }

  /** No session key but `k` differs, and no user's index does. */
  ghost predicate OnlyTouches(s: Store, t: Store, k: Key) {
    && s.sess - {k} == t.sess - {k}
    && (forall i: IndexKey :: i.UserIndex? ==>
      (i in s.zsets <==> i in t.zsets) && (i in s.zsets ==> s.zsets[i] == t.zsets[i]))
  }

  /** Session `k` is gone with its entry in index `i`, and nothing else has changed. */
  ghost predicate GoneFrom(s: Store, t: Store, i: IndexKey, k: Key, now: int) {
    && k !in t.sess && t.sess == s.sess - {k}
    && k !in View(t, i, now).score && View(t, i, now).score == View(s, i, now).score - {k}
    && OtherIndexesSame(s, t, i)
  }

  lemma BindFacts(c: Conf, s: Store, user: string, snow: string, now: int)
    ensures var (t, rc) := Bind(c, s, user, snow, now);
      && (rc == -1 <==> Alive(s, Auth(user, snow), now))
      && (rc == 1 <==> !Alive(s, Auth(user, snow), now) && Alive(s, Unauth(snow), now))
      && (rc == -1 ==> t == s)
      && (rc != 1 ==> t.sess == s.sess && OtherIndexesSame(s, t, UnauthIndex))
      && (rc == 1 ==>
            && t.sess == (s.sess - {Unauth(snow)})[Auth(user, snow) := now + c.ttl]
            && Unauth(snow) !in View(t, UnauthIndex, now).score
            && (c.ttl >= 1 ==>
                  View(t, UserIndex(user), now).score
                    == View(s, UserIndex(user), now).score[Auth(user, snow) := now + c.ttl]))
  {
    if c.ttl >= 1 && Bind(c, s, user, snow, now).1 == 1 {
      BindView(c, s, user, snow, now);
    }
  }

  class OnlineStore {
    const conf: Conf
    var db: Store

    constructor (conf: Conf)
      ensures this.conf == conf && db == EMPTY
    {
      this.conf, db := conf, EMPTY;
    }

    /** `snow` is the fresh ID drawn for the connection. */
    method Connect(snow: string, now: int) returns (r: Option<Key>)
      modifies this
      ensures db == Effect(conf, old(db), DoConnect(snow), now)
      ensures r.None? ==> db == old(db)
      ensures r.Some? ==>
        && db.sess == old(db).sess[Unauth(snow) := now + conf.unauthTTL] && Alive(db, r.value, now)
        && OtherIndexesSame(old(db), db, UnauthIndex)
        && var z := View(db, UnauthIndex, now);
        && z.score == View(old(db), UnauthIndex, now).score[Unauth(snow) := now + conf.unauthTTL]
        && z.expiry == Some(now + 2 * conf.unauthTTL)
      ensures r == if conf.unauthTTL <= 0 then None else Some(Unauth(snow))
    {
      if conf.unauthTTL <= 0 {
        return None;
      }
      var key, expAt := Unauth(snow), now + conf.unauthTTL;
      db := db.(sess := db.sess[key := if conf.useEXAT then expAt else now + conf.unauthTTL]);
      AddView(db, UnauthIndex, key, expAt, now);
      db := ZAdd(db, UnauthIndex, key, expAt, now);
      ExpireView(db, UnauthIndex, key, conf.unauthTTL * 2, now);
      db := ExpireIndex(db, UnauthIndex, conf.unauthTTL * 2, now);
      return Some(key);
    }

    method HeartbeatUnauth(snow: string, now: int)
      modifies this
      ensures db == Effect(conf, old(db), DoHeartbeatUnauth(snow), now)
      ensures Alive(db, Unauth(snow), now) <==> Alive(old(db), Unauth(snow), now)
      ensures OnlyTouches(old(db), db, Unauth(snow))
      ensures conf.unauthTTL <= 0 ==> db == old(db)
      ensures conf.unauthTTL > 0 && Alive(db, Unauth(snow), now) ==>
        db.sess[Unauth(snow)] == now + conf.unauthTTL
      ensures conf.unauthTTL > 0 ==>
        var z := View(db, UnauthIndex, now);
        && Unauth(snow) in z.score && z.score[Unauth(snow)] == now + conf.unauthTTL
        && z.expiry == Some(now + 2 * conf.unauthTTL)
    {
      if conf.unauthTTL <= 0 {
        return;
      }
      var key, expAt := Unauth(snow), now + conf.unauthTTL;
      if Alive(db, key, now) {
        db := db.(sess := db.sess[key := if conf.useEXAT then expAt else now + conf.unauthTTL]);
      }
      db := ZAdd(db, UnauthIndex, key, expAt, now);
      db := ExpireIndex(db, UnauthIndex, conf.unauthTTL * 2, now);
    }

    /** Turns an unauthorised session into an authorised one. */
    method Authorize(user: string, snow: string, now: int) returns (ok: bool, error: Option<Error>)
      modifies this
      ensures db == Effect(conf, old(db), DoAuthorize(user, snow), now)
      ensures ok <==> Binds(conf, old(db), DoAuthorize(user, snow), now)
      ensures ok <==>
        && conf.unauthTTL > 0
        && !Alive(old(db), Auth(user, snow), now) && Alive(old(db), Unauth(snow), now)
      ensures error.Some? ==> db == old(db)
      ensures !ok ==> db.sess == old(db).sess && OtherIndexesSame(old(db), db, UnauthIndex)
      ensures ok ==>
        && db.sess == (old(db).sess - {Unauth(snow)})[Auth(user, snow) := now + conf.ttl]
        && Unauth(snow) !in View(db, UnauthIndex, now).score
        && (conf.ttl >= 1 ==>
              View(db, UserIndex(user), now).score
                == View(old(db), UserIndex(user), now).score[Auth(user, snow) := now + conf.ttl])
      ensures error == (
        if conf.unauthTTL <= 0 then Some(UnauthDisabled)
        else if Alive(old(db), Auth(user, snow), now) then Some(RecordExists) else None)
    {
      hide Bind, View;
      if conf.unauthTTL <= 0 {
        return false, Some(UnauthDisabled);
      }
      BindFacts(conf, db, user, snow, now);
      var rc := RunBind(user, snow, now);
      match rc {
        case 1 => return true, None;
        case -1 => return false, Some(RecordExists);
        case _ => return false, None;
      }
    }

    /** The binding script. */
    method RunBind(user: string, snow: string, now: int) returns (rc: int)
      modifies this
      ensures (db, rc) == Bind(conf, old(db), user, snow, now)
    {
      var kUnauth, kAuth, expAt := Unauth(snow), Auth(user, snow), now + conf.ttl;
      if Alive(db, kAuth, now) {
        return -1;
      }
      if !Alive(db, kUnauth, now) {
        db := ZRem(db, UnauthIndex, kUnauth, now);
        return 0;
      }
      db := ZRem(db, UnauthIndex, kUnauth, now);
      db := Del(db, kUnauth);
      if conf.useEXAT {
        db := db.(sess := db.sess[kAuth := expAt]);
      } else {
        db := db.(sess := db.sess[kAuth := now + conf.ttl]);
      }
      db := ZAdd(db, UserIndex(user), kAuth, expAt, now);
      db := ExpireIndex(db, UserIndex(user), conf.ttl * 2, now);
      return 1;
    }

    /** False when the session is gone: kicked, expired or never made. */
    method HeartbeatAuthorized(user: string, snow: string, now: int) returns (ok: bool)
      modifies this
      ensures db == Effect(conf, old(db), DoHeartbeat(user, snow), now)
      ensures ok <==> Alive(old(db), Auth(user, snow), now)
      ensures !ok ==> db == old(db)
      ensures ok ==>
        && db.sess == old(db).sess[Auth(user, snow) := now + conf.ttl]
        && OtherIndexesSame(old(db), db, UserIndex(user))
    {
      var zUser, kConn, expAt := UserIndex(user), Auth(user, snow), now + conf.ttl;
      if !Alive(db, kConn, now) {
        return false;
      }
      db := db.(sess := db.sess[kConn := if conf.useEXAT then expAt else now + conf.ttl]);
      var z := View(db, zUser, now);
      db := Put(db, zUser, z.(score := z.score - Due(z, now)));
      db := ZAdd(db, zUser, kConn, expAt, now);
      if conf.indexTTL > 0 {
        db := ExpireIndex(db, zUser, conf.indexTTL, now);
      }
      return true;
    }

    /** The script the sweeps and the queries share: members that are due go, one at a time, with
        their keys; an index with members left is kept for another hour. */
    method SweepIndex(i: IndexKey, now: int) returns (victims: set<Key>)
      modifies this
      ensures db == Sweep(old(db), i, now)
      ensures victims == Due(View(old(db), i, now), now)
      ensures db.sess == old(db).sess - victims
      ensures View(db, i, now).score == View(old(db), i, now).score - victims
      ensures View(db, i, now).score != map[] ==> View(db, i, now).expiry == Some(now + 3600)
      ensures OtherIndexesSame(old(db), db, i)
    {
      var z := View(db, i, now);
      db := Put(db, i, z);  // an expired index is dropped when it is touched
      victims := Due(z, now);
      var left := victims;
      assert z.score - {} == z.score && db.sess - {} == db.sess && victims - left == {};
      while left != {}
        invariant left <= victims
        invariant db == Gone(old(db), i, z, victims - left)
        decreases left
      {
        var v :| v in left;
        SweepOne(old(db), i, z, victims - left, v, now);
        assert victims - left + {v} == victims - (left - {v});
        db := ZRem(db, i, v, now);
        db := Del(db, v);
        left := left - {v};
      }
      assert victims - left == victims;
      if View(db, i, now).score != map[] {
        db := ExpireIndex(db, i, 3600, now);
      }
    }

    method SweepUnauth(now: int) returns (victims: set<Key>)
      modifies this
      ensures db == Effect(conf, old(db), DoSweepUnauth, now)
      ensures victims == if conf.unauthTTL <= 0 then {} else Due(View(old(db), UnauthIndex, now), now)
      ensures db.sess == old(db).sess - victims && OtherIndexesSame(old(db), db, UnauthIndex)
      ensures View(db, UnauthIndex, now).score == View(old(db), UnauthIndex, now).score - victims
    {
      if conf.unauthTTL <= 0 {
        return {};
      }
      victims := SweepIndex(UnauthIndex, now);
    }

    method SweepAuthedUser(user: string, now: int) returns (victims: set<Key>)
      modifies this
      ensures db == Effect(conf, old(db), DoSweep(user), now)
      ensures victims == Due(View(old(db), UserIndex(user), now), now)
      ensures db.sess == old(db).sess - victims && OtherIndexesSame(old(db), db, UserIndex(user))
      ensures View(db, UserIndex(user), now).score == View(old(db), UserIndex(user), now).score - victims
    {
      victims := SweepIndex(UserIndex(user), now);
    }

    method OfflineUnauth(snow: string, now: int) returns (existed: bool)
      modifies this
      ensures db == Effect(conf, old(db), DoOfflineUnauth(snow), now)
      ensures existed <==> conf.unauthTTL > 0 && Alive(old(db), Unauth(snow), now)
      ensures conf.unauthTTL <= 0 ==> db == old(db)
      ensures conf.unauthTTL > 0 ==> GoneFrom(old(db), db, UnauthIndex, Unauth(snow), now)
    {
      if conf.unauthTTL <= 0 {
        return false;
      }
      existed := Alive(db, Unauth(snow), now);
      db := Del(db, Unauth(snow));
      db := ZRem(db, UnauthIndex, Unauth(snow), now);
    }

    /** A blank user means the session is not authorised yet. */
    method Offline(user: string, snow: string, now: int) returns (existed: bool)
      modifies this
      ensures Blank(user) <==> forall i :: 0 <= i < |user| ==> IsSpace(user[i])
      ensures Blank(user) ==>
        && db == Effect(conf, old(db), DoOfflineUnauth(snow), now)
        && (existed <==> conf.unauthTTL > 0 && Alive(old(db), Unauth(snow), now))
        && (conf.unauthTTL <= 0 ==> db == old(db))
        && (conf.unauthTTL > 0 ==> GoneFrom(old(db), db, UnauthIndex, Unauth(snow), now))
      ensures !Blank(user) ==>
        && db == Effect(conf, old(db), DoOffline(user, snow), now)
        && (existed <==> Alive(old(db), Auth(user, snow), now))
        && GoneFrom(old(db), db, UserIndex(user), Auth(user, snow), now)
        && LiveKeys(db, user, now) == LiveKeys(old(db), user, now) - {Auth(user, snow)}
        && (forall u :: u != user ==> LiveKeys(db, u, now) == LiveKeys(old(db), u, now))
    {
      if Blank(user) {
        existed := OfflineUnauth(snow, now);
        return;
      }
      existed := Alive(db, Auth(user, snow), now);
      db := Del(db, Auth(user, snow));
      db := ZRem(db, UserIndex(user), Auth(user, snow), now);
    }

    /** Logs out every listed session of the user; on a store whose index agrees, all of them. */
    method ForceLogoutUser(user: string, now: int) returns (gone: set<Key>)
      modifies this
      ensures db == Effect(conf, old(db), DoLogout(user), now)
      ensures gone == View(old(db), UserIndex(user), now).score.Keys
      ensures db.sess == old(db).sess - gone && UserIndex(user) !in db.zsets
      ensures OtherIndexesSame(old(db), db, UserIndex(user))
      ensures Inv(conf, old(db), now) ==>
        forall u :: u != user ==> LiveKeys(db, u, now) == LiveKeys(old(db), u, now)
      ensures Inv(conf, old(db), now) ==>
        LiveKeys(old(db), user, now) <= gone && LiveKeys(db, user, now) == {}
    {
      gone := View(db, UserIndex(user), now).score.Keys;
      var left := gone;
      while left != {}
        invariant left <= gone
        invariant db == Store(old(db).sess - (gone - left), old(db).zsets)
        decreases left
      {
        var k :| k in left;
        assert old(db).sess - (gone - left) - {k} == old(db).sess - (gone - (left - {k}));
        db := Del(db, k);
        left := left - {k};
      }
      assert gone - left == gone;
      db := db.(zsets := db.zsets - {UserIndex(user)});
      if Inv(conf, old(db), now) {
        assert UserInv(conf, old(db), user, now);
      }
    }

    /** Counts the live sessions of the user on this node. */
    method IsOnline(user: string, now: int) returns (online: bool, count: nat)
      modifies this
      ensures db == Effect(conf, old(db), DoSweep(user), now)
      ensures online <==> count > 0
      ensures count == |Listed(old(db), user, now)|
      ensures Inv(conf, old(db), now) ==> count == |LiveKeys(old(db), user, now)|
    {
      var victims := SweepIndex(UserIndex(user), now);
      count := |Ahead(View(db, UserIndex(user), now), now)|;
      online := count > 0;
      if Inv(conf, old(db), now) {
        QueriesAreScans(conf, old(db), user, now);
      }
    }

    method GetActiveSessions(user: string, now: int) returns (actives: set<Key>)
      modifies this
      ensures db == Effect(conf, old(db), DoSweep(user), now)
      ensures actives == Listed(old(db), user, now)
      ensures Inv(conf, old(db), now) ==> actives == LiveKeys(old(db), user, now)
    {
      var victims := SweepIndex(UserIndex(user), now);
      actives := Ahead(View(db, UserIndex(user), now), now);
      if Inv(conf, old(db), now) {
        QueriesAreScans(conf, old(db), user, now);
      }
    }

    /** A live session of the user that expires last, if there is one. */
    method GetNewestSession(user: string, now: int) returns (r: Option<Key>)
      modifies this
      ensures db == Effect(conf, old(db), DoSweep(user), now)
      ensures r.None? <==> Listed(old(db), user, now) == {}
      ensures r.Some? ==> r.value in Listed(old(db), user, now)
      ensures Inv(conf, old(db), now) ==>
        var live := LiveKeys(old(db), user, now);
        && (r.None? <==> live == {})
        && (r.Some? ==> r.value in live)
        && (r.Some? ==> forall k :: k in live ==> old(db).sess[k] <= old(db).sess[r.value])
    {
      var victims := SweepIndex(UserIndex(user), now);
      var z := View(db, UserIndex(user), now);
      r := Newest(z, Ahead(z, now));
      if Inv(conf, old(db), now) {
        QueriesAreScans(conf, old(db), user, now);
      }
    }

    /** The member with the largest score. */
    static method Newest(z: ZSet, members: set<Key>) returns (r: Option<Key>)
      requires members <= z.score.Keys
      ensures r.None? <==> members == {}
      ensures r.Some? ==> r.value in members
      ensures r.Some? ==> forall k :: k in members ==> z.score[k] <= z.score[r.value]
    {
      r := None;
      var left := members;
      while left != {}
        invariant left <= members
        invariant r.None? <==> left == members
        invariant r.Some? ==> r.value in members
        invariant r.Some? ==> forall k :: k in members - left ==> z.score[k] <= z.score[r.value]
        decreases left
      {
        var k :| k in left;
        if r.None? || z.score[k] > z.score[r.value] {
          r := Some(k);
        }
        left := left - {k};
      }
    }
  }

  /** The database after the members `gone` of index `i` have been removed. */
  function Gone(s: Store, i: IndexKey, z: ZSet, gone: set<Key>): Store {
    Put(s.(sess := s.sess - gone), i, z.(score := z.score - gone))
  }

  lemma SweepOne(s: Store, i: IndexKey, z: ZSet, gone: set<Key>, v: Key, now: int)
    requires z == View(s, i, now) && v in z.score && v !in gone
    ensures Del(ZRem(Gone(s, i, z, gone), i, v, now), v) == Gone(s, i, z, gone + {v})
  {
    var rest, less := z.score - gone, z.score - (gone + {v});
    assert v in rest && rest - {v} == less;
    assert (s.sess - gone) - {v} == s.sess - (gone + {v});
    var a, b := z.(score := rest), z.(score := less);
    assert s.zsets[i := a][i := b] == s.zsets[i := b];
    assert s.zsets[i := a] - {i} == s.zsets - {i};
  }
}
