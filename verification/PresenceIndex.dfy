// Does the user index agree with the session keys? In every reachable state it
// does if and only if the configured lifetimes fit together; then every query on
// the index equals a scan of all keys.
module PresenceIndex {
  import opened Options
  import opened Presence

  /** What the lifetimes must satisfy: a session outlives no refresh of its index. */
  predicate Fitting(c: Conf) {
    c.ttl <= 3600 && (c.indexTTL >= c.ttl || (c.indexTTL <= 0 && c.ttl == 1))
  }

  /** Members are the user's own keys; those ahead of the clock are exactly the live sessions with
      their expiries; and the index does not expire before any of its members. */
  ghost predicate UserInv(c: Conf, s: Store, user: string, now: int) {
    var z := View(s, UserIndex(user), now);
    && (forall k :: k in z.score ==> k.Auth? && k.user == user && z.score[k] <= now + c.ttl)
    && (forall k :: k in z.score && z.score[k] > now ==> k in s.sess && s.sess[k] == z.score[k])
    && (forall k :: k in s.sess && k.Auth? && k.user == user && now < s.sess[k] ==>
      k in z.score && z.score[k] == s.sess[k])
    && (z.expiry.Some? ==> forall k :: k in z.score ==> z.score[k] <= z.expiry.value)
  }

  ghost predicate Inv(c: Conf, s: Store, now: int) {
    && (forall user :: UserInv(c, s, user, now))
    && (forall k :: k in View(s, UnauthIndex, now).score ==> k.Unauth?)
  }

  lemma TimePasses(c: Conf, s: Store, now: int, later: int)
    requires Inv(c, s, now) && now <= later
    ensures Inv(c, s, later)
  {
    forall user ensures UserInv(c, s, user, later) {
      assert UserInv(c, s, user, now);
    }
  }

  ghost predicate SameFor(s: Store, t: Store, u: string, now: int) {
    && View(s, UserIndex(u), now) == View(t, UserIndex(u), now)
    && (forall k: Key :: k.Auth? && k.user == u ==>
      (k in s.sess <==> k in t.sess) && (k in s.sess ==> s.sess[k] == t.sess[k]))
  }

  lemma SameKeeps(c: Conf, s: Store, t: Store, u: string, now: int)
    requires UserInv(c, s, u, now) && SameFor(s, t, u, now)
    ensures UserInv(c, t, u, now)
  {
  }

  /** How the index commands change what is seen. */
  lemma AddView(s: Store, k: IndexKey, m: Key, score: int, now: int)
    ensures var z, t := View(s, k, now), ZAdd(s, k, m, score, now);
      View(t, k, now) == z.(score := z.score[m := score]) && t.sess == s.sess
  {
    var z := View(s, k, now);
    assert m in z.score[m := score];
  }

  lemma ExpireView(s: Store, k: IndexKey, m: Key, ttl: int, now: int)
    requires m in View(s, k, now).score && ttl >= 1
    ensures var z, t := View(s, k, now), ExpireIndex(s, k, ttl, now);
      View(t, k, now) == z.(expiry := Some(now + ttl)) && t.sess == s.sess
  {
  }

  lemma PutView(s: Store, k: IndexKey, z: ZSet, now: int)
    requires z.expiry.Some? ==> now < z.expiry.value
    ensures var t := Put(s, k, z);
      View(t, k, now) == (if z.score == map[] then NO_MEMBERS else z) && t.sess == s.sess
  {
  }

  lemma BindView(c: Conf, s: Store, user: string, snow: string, now: int)
    requires Bind(c, s, user, snow, now).1 == 1 && c.ttl >= 1
    ensures var t, k := Bind(c, s, user, snow, now).0, Auth(user, snow);
      && View(t, UserIndex(user), now)
           == ZSet(View(s, UserIndex(user), now).score[k := now + c.ttl], Some(now + c.ttl * 2))
      && t.sess == (s.sess - {Unauth(snow)})[k := now + c.ttl]
  {
    var k, i := Auth(user, snow), UserIndex(user);
    var s1 := Del(ZRem(s, UnauthIndex, Unauth(snow), now), Unauth(snow));
    var s2 := SetFor(s1, k, c.ttl, now);
    assert View(s2, i, now) == View(s, i, now);
    hide View, ZAdd, ExpireIndex;
    AddView(s2, i, k, now + c.ttl, now);
    ExpireView(ZAdd(s2, i, k, now + c.ttl, now), i, k, c.ttl * 2, now);
  }

  lemma BindRefused(c: Conf, s: Store, user: string, snow: string, now: int)
    requires Bind(c, s, user, snow, now).1 != 1
    ensures SameFor(s, Bind(c, s, user, snow, now).0, user, now)
  {
  }

  lemma BindOwn(c: Conf, s: Store, user: string, snow: string, now: int)
    requires UserInv(c, s, user, now) && c.ttl >= 1
    ensures UserInv(c, Bind(c, s, user, snow, now).0, user, now)
  {
    var (t, rc) := Bind(c, s, user, snow, now);
    if rc == 1 {
      hide View, Bind;
      BindView(c, s, user, snow, now);
    } else {
      BindRefused(c, s, user, snow, now);
      hide UserInv, Bind, SameFor;
      SameKeeps(c, s, t, user, now);
    }
  }

  lemma BindOthers(c: Conf, s: Store, user: string, snow: string, now: int, u: string)
    requires u != user
    ensures SameFor(s, Bind(c, s, user, snow, now).0, u, now)
  {
  }

  lemma BindUnauth(c: Conf, s: Store, user: string, snow: string, now: int)
    ensures View(Bind(c, s, user, snow, now).0, UnauthIndex, now).score.Keys
         <= View(s, UnauthIndex, now).score.Keys
  {
  }

  lemma BindKeeps(c: Conf, s: Store, user: string, snow: string, now: int)
    requires Inv(c, s, now) && c.ttl >= 1
    ensures Inv(c, Bind(c, s, user, snow, now).0, now)
  {
    hide Bind, View, UserInv, SameFor;
    var t := Bind(c, s, user, snow, now).0;
    BindUnauth(c, s, user, snow, now);
    forall u ensures UserInv(c, t, u, now) {
      if u == user {
        BindOwn(c, s, user, snow, now);
      } else {
        BindOthers(c, s, user, snow, now, u);
        SameKeeps(c, s, t, u, now);
      }
    }
  }

  lemma HeartbeatView(c: Conf, s: Store, user: string, snow: string, now: int)
    requires c.ttl >= 1 && HeartbeatAuth(c, s, user, snow, now).1
    requires Auth(user, snow) in View(s, UserIndex(user), now).score
    requires View(s, UserIndex(user), now).score[Auth(user, snow)] > now
    ensures var t, k := HeartbeatAuth(c, s, user, snow, now).0, Auth(user, snow);
      var z, z' := View(s, UserIndex(user), now), View(t, UserIndex(user), now);
      && z'.score == (z.score - Due(z, now))[k := now + c.ttl]
      && z'.expiry == (if c.indexTTL > 0 then Some(now + c.indexTTL) else z.expiry)
      && t.sess == s.sess[k := now + c.ttl]
  {
    var k, i := Auth(user, snow), UserIndex(user);
    var s1 := Extend(s, k, c.ttl, now);
    var z := View(s, i, now);
    assert View(s1, i, now) == z && (z.expiry.Some? ==> now < z.expiry.value);
    var kept := z.(score := z.score - Due(z, now));
    assert k in kept.score;
    hide View, ZAdd, ExpireIndex, Put;
    var s2 := Put(s1, i, kept);
    var s3 := ZAdd(s2, i, k, now + c.ttl, now);
    PutView(s1, i, kept, now);
    AddView(s2, i, k, now + c.ttl, now);
    if c.indexTTL > 0 {
      ExpireView(s3, i, k, c.indexTTL, now);
    }
  }

  lemma HeartbeatOwn(c: Conf, s: Store, user: string, snow: string, now: int)
    requires UserInv(c, s, user, now) && c.ttl >= 1 && Fitting(c)
    ensures UserInv(c, HeartbeatAuth(c, s, user, snow, now).0, user, now)
  {
    var (t, ok) := HeartbeatAuth(c, s, user, snow, now);
    if ok {
      hide View, HeartbeatAuth;
      HeartbeatView(c, s, user, snow, now);
    }
  }

  lemma HeartbeatOthers(c: Conf, s: Store, user: string, snow: string, now: int, u: string)
    requires u != user
    ensures SameFor(s, HeartbeatAuth(c, s, user, snow, now).0, u, now)
  {
  }

  lemma HeartbeatKeeps(c: Conf, s: Store, user: string, snow: string, now: int)
    requires Inv(c, s, now) && c.ttl >= 1 && Fitting(c)
    ensures Inv(c, HeartbeatAuth(c, s, user, snow, now).0, now)
  {
    var t := HeartbeatAuth(c, s, user, snow, now).0;
    assert View(t, UnauthIndex, now) == View(s, UnauthIndex, now);
    hide View, UserInv, SameFor, HeartbeatAuth;
    forall u ensures UserInv(c, t, u, now) {
      if u == user {
        HeartbeatOwn(c, s, user, snow, now);
      } else {
        HeartbeatOthers(c, s, user, snow, now, u);
        SameKeeps(c, s, t, u, now);
      }
    }
  }

  lemma SweepKeeps(c: Conf, s: Store, i: IndexKey, now: int)
    requires Inv(c, s, now) && c.ttl <= 3600
    ensures Inv(c, Sweep(s, i, now), now)
  {
    var t := Sweep(s, i, now);
    if i.UserIndex? {
      assert UserInv(c, s, i.user, now);
    }
    forall u ensures UserInv(c, t, u, now) {
      assert UserInv(c, s, u, now);
    }
  }

  lemma RemoveView(s: Store, k: IndexKey, m: Key, now: int)
    ensures var z, t := View(s, k, now), ZRem(s, k, m, now);
      View(t, k, now).score == z.score - {m} && t.sess == s.sess
    ensures View(ZRem(s, k, m, now), k, now).score != map[] ==>
      View(ZRem(s, k, m, now), k, now).expiry == View(s, k, now).expiry
  {
  }

  lemma OfflineOwn(c: Conf, s: Store, user: string, snow: string, now: int)
    requires UserInv(c, s, user, now)
    ensures UserInv(c, OfflineOne(s, UserIndex(user), Auth(user, snow), now), user, now)
  {
    RemoveView(Del(s, Auth(user, snow)), UserIndex(user), Auth(user, snow), now);
  }

  lemma OfflineOthers(s: Store, i: IndexKey, k: Key, now: int, u: string)
    requires i != UserIndex(u) && (k.Auth? ==> k.user != u)
    ensures SameFor(s, OfflineOne(s, i, k, now), u, now)
  {
  }

  lemma OfflineKeeps(c: Conf, s: Store, user: string, snow: string, now: int)
    requires Inv(c, s, now)
    ensures Inv(c, OfflineOne(s, UserIndex(user), Auth(user, snow), now), now)
  {
    var t := OfflineOne(s, UserIndex(user), Auth(user, snow), now);
    assert View(t, UnauthIndex, now) == View(s, UnauthIndex, now);
    hide OfflineOne, UserInv, View, SameFor;
    forall u ensures UserInv(c, t, u, now) {
      if u == user {
        OfflineOwn(c, s, user, snow, now);
      } else {
        OfflineOthers(s, UserIndex(user), Auth(user, snow), now, u);
        SameKeeps(c, s, t, u, now);
      }
    }
  }

  lemma OfflineUnauthKeeps(c: Conf, s: Store, snow: string, now: int)
    requires Inv(c, s, now)
    ensures Inv(c, OfflineOne(s, UnauthIndex, Unauth(snow), now), now)
  {
    var t := OfflineOne(s, UnauthIndex, Unauth(snow), now);
    RemoveView(Del(s, Unauth(snow)), UnauthIndex, Unauth(snow), now);
    assert forall k :: k in View(t, UnauthIndex, now).score ==> k.Unauth?;
    hide OfflineOne, UserInv, View, SameFor;
    forall u ensures UserInv(c, t, u, now) {
      OfflineOthers(s, UnauthIndex, Unauth(snow), now, u);
      SameKeeps(c, s, t, u, now);
    }
  }

  lemma LogoutKeeps(c: Conf, s: Store, user: string, now: int)
    requires Inv(c, s, now)
    ensures Inv(c, LogoutAll(s, user, now), now)
    ensures LiveKeys(LogoutAll(s, user, now), user, now) == {}
  {
    assert UserInv(c, s, user, now);
    forall u ensures UserInv(c, LogoutAll(s, user, now), u, now) {
      assert UserInv(c, s, u, now);
    }
  }

  lemma UnauthUntouched(c: Conf, s: Store, snow: string, now: int, u: string)
    ensures SameFor(s, Connect(c, s, snow, now), u, now)
    ensures SameFor(s, HeartbeatUnauth(c, s, snow, now), u, now)
  {
  }

  lemma UnauthKeeps(c: Conf, s: Store, snow: string, now: int)
    requires Inv(c, s, now)
    ensures Inv(c, Connect(c, s, snow, now), now)
    ensures Inv(c, HeartbeatUnauth(c, s, snow, now), now)
  {
    hide UserInv, SameFor;
    forall u
      ensures UserInv(c, Connect(c, s, snow, now), u, now)
      ensures UserInv(c, HeartbeatUnauth(c, s, snow, now), u, now)
    {
      UnauthUntouched(c, s, snow, now, u);
      SameKeeps(c, s, Connect(c, s, snow, now), u, now);
      SameKeeps(c, s, HeartbeatUnauth(c, s, snow, now), u, now);
    }
  }

  lemma StepKeeps(c: Conf, w: World, e: Timed)
    requires Inv(c, w.store, w.now) && Enabled(w, e) && c.ttl >= 1 && Fitting(c)
    ensures Inv(c, Next(c, w, e).store, e.at)
  {
    TimePasses(c, w.store, w.now, e.at);
    hide Inv, Fitting, Connect, HeartbeatUnauth, Bind, HeartbeatAuth, Sweep, OfflineOne, LogoutAll;
    match e.event
    case DoConnect(snow) => UnauthKeeps(c, w.store, snow, e.at);
    case DoHeartbeatUnauth(snow) => UnauthKeeps(c, w.store, snow, e.at);
    case DoSweepUnauth => FittingHour(c); SweepKeeps(c, w.store, UnauthIndex, e.at);
    case DoOfflineUnauth(snow) => OfflineUnauthKeeps(c, w.store, snow, e.at);
    case DoAuthorize(user, snow) => BindKeeps(c, w.store, user, snow, e.at);
    case DoHeartbeat(user, snow) => HeartbeatKeeps(c, w.store, user, snow, e.at);
    case DoOffline(user, snow) => OfflineKeeps(c, w.store, user, snow, e.at);
    case DoLogout(user) => LogoutKeeps(c, w.store, user, e.at);
    case DoSweep(user) => FittingHour(c); SweepKeeps(c, w.store, UserIndex(user), e.at);
  }

  lemma FittingHour(c: Conf)
    requires Fitting(c)
    ensures c.ttl <= 3600
  {
  }

  /** With fitting lifetimes, index and session keys agree after every run, now and at any time
      later, for every user. */
  lemma {:induction false} IndexAgreesInEveryRun(c: Conf, w: World, run: seq<Timed>, later: int)
    requires Inv(c, w.store, w.now) && Possible(c, w, run) && c.ttl >= 1 && Fitting(c)
    requires Run(c, w, run).now <= later
    ensures Inv(c, Run(c, w, run).store, later)
    decreases |run|
  {
    if run == [] {
      TimePasses(c, w.store, w.now, later);
    } else {
      StepKeeps(c, w, run[0]);
      IndexAgreesInEveryRun(c, Next(c, w, run[0]), run[1..], later);
    }
  }

  lemma StartAgrees(c: Conf, now: int)
    ensures Inv(c, Start(now).store, now)
  {
  }

  // ---- the queries ----

  /** What the three queries look at: the members ahead of the clock, once the sweep is done. */
  function Listed(s: Store, user: string, now: int): set<Key> {
    Ahead(View(Sweep(s, UserIndex(user), now), UserIndex(user), now), now)
  }

  /** The index queries are scans: the sweep in front of them removes no live session of anyone, and
      what is left ahead of the clock is exactly the user's live sessions, with their expiries. */
  lemma QueriesAreScans(c: Conf, s: Store, user: string, now: int)
    requires Inv(c, s, now)
    ensures Listed(s, user, now) == LiveKeys(s, user, now)
    ensures forall u :: LiveKeys(Sweep(s, UserIndex(user), now), u, now) == LiveKeys(s, u, now)
    ensures forall k :: k in Listed(s, user, now) ==>
      View(s, UserIndex(user), now).score[k] == s.sess[k]
  {
    assert UserInv(c, s, user, now);
    var t := Sweep(s, UserIndex(user), now);
    var z := View(s, UserIndex(user), now);
    assert View(t, UserIndex(user), now).score == z.score - Due(z, now);
    forall u ensures LiveKeys(t, u, now) == LiveKeys(s, u, now) {
      assert UserInv(c, s, u, now);
    }
  }

  // ---- and when the lifetimes do not fit ----

  /** Every live session is in its user's index, with its expiry as score. */
  ghost predicate Lossless(s: Store, now: int) {
    forall k :: k in s.sess && k.Auth? && now < s.sess[k] ==>
      var z := View(s, UserIndex(k.user), now);
      k in z.score && z.score[k] == s.sess[k]
  }

  lemma AgreementIsLossless(c: Conf, s: Store, now: int)
    requires Inv(c, s, now)
    ensures Lossless(s, now)
  {
    forall k | k in s.sess && k.Auth? && now < s.sess[k]
      ensures var z := View(s, UserIndex(k.user), now); k in z.score && z.score[k] == s.sess[k]
    {
      assert UserInv(c, s, k.user, now);
    }
  }

  const SESSION := Auth("u", "s")

  /** One session, due at `e`, listed in an index that expires at `x`. */
  ghost predicate Single(s: Store, e: int, x: int) {
    && SESSION in s.sess && s.sess[SESSION] == e
    && UserIndex("u") in s.zsets && s.zsets[UserIndex("u")] == ZSet(map[SESSION := e], Some(x))
  }

  lemma SingleLogin(c: Conf)
    requires c.ttl >= 1 && c.unauthTTL >= 1
    ensures var s := Effect(c, EMPTY, DoConnect("s"), 0);
      && Bind(c, s, "u", "s", 0).1 == 1
      && Single(Bind(c, s, "u", "s", 0).0, c.ttl, 2 * c.ttl)
  {
    var s := Effect(c, EMPTY, DoConnect("s"), 0);
    assert View(s, UserIndex("u"), 0) == NO_MEMBERS;
    assert Alive(s, Unauth("s"), 0);
    BindView(c, s, "u", "s", 0);
  }

  lemma SingleHeartbeat(c: Conf, s: Store, e: int, x: int, now: int)
    requires Single(s, e, x) && now < e && now < x && c.ttl >= 1
    ensures Single(Effect(c, s, DoHeartbeat("u", "s"), now), now + c.ttl,
                   if c.indexTTL > 0 then now + c.indexTTL else x)
  {
    var z := View(s, UserIndex("u"), now);
    HeartbeatView(c, s, "u", "s", now);
    assert (z.score - Due(z, now))[SESSION := now + c.ttl] == map[SESSION := now + c.ttl];
  }

  lemma SingleSweep(c: Conf, s: Store, e: int, x: int, now: int)
    requires Single(s, e, x) && now < e && now < x
    ensures Single(Effect(c, s, DoSweep("u"), now), e, now + 3600)
  {
    var z := View(s, UserIndex("u"), now);
    assert Due(z, now) == {} && SESSION in z.score;
    assert z.score - {} == z.score;
  }

  lemma SingleLost(s: Store, e: int, x: int, now: int)
    requires Single(s, e, x) && x <= now < e
    ensures !Lossless(s, now)
  {
    assert SESSION in s.sess && SESSION !in View(s, UserIndex("u"), now).score;
  }

  lemma {:induction false} RunAppend(c: Conf, w: World, first: seq<Timed>, then': seq<Timed>)
    requires Possible(c, w, first) && Possible(c, Run(c, w, first), then')
    ensures Possible(c, w, first + then')
    ensures Run(c, w, first + then') == Run(c, Run(c, w, first), then')
    decreases |first|
  {
    var all := first + then';
    if first == [] {
      assert all == then';
    } else {
      RunAppend(c, Next(c, w, first[0]), first[1..], then');
      assert all[1..] == first[1..] + then';
    }
  }

  lemma OneEvent(c: Conf, w: World, e: Timed)
    requires Enabled(w, e)
    ensures Possible(c, w, [e]) && Run(c, w, [e]) == Next(c, w, e)
  {
    assert [e][1..] == [];
    assert Run(c, Next(c, w, e), []) == Next(c, w, e);
  }

  const LOGIN := [Timed(0, DoConnect("s")), Timed(0, DoAuthorize("u", "s"))]

  /** The run leads to a single session, due at `e`, with its index expiring at `x`. */
  ghost predicate Reaches(c: Conf, run: seq<Timed>, e: int, x: int, now: int) {
    && Possible(c, Start(0), run)
    && Single(Run(c, Start(0), run).store, e, x) && Run(c, Start(0), run).now == now
  }

  lemma LoginReaches(c: Conf)
    requires c.ttl >= 1 && c.unauthTTL >= 1
    ensures Reaches(c, LOGIN, c.ttl, 2 * c.ttl, 0)
  {
    SingleLogin(c);
    OneEvent(c, Start(0), LOGIN[0]);
    var w := Next(c, Start(0), LOGIN[0]);
    OneEvent(c, w, LOGIN[1]);
    RunAppend(c, Start(0), [LOGIN[0]], [LOGIN[1]]);
    assert LOGIN == [LOGIN[0]] + [LOGIN[1]];
  }

  lemma Then(c: Conf, run: seq<Timed>, e: int, x: int, before: int, last: Timed)
      returns (longer: seq<Timed>)
    requires Reaches(c, run, e, x, before) && c.ttl >= 1
    requires before <= last.at < e && last.at < x
    requires last.event == DoSweep("u") || last.event == DoHeartbeat("u", "s")
    ensures |longer| == |run| + 1
    ensures last.event.DoSweep? ==> Reaches(c, longer, e, last.at + 3600, last.at)
    ensures last.event.DoHeartbeat? ==>
      Reaches(c, longer, last.at + c.ttl, if c.indexTTL > 0 then last.at + c.indexTTL else x, last.at)
  {
    hide Single, Effect;
    var w := Run(c, Start(0), run);
    longer := run + [last];
    OneEvent(c, w, last);
    RunAppend(c, Start(0), run, [last]);
    if last.event.DoSweep? {
      SingleSweep(c, w.store, e, x, last.at);
    } else {
      SingleHeartbeat(c, w.store, e, x, last.at);
    }
  }

  /** One login and at most three further events leave the session alive and its index gone. */
  lemma LosingRun(c: Conf) returns (run: seq<Timed>, later: int)
    requires c.ttl >= 1 && c.unauthTTL >= 1 && !Fitting(c)
    ensures |run| <= 5 && Possible(c, Start(0), run) && Run(c, Start(0), run).now <= later
    ensures !Lossless(Run(c, Start(0), run).store, later)
  {
    var t, beat := c.ttl, DoHeartbeat("u", "s");
    LoginReaches(c);
    hide Run, Possible, Lossless, Single;
    if t > 3600 {
      run := Then(c, LOGIN, t, 2 * t, 0, Timed(0, DoSweep("u")));
      later := 3600;
      SingleLost(Run(c, Start(0), run).store, t, 3600, later);
    } else if c.indexTTL > 0 {
      run := Then(c, LOGIN, t, 2 * t, 0, Timed(0, beat));
      later := c.indexTTL;
      SingleLost(Run(c, Start(0), run).store, t, c.indexTTL, later);
    } else {
      run := Then(c, LOGIN, t, 2 * t, 0, Timed(t - 1, beat));
      run := Then(c, run, 2 * t - 1, 2 * t, t - 1, Timed(2 * t - 2, beat));
      run := Then(c, run, 3 * t - 2, 2 * t, 2 * t - 2, Timed(2 * t - 1, beat));
      later := 2 * t;
      SingleLost(Run(c, Start(0), run).store, 3 * t - 1, 2 * t, later);
    }
  }

  /** A run of at most `n` events loses a live session. */
  ghost predicate LosesWithin(c: Conf, n: nat) {
    exists run, later ::
      |run| <= n && Possible(c, Start(0), run) && Run(c, Start(0), run).now <= later
      && !Lossless(Run(c, Start(0), run).store, later)
  }

  /** Any lifetimes that do not fit lose a live session, and within five events. */
  lemma UnfittingLosesASession(c: Conf)
    requires c.ttl >= 1 && c.unauthTTL >= 1 && !Fitting(c)
    ensures LosesWithin(c, 5)
  {
    var run, later := LosingRun(c);
  }

  /** No run, up to any moment after it, loses a live session. */
  ghost predicate NeverLoses(c: Conf) {
    forall run, later ::
      Possible(c, Start(0), run) && Run(c, Start(0), run).now <= later ==>
        Lossless(Run(c, Start(0), run).store, later)
  }

  /** The user index never loses a live session if and only if the lifetimes fit together. */
  lemma IndexSafeIffFitting(c: Conf)
    requires c.ttl >= 1 && c.unauthTTL >= 1
    ensures NeverLoses(c) <==> Fitting(c)
  {
    if Fitting(c) {
      StartAgrees(c, 0);
      forall run, later | Possible(c, Start(0), run) && Run(c, Start(0), run).now <= later
        ensures Lossless(Run(c, Start(0), run).store, later)
      {
        IndexAgreesInEveryRun(c, Start(0), run, later);
        AgreementIsLossless(c, Run(c, Start(0), run).store, later);
      }
    } else {
      UnfittingLosesASession(c);
    }
  }
}
