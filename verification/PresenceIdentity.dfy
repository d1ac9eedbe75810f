// The life of a snow ID: unauthorised at most once, authorised at most once, and
// dead for good afterwards.
module PresenceIdentity {
  import opened Presence

  predicate BoundIn(bound: seq<(string, string)>, snow: string) {
    exists i :: 0 <= i < |bound| && bound[i].0 == snow
  }

  predicate OncePerSnow(bound: seq<(string, string)>) {
    forall i, j :: 0 <= i < j < |bound| ==> bound[i].0 != bound[j].0
  }

  ghost predicate Inv(w: World) {
    && OncePerSnow(w.bound)
    && (forall i :: 0 <= i < |w.bound| ==> w.bound[i].0 in w.used)
    && (forall snow :: Alive(w.store, Unauth(snow), w.now) ==>
      snow in w.used && !BoundIn(w.bound, snow))
    && (forall user, snow :: Alive(w.store, Auth(user, snow), w.now) ==>
      (snow, user) in w.bound)
  }

  /** The only two ways for a key to come alive; binding also ends the unauthorised key. */
  lemma OnlyTwoBirths(c: Conf, s: Store, e: Event, now: int, k: Key)
    requires Alive(Effect(c, s, e, now), k, now) && !Alive(s, k, now)
    ensures (e.DoConnect? && k == Unauth(e.snow))
         || (Binds(c, s, e, now) && k == Auth(e.user, e.snow))
  {
  }

  lemma BindingEndsUnauth(c: Conf, s: Store, e: Event, now: int)
    requires Binds(c, s, e, now)
    ensures Alive(s, Unauth(e.snow), now) && !Alive(Effect(c, s, e, now), Unauth(e.snow), now)
  {
  }

  lemma StepKeeps(c: Conf, w: World, e: Timed)
    requires Inv(w) && Enabled(w, e)
    ensures Inv(Next(c, w, e))
  {
    var v := Next(c, w, e);
    assert forall k :: Alive(w.store, k, e.at) ==> Alive(w.store, k, w.now);
    if Binds(c, w.store, e.event, e.at) {
      BindingEndsUnauth(c, w.store, e.event, e.at);
      assert Alive(w.store, Unauth(e.event.snow), w.now);
    }
    hide Effect, Binds;
    forall snow | Alive(v.store, Unauth(snow), v.now)
      ensures snow in v.used && !BoundIn(v.bound, snow)
    {
      if !Alive(w.store, Unauth(snow), e.at) {
        OnlyTwoBirths(c, w.store, e.event, e.at, Unauth(snow));
      }
    }
    forall user, snow | Alive(v.store, Auth(user, snow), v.now)
      ensures (snow, user) in v.bound
    {
      if !Alive(w.store, Auth(user, snow), e.at) {
        OnlyTwoBirths(c, w.store, e.event, e.at, Auth(user, snow));
        assert v.bound[|v.bound| - 1] == (snow, user);
      }
    }
  }

  lemma {:induction false} RunKeeps(c: Conf, w: World, run: seq<Timed>)
    requires Inv(w) && Possible(c, w, run)
    ensures Inv(Run(c, w, run))
    decreases |run|
  {
    if run == [] {
    } else {
      StepKeeps(c, w, run[0]);
      RunKeeps(c, Next(c, w, run[0]), run[1..]);
    }
  }

  /** In every run no snow ID is authorised twice, its two kinds of key are never alive together,
      and it is never alive for two users. */
  lemma AuthorisedAtMostOnce(c: Conf, now: int, run: seq<Timed>, snow: string, u: string, v: string)
    requires Possible(c, Start(now), run)
    ensures var w := Run(c, Start(now), run);
      && OncePerSnow(w.bound)
      && !(Alive(w.store, Unauth(snow), w.now) && Alive(w.store, Auth(u, snow), w.now))
      && (Alive(w.store, Auth(u, snow), w.now) && Alive(w.store, Auth(v, snow), w.now) ==> u == v)
  {
    RunKeeps(c, Start(now), run);
    var w := Run(c, Start(now), run);
    if Alive(w.store, Auth(u, snow), w.now) {
      assert (snow, u) in w.bound;
      var i :| 0 <= i < |w.bound| && w.bound[i] == (snow, u);
      assert BoundIn(w.bound, snow);
      if Alive(w.store, Auth(v, snow), w.now) {
        assert (snow, v) in w.bound;
        var j :| 0 <= j < |w.bound| && w.bound[j] == (snow, v);
      }
    }
  }

  /** A key whose time has been: its snow ID was handed out, and bound if the key is authorised. */
  predicate Past(w: World, k: Key) {
    && k.snow in w.used
    && (k.Auth? ==> BoundIn(w.bound, k.snow))
    && !Alive(w.store, k, w.now)
  }

  /** Nothing revives a key that went offline, expired or was replaced: no heartbeat, no login, no
      reconnect, at any later point of any run. */
  lemma {:induction false} DeadStaysDead(c: Conf, w: World, run: seq<Timed>, k: Key)
    requires Inv(w) && Possible(c, w, run) && Past(w, k)
    ensures Past(Run(c, w, run), k)
    decreases |run|
  {
    if run == [] {
    } else {
      var e, v := run[0], Next(c, w, run[0]);
      StepKeeps(c, w, e);
      if Binds(c, w.store, e.event, e.at) {
        BindingEndsUnauth(c, w.store, e.event, e.at);
        assert Alive(w.store, Unauth(e.event.snow), w.now);
      }
      assert BoundIn(w.bound, k.snow) ==> BoundIn(v.bound, k.snow) by {
        if i :| 0 <= i < |w.bound| && w.bound[i].0 == k.snow {
          assert v.bound[i] == w.bound[i];
        }
      }
      if Alive(v.store, k, v.now) {
        OnlyTwoBirths(c, w.store, e.event, e.at, k);
      }
      DeadStaysDead(c, v, run[1..], k);
    }
  }
}
