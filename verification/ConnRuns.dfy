// Whole runs of the connection table: any number of calls and sweeps, in any order, from the empty
// table.
module ConnRuns {
  import opened Options
  import opened ConnSpec

  ghost predicate Run(c: Conf, states: seq<State>, events: seq<Event>) {
    && |states| == |events| + 1
    && states[0] == State(map[], map[])
    && forall k :: 0 <= k < |events| ==> Next(c, states[k], events[k], states[k + 1])
  }

  // ---- the old index ----

  lemma EvictedKeeps(st: State, u: string, cap: int, t: State)
    requires Consistent(st) && Evicted(st, u, cap, t)
    ensures Consistent(t)
  {
    if t != st {
      var s :| Oldest(st, u, s) && Dropped(st, s, t);
      DroppedKeeps(st, s, t);
    }
  }

  lemma BindKeeps(st: State, s: string, u: string, cap: int, mid: State, i: Info)
    requires Consistent(st) && s in st.bySnow && u != ""
    requires Evicted(st, u, cap, mid) && Bindable(st, s, u, mid)
    requires i.snow == s && i.user == u && i.authorized && i.conn == st.bySnow[s].conn
    ensures Consistent(Bound(mid, i))
  {
    assert st.bySnow[s].snow == s;
    EvictedKeeps(st, u, cap, mid);
    EvictedFacts(st, u, cap, mid);
    hide Consistent, Evicted;
    if Anothers(st, s, u) {
      RebindOutcome(st, u, cap, mid, i);
    } else {
      AttachKeeps(mid, i);
    }
  }

  lemma AddKeeps(st: State, u: string, i: Info)
    requires Consistent(st) && i.authorized && i.user == u && u != "" && !Anothers(st, i.snow, u)
    ensures Consistent(State((st.bySnow - Of(st, u))[i.snow := i], st.legacy[u := i.conn]))
  {
    var mid := State(st.bySnow - Of(st, u), st.legacy - {u});
    RemoveUserKeeps(st, u, mid);
    PutBack(st.legacy, u, i.conn);
    AttachKeeps(mid, i);
  }

  lemma StepKeeps(c: Conf, st: State, e: Event, t: State)
    requires Consistent(st) && Next(c, st, e, t)
    ensures Consistent(t)
  {
    match e
    case AddUnauth(s, socket, now) =>
      if t != st {
        AddUnauthorised(st, s, Born(s, "", socket.value, c.unauthTTL, now));
      }
    case AddAuthorized(u, s, socket, now) =>
      if t != st {
        hide Consistent, Evicted;
        var mid :| Evicted(st, u, c.maxPerUser, mid)
          && t == Attach(mid, Born(s, u, socket.value, c.authTTL, now));
        EvictedKeeps(st, u, c.maxPerUser, mid);
        EvictedFacts(st, u, c.maxPerUser, mid);
        AttachKeeps(mid, Born(s, u, socket.value, c.authTTL, now));
      }
    case Add(u, s, socket, now) =>
      if t != st {
        hide Consistent;
        AddKeeps(st, u, Born(s, u, socket.value, c.authTTL, now));
      }
    case Bind(s, u, now) =>
      if t != st {
        assert st.bySnow[s].snow == s;
        hide Consistent, Evicted, Bindable;
        var mid :| Evicted(st, u, c.maxPerUser, mid) && Bindable(st, s, u, mid)
          && t == Bound(mid, BoundTo(st.bySnow[s], u, c.authTTL, now));
        BindKeeps(st, s, u, c.maxPerUser, mid, BoundTo(st.bySnow[s], u, c.authTTL, now));
      }
    case Beat(s, now) =>
      if t != st {
        TimesKeep(st, s, Renewed(st.bySnow[s], now));
      }
    case Drop(s) =>
      if t != st {
        DroppedKeeps(st, s, t);
      }
    case RemoveUser(u) =>
    case KickUnauth =>
    case Sweep(now) =>
    case Close =>
  }

  /** In every run the old index has an entry for exactly the users with connections, pointing at one
      of theirs. */
  lemma {:induction false} ConsistentInEveryRun(c: Conf, states: seq<State>, events: seq<Event>, k: nat)
    requires Run(c, states, events) && k <= |events|
    ensures Consistent(states[k])
  {
    if k == 0 {
    } else {
      ConsistentInEveryRun(c, states, events, k - 1);
      StepKeeps(c, states[k - 1], events[k - 1], states[k]);
    }
  }

  // ---- the cap ----

  /** Connection `s` joins user `u`'s; every other connection stays as it is, except that `gone`
      leaves. */
  ghost predicate Joins(st: State, u: string, s: string, gone: set<string>, t: State) {
    && s in t.bySnow && Owns(t.bySnow[s], u) && s !in gone
    && t.bySnow.Keys == st.bySnow.Keys - gone + {s}
    && (forall x :: x in t.bySnow && x != s ==> t.bySnow[x] == st.bySnow[x])
    && (forall v :: v != u ==> SameLegacy(st, t, v))
  }

  /** Event `e` gives a connection `s` to user `u`, keeping the user's other connections. */
  predicate Gives(st: State, e: Event, u: string, s: string) {
    match e
    case AddAuthorized(v, x, socket, now) =>
      v == u && x == s && u != "" && s != "" && socket.Some? && s !in st.bySnow
    case Bind(x, v, now) => v == u && x == s && u != "" && s != "" && s in st.bySnow
    case _ => false
  }

  lemma AttachJoins(st: State, u: string, gone: set<string>, mid: State, i: Info)
    requires mid.bySnow == st.bySnow - gone && i.snow !in gone && Owns(i, u)
    requires forall v :: v != u ==> SameLegacy(st, mid, v)
    ensures Joins(st, u, i.snow, gone, Attach(mid, i))
  {
    var t := Attach(mid, i);
    assert t.bySnow.Keys == st.bySnow.Keys - gone + {i.snow};
    forall v | v != u ensures SameLegacy(st, t, v) {
      assert SameLegacy(st, mid, v);
    }
  }

  lemma GiveSteps(c: Conf, st: State, e: Event, t: State, u: string, s: string)
    returns (mid: State, i: Info)
    requires Consistent(st) && Next(c, st, e, t) && Gives(st, e, u, s)
    ensures Evicted(st, u, c.maxPerUser, mid) && (s in st.bySnow ==> s in mid.bySnow)
    ensures Owns(i, u) && i.snow == s && t == Attach(mid, i)
  {
    if e.Bind? {
      mid :| Evicted(st, u, c.maxPerUser, mid) && Bindable(st, s, u, mid)
        && t == Bound(mid, BoundTo(st.bySnow[s], u, c.authTTL, e.now));
      i := BoundTo(st.bySnow[s], u, c.authTTL, e.now);
    } else {
      mid :| Evicted(st, u, c.maxPerUser, mid)
        && t == Attach(mid, Born(s, u, e.socket.value, c.authTTL, e.now));
      i := Born(s, u, e.socket.value, c.authTTL, e.now);
    }
    EvictedFacts(st, u, c.maxPerUser, mid);
  }

  /** A user at the cap loses exactly one connection to make room, one of those made first, never the
      one that joins; below the cap nobody loses anything. Apart from that, only the joining
      connection changes hands. */
  lemma OneOutOneIn(c: Conf, st: State, e: Event, t: State, u: string, s: string)
    requires Consistent(st) && Next(c, st, e, t) && Gives(st, e, u, s)
    ensures if 0 < c.maxPerUser <= |Of(st, u)|
            then exists x :: Oldest(st, u, x) && Joins(st, u, s, {x}, t)
            else Joins(st, u, s, {}, t)
  {
    var mid, i := GiveSteps(c, st, e, t, u, s);
    EvictedFacts(st, u, c.maxPerUser, mid);
    if 0 < c.maxPerUser <= |Of(st, u)| {
      var x :| Oldest(st, u, x) && Dropped(st, x, mid);
      AttachJoins(st, u, {x}, mid, i);
    } else {
      assert st.bySnow - {} == st.bySnow;
      AttachJoins(st, u, {}, mid, i);
    }
  }

  /** How the users' own sets of connections change when one joins. */
  lemma JoinsOf(st: State, u: string, s: string, gone: set<string>, t: State)
    requires Joins(st, u, s, gone, t) && gone <= Of(st, u)
    ensures Of(t, u) == Of(st, u) - gone + {s}
    ensures forall v :: v != u ==> Of(t, v) == Of(st, v) - {s}
  {
    forall v | v != u ensures Of(t, v) == Of(st, v) - {s} {
      assert forall x :: x in Of(st, v) ==> x !in gone;
    }
  }

  ghost predicate WithinCap(c: Conf, st: State) {
    c.maxPerUser > 0 ==> forall u :: |Of(st, u)| <= c.maxPerUser
  }

  lemma FewerOf(c: Conf, st: State, t: State)
    requires WithinCap(c, st)
    requires forall s :: s in t.bySnow && t.bySnow[s].authorized ==>
      s in st.bySnow && st.bySnow[s].authorized && st.bySnow[s].user == t.bySnow[s].user
    ensures WithinCap(c, t)
  {
    forall u ensures Of(t, u) <= Of(st, u) && |Of(t, u)| <= |Of(st, u)| {
      assert Of(t, u) <= Of(st, u);
      Smaller(Of(t, u), Of(st, u));
    }
  }

  lemma Smaller(a: set<string>, b: set<string>)
    requires a <= b
    ensures |a| <= |b|
  {
    assert |b - a| == |b| - |a|;
  }

  lemma GiveWithinCap(c: Conf, st: State, e: Event, t: State, u: string, s: string)
    requires Consistent(st) && Next(c, st, e, t) && Gives(st, e, u, s) && WithinCap(c, st)
    ensures WithinCap(c, t)
  {
    hide Next, Consistent, Joins, Gives;
    OneOutOneIn(c, st, e, t, u, s);
    if c.maxPerUser > 0 {
      var gone := {};
      if c.maxPerUser <= |Of(st, u)| {
        var x :| Oldest(st, u, x) && Joins(st, u, s, {x}, t);
        gone := {x};
      }
      JoinsOf(st, u, s, gone, t);
      forall v ensures |Of(t, v)| <= c.maxPerUser {
        if v != u {
          Smaller(Of(t, v), Of(st, v));
        }
      }
    }
  }

  lemma StepWithinCap(c: Conf, st: State, e: Event, t: State)
    requires Consistent(st) && Next(c, st, e, t) && WithinCap(c, st)
    ensures WithinCap(c, t)
  {
    if e.Add? && t != st {
      forall u ensures c.maxPerUser > 0 ==> |Of(t, u)| <= c.maxPerUser {
        if u == e.user {
          assert Of(t, u) == {e.snow};
        } else {
          assert Of(t, u) <= Of(st, u);
          Smaller(Of(t, u), Of(st, u));
        }
      }
    } else if (e.AddAuthorized? || e.Bind?) && Gives(st, e, e.user, e.snow) {
      GiveWithinCap(c, st, e, t, e.user, e.snow);
    } else {
      FewerOf(c, st, t);
    }
  }

  /** With a cap, no user ever has more connections than the cap. */
  lemma {:induction false} CapHoldsInEveryRun(c: Conf, states: seq<State>, events: seq<Event>, k: nat)
    requires Run(c, states, events) && k <= |events|
    ensures WithinCap(c, states[k])
  {
    if k == 0 {
      assert forall u :: Of(states[0], u) == {};
    } else {
      CapHoldsInEveryRun(c, states, events, k - 1);
      ConsistentInEveryRun(c, states, events, k - 1);
      StepWithinCap(c, states[k - 1], events[k - 1], states[k]);
    }
  }

  // ---- leases ----

  /** Event `e` makes connection `s` or renews its lease. */
  predicate Renews(st: State, e: Event, s: string) {
    match e
    case AddUnauth(x, socket, _) => x == s && s != "" && socket.Some? && s !in st.bySnow
    case Add(u, x, socket, _) => x == s && u != "" && socket.Some?
    case AddAuthorized(u, x, socket, _) => Gives(st, e, u, s)
    case Bind(x, u, _) => Gives(st, e, u, s)
    case Beat(x, _) => x == s && s != "" && s in st.bySnow
    case _ => false
  }

  /** When `s` was last made or renewed, by the calls of the first `k` steps. */
  function LastRenewal(states: seq<State>, events: seq<Event>, k: nat, s: string): Option<int>
    requires |states| == |events| + 1 && k <= |events|
  {
    if k == 0 then None
    else if Renews(states[k - 1], events[k - 1], s) then Some(events[k - 1].now)
    else LastRenewal(states, events, k - 1, s)
  }

  function Lease(c: Conf, i: Info): int {
    if i.authorized then c.authTTL else c.unauthTTL
  }

  /** The stored times of a connection last renewed at `at`. */
  predicate Leased(c: Conf, i: Info, at: Option<int>) {
    at == Some(i.beat) && i.expire == i.beat + i.ttl && i.ttl == Lease(c, i)
  }

  lemma MadeLeases(c: Conf, st: State, mid: State, i: Info, s: string, at: Option<int>)
    requires forall x :: x in mid.bySnow ==> x in st.bySnow && mid.bySnow[x] == st.bySnow[x]
    requires s in st.bySnow ==> Leased(c, st.bySnow[s], at)
    requires Leased(c, i, Some(i.beat))
    ensures forall t :: (t == Attach(mid, i) || t == Bound(mid, i)) && s in t.bySnow ==>
      Leased(c, t.bySnow[s], if s == i.snow then Some(i.beat) else at)
  {
  }

  lemma GivenLeases(c: Conf, st: State, e: Event, t: State, s: string, at: Option<int>)
    requires Consistent(st) && Next(c, st, e, t) && s in t.bySnow
    requires (e.AddAuthorized? || e.Bind?) && Gives(st, e, e.user, e.snow)
    requires s in st.bySnow ==> Leased(c, st.bySnow[s], at)
    ensures Leased(c, t.bySnow[s], if s == e.snow then Some(e.now) else at)
  {
    if e.Bind? {
      var i := BoundTo(st.bySnow[e.snow], e.user, c.authTTL, e.now);
      assert i.snow == e.snow;
      hide Consistent, Bindable, Gives;
      var mid :| Evicted(st, e.user, c.maxPerUser, mid) && Bindable(st, e.snow, e.user, mid)
        && t == Bound(mid, i);
      EvictedFacts(st, e.user, c.maxPerUser, mid);
      hide Evicted;
      MadeLeases(c, st, mid, i, s, at);
    } else {
      var i := Born(e.snow, e.user, e.socket.value, c.authTTL, e.now);
      assert i.authorized;
      hide Consistent, Bindable, Gives;
      var mid :| Evicted(st, e.user, c.maxPerUser, mid) && t == Attach(mid, i);
      EvictedFacts(st, e.user, c.maxPerUser, mid);
      hide Evicted;
      MadeLeases(c, st, mid, i, s, at);
    }
  }

  lemma StepLeases(c: Conf, st: State, e: Event, t: State, s: string, at: Option<int>)
    requires Consistent(st) && Next(c, st, e, t) && s in t.bySnow
    requires s in st.bySnow ==> Leased(c, st.bySnow[s], at)
    ensures Leased(c, t.bySnow[s], if Renews(st, e, s) then Some(e.now) else at)
  {
    hide Consistent;
    if (e.AddAuthorized? || e.Bind?) && Gives(st, e, e.user, e.snow) {
      GivenLeases(c, st, e, t, s, at);
    }
  }

  lemma {:induction false} LeaseInEveryRun(c: Conf, states: seq<State>, events: seq<Event>, k: nat, s: string)
    requires Run(c, states, events) && k <= |events| && s in states[k].bySnow
    ensures Leased(c, states[k].bySnow[s], LastRenewal(states, events, k, s))
  {
    if k == 0 {
    } else {
      if s in states[k - 1].bySnow {
        LeaseInEveryRun(c, states, events, k - 1, s);
      }
      ConsistentInEveryRun(c, states, events, k - 1);
      StepLeases(c, states[k - 1], events[k - 1], states[k], s,
                 LastRenewal(states, events, k - 1, s));
    }
  }

  /** A sweep removes a connection exactly when its lease has run out since the last call that made
      or renewed it, whatever happened to other connections. */
  lemma SweepIsExact(c: Conf, states: seq<State>, events: seq<Event>, k: nat, s: string)
    requires Run(c, states, events) && k < |events| && events[k].Sweep?
    requires s in states[k].bySnow
    ensures var last := LastRenewal(states, events, k, s);
      && last.Some?
      && (s in states[k + 1].bySnow
          <==> events[k].now <= last.value + Lease(c, states[k].bySnow[s]))
  {
    LeaseInEveryRun(c, states, events, k, s);
    assert Next(c, states[k], events[k], states[k + 1]);
    assert s in Expired(states[k], events[k].now) <==> states[k].bySnow[s].expire < events[k].now;
  }

  /** The ways a connection leaves the table other than by a sweep. */
  ghost predicate TakenOut(c: Conf, st: State, e: Event, s: string)
    requires s in st.bySnow
  {
    var i := st.bySnow[s];
    match e
    case Drop(x) => x == s
    case RemoveUser(u) => Owns(i, u)
    case Add(u, x, socket, _) => x != s && socket.Some? && Owns(i, u)
    case AddAuthorized(u, x, _, _) =>
      x != s && Gives(st, e, u, x) && 0 < c.maxPerUser <= |Of(st, u)| && Oldest(st, u, s)
    case Bind(x, u, _) =>
      x != s && Gives(st, e, u, x) && 0 < c.maxPerUser <= |Of(st, u)| && Oldest(st, u, s)
    case KickUnauth => !i.authorized
    case Close => true
    case _ => false
  }

  /** A connection leaves the table only by being taken out or by a sweep past its expiry. */
  lemma NoOtherWayOut(c: Conf, st: State, e: Event, t: State, s: string)
    requires Next(c, st, e, t) && s in st.bySnow && s !in t.bySnow
    ensures TakenOut(c, st, e, s) || (e.Sweep? && st.bySnow[s].expire < e.now)
  {
    hide Consistent;
    if e.AddAuthorized? {
      var mid :| Evicted(st, e.user, c.maxPerUser, mid)
        && t == Attach(mid, Born(e.snow, e.user, e.socket.value, c.authTTL, e.now));
      EvictedFacts(st, e.user, c.maxPerUser, mid);
    } else if e.Bind? {
      var mid :| Evicted(st, e.user, c.maxPerUser, mid) && Bindable(st, e.snow, e.user, mid)
        && t == Bound(mid, BoundTo(st.bySnow[e.snow], e.user, c.authTTL, e.now));
      EvictedFacts(st, e.user, c.maxPerUser, mid);
    }
  }

  /** An event that made or renewed a connection leaves it in the table. */
  lemma RenewedIsIn(c: Conf, st: State, e: Event, t: State, s: string)
    requires Consistent(st) && Next(c, st, e, t) && Renews(st, e, s)
    ensures s in t.bySnow
  {
    if e.AddAuthorized? || e.Bind? {
      var mid, i := GiveSteps(c, st, e, t, e.user, s);
    }
  }

  /** A call meant to renew `s`, whether or not it succeeds. */
  predicate Attempts(e: Event, s: string) {
    match e
    case Beat(x, _) => x == s && s != ""
    case Bind(x, u, _) => x == s && s != "" && u != ""
    case Add(u, x, socket, _) => x == s && u != "" && socket.Some?
    case _ => false
  }

  lemma AttemptsRenew(st: State, e: Event, s: string)
    ensures s in st.bySnow ==> (Renews(st, e, s) <==> Attempts(e, s))
    ensures Renews(st, e, s) || Attempts(e, s) ==> HasTime(e)
  {
  }

  predicate HasTime(e: Event) {
    e.AddUnauth? || e.AddAuthorized? || e.Add? || e.Bind? || e.Beat? || e.Sweep?
  }

  /** The last step before `k` that is `a` or attempts to renew `s`. */
  function LastAttempt(events: seq<Event>, a: nat, k: nat, s: string): (p: nat)
    requires a < k <= |events|
    ensures a <= p < k && (p == a || Attempts(events[p], s))
    decreases k
  {
    if k == a + 1 then a
    else if Attempts(events[k - 1], s) then k - 1
    else LastAttempt(events, a, k - 1, s)
  }

  /** The clock does not run backwards. */
  predicate Clocked(events: seq<Event>) {
    forall i, j :: 0 <= i < j < |events| && HasTime(events[i]) && HasTime(events[j]) ==>
      events[i].now <= events[j].now
  }

  /** After every sweep from step `a` on that meets the connection, an attempt to renew it follows by
      step `b`, within a lease of the last attempt before the sweep. */
  ghost predicate Prompt(c: Conf, states: seq<State>, events: seq<Event>, a: nat, b: nat, s: string)
    requires |states| == |events| + 1 && a < b < |events| && HasTime(events[a])
  {
    forall k :: a < k < b && events[k].Sweep? && s in states[k].bySnow ==>
      exists j :: k < j <= b && Attempts(events[j], s)
        && events[j].now
             <= events[LastAttempt(events, a, k, s)].now + Lease(c, states[k].bySnow[s])
  }

  /** One step: neither taken out nor swept late. */
  lemma KeptInTime(c: Conf, states: seq<State>, events: seq<Event>, k: nat, s: string)
    requires Run(c, states, events) && k < |events| && s in states[k].bySnow
    requires !TakenOut(c, states[k], events[k], s)
    requires events[k].Sweep? ==>
      var last := LastRenewal(states, events, k, s);
      last.Some? && events[k].now <= last.value + Lease(c, states[k].bySnow[s])
    ensures s in states[k + 1].bySnow
  {
    hide TakenOut, LastRenewal;
    if events[k].Sweep? {
      SweepIsExact(c, states, events, k, s);
    } else if s !in states[k + 1].bySnow {
      NoOtherWayOut(c, states[k], events[k], states[k + 1], s);
    }
  }

  lemma PromptIsInTime(c: Conf, states: seq<State>, events: seq<Event>, a: nat, b: nat, k: nat,
                       s: string)
    requires |states| == |events| + 1 && a < k < b < |events| && HasTime(events[a])
    requires Clocked(events) && Prompt(c, states, events, a, b, s)
    requires events[k].Sweep? && s in states[k].bySnow
    ensures HasTime(events[LastAttempt(events, a, k, s)])
    ensures events[k].now
      <= events[LastAttempt(events, a, k, s)].now + Lease(c, states[k].bySnow[s])
  {
    var j :| k < j <= b && Attempts(events[j], s) && events[j].now
      <= events[LastAttempt(events, a, k, s)].now + Lease(c, states[k].bySnow[s]);
    assert HasTime(events[k]) && HasTime(events[j]);
  }

  lemma {:induction false} AttemptsSucceed(c: Conf, states: seq<State>, events: seq<Event>, a: nat,
                                           b: nat, k: nat, s: string)
    requires Run(c, states, events) && Clocked(events) && a < k <= b < |events|
    requires HasTime(events[a]) && Renews(states[a], events[a], s)
    requires Prompt(c, states, events, a, b, s)
    requires forall x :: a < x < b && s in states[x].bySnow ==> !TakenOut(c, states[x], events[x], s)
    ensures s in states[k].bySnow
    ensures LastRenewal(states, events, k, s)
      == Some(events[LastAttempt(events, a, k, s)].now)
    decreases k
  {
    hide Next, Renews, Attempts, TakenOut, Lease;
    if k == a + 1 {
      assert Next(c, states[a], events[a], states[k]);
      ConsistentInEveryRun(c, states, events, a);
      RenewedIsIn(c, states[a], events[a], states[k], s);
    } else {
      var x := k - 1;
      AttemptsSucceed(c, states, events, a, b, x, s);
      AttemptsRenew(states[x], events[x], s);
      if events[x].Sweep? {
        PromptIsInTime(c, states, events, a, b, x, s);
      }
      KeptInTime(c, states, events, x, s);
    }
  }

  /** Lease safety: a connection made or renewed at step `a`, which is then tried to be renewed again
      and again within its lease, and which nobody takes out, is never swept: it is in the table from
      `a` to `b`, whatever happens to other connections, and the attempt at `b` succeeds. */
  lemma RenewedInTimeIsKept(c: Conf, states: seq<State>, events: seq<Event>, a: nat, b: nat, s: string)
    requires Run(c, states, events) && Clocked(events) && a < b < |events|
    requires Renews(states[a], events[a], s) && Attempts(events[b], s)
    requires HasTime(events[a]) && Prompt(c, states, events, a, b, s)
    requires forall x :: a < x < b && s in states[x].bySnow ==> !TakenOut(c, states[x], events[x], s)
    ensures forall k :: a < k <= b ==> s in states[k].bySnow
    ensures Renews(states[b], events[b], s)
  {
    forall k | a < k <= b ensures s in states[k].bySnow {
      AttemptsSucceed(c, states, events, a, b, k, s);
    }
    AttemptsRenew(states[b], events[b], s);
  }

  // ---- who is evicted ----

  /** Event `e` makes connection `s`. */
  predicate Makes(st: State, e: Event, s: string) {
    match e
    case AddUnauth(x, socket, _) => x == s && s != "" && socket.Some? && s !in st.bySnow
    case Add(u, x, socket, _) => x == s && u != "" && socket.Some?
    case AddAuthorized(u, x, socket, _) => Gives(st, e, u, s)
    case _ => false
  }

  /** When `s` was last made, by the calls of the first `k` steps. */
  function MadeAt(states: seq<State>, events: seq<Event>, k: nat, s: string): Option<int>
    requires |states| == |events| + 1 && k <= |events|
  {
    if k == 0 then None
    else if Makes(states[k - 1], events[k - 1], s) then Some(events[k - 1].now)
    else MadeAt(states, events, k - 1, s)
  }

  lemma AttachCreated(st: State, mid: State, i: Info, s: string)
    requires forall x :: x in mid.bySnow ==> x in st.bySnow && mid.bySnow[x] == st.bySnow[x]
    ensures forall t :: (t == Attach(mid, i) || t == Bound(mid, i)) && s in t.bySnow ==>
      t.bySnow[s].created == if s == i.snow then i.created else st.bySnow[s].created
  {
  }

  lemma GivenCreated(c: Conf, st: State, e: Event, t: State, s: string)
    requires Consistent(st) && Next(c, st, e, t) && s in t.bySnow
    requires (e.AddAuthorized? || e.Bind?) && Gives(st, e, e.user, e.snow)
    ensures Makes(st, e, s) ==> t.bySnow[s].created == e.now
    ensures !Makes(st, e, s) ==> s in st.bySnow && t.bySnow[s].created == st.bySnow[s].created
  {
    if e.Bind? {
      var i := BoundTo(st.bySnow[e.snow], e.user, c.authTTL, e.now);
      assert i.snow == e.snow;
      hide Consistent, Bindable;
      var mid :| Evicted(st, e.user, c.maxPerUser, mid) && Bindable(st, e.snow, e.user, mid)
        && t == Bound(mid, i);
      EvictedFacts(st, e.user, c.maxPerUser, mid);
      hide Evicted;
      AttachCreated(st, mid, i, s);
    } else {
      var i := Born(e.snow, e.user, e.socket.value, c.authTTL, e.now);
      hide Consistent, Bindable;
      var mid :| Evicted(st, e.user, c.maxPerUser, mid) && t == Attach(mid, i);
      EvictedFacts(st, e.user, c.maxPerUser, mid);
      hide Evicted;
      AttachCreated(st, mid, i, s);
    }
  }

  lemma StepCreated(c: Conf, st: State, e: Event, t: State, s: string)
    requires Consistent(st) && Next(c, st, e, t) && s in t.bySnow
    ensures Makes(st, e, s) ==> t.bySnow[s].created == e.now
    ensures !Makes(st, e, s) ==> s in st.bySnow && t.bySnow[s].created == st.bySnow[s].created
  {
    hide Consistent;
    if (e.AddAuthorized? || e.Bind?) && Gives(st, e, e.user, e.snow) {
      GivenCreated(c, st, e, t, s);
    }
  }

  /** In every run the creation stamp of a connection is the time of the call that made it; binding
      and heartbeats leave it. */
  lemma {:induction false} CreatedWhenMade(c: Conf, states: seq<State>, events: seq<Event>, k: nat,
                                           s: string)
    requires Run(c, states, events) && k <= |events| && s in states[k].bySnow
    ensures MadeAt(states, events, k, s) == Some(states[k].bySnow[s].created)
  {
    if k == 0 {
    } else {
      ConsistentInEveryRun(c, states, events, k - 1);
      StepCreated(c, states[k - 1], events[k - 1], states[k], s);
      if !Makes(states[k - 1], events[k - 1], s) {
        CreatedWhenMade(c, states, events, k - 1, s);
      }
    }
  }

  /** None of the user's connections was made before `x`. */
  ghost predicate FirstMade(states: seq<State>, events: seq<Event>, k: nat, u: string, x: string)
    requires |states| == |events| + 1 && k <= |events|
  {
    && x in Of(states[k], u)
    && forall y :: y in Of(states[k], u) ==>
      var first, other := MadeAt(states, events, k, x), MadeAt(states, events, k, y);
      first.Some? && other.Some? && first.value <= other.value
  }

  /** In every run, a user at the cap who gets a connection loses exactly one, and none of the user's
      connections was made before that one; below the cap nobody loses any. */
  lemma FirstMadeGoes(c: Conf, states: seq<State>, events: seq<Event>, k: nat, u: string, s: string)
    requires Run(c, states, events) && k < |events| && Gives(states[k], events[k], u, s)
    ensures !(0 < c.maxPerUser <= |Of(states[k], u)|) ==>
      Joins(states[k], u, s, {}, states[k + 1])
    ensures 0 < c.maxPerUser <= |Of(states[k], u)| ==>
      exists x :: FirstMade(states, events, k, u, x) && Joins(states[k], u, s, {x}, states[k + 1])
  {
    var st, t := states[k], states[k + 1];
    ConsistentInEveryRun(c, states, events, k);
    OneOutOneIn(c, st, events[k], t, u, s);
    forall y | y in Of(st, u)
      ensures MadeAt(states, events, k, y) == Some(st.bySnow[y].created)
    {
      CreatedWhenMade(c, states, events, k, y);
    }
    hide Consistent, Gives, Joins, MadeAt;
    if 0 < c.maxPerUser <= |Of(st, u)| {
      var x :| Oldest(st, u, x) && Joins(st, u, s, {x}, t);
      assert FirstMade(states, events, k, u, x);
    }
  }

  // ---- what rebinding breaks ----

  /** A user's only connection cannot be bound to another user without leaving a stale entry. */
  lemma OnlyConnectionIsNotBindable(st: State, s: string, v: string, u: string, mid: State)
    requires Of(st, v) == {s} && u != v
    ensures !Bindable(st, s, u, mid)
  {
    assert forall x :: x in st.bySnow && Owns(st.bySnow[x], v) ==> x in Of(st, v);
    assert s in Of(st, v);
  }

  lemma RebindingLeavesStaleEntry()
    ensures var st := State(map["s" := Born("s", "ann", 7, 10, 0)], map["ann" := 7]);
      var t := Bound(st, BoundTo(st.bySnow["s"], "bob", 10, 1));
      Consistent(st) && Evicted(st, "bob", 0, st) && !Consistent(t) && t.legacy["ann"] == 7
  {
    var st := State(map["s" := Born("s", "ann", 7, 10, 0)], map["ann" := 7]);
    var t := Bound(st, BoundTo(st.bySnow["s"], "bob", 10, 1));
    forall u ensures LegacyFor(st, u) {
      assert "s" in st.bySnow && Owns(st.bySnow["s"], "ann");
    }
    assert !LegacyFor(t, "ann");
  }
}
