// The presence store (service/storage/online.go): session keys with their own
// expiry, one index per user (and one for unauthorised sessions) with another,
// and each script as one atomic step on both. Keys carry the cluster tag and the
// gateway is this node; time is in whole seconds.
module Presence {

  import opened Options

  datatype Key = Unauth(snow: string) | Auth(user: string, snow: string)

  datatype IndexKey = UnauthIndex | UserIndex(user: string)

  /** A sorted set: members with scores, and the expiry of the whole set if it has one. */
  datatype ZSet = ZSet(score: map<Key, int>, expiry: Option<int>)

  /** `sess` maps a session key to its expiry. Dead entries may linger until they are touched. */
  datatype Store = Store(sess: map<Key, int>, zsets: map<IndexKey, ZSet>)

  datatype Conf = Conf(ttl: int, unauthTTL: int, indexTTL: int, useEXAT: bool)

  const EMPTY := Store(map[], map[])
  const NO_MEMBERS := ZSet(map[], None)

  // ---- commands ----

  predicate Alive(s: Store, k: Key, now: int) {
    k in s.sess && now < s.sess[k]
  }

  /** The set under `k` as a command at `now` sees it. */
  function View(s: Store, k: IndexKey, now: int): ZSet {
    if k in s.zsets && (s.zsets[k].expiry.None? || now < s.zsets[k].expiry.value)
    then s.zsets[k] else NO_MEMBERS
  }

  /** A set that loses its last member is gone, and its expiry with it. */
  function Put(s: Store, k: IndexKey, z: ZSet): Store {
    s.(zsets := if z.score == map[] then s.zsets - {k} else s.zsets[k := z])
  }

  function Del(s: Store, k: Key): Store {
    s.(sess := s.sess - {k})
  }

  /** SET with a relative expiry, or SET followed by an absolute one: the same second. */
  function SetFor(s: Store, k: Key, ttl: int, now: int): Store {
    s.(sess := s.sess[k := now + ttl])
  }

  /** EXPIRE or EXPIREAT: does nothing to a key that is not there. */
  function Extend(s: Store, k: Key, ttl: int, now: int): Store {
    if Alive(s, k, now) then s.(sess := s.sess[k := now + ttl]) else s
  }

  function ZAdd(s: Store, k: IndexKey, member: Key, score: int, now: int): Store {
    var z := View(s, k, now);
    Put(s, k, z.(score := z.score[member := score]))
  }

  function ZRem(s: Store, k: IndexKey, member: Key, now: int): Store {
    var z := View(s, k, now);
    Put(s, k, z.(score := z.score - {member}))
  }

  function ExpireIndex(s: Store, k: IndexKey, ttl: int, now: int): Store {
    Put(s, k, View(s, k, now).(expiry := Some(now + ttl)))
  }

  /** Members whose score is at most `now`. */
  function Due(z: ZSet, now: int): set<Key> {
    set m | m in z.score && z.score[m] <= now
  }

  function Ahead(z: ZSet, now: int): set<Key> {
    set m | m in z.score && z.score[m] > now
  }

  // ---- scripts ----

  function Connect(c: Conf, s: Store, snow: string, now: int): Store {
    var s1 := SetFor(s, Unauth(snow), c.unauthTTL, now);
    var s2 := ZAdd(s1, UnauthIndex, Unauth(snow), now + c.unauthTTL, now);
    ExpireIndex(s2, UnauthIndex, c.unauthTTL * 2, now)
  }

  function HeartbeatUnauth(c: Conf, s: Store, snow: string, now: int): Store {
    var s1 := Extend(s, Unauth(snow), c.unauthTTL, now);
    var s2 := ZAdd(s1, UnauthIndex, Unauth(snow), now + c.unauthTTL, now);
    ExpireIndex(s2, UnauthIndex, c.unauthTTL * 2, now)
  }

  /** 1: bound; 0: no such unauthorised session; -1: already authorised. */
  function Bind(c: Conf, s: Store, user: string, snow: string, now: int): (Store, int) {
    if Alive(s, Auth(user, snow), now) then (s, -1)
    else if !Alive(s, Unauth(snow), now) then (ZRem(s, UnauthIndex, Unauth(snow), now), 0)
    else
      var s1 := Del(ZRem(s, UnauthIndex, Unauth(snow), now), Unauth(snow));
      var s2 := SetFor(s1, Auth(user, snow), c.ttl, now);
      var s3 := ZAdd(s2, UserIndex(user), Auth(user, snow), now + c.ttl, now);
      (ExpireIndex(s3, UserIndex(user), c.ttl * 2, now), 1)
  }

  function HeartbeatAuth(c: Conf, s: Store, user: string, snow: string, now: int): (Store, bool) {
    var k := Auth(user, snow);
    if !Alive(s, k, now) then (s, false)
    else
      var s1 := Extend(s, k, c.ttl, now);
      var z := View(s1, UserIndex(user), now);
      var s2 := Put(s1, UserIndex(user), z.(score := z.score - Due(z, now)));
      var s3 := ZAdd(s2, UserIndex(user), k, now + c.ttl, now);
      (if c.indexTTL > 0 then ExpireIndex(s3, UserIndex(user), c.indexTTL, now) else s3, true)
  }

  /** Removes the members that are due, and their keys; refreshes a nonempty index for an hour. */
  function Sweep(s: Store, k: IndexKey, now: int): Store {
    var z := View(s, k, now);
    Put(s.(sess := s.sess - Due(z, now)), k, ZSet(z.score - Due(z, now), Some(now + 3600)))
  }

  function OfflineOne(s: Store, i: IndexKey, k: Key, now: int): Store {
    ZRem(Del(s, k), i, k, now)
  }

  function LogoutAll(s: Store, user: string, now: int): Store {
    Store(s.sess - View(s, UserIndex(user), now).score.Keys, s.zsets - {UserIndex(user)})
  }

  // ---- the system ----

  datatype Event =
    | DoConnect(snow: string)
    | DoHeartbeatUnauth(snow: string)
    | DoSweepUnauth
    | DoOfflineUnauth(snow: string)
    | DoAuthorize(user: string, snow: string)
    | DoHeartbeat(user: string, snow: string)
    | DoOffline(user: string, snow: string)
    | DoLogout(user: string)
    | DoSweep(user: string)  // also the three queries, which sweep first

  datatype Timed = Timed(at: int, event: Event)

  /** `used` are the snow IDs handed out by Connect; `bound` the successful authorisations so far,
      as (snow, user). */
  datatype World = World(store: Store, now: int, used: set<string>, bound: seq<(string, string)>)

  function Start(now: int): World {
    World(EMPTY, now, {}, [])
  }

  /** Snow IDs are fresh and the clock does not run backwards. */
  predicate Enabled(w: World, e: Timed) {
    w.now <= e.at && (e.event.DoConnect? ==> e.event.snow !in w.used)
  }

  function Effect(c: Conf, s: Store, e: Event, now: int): Store {
    match e
    case DoConnect(snow) => if c.unauthTTL <= 0 then s else Connect(c, s, snow, now)
    case DoHeartbeatUnauth(snow) => if c.unauthTTL <= 0 then s else HeartbeatUnauth(c, s, snow, now)
    case DoSweepUnauth => if c.unauthTTL <= 0 then s else Sweep(s, UnauthIndex, now)
    case DoOfflineUnauth(snow) =>
      if c.unauthTTL <= 0 then s else OfflineOne(s, UnauthIndex, Unauth(snow), now)
    case DoAuthorize(user, snow) => if c.unauthTTL <= 0 then s else Bind(c, s, user, snow, now).0
    case DoHeartbeat(user, snow) => HeartbeatAuth(c, s, user, snow, now).0
    case DoOffline(user, snow) => OfflineOne(s, UserIndex(user), Auth(user, snow), now)
    case DoLogout(user) => LogoutAll(s, user, now)
    case DoSweep(user) => Sweep(s, UserIndex(user), now)
  }

  predicate Binds(c: Conf, s: Store, e: Event, now: int) {
    e.DoAuthorize? && c.unauthTTL > 0 && Bind(c, s, e.user, e.snow, now).1 == 1
  }

  function Next(c: Conf, w: World, e: Timed): World {
    World(Effect(c, w.store, e.event, e.at), e.at,
          if e.event.DoConnect? then w.used + {e.event.snow} else w.used,
          if Binds(c, w.store, e.event, e.at) then w.bound + [(e.event.snow, e.event.user)]
          else w.bound)
  }

  predicate Possible(c: Conf, w: World, run: seq<Timed>)
    decreases |run|
  {
    run == [] || (Enabled(w, run[0]) && Possible(c, Next(c, w, run[0]), run[1..]))
  }

  function Run(c: Conf, w: World, run: seq<Timed>): World
    decreases |run|
  {
    if run == [] then w else Run(c, Next(c, w, run[0]), run[1..])
  }

  /** The live authorised sessions of a user, by a scan of all session keys. */
  function LiveKeys(s: Store, user: string, now: int): set<Key> {
    set k | k in s.sess && k.Auth? && k.user == user && now < s.sess[k]
  }
}
