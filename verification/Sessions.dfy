/** Sessions and the users they keep alive: requests, expiry and pruning as atomic steps on the store that
    maps session keys to sessions and user ids to live states. */
module Sessions {
  import opened Wrappers

  const SECOND := 1_000_000_000
  const EXPIRATION := 7 * 24 * 3600 * SECOND
  const REFRESH_INTERVAL := 3600 * SECOND

  // ---------------------------------------------------------------- the abstract store

  /** Whose session it is and the second it was created in. */
  datatype Info = Info(user: nat, created: int)

  /** The live users, the sessions by key, the next user id, and the removals of users: those scheduled when a
      last session ends, and those done when an idle user's timer fires. */
  datatype Model = Model(states: set<nat>, sessions: map<string, Info>, cleanups: seq<nat>, expiries: seq<nat>,
                         nextID: nat)

  predicate Older(created: int, now: int, span: int) { now - created * SECOND > span }

  function KeysOf(sessions: map<string, Info>, user: nat): set<string> {
    set k | k in sessions && sessions[k].user == user
  }

  function Delete(m: Model, key: string): Model
    requires key in m.sessions
  {
    var id, sessions := m.sessions[key].user, m.sessions - {key};
    if KeysOf(sessions, id) == {}
    then m.(states := m.states - {id}, sessions := sessions, cleanups := m.cleanups + [id])
    else m.(sessions := sessions)
  }

  function Refreshed(m: Model, key: string, newKey: string, now: int): Model
    requires key in m.sessions
  {
    var info := m.sessions[key].(created := now / SECOND);
    Delete(m.(sessions := m.sessions[key := info][newKey := info]), key)
  }

  function Created(m: Model, key: string, now: int): Model {
    m.(states := m.states + {m.nextID}, sessions := m.sessions[key := Info(m.nextID, now / SECOND)],
       nextID := m.nextID + 1)
  }

  function Deleted(m: Model, user: nat): Model {
    m.(states := m.states - {user}, sessions := m.sessions - KeysOf(m.sessions, user))
  }

  /** The timer of a user fires: the user goes from the store and is removed, even if gone already. */
  function Expired(m: Model, user: nat): Model { Deleted(m, user).(expiries := m.expiries + [user]) }

  /** Every session belongs to a live user; no live user is scheduled for clean-up or removed, and nobody is
      scheduled twice; ids not yet given out are nowhere. */
  ghost predicate Consistent(m: Model) {
    && (forall k :: k in m.sessions ==> m.sessions[k].user in m.states)
    && (forall id :: id in m.states ==> id < m.nextID)
    && (forall i :: 0 <= i < |m.cleanups| ==> m.cleanups[i] !in m.states && m.cleanups[i] < m.nextID)
    && (forall i, j :: 0 <= i < j < |m.cleanups| ==> m.cleanups[i] != m.cleanups[j])
    && (forall i :: 0 <= i < |m.expiries| ==> m.expiries[i] !in m.states && m.expiries[i] < m.nextID)
  }

  lemma {:induction false} DeleteKeeps(m: Model, key: string)
    requires Consistent(m) && key in m.sessions
    ensures Consistent(Delete(m, key))
    ensures m.sessions[key].user in Delete(m, key).states <==> KeysOf(m.sessions, m.sessions[key].user) != {key}
  {
    var id, sessions := m.sessions[key].user, m.sessions - {key};
    assert KeysOf(sessions, id) == KeysOf(m.sessions, id) - {key};
    assert key in KeysOf(m.sessions, id);
    if KeysOf(sessions, id) == {} {
      forall k | k in sessions ensures sessions[k].user != id { assert k !in KeysOf(sessions, id); }
    }
  }

  /** A refresh keeps the user alive, and nobody is cleaned up, exactly when the new key differs from the
      old one or the user has another session. */
  lemma {:induction false} RefreshKeepsUser(m: Model, key: string, newKey: string, now: int)
    requires Consistent(m) && key in m.sessions
    ensures var id, m' := m.sessions[key].user, Refreshed(m, key, newKey, now);
            && Consistent(m')
            && (id in m'.states <==> newKey != key || KeysOf(m.sessions, id) != {key})
            && (id in m'.states ==> m'.states == m.states && m'.cleanups == m.cleanups)
            && (newKey != key ==>
                  m'.sessions == (m.sessions - {key})[newKey := Info(id, now / SECOND)])
  {
    var id := m.sessions[key].user;
    var info := m.sessions[key].(created := now / SECOND);
    var put := m.(sessions := m.sessions[key := info][newKey := info]);
    assert key in KeysOf(put.sessions, id) && newKey in KeysOf(put.sessions, id);
    if newKey == key { assert KeysOf(put.sessions, id) == KeysOf(m.sessions, id); }
    DeleteKeeps(put, key);
  }

  // ---------------------------------------------------------------- requests

  /** What one request brings: its cookie, what its handler asks for, the clock readings, and whether the
      random and user-id sources succeeded. */
  datatype Request = Request(
    cookie: Option<string>, createUser: bool, refresh: bool,
    seenAt: int, refreshedAt: int, stampedAt: int, createdAt: int,
    refreshKey: Option<string>, stored: bool, newKey: Option<string>)

  /** A request without a usable session makes a new user if it may. */
  function Fallback(m: Model, q: Request): (Model, Option<nat>) {
    if !q.createUser || !q.stored then (m, None)
    else if q.newKey.None? then (m.(nextID := m.nextID + 1), None)
    else (Created(m, q.newKey.value, q.createdAt), Some(m.nextID))
  }

  /** The store after a request, and the user it is served for. */
  function Auth(m: Model, q: Request): (Model, Option<nat>) {
    if q.cookie.None? || q.cookie.value !in m.sessions then Fallback(m, q)
    else
      var key := q.cookie.value;
      var info := m.sessions[key];
      if Older(info.created, q.seenAt, EXPIRATION) then Fallback(Delete(m, key), q)
      else if q.refresh && Older(info.created, q.refreshedAt, REFRESH_INTERVAL) && q.refreshKey.Some?
      then (Refreshed(m, key, q.refreshKey.value, q.stampedAt), Some(info.user))
      else (m, Some(info.user))
  }

  /** The random source does not give the key that is being replaced. */
  predicate KeyChanges(q: Request) { q.refreshKey.Some? ==> q.refreshKey != q.cookie }

  lemma {:induction false} FallbackKeeps(m: Model, q: Request)
    requires Consistent(m)
    ensures Consistent(Fallback(m, q).0)
    ensures Fallback(m, q).1.Some? ==> Fallback(m, q).1.value in Fallback(m, q).0.states - m.states
    ensures m.states <= Fallback(m, q).0.states && Fallback(m, q).0.cleanups == m.cleanups
  {
  }

  /** A request keeps the store consistent. It is served for a live user, unless its refreshed key came out
      equal to the old one, and it ends only the user whose last session it found expired. */
  lemma {:induction false} AuthKeeps(m: Model, q: Request)
    requires Consistent(m)
    ensures Consistent(Auth(m, q).0)
    ensures KeyChanges(q) && Auth(m, q).1.Some? ==> Auth(m, q).1.value in Auth(m, q).0.states
    ensures KeyChanges(q) ==>
              forall id :: id in m.states && id !in Auth(m, q).0.states ==>
                && q.cookie.Some? && KeysOf(m.sessions, id) == {q.cookie.value}
                && Older(m.sessions[q.cookie.value].created, q.seenAt, EXPIRATION)
  {
    if q.cookie.Some? && q.cookie.value in m.sessions {
      var key := q.cookie.value;
      DeleteKeeps(m, key);
      FallbackKeeps(Delete(m, key), q);
      if q.refreshKey.Some? { RefreshKeepsUser(m, key, q.refreshKey.value, q.stampedAt); }
    } else {
      FallbackKeeps(m, q);
    }
  }

  /** A session is good for seven days; the clock reads nanoseconds, and sessions are stamped in seconds. */
  predicate Usable(sessions: map<string, Info>, cookie: Option<string>, now: int) {
    && cookie.Some? && cookie.value in sessions
    && now - sessions[cookie.value].created * 1_000_000_000 <= 604_800_000_000_000
  }

  /** A request with a usable session is served for the owner of the session; any other one for a new user, if it
      may create one and can, or for nobody. */
  lemma {:induction false} ServedForOwner(m: Model, q: Request)
    ensures Usable(m.sessions, q.cookie, q.seenAt) ==> Auth(m, q).1 == Some(m.sessions[q.cookie.value].user)
    ensures !Usable(m.sessions, q.cookie, q.seenAt) ==>
              Auth(m, q).1 == if q.createUser && q.stored && q.newKey.Some? then Some(m.nextID) else None
    ensures Auth(m, q).0.nextID ==
              m.nextID + if !Usable(m.sessions, q.cookie, q.seenAt) && q.createUser && q.stored then 1 else 0
  {
  }

  /** The session a request leaves behind: a used one that is more than an hour old is exchanged, if asked for, for
      one with the new key, an expired one is deleted, a new user has one. */
  lemma {:induction false} SessionsAfter(m: Model, q: Request, key: string)
    ensures var usable := Usable(m.sessions, q.cookie, q.seenAt);
            var renewed := usable && q.refresh && q.refreshKey.Some? &&
                           q.refreshedAt - m.sessions[q.cookie.value].created * 1_000_000_000 > 3_600_000_000_000;
            var created := !usable && q.createUser && q.stored && q.newKey.Some?;
            var now := Auth(m, q).0.sessions;
            (key in now <==>
               if q.cookie == Some(key) && (renewed || !usable) then created && q.newKey.value == key
               else key in m.sessions || (renewed && q.refreshKey.value == key) || (created && q.newKey.value == key))
            && (key in now ==>
                  now[key] == if created && q.newKey.value == key then Info(m.nextID, q.createdAt / 1_000_000_000)
                              else if renewed && q.refreshKey.value == key
                              then Info(m.sessions[q.cookie.value].user, q.stampedAt / 1_000_000_000)
                              else m.sessions[key])
  {
  }

  /** A user is left by a request unless it found the user's only session expired; a new user is added. */
  lemma {:induction false} UsersAfter(m: Model, q: Request, id: nat)
    requires Consistent(m) && KeyChanges(q)
    ensures var usable := Usable(m.sessions, q.cookie, q.seenAt);
            var created := !usable && q.createUser && q.stored && q.newKey.Some?;
            && (id in Auth(m, q).0.states <==>
                  || (created && id == m.nextID)
                  || (id in m.states && !(!usable && q.cookie.Some? && OnlySession(m.sessions, q.cookie.value, id))))
            && (id in Auth(m, q).0.cleanups <==>
                  id in m.cleanups || (!usable && q.cookie.Some? && OnlySession(m.sessions, q.cookie.value, id)))
  {
    if q.cookie.Some? && q.cookie.value in m.sessions {
      var key := q.cookie.value;
      DeleteMeans(m, key, m.sessions[key].user);
      DeleteMeans(m, key, id);
      if q.refreshKey.Some? { RefreshKeepsUser(m, key, q.refreshKey.value, q.stampedAt); }
    }
  }

  ghost predicate OnlySession(sessions: map<string, Info>, key: string, id: nat) {
    key in sessions && sessions[key].user == id && forall k :: k in sessions && sessions[k].user == id ==> k == key
  }

  /** With the last session of a user the user goes, and is scheduled for removal. */
  lemma {:induction false} DeleteMeans(m: Model, key: string, id: nat)
    requires Consistent(m) && key in m.sessions
    ensures var m' := Delete(m, key);
            && m'.sessions == m.sessions - {key} && m'.nextID == m.nextID && m'.expiries == m.expiries
            && (id in m'.states <==> id in m.states && !OnlySession(m.sessions, key, id))
            && (id in m'.cleanups <==> id in m.cleanups || OnlySession(m.sessions, key, id))
  {
    var owner := m.sessions[key].user;
    NoneLeft(m.sessions, key);
    assert OnlySession(m.sessions, key, id) ==> id == owner;
  }

  lemma {:induction false} NoneLeft(sessions: map<string, Info>, key: string)
    requires key in sessions
    ensures KeysOf(sessions - {key}, sessions[key].user) == {} <==> OnlySession(sessions, key, sessions[key].user)
  {
    var owner, left := sessions[key].user, sessions - {key};
    if KeysOf(left, owner) == {} {
      forall k | k in sessions && sessions[k].user == owner ensures k == key { assert k !in KeysOf(left, owner); }
    }
  }

  /** The user goes from the store with exactly its own sessions. */
  lemma {:induction false} DeletedMeans(m: Model, user: nat)
    ensures Deleted(m, user).states == m.states - {user}
    ensures forall k :: k in Deleted(m, user).sessions <==> k in m.sessions && m.sessions[k].user != user
    ensures forall k :: k in Deleted(m, user).sessions ==> Deleted(m, user).sessions[k] == m.sessions[k]
  {
    forall k ensures k in KeysOf(m.sessions, user) <==> k in m.sessions && m.sessions[k].user == user { }
  }

  // ---------------------------------------------------------------- pruning

  /** The keys found expired, each looked at at its own instant. */
  function Stale(sessions: map<string, Info>, now: string -> int): set<string> {
    set k | k in sessions && Older(sessions[k].created, now(k), EXPIRATION)
  }

  /** The users that have a session among `keys` and none left outside. */
  function Losing(sessions: map<string, Info>, keys: set<string>): set<nat> {
    set k | k in sessions && k in keys && KeysOf(sessions, sessions[k].user) <= keys :: sessions[k].user
  }

  function Listed(ids: seq<nat>): set<nat> { set id | id in ids }

  ghost predicate Once(ids: seq<nat>) { forall i, j :: 0 <= i < j < |ids| ==> ids[i] != ids[j] }

  /** The keys in `gone` are deleted, in whatever order, and exactly the users left without a session are
      gone from the store and newly scheduled, once each. */
  ghost predicate Pruned(was: Model, m: Model, gone: set<string>) {
    && m.sessions == was.sessions - gone
    && m.states == was.states - Losing(was.sessions, gone)
    && m.nextID == was.nextID && m.expiries == was.expiries
    && was.cleanups <= m.cleanups
    && Listed(m.cleanups[|was.cleanups|..]) == Losing(was.sessions, gone)
    && Once(m.cleanups[|was.cleanups|..])
  }

  lemma {:induction false} LosingMore(sessions: map<string, Info>, gone: set<string>, key: string)
    requires key in sessions && key !in gone
    ensures var id := sessions[key].user;
            && id !in Losing(sessions, gone)
            && Losing(sessions, gone + {key}) == Losing(sessions, gone) +
                 (if KeysOf(sessions - gone - {key}, id) == {} then {id} else {})
  {
    var id := sessions[key].user;
    assert key in KeysOf(sessions, id);
    assert KeysOf(sessions - gone - {key}, id) == KeysOf(sessions, id) - gone - {key};
    forall u | u in Losing(sessions, gone + {key}) ensures u in Losing(sessions, gone) || u == id {
      var k :| k in sessions && k in gone + {key} && KeysOf(sessions, sessions[k].user) <= gone + {key}
               && sessions[k].user == u;
      if u != id { assert key !in KeysOf(sessions, u); }
    }
  }

  lemma {:induction false} PrunedMore(was: Model, m: Model, gone: set<string>, key: string)
    requires Pruned(was, m, gone) && key in was.sessions && key !in gone
    ensures key in m.sessions && Pruned(was, Delete(m, key), gone + {key})
  {
    LosingMore(was.sessions, gone, key);
    var id, m' := was.sessions[key].user, Delete(m, key);
    assert was.sessions - (gone + {key}) == was.sessions - gone - {key};
    var added := m.cleanups[|was.cleanups|..];
    if KeysOf(m.sessions - {key}, id) == {} {
      assert m'.cleanups[|was.cleanups|..] == added + [id];
      assert Listed(added + [id]) == Listed(added) + {id};
      assert forall i :: 0 <= i < |added| ==> added[i] in Listed(added);
    }
  }

  lemma {:induction false} PrunedKeeps(was: Model, m: Model, gone: set<string>)
    requires Consistent(was) && Pruned(was, m, gone)
    ensures Consistent(m)
  {
    var n := |was.cleanups|;
    var added := m.cleanups[n..];
    forall k | k in m.sessions ensures m.sessions[k].user in m.states {
      assert k in KeysOf(was.sessions, was.sessions[k].user);
    }
    forall i | 0 <= i < |m.cleanups|
      ensures m.cleanups[i] !in m.states && m.cleanups[i] < m.nextID
      ensures i < n ==> m.cleanups[i] == was.cleanups[i]
      ensures i >= n ==> m.cleanups[i] == added[i - n] && m.cleanups[i] in was.states
    {
      if i >= n { assert added[i - n] in Listed(added); }
    }
  }

  /** A prune leaves exactly the sessions that are at most seven days old, and, of the users that had a session,
      those that still have one; exactly the others are scheduled. */
  lemma {:induction false} PrunedMeans(was: Model, m: Model, now: string -> int, key: string, id: nat)
    requires Consistent(was) && Pruned(was, m, Stale(was.sessions, now))
    ensures key in m.sessions <==>
              key in was.sessions && now(key) - was.sessions[key].created * 1_000_000_000 <= 604_800_000_000_000
    ensures key in m.sessions ==> m.sessions[key] == was.sessions[key]
    ensures id in m.states <==> id in was.states && (HasSession(was.sessions, id) ==> HasSession(m.sessions, id))
    ensures id in m.cleanups <==> id in was.cleanups || (HasSession(was.sessions, id) && !HasSession(m.sessions, id))
  {
    var gone := Stale(was.sessions, now);
    LosingMeans(was.sessions, gone, id);
    var added := m.cleanups[|was.cleanups|..];
    assert m.cleanups == was.cleanups + added;
    assert id in added <==> id in Listed(added);
    if HasSession(was.sessions, id) {
      var k :| k in was.sessions && was.sessions[k].user == id;
      assert id in was.states;
    }
  }

  ghost predicate HasSession(sessions: map<string, Info>, id: nat) {
    exists k :: k in sessions && sessions[k].user == id
  }

  lemma {:induction false} StillThere(sessions: map<string, Info>, gone: set<string>, key: string, id: nat)
    requires key in sessions && sessions[key].user == id
    ensures key in gone || HasSession(sessions - gone, id)
  {
    if key !in gone { assert key in sessions - gone && (sessions - gone)[key].user == id; }
  }

  lemma {:induction false} LosingMeans(sessions: map<string, Info>, gone: set<string>, id: nat)
    ensures id in Losing(sessions, gone) <==> HasSession(sessions, id) && !HasSession(sessions - gone, id)
  {
    if id in Losing(sessions, gone) {
      forall k | k in sessions && sessions[k].user == id ensures k in gone { assert k in KeysOf(sessions, id); }
    }
    if HasSession(sessions, id) && !HasSession(sessions - gone, id) {
      var k :| k in sessions && sessions[k].user == id;
      forall j | j in KeysOf(sessions, id) ensures j in gone { StillThere(sessions, gone, j, id); }
      assert k in KeysOf(sessions, id);
    }
  }

  /** The keys in `left` are still to be looked at. */
  ghost predicate Progress(was: Model, m: Model, now: string -> int, left: set<string>) {
    Pruned(was, m, Stale(was.sessions, now) - left)
  }

  lemma {:induction false} PrunedNone(m: Model, now: string -> int, keys: set<string>)
    requires keys == m.sessions.Keys
    ensures Progress(m, m, now, keys)
  {
    assert Stale(m.sessions, now) - keys == {};
  }

  lemma {:induction false} ProgressMore(was: Model, m: Model, now: string -> int, left: set<string>, key: string)
    requires Progress(was, m, now, left) && key in left && key in was.sessions
    ensures key in m.sessions && m.sessions[key] == was.sessions[key]
    ensures var stale, left' := Stale(was.sessions, now), left - {key};
            Progress(was, if key in stale then Delete(m, key) else m, now, left')
  {
    var stale := Stale(was.sessions, now);
    if key in stale {
      PrunedMore(was, m, stale - left, key);
      assert stale - (left - {key}) == (stale - left) + {key};
    } else {
      assert stale - (left - {key}) == stale - left;
    }
  }

  lemma {:induction false} PrunedAll(was: Model, m: Model, now: string -> int)
    requires Consistent(was) && Progress(was, m, now, {})
    ensures Consistent(m) && Pruned(was, m, Stale(was.sessions, now))
  {
    assert Stale(was.sessions, now) - {} == Stale(was.sessions, now);
    PrunedKeeps(was, m, Stale(was.sessions, now));
  }

  // ---------------------------------------------------------------- whole runs

  datatype Step =
    | Serve(request: Request)
    | Prune(now: string -> int, after: Model)
    | Expire(user: nat)

  /** How often each user was removed. */
  function Removals(m: Model): multiset<nat> { multiset(m.cleanups) + multiset(m.expiries) }

  /** A prune may end in any store its iteration order allows; a timer belongs to a user that is or was live. */
  ghost predicate Enabled(m: Model, s: Step) {
    match s
    case Serve(_) => true
    case Prune(now, after) => Pruned(m, after, Stale(m.sessions, now))
    case Expire(user) => user in m.states || user in Removals(m)
  }

  function Next(m: Model, s: Step): Model {
    match s
    case Serve(q) => Auth(m, q).0
    case Prune(_, after) => after
    case Expire(user) => Expired(m, user)
  }

  function Run(m: Model, steps: seq<Step>): Model {
    if steps == [] then m else Next(Run(m, steps[..|steps| - 1]), steps[|steps| - 1])
  }

  ghost predicate RunEnabled(m: Model, steps: seq<Step>) {
    steps == [] ||
    var front := steps[..|steps| - 1];
    RunEnabled(m, front) && Enabled(Run(m, front), steps[|steps| - 1])
  }

  /** Over every run each session belongs to a live user, the end of sessions schedules nobody twice, and
      nobody who was scheduled or removed is ever live again. */
  lemma {:induction false} RunKeepsConsistent(m: Model, steps: seq<Step>)
    requires Consistent(m) && RunEnabled(m, steps)
    ensures Consistent(Run(m, steps))
    ensures m.cleanups <= Run(m, steps).cleanups && m.expiries <= Run(m, steps).expiries
  {
    if steps != [] {
      var front, last := steps[..|steps| - 1], steps[|steps| - 1];
      RunKeepsConsistent(m, front);
      NextKeeps(Run(m, front), last);
    }
  }

  lemma {:induction false} NextKeeps(m: Model, s: Step)
    requires Consistent(m) && Enabled(m, s)
    ensures Consistent(Next(m, s))
    ensures m.cleanups <= Next(m, s).cleanups && m.expiries <= Next(m, s).expiries
  {
    match s
    case Serve(q) => AuthKeeps(m, q);
    case Prune(now, after) => PrunedKeeps(m, after, Stale(m.sessions, now));
    case Expire(user) => DeletedKeeps(m, user);
  }

  lemma {:induction false} DeletedKeeps(m: Model, user: nat)
    requires Consistent(m)
    ensures Consistent(Deleted(m, user))
  {
    forall k | k in Deleted(m, user).sessions ensures m.sessions[k].user != user {
      assert k !in KeysOf(m.sessions, user);
    }
  }

  /** The key was given out with a request that was served for the user. */
  ghost predicate GivenOut(m: Model, s: Step, key: string, id: nat) {
    && s.Serve? && Auth(m, s.request).1 == Some(id)
    && (s.request.newKey == Some(key) || s.request.refreshKey == Some(key))
  }

  ghost predicate EverGivenOut(m: Model, steps: seq<Step>, key: string, id: nat) {
    steps != [] &&
    var front, last := steps[..|steps| - 1], steps[|steps| - 1];
    GivenOut(Run(m, front), last, key, id) || EverGivenOut(m, front, key, id)
  }

  /** Over every run a key stands for nobody but the user it was given out for. */
  lemma {:induction false} KeysAreGivenOut(m: Model, steps: seq<Step>, key: string)
    requires RunEnabled(m, steps) && key in Run(m, steps).sessions
    ensures var id := Run(m, steps).sessions[key].user;
            (key in m.sessions && m.sessions[key].user == id) || EverGivenOut(m, steps, key, id)
  {
    if steps != [] {
      var front, last := steps[..|steps| - 1], steps[|steps| - 1];
      var before := Run(m, front);
      match last {
        case Serve(q) => {
          SessionsAfter(before, q, key);
          ServedForOwner(before, q);
        }
        case Prune(_, _) => { }
        case Expire(user) => { DeletedMeans(before, user); }
      }
      if key in before.sessions { KeysAreGivenOut(m, front, key); }
    }
  }

  /** No timer fires for a user that has left the store. */
  ghost predicate NoLateTimer(m: Model, steps: seq<Step>) {
    steps == [] ||
    var front, last := steps[..|steps| - 1], steps[|steps| - 1];
    NoLateTimer(m, front) && (last.Expire? ==> last.user in Run(m, front).states)
  }

  ghost predicate AtMostOnce(ms: multiset<nat>) { forall u :: u in ms ==> ms[u] == 1 }

  /** What a step adds to the removals: live users, each once, and the user whose timer fired. */
  lemma {:induction false} StepRemoves(m: Model, s: Step) returns (added: seq<nat>)
    requires Consistent(m) && Enabled(m, s)
    ensures Next(m, s).cleanups == m.cleanups + added && Once(added)
    ensures forall i :: 0 <= i < |added| ==> added[i] in m.states
    ensures Next(m, s).expiries == m.expiries + if s.Expire? then [s.user] else []
    ensures s.Expire? ==> added == []
  {
    match s
    case Serve(q) =>
      added := Auth(m, q).0.cleanups[|m.cleanups|..];
    case Prune(now, after) =>
      added := after.cleanups[|m.cleanups|..];
      forall i | 0 <= i < |added| ensures added[i] in m.states {
        assert added[i] in Listed(added);
      }
    case Expire(user) => added := [];
  }

  lemma {:induction false} OnceCounts(ids: seq<nat>, u: nat)
    requires Once(ids)
    ensures multiset(ids)[u] <= 1
  {
    if ids != [] {
      var front, last := ids[..|ids| - 1], ids[|ids| - 1];
      assert ids == front + [last];
      OnceCounts(front, u);
      if u == last { assert u !in front; }
    }
  }

  lemma {:induction false} RemovalCount(m: Model, s: Step, added: seq<nat>, u: nat)
    requires Consistent(m) && Once(added) && (forall i :: 0 <= i < |added| ==> added[i] in m.states)
    requires Next(m, s).cleanups == m.cleanups + added && (s.Expire? ==> added == [])
    requires Next(m, s).expiries == m.expiries + if s.Expire? then [s.user] else []
    ensures var n, n' := Removals(m)[u], Removals(Next(m, s))[u];
            if u in m.states then n == 0 && n' <= 1
            else n' == n + if s.Expire? && s.user == u then 1 else 0
  {
    OnceCounts(added, u);
    if u in m.states {
      assert u !in m.cleanups && u !in m.expiries;
    } else {
      assert u !in added;
    }
  }

  lemma {:induction false} StepRemovesOnce(m: Model, s: Step)
    requires Consistent(m) && Enabled(m, s)
    ensures AtMostOnce(Removals(Next(m, s))) <==> AtMostOnce(Removals(m)) && (s.Expire? ==> s.user in m.states)
  {
    var added := StepRemoves(m, s);
    var before, after := Removals(m), Removals(Next(m, s));
    forall u ensures if u in m.states then before[u] == 0 && after[u] <= 1
                     else after[u] == before[u] + if s.Expire? && s.user == u then 1 else 0
    {
      RemovalCount(m, s, added, u);
    }
    if AtMostOnce(after) {
      forall u | u in before ensures before[u] == 1 { assert after[u] >= before[u]; }
    }
  }

  /** Over every run a user is removed at most once exactly if no timer fires for one that has left the
      store. */
  lemma {:induction false} RemovedOnce(m: Model, steps: seq<Step>)
    requires Consistent(m) && AtMostOnce(Removals(m)) && RunEnabled(m, steps)
    ensures AtMostOnce(Removals(Run(m, steps))) <==> NoLateTimer(m, steps)
  {
    if steps != [] {
      var front, last := steps[..|steps| - 1], steps[|steps| - 1];
      RemovedOnce(m, front);
      RunKeepsConsistent(m, front);
      StepRemovesOnce(Run(m, front), last);
    }
  }

  // ---------------------------------------------------------------- the objects

  class Session {
    const userID: nat
    var key: string
    var createdAt: int

    constructor (userID: nat, key: string, now: int)
      ensures this.userID == userID && this.key == key && createdAt == now / SECOND
    {
      this.userID, this.key, createdAt := userID, key, now / SECOND;
    }

    predicate Expired(now: int)
      reads this
    {
      Older(createdAt, now, EXPIRATION)
    }

    /** A new key and creation time once an hour has passed, unless no key could be made. */
    method Refresh(newKey: Option<string>, now: int, stamp: int) returns (r: Option<string>)
      modifies this
      ensures r == if old(Older(createdAt, now, REFRESH_INTERVAL)) then newKey else None
      ensures r.Some? ==> key == r.value && createdAt == stamp / SECOND
      ensures r.None? ==> unchanged(this)
    {
      r := None;
      if Older(createdAt, now, REFRESH_INTERVAL) {
        if newKey.Some? {
          createdAt, key := stamp / SECOND, newKey.value;
        }
        r := newKey;
      }
    }
  }

  ghost function Infos(sessions: map<string, Session>): map<string, Info>
    reads sessions.Values
  {
    map k | k in sessions :: Info(sessions[k].userID, sessions[k].createdAt)
  }

  lemma {:induction false} InfosPut(sessions: map<string, Session>, key: string, session: Session)
    ensures Infos(sessions[key := session]) == Infos(sessions)[key := Info(session.userID, session.createdAt)]
  {
  }

  lemma {:induction false} InfosDrop(sessions: map<string, Session>, keys: set<string>)
    ensures Infos(sessions - keys) == Infos(sessions) - keys
  {
  }

  /** How many sessions a user has. */
  method CountSessions(sessions: map<string, Session>, id: nat) returns (n: nat)
    ensures n == |KeysOf(Infos(sessions), id)|
  {
    n := 0;
    var left := sessions.Keys;
    ghost var counted: set<string> := {};
    while left != {}
      invariant left <= sessions.Keys && n == |counted|
      invariant forall k :: k in counted <==> k in sessions && k !in left && sessions[k].userID == id
    {
      var key :| key in left;
      if sessions[key].userID == id {
        n, counted := n + 1, counted + {key};
      }
      left := left - {key};
    }
    assert counted == KeysOf(Infos(sessions), id);
  }

  class StateStore {
    var states: set<nat>
    var sessions: map<string, Session>
    var cleanups: seq<nat>
    var expiries: seq<nat>
    var nextID: nat

    /** Every key leads to the session that has this key, and the store is consistent. */
    ghost predicate Valid()
      reads this, sessions.Values
    {
      Consistent(Abstract()) && forall k :: k in sessions ==> sessions[k].key == k
    }

    ghost function Abstract(): Model
      reads this, sessions.Values
    {
      Model(states, Infos(sessions), cleanups, expiries, nextID)
    }

    /** `internalDeleteSession`: count what is left to the user, and schedule the clean-up if nothing is. */
    method DeleteSession(key: string)
      requires key in sessions
      modifies this
      ensures Abstract() == Delete(old(Abstract()), key) && sessions == old(sessions) - {key}
    {
      var id := sessions[key].userID;
      InfosDrop(sessions, {key});
      sessions := sessions - {key};
      var n := CountSessions(sessions, id);
      if n == 0 {
        states := states - {id};
        cleanups := cleanups + [id];
      }
    }

    /** `stateStore.delete`, when an idle user's timer fires. */
    method DeleteState(id: nat)
      requires Valid()
      modifies this
      ensures Valid() && Abstract() == Deleted(old(Abstract()), id)
    {
      ghost var was := Abstract();
      states := states - {id};
      var left := sessions.Keys;
      ghost var done: set<string> := {};
      while left != {}
        invariant left + done == old(sessions).Keys && left !! done
        invariant sessions == old(sessions) - (KeysOf(was.sessions, id) * done)
        invariant states == was.states - {id} && nextID == was.nextID
        invariant cleanups == was.cleanups && expiries == was.expiries
      {
        var key :| key in left;
        if sessions[key].userID == id {
          sessions := sessions - {key};
        }
        left, done := left - {key}, done + {key};
      }
      assert KeysOf(was.sessions, id) * done == KeysOf(was.sessions, id);
      InfosDrop(old(sessions), KeysOf(was.sessions, id));
      DeletedKeeps(was, id);
    }

    /** The timer branch of `run`. */
    method ExpireUser(id: nat)
      requires Valid() && id < nextID
      modifies this
      ensures Valid() && Abstract() == Expired(old(Abstract()), id)
    {
      DeleteState(id);
      expiries := expiries + [id];
    }

    /** The prune loop, in any order. */
    method PruneSessions(now: string -> int)
      requires Valid()
      modifies this
      ensures Valid() && Pruned(old(Abstract()), Abstract(), Stale(old(Abstract()).sessions, now))
    {
      ghost var was := Abstract();
      PrunedNone(was, now, sessions.Keys);
      var left := sessions.Keys;
      while left != {}
        invariant left <= old(sessions).Keys && Progress(was, Abstract(), now, left)
        invariant forall k :: k in sessions ==> k in old(sessions) && sessions[k] == old(sessions)[k]
      {
        var key :| key in left;
        ProgressMore(was, Abstract(), now, left, key);
        if sessions[key].Expired(now(key)) {
          DeleteSession(key);
        }
        left := left - {key};
      }
      PrunedAll(was, Abstract(), now);
    }

    /** `setSession`. */
    method SetSession(session: Session)
      modifies this`sessions
      ensures sessions == old(sessions)[session.key := session]
      ensures Abstract() == old(Abstract()).(sessions :=
                old(Abstract()).sessions[session.key := Info(session.userID, session.createdAt)])
    {
      InfosPut(sessions, session.key, session);
      sessions := sessions[session.key := session];
    }

    method NewUser(q: Request) returns (user: Option<nat>)
      requires Valid()
      modifies this
      ensures Valid() && (Abstract(), user) == Fallback(old(Abstract()), q.(createUser := true))
    {
      ghost var was := Abstract();
      FallbackKeeps(was, q.(createUser := true));
      user := None;
      if q.stored {
        var id := nextID;
        nextID := nextID + 1;
        assert Abstract() == was.(nextID := id + 1);
        if q.newKey.Some? {
          var session := new Session(id, q.newKey.value, q.createdAt);
          assert Abstract() == was.(nextID := id + 1);
          SetSession(session);
          states := states + {id};
          user := Some(id);
        }
      }
    }

    /** `handleAuth`. */
    method HandleAuth(q: Request) returns (user: Option<nat>)
      requires Valid()
      modifies this, sessions.Values
      ensures Valid() && (Abstract(), user) == Auth(old(Abstract()), q)
      ensures q.cookie.Some? && old(q.cookie.value in sessions
                && q.seenAt - sessions[q.cookie.value].createdAt * 1_000_000_000 <= 604_800_000_000_000) ==>
                user == Some(old(sessions)[q.cookie.value].userID)
      ensures !(q.cookie.Some? && old(q.cookie.value in sessions
                && q.seenAt - sessions[q.cookie.value].createdAt * 1_000_000_000 <= 604_800_000_000_000)) ==>
                user == if q.createUser && q.stored && q.newKey.Some? then Some(old(nextID)) else None
    {
      ServedForOwner(Abstract(), q);
      user := None;
      if q.cookie.Some? && q.cookie.value in sessions {
        user := UseSession(q);
      }
      if user.None? && q.createUser {
        user := NewUser(q);
      }
    }

    /** Only the session itself changes, so the store is still the same but for its creation time. */
    method RenewSession(key: string, q: Request) returns (newKey: Option<string>)
      requires Valid() && key in sessions
      modifies sessions[key]
      ensures newKey == if Older(old(Infos(sessions))[key].created, q.refreshedAt, REFRESH_INTERVAL)
                        then q.refreshKey else None
      ensures newKey.Some? ==> sessions[key].key == newKey.value
      ensures forall k :: k in sessions && k != key ==> sessions[k].key == k
      ensures newKey.None? ==> sessions[key].key == key
      ensures Infos(sessions) == if newKey.None? then old(Infos(sessions))
                                 else old(Infos(sessions))[key := Info(sessions[key].userID, q.stampedAt / SECOND)]
    {
      newKey := sessions[key].Refresh(q.refreshKey, q.refreshedAt, q.stampedAt);
    }

    /** The new key goes in before the old one goes out. */
    method RefreshSession(key: string, q: Request)
      requires Valid() && key in sessions
      modifies this, sessions[key]
      ensures Valid()
      ensures var m := old(Abstract());
              Abstract() == if Older(m.sessions[key].created, q.refreshedAt, REFRESH_INTERVAL) && q.refreshKey.Some?
                            then Refreshed(m, key, q.refreshKey.value, q.stampedAt) else m
    {
      var session := sessions[key];
      ghost var was := Abstract();
      var newKey := RenewSession(key, q);
      if newKey.Some? {
        RefreshKeepsUser(was, key, newKey.value, q.stampedAt);
        SetSession(session);
        DeleteSession(key);
      }
    }

    method UseSession(q: Request) returns (user: Option<nat>)
      requires Valid() && q.cookie.Some? && q.cookie.value in sessions
      modifies this, sessions.Values
      ensures Valid()
      ensures var m, key := old(Abstract()), q.cookie.value;
              if Older(m.sessions[key].created, q.seenAt, EXPIRATION)
              then user.None? && Abstract() == Delete(m, key)
              else (Abstract(), user) == Auth(m, q)
    {
      var session := sessions[q.cookie.value];
      var key := session.key;
      if !session.Expired(q.seenAt) {
        assert Abstract().sessions[key].user in Abstract().states;
        user := if session.userID in states then Some(session.userID) else None;
        if q.refresh {
          RefreshSession(key, q);
        }
      } else {
        DeleteKeeps(Abstract(), key);
        user := None;
        DeleteSession(key);
      }
    }
  }
}
