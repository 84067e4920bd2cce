/** When a network's channel list is fetched anew: the update manager and its timers. */
module IndexManager {
  import opened Wrappers
  import opened Wire

  // Nanoseconds.
  const INTERVAL := 86_400_000_000_000
  const TIMEOUT := 300_000_000_000

  /** `managedChannelIndex`; `updatedAt` is `None` for the zero time, which is always long past. */
  datatype Managed<I> = Managed(index: Option<I>, updatedAt: Option<int>, updating: bool)

  type Indexes<I> = map<Bytes, Managed<I>>

  predicate Stale<I>(e: Managed<I>, now: int) {
    !e.updating && (e.updatedAt.None? || now - e.updatedAt.value > INTERVAL)
  }

  /** A caller of `Get` is told to fetch the list: the network is new, or its list is out of date and
      nobody is fetching it. */
  predicate Grants<I>(m: Indexes<I>, network: Bytes, now: int) {
    network !in m || Stale(m[network], now)
  }

  function AfterGet<I>(m: Indexes<I>, network: Bytes, now: int): Indexes<I> {
    if network !in m then m[network := Managed(None, None, true)]
    else if Stale(m[network], now) then m[network := m[network].(updating := true)]
    else m
  }

  function AfterTimeout<I>(m: Indexes<I>, network: Bytes): Indexes<I> {
    if network in m then m[network := m[network].(updating := false)] else m
  }

  class ChannelIndexManager<I> {
    var indexes: Indexes<I>

    constructor ()
      ensures indexes == map[]
    {
      indexes := map[];
    }

    /** A grant launches `timeoutUpdate` for the network. */
    method Get(network: Bytes, now: int) returns (index: Option<I>, needsUpdate: bool)
      modifies this
      ensures needsUpdate <==> Grants(old(indexes), network, now)
      ensures indexes == AfterGet(old(indexes), network, now)
      ensures index == if network in old(indexes) then old(indexes)[network].index else None
    {
      if network !in indexes {
        indexes := indexes[network := Managed(None, None, true)];
        return None, true;
      }
      var idx := indexes[network];
      if !idx.updating && (idx.updatedAt.None? || now - idx.updatedAt.value > INTERVAL) {
        indexes := indexes[network := idx.(updating := true)];
        return idx.index, true;
      }
      return idx.index, false;
    }

    /** An empty list (`length` zero) is dropped. */
    method Set(network: Bytes, index: I, length: nat, now: int)
      modifies this
      ensures indexes == if length > 0 then old(indexes)[network := Managed(Some(index), Some(now), false)]
                         else old(indexes)
    {
      if length > 0 {
        indexes := indexes[network := Managed(Some(index), Some(now), false)];
      }
    }

    method TimeoutUpdate(network: Bytes)
      requires network in indexes
      modifies this
      ensures indexes == AfterTimeout(old(indexes), network)
    {
      if indexes[network].updating {
        indexes := indexes[network := indexes[network].(updating := false)];
      }
    }
  }

  // ---------------------------------------------------------------- timed runs

  datatype Timer = Timer(network: Bytes, launched: int)

  /** A running manager: its map, the clock, the sleeping timers, and what has been observed so far,
      which is the times of the grants, and for each network the last non-empty list set and when. */
  datatype World<I> = World(indexes: Indexes<I>, now: int, timers: seq<Timer>,
                            grants: map<Bytes, seq<int>>, latest: map<Bytes, I>, setAt: map<Bytes, int>)

  datatype Step<I> = Wait(until: int) | Get(network: Bytes) | Set(network: Bytes, index: I, length: nat) | Fire(i: nat)

  function GrantsOf<I>(w: World<I>, n: Bytes): seq<int> { if n in w.grants then w.grants[n] else [] }

  /** Time never runs back, a timer fires at the earliest five minutes after its launch, and the clock
      does not pass a sleeping timer by 24 hours. */
  predicate Enabled<I>(w: World<I>, s: Step<I>) {
    match s
    case Wait(t) => w.now <= t && forall i :: 0 <= i < |w.timers| ==> t - w.timers[i].launched < INTERVAL
    case Get(_) => true
    case Set(_, _, _) => true
    case Fire(i) => i < |w.timers| && w.now - w.timers[i].launched >= TIMEOUT
  }

  function Next<I>(w: World<I>, s: Step<I>): World<I>
    requires Enabled(w, s)
  {
    match s
    case Wait(t) => w.(now := t)
    case Get(n) =>
      var w' := w.(indexes := AfterGet(w.indexes, n, w.now));
      if Grants(w.indexes, n, w.now)
      then w'.(timers := w.timers + [Timer(n, w.now)], grants := w.grants[n := GrantsOf(w, n) + [w.now]])
      else w'
    case Set(n, index, length) =>
      if length > 0
      then w.(indexes := w.indexes[n := Managed(Some(index), Some(w.now), false)],
              latest := w.latest[n := index], setAt := w.setAt[n := w.now])
      else w
    case Fire(i) =>
      w.(indexes := AfterTimeout(w.indexes, w.timers[i].network), timers := w.timers[..i] + w.timers[i + 1..])
  }

  /** At most one timer sleeps per network, it belongs to the newest grant, and it is the only thing
      that an update in progress waits for. */
  ghost predicate Inv<I(!new)>(w: World<I>) {
    && (forall i :: 0 <= i < |w.timers| ==> TimerOk(w, w.timers[i]))
    && (forall i, j :: 0 <= i < j < |w.timers| ==> w.timers[i].network != w.timers[j].network)
    && (forall n :: NetworkOk(w, n))
  }

  ghost predicate TimerOk<I>(w: World<I>, t: Timer) {
    && t.network in w.indexes && GrantsOf(w, t.network) != []
    && t.launched == GrantsOf(w, t.network)[|GrantsOf(w, t.network)| - 1]
    && t.launched <= w.now < t.launched + INTERVAL
    && (w.indexes[t.network].updating || (w.indexes[t.network].updatedAt.Some?
                                          && t.launched <= w.indexes[t.network].updatedAt.value))
  }

  ghost predicate Asleep(timers: seq<Timer>, n: Bytes) {
    exists i :: 0 <= i < |timers| && timers[i].network == n
  }

  ghost predicate Sleeping<I>(w: World<I>, n: Bytes) { Asleep(w.timers, n) }

  ghost predicate NetworkOk<I>(w: World<I>, n: Bytes) {
    var g := GrantsOf(w, n);
    && (forall i :: 0 < i < |g| ==> g[i] - g[i - 1] >= TIMEOUT)
    && (g != [] && !Sleeping(w, n) ==> w.now - g[|g| - 1] >= TIMEOUT)
    && (g != [] ==> n in w.indexes)
    && (n in w.indexes ==>
          && (w.indexes[n].updating ==> Sleeping(w, n))
          && (w.indexes[n].updatedAt.Some? ==> w.indexes[n].updatedAt.value <= w.now)
          && w.indexes[n].updatedAt == (if n in w.setAt then Some(w.setAt[n]) else None)
          && w.indexes[n].index == (if n in w.latest then Some(w.latest[n]) else None))
    && (n in w.latest || n in w.setAt ==> n in w.indexes)
  }

  /** No grant while a timer sleeps: an update in progress blocks it, and a list set since the timer
      was launched is less than 24 hours old. */
  lemma NoGrantWhileSleeping<I(!new)>(w: World<I>, n: Bytes)
    requires Inv(w) && Sleeping(w, n)
    ensures !Grants(w.indexes, n, w.now)
  {
    var i :| 0 <= i < |w.timers| && w.timers[i].network == n;
    assert TimerOk(w, w.timers[i]);
  }

  lemma WaitKeepsInv<I(!new)>(w: World<I>, t: int)
    requires Inv(w) && Enabled(w, Wait(t))
    ensures Inv(Next(w, Wait(t)))
  {
    var w' := Next(w, Wait(t));
    forall i | 0 <= i < |w'.timers| ensures TimerOk(w', w'.timers[i]) { assert TimerOk(w, w.timers[i]); }
    forall n ensures NetworkOk(w', n) { assert NetworkOk(w, n); }
  }

  lemma GrantWakesOne<I(!new)>(w: World<I>, n: Bytes, k: Bytes)
    requires Grants(w.indexes, n, w.now)
    ensures Sleeping(Next(w, Step<I>.Get(n)), k) <==> k == n || Sleeping(w, k)
  {
    var w' := Next(w, Step<I>.Get(n));
    assert w'.timers[|w.timers|].network == n;
    assert forall i :: 0 <= i < |w.timers| ==> w'.timers[i] == w.timers[i];
  }

  lemma GrantKeepsOthers<I(!new)>(w: World<I>, n: Bytes, k: Bytes)
    requires Grants(w.indexes, n, w.now) && k != n && NetworkOk(w, k)
    ensures NetworkOk(Next(w, Step<I>.Get(n)), k)
  {
    GrantWakesOne(w, n, k);
    assert GrantsOf(Next(w, Step<I>.Get(n)), k) == GrantsOf(w, k);
  }

  lemma GrantKeepsOwn<I(!new)>(w: World<I>, n: Bytes)
    requires Grants(w.indexes, n, w.now) && NetworkOk(w, n) && !Sleeping(w, n)
    ensures NetworkOk(Next(w, Step<I>.Get(n)), n)
  {
    GrantWakesOne(w, n, n);
    assert GrantsOf(Next(w, Step<I>.Get(n)), n) == GrantsOf(w, n) + [w.now];
  }

  lemma GrantKeepsTimers<I(!new)>(w: World<I>, n: Bytes, i: nat)
    requires Inv(w) && Grants(w.indexes, n, w.now) && i < |w.timers|
    ensures TimerOk(Next(w, Step<I>.Get(n)), w.timers[i]) && w.timers[i].network != n
  {
    assert TimerOk(w, w.timers[i]);
    if w.timers[i].network == n { NoGrantWhileSleeping(w, n); }
  }

  lemma GetKeepsInv<I(!new)>(w: World<I>, n: Bytes)
    requires Inv(w)
    ensures Inv(Next(w, Step<I>.Get(n)))
  {
    if Grants(w.indexes, n, w.now) {
      var w' := Next(w, Step<I>.Get(n));
      if Sleeping(w, n) { NoGrantWhileSleeping(w, n); }
      forall k ensures NetworkOk(w', k) {
        if k == n { GrantKeepsOwn(w, n); } else { GrantKeepsOthers(w, n, k); }
      }
      forall i | 0 <= i < |w.timers| ensures TimerOk(w', w'.timers[i]) && w'.timers[i].network != n {
        GrantKeepsTimers(w, n, i);
      }
    }
  }

  lemma SetKeepsInv<I(!new)>(w: World<I>, n: Bytes, index: I, length: nat)
    requires Inv(w)
    ensures Inv(Next(w, Set(n, index, length)))
  {
    var w' := Next(w, Set(n, index, length));
    forall i | 0 <= i < |w'.timers| ensures TimerOk(w', w'.timers[i]) { assert TimerOk(w, w.timers[i]); }
    forall k ensures NetworkOk(w', k) { assert NetworkOk(w, k); }
  }

  lemma FireEndsSleep(timers: seq<Timer>, i: nat, k: Bytes)
    requires i < |timers|
    requires forall x, y :: 0 <= x < y < |timers| ==> timers[x].network != timers[y].network
    ensures Asleep(timers[..i] + timers[i + 1..], k) <==> k != timers[i].network && Asleep(timers, k)
  {
    var rest := timers[..i] + timers[i + 1..];
    if Asleep(rest, k) {
      var j :| 0 <= j < |rest| && rest[j].network == k;
      assert rest[j] == timers[if j < i then j else j + 1];
    }
    if k != timers[i].network && Asleep(timers, k) {
      var j :| 0 <= j < |timers| && timers[j].network == k;
      assert rest[if j < i then j else j - 1] == timers[j];
    }
  }

  lemma FireKeepsNetwork<I(!new)>(w: World<I>, i: nat, k: Bytes)
    requires Inv(w) && i < |w.timers| && Enabled(w, Fire(i))
    ensures NetworkOk(Next(w, Fire(i)), k)
  {
    FireEndsSleep(w.timers, i, k);
    assert TimerOk(w, w.timers[i]);
    assert NetworkOk(w, k);
  }

  lemma FireKeepsInv<I(!new)>(w: World<I>, i: nat)
    requires Inv(w) && Enabled(w, Fire(i))
    ensures Inv(Next(w, Fire(i)))
  {
    var w' := Next(w, Fire(i));
    forall k ensures NetworkOk(w', k) { FireKeepsNetwork(w, i, k); }
    forall j | 0 <= j < |w'.timers|
      ensures w'.timers[j] == w.timers[if j < i then j else j + 1] && TimerOk(w', w'.timers[j])
    {
      var k := if j < i then j else j + 1;
      assert TimerOk(w, w.timers[k]);
      assert w.timers[k].network != w.timers[i].network;
    }
  }

  // ---------------------------------------------------------------- the theorems

  ghost predicate IsRun<I(!new)>(ws: seq<World<I>>, steps: seq<Step<I>>) {
    && |ws| == |steps| + 1
    && ws[0].indexes == map[] && ws[0].timers == [] && ws[0].grants == map[]
    && ws[0].latest == map[] && ws[0].setAt == map[]
    && forall i :: 0 <= i < |steps| ==> Enabled(ws[i], steps[i]) && ws[i + 1] == Next(ws[i], steps[i])
  }

  lemma {:induction false} RunKeepsInv<I(!new)>(ws: seq<World<I>>, steps: seq<Step<I>>, k: nat)
    requires IsRun(ws, steps) && k < |ws|
    ensures Inv(ws[k])
  {
    if k > 0 {
      RunKeepsInv(ws, steps, k - 1);
      match steps[k - 1]
      case Wait(t) => WaitKeepsInv(ws[k - 1], t);
      case Get(n) => GetKeepsInv(ws[k - 1], n);
      case Set(n, index, length) => SetKeepsInv(ws[k - 1], n, index, length);
      case Fire(i) => FireKeepsInv(ws[k - 1], i);
    }
  }

  lemma {:induction false} SpacingAddsUp(g: seq<int>, i: nat, j: nat)
    requires i < j < |g| && forall k :: 0 < k < |g| ==> g[k] - g[k - 1] >= TIMEOUT
    ensures g[j] - g[i] >= TIMEOUT
  {
    if i + 1 < j { SpacingAddsUp(g, i, j - 1); }
    assert g[j] - g[j - 1] >= TIMEOUT;
  }

  /** In every run, whoever asks is told to fetch the list exactly if no timer sleeps for the network and no
      list was set for it in the last 24 hours. */
  lemma {:induction false} GrantedExactly<I(!new)>(ws: seq<World<I>>, steps: seq<Step<I>>, k: nat, n: Bytes)
    requires IsRun(ws, steps) && k < |ws|
    ensures Grants(ws[k].indexes, n, ws[k].now)
       <==> !Sleeping(ws[k], n) && (n in ws[k].setAt ==> ws[k].now - ws[k].setAt[n] > 86_400_000_000_000)
  {
    RunKeepsInv(ws, steps, k);
    assert NetworkOk(ws[k], n);
    if Sleeping(ws[k], n) { NoGrantWhileSleeping(ws[k], n); }
  }

  /** In every run, two grants for one network are at least five minutes apart. */
  lemma GrantsAreSpaced<I(!new)>(ws: seq<World<I>>, steps: seq<Step<I>>, k: nat, n: Bytes, i: nat, j: nat)
    requires IsRun(ws, steps) && k < |ws| && i < j < |GrantsOf(ws[k], n)|
    ensures GrantsOf(ws[k], n)[j] - GrantsOf(ws[k], n)[i] >= 300_000_000_000
  {
    RunKeepsInv(ws, steps, k);
    assert NetworkOk(ws[k], n);
    SpacingAddsUp(GrantsOf(ws[k], n), i, j);
  }

  /** A timer that clears an update in progress is the one that update's own grant launched. */
  lemma NoStaleTimerClears<I(!new)>(ws: seq<World<I>>, steps: seq<Step<I>>, k: nat, i: nat)
    requires IsRun(ws, steps) && k < |steps| && steps[k] == Fire(i)
    ensures var n, g := ws[k].timers[i].network, GrantsOf(ws[k], ws[k].timers[i].network);
            && n in ws[k].indexes && g != [] && ws[k].timers[i].launched == g[|g| - 1]
  {
    RunKeepsInv(ws, steps, k);
    assert TimerOk(ws[k], ws[k].timers[i]);
  }

  /** `Get` hands out the latest non-empty list that was set, if any. */
  lemma GetReturnsLatest<I(!new)>(ws: seq<World<I>>, steps: seq<Step<I>>, k: nat, n: Bytes)
    requires IsRun(ws, steps) && k < |ws|
    ensures (if n in ws[k].indexes then ws[k].indexes[n].index else None)
         == if n in ws[k].latest then Some(ws[k].latest[n]) else None
  {
    RunKeepsInv(ws, steps, k);
    assert NetworkOk(ws[k], n);
  }
}
