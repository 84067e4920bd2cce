/** A user's message log: `LogMessage` and `LogEvent` keep the last message of every channel in
    memory, and use it to collapse runs of joins, parts, quits and nick changes into one entry. */
module UserLog {
  import opened Wrappers
  import opened Wire
  import opened Records
  import opened Bolt
  import opened MessageLog
  import opened Grouping

  /** A message with the routing fields that the wire format leaves out. */
  datatype Routed = Routed(network: Bytes, to: Bytes, m: Message)
  datatype Key = Key(network: Bytes, channel: Bytes)

  type LogItem = Item<Message, Event>

  // ---------------------------------------------------------------- collapsing

  const JOIN: Bytes := [106, 111, 105, 110]
  const PART: Bytes := [112, 97, 114, 116]
  const QUIT: Bytes := [113, 117, 105, 116]
  const NICK: Bytes := [110, 105, 99, 107]
  const COLLAPSED: seq<Bytes> := [JOIN, PART, QUIT, NICK]

  predicate Collapsible(e: Event) { e.typ in COLLAPSED }

  /** The bytes of an ASCII text. */
  function Ascii(s: string): Bytes { seq(|s|, i requires 0 <= i < |s| => s[i] as int % 256) }

  lemma {:induction false} CollapsibleTypes(e: Event)
    ensures Collapsible(e) <==> e.typ in {Ascii("join"), Ascii("part"), Ascii("quit"), Ascii("nick")}
  {
    assert JOIN == Ascii("join") && PART == Ascii("part") && QUIT == Ascii("quit") && NICK == Ascii("nick");
  }

  predicate Collapses(m: Message, e: Event) {
    m.events != [] && Collapsible(m.events[0]) && Collapsible(e)
  }

  /** How often a type occurs among the first `n` collapsible ones. */
  ghost function Hits(t: Bytes, n: nat): nat
    requires n <= 4
  {
    if n == 0 then 0 else Hits(t, n - 1) + if t == COLLAPSED[n - 1] then 1 else 0
  }

  lemma HitsOnce(t: Bytes)
    ensures Hits(t, 4) == if t in COLLAPSED then 1 else 0
  {
    assert JOIN[0] != PART[0] && JOIN[0] != QUIT[0] && JOIN[0] != NICK[0];
    assert PART[0] != QUIT[0] && PART[0] != NICK[0] && QUIT[0] != NICK[0];
    assert Hits(t, 4) == Hits(t, 3) + if t == NICK then 1 else 0;
    assert Hits(t, 3) == Hits(t, 2) + if t == QUIT then 1 else 0;
    assert Hits(t, 2) == Hits(t, 1) + if t == PART then 1 else 0;
    assert Hits(t, 1) == Hits(t, 0) + if t == JOIN then 1 else 0;
  }

  /** The match-counting loop of `shouldCollapse` decides whether both events are collapsible. */
  method ShouldCollapse(m: Message, e: Event) returns (b: bool)
    ensures b <==> Collapses(m, e)
  {
    var matches := 0;
    if |m.events| > 0 {
      for i := 0 to |COLLAPSED|
        invariant matches == Hits(m.events[0].typ, i) + Hits(e.typ, i)
      {
        if m.events[0].typ == COLLAPSED[i] { matches := matches + 1; }
        if e.typ == COLLAPSED[i] { matches := matches + 1; }
      }
      HitsOnce(m.events[0].typ);
      HitsOnce(e.typ);
    }
    b := matches == 2;
  }

  // ---------------------------------------------------------------- one channel's log

  function Happenings(es: seq<Event>): (r: seq<LogItem>)
    ensures |r| == |es|
    ensures forall i :: 0 <= i < |es| ==> r[i] == Happened(es[i])
  {
    if es == [] then [] else Happenings(Front(es)) + [Happened(Last(es))]
  }

  /** What a stored message stands for: itself, or the events it collects. */
  function GroupOf(m: Message): seq<LogItem> {
    if m.events == [] then [Text(m)] else Happenings(m.events)
  }

  function Groups(log: seq<Message>): seq<seq<LogItem>> {
    if log == [] then [] else Groups(Front(log)) + [GroupOf(Last(log))]
  }

  lemma {:induction false} GroupsAt(log: seq<Message>, i: nat)
    requires i < |log|
    ensures |Groups(log)| == |log| && Groups(log)[i] == GroupOf(log[i])
  {
    var front := Front(log);
    if i < |front| {
      GroupsAt(front, i);
    } else if front != [] {
      GroupsAt(front, |front| - 1);
    }
  }

  /** The stored log, the cached last message and the input stream of one channel agree. */
  ghost predicate Coherent(k: Key, b: Option<Bucket>, cached: Option<Routed>, log: seq<Message>,
                           stream: seq<LogItem>, clock: Bytes)
  {
    && Groups(log) == Group(Collapsible, stream)
    && (forall i :: 0 <= i < |log| ==> !Less(clock, log[i].id))
    && match b
       case None => log == [] && cached == None
       case Some(bucket) =>
         log != [] && Holds(bucket, log) && cached == Some(Routed(k.network, k.channel, Last(log)))
  }

  function Contents(b: Option<Bucket>): Bucket { if b.Some? then b.value else [] }

  /** An ID beyond every stored one goes to the end of the bucket. */
  lemma PutAppends(b: Bucket, log: seq<Message>, m: Message)
    requires Holds(b, log) && m.id != []
    requires forall i :: 0 <= i < |log| ==> Less(log[i].id, m.id)
    ensures Holds(Put(b, m.id, MessageBytes(m)), log + [m])
  {
    PutSorted(b, m.id, MessageBytes(m));
    var n := LowerBound(b, m.id);
    assert forall i :: 0 <= i < |b| ==> Less(b[i].key, m.id);
    assert n == |b|;
    var b' := Put(b, m.id, MessageBytes(m));
    assert b' == b + [Entry(m.id, MessageBytes(m))];
    forall i {:trigger Stores(b'[i].value, (log + [m])[i])} | 0 <= i < |log + [m]|
      ensures Stores(b'[i].value, (log + [m])[i])
    {
      if i < |log| { assert Stores(b[i].value, log[i]); }
    }
  }

  /** Logging the last message again, with the same ID, replaces it. */
  lemma PutReplaces(b: Bucket, log: seq<Message>, m: Message)
    requires Holds(b, log) && log != [] && m.id == Last(log).id
    ensures Holds(Put(b, m.id, MessageBytes(m)), Front(log) + [m])
  {
    PutSorted(b, m.id, MessageBytes(m));
    FoundAt(b, |b| - 1);
    var b', log' := Put(b, m.id, MessageBytes(m)), Front(log) + [m];
    assert b' == b[..|b| - 1] + [Entry(m.id, MessageBytes(m))];
    forall i {:trigger Stores(b'[i].value, log'[i])} | 0 <= i < |log'| ensures Stores(b'[i].value, log'[i]) {
      if i < |log| - 1 { assert Stores(b[i].value, log[i]); }
    }
  }

  lemma AllBelow(log: seq<Message>, clock: Bytes, id: Bytes)
    requires forall i :: 0 <= i < |log| ==> !Less(clock, log[i].id)
    requires Less(clock, id)
    ensures forall i :: 0 <= i < |log| ==> Less(log[i].id, id)
  {
    forall i | 0 <= i < |log| ensures Less(log[i].id, id) {
      LessTotal(clock, log[i].id);
      if log[i].id != clock { LessTransitive(log[i].id, clock, id); }
    }
  }

  lemma ClockAdvances(k: Key, b: Option<Bucket>, cached: Option<Routed>, log: seq<Message>,
                      stream: seq<LogItem>, clock: Bytes, later: Bytes)
    requires Coherent(k, b, cached, log, stream, clock) && (clock == later || Less(clock, later))
    ensures Coherent(k, b, cached, log, stream, later)
  {
    if clock != later {
      AllBelow(log, clock, later);
      forall i | 0 <= i < |log| ensures !Less(later, log[i].id) { LessTotal(later, log[i].id); }
    }
  }

  /** The item a new message contributes, and that it starts a group of its own. */
  lemma AppendStartsGroup(log: seq<Message>, stream: seq<LogItem>, m: Message, x: LogItem)
    requires Groups(log) == Group(Collapsible, stream) && GroupOf(m) == [x]
    requires log != [] && x.Happened? ==> !Collapses(Last(log), x.event)
    ensures Groups(log + [m]) == Group(Collapsible, stream + [x])
  {
    assert Front(log + [m]) == log;
    GroupSnoc(Collapsible, stream, x);
  }

  lemma CollapseExtendsGroup(log: seq<Message>, stream: seq<LogItem>, e: Event)
    requires Groups(log) == Group(Collapsible, stream) && log != [] && Collapses(Last(log), e)
    ensures Groups(Front(log) + [Last(log).(events := Last(log).events + [e])])
         == Group(Collapsible, stream + [Happened(e)])
  {
    var last := Last(log);
    var m := last.(events := last.events + [e]);
    assert Front(Front(log) + [m]) == Front(log);
    assert Front(m.events) == last.events;
    GroupSnoc(Collapsible, stream, Happened(e));
  }

  /** Logging a new message to a channel. */
  lemma AppendCoherent(k: Key, b: Option<Bucket>, cached: Option<Routed>, log: seq<Message>,
                       stream: seq<LogItem>, clock: Bytes, m: Message, x: LogItem)
    requires Coherent(k, b, cached, log, stream, clock) && Less(clock, m.id) && GroupOf(m) == [x]
    requires cached.Some? && x.Happened? ==> !Collapses(cached.value.m, x.event)
    ensures Coherent(k, Some(Put(Contents(b), m.id, MessageBytes(m))),
                     Some(Routed(k.network, k.channel, m)), log + [m], stream + [x], m.id)
  {
    AllBelow(log, clock, m.id);
    assert Holds([], []);
    PutAppends(Contents(b), log, m);
    AppendStartsGroup(log, stream, m, x);
    forall i | 0 <= i < |log + [m]| ensures !Less(m.id, (log + [m])[i].id) {
      LessTotal(m.id, (log + [m])[i].id);
    }
  }

  /** Logging an event that collapses into the channel's last message. */
  lemma CollapseCoherent(k: Key, b: Bucket, last: Message, log: seq<Message>, stream: seq<LogItem>,
                         clock: Bytes, e: Event)
    requires Coherent(k, Some(b), Some(Routed(k.network, k.channel, last)), log, stream, clock)
    requires Collapses(last, e)
    ensures var m := last.(events := last.events + [e]);
            Coherent(k, Some(Put(b, m.id, MessageBytes(m))), Some(Routed(k.network, k.channel, m)),
                     Front(log) + [m], stream + [Happened(e)], clock)
  {
    PutReplaces(b, log, last.(events := last.events + [e]));
    CollapseExtendsGroup(log, stream, e);
  }

  // ---------------------------------------------------------------- all channels of a user

  const COLON: byte := 58

  predicate NoColon(host: Bytes) { COLON !in host }

  /** The name of a channel's bucket. */
  function Name(k: Key): Bytes { k.network + [COLON] + k.channel }

  lemma {:induction false} NameText(k: Key)
    ensures Name(k) == k.network + Ascii(":") + k.channel
  {
    assert Ascii(":") == [COLON];
  }

  lemma NameInjective(j: Key, k: Key)
    requires NoColon(j.network) && NoColon(k.network) && Name(j) == Name(k)
    ensures j == k
  {
    var s := Name(j);
    assert s[|j.network|] == COLON && s[|k.network|] == COLON;
    assert forall i :: 0 <= i < |j.network| ==> s[i] == j.network[i] && j.network[i] in j.network;
    assert forall i :: 0 <= i < |k.network| ==> s[i] == k.network[i] && k.network[i] in k.network;
    assert j.network == s[..|j.network|] && k.network == s[..|k.network|];
    assert j.channel == s[|j.network| + 1..] && k.channel == s[|k.network| + 1..];
  }

  /** A colon in a host or a channel can be taken for the one between them. */
  lemma {:induction false} NameCollides(k: Key) returns (j: Key)
    requires !NoColon(k.network) || !NoColon(k.channel)
    ensures j != k && Name(j) == Name(k)
  {
    if !NoColon(k.network) {
      var i :| 0 <= i < |k.network| && k.network[i] == COLON;
      j := Key(k.network[..i], k.network[i + 1..] + [COLON] + k.channel);
      assert k.network == k.network[..i] + [COLON] + k.network[i + 1..];
    } else {
      var i :| 0 <= i < |k.channel| && k.channel[i] == COLON;
      j := Key(k.network + [COLON] + k.channel[..i], k.channel[i + 1..]);
      assert k.channel == k.channel[..i] + [COLON] + k.channel[i + 1..];
    }
    assert Name(j) == Name(k);
  }

  lemma {:induction false} OneColon(k: Key, j: Key)
    requires NoColon(k.network) && NoColon(k.channel) && Name(k) == Name(j)
    ensures j == k
  {
    var s, n := Name(k), |k.network|;
    forall i | 0 <= i < |s| && i != n ensures s[i] != COLON {
      if i < n { assert s[i] == k.network[i]; } else { assert s[i] == k.channel[i - n - 1]; }
    }
    assert Name(j)[|j.network|] == COLON;
    assert s[..n] == k.network && Name(j)[..|j.network|] == j.network;
    assert s[n + 1..] == k.channel && Name(j)[|j.network| + 1..] == j.channel;
  }

  /** A channel has a bucket of its own exactly if neither its host nor its name has a colon. */
  lemma {:induction false} BucketIsOwn(k: Key)
    ensures (forall j :: Name(j) == Name(k) ==> j == k) <==> NoColon(k.network) && NoColon(k.channel)
  {
    if NoColon(k.network) && NoColon(k.channel) {
      forall j | Name(j) == Name(k) ensures j == k { OneColon(k, j); }
    } else {
      var j := NameCollides(k);
    }
  }

  type Cache = map<Bytes, map<Bytes, Routed>>

  function Find<K, V>(m: map<K, V>, k: K): Option<V> { if k in m then Some(m[k]) else None }
  function ListAt<K, X>(m: map<K, seq<X>>, k: K): seq<X> { if k in m then m[k] else [] }

  function GetLast(last: Cache, k: Key): Option<Routed> {
    if k.network in last then Find(last[k.network], k.channel) else None
  }

  function SetLast(last: Cache, k: Key, msg: Routed): Cache {
    last[k.network := (if k.network in last then last[k.network] else map[])[k.channel := msg]]
  }

  /** What was logged so far: the log and the input of every channel, the last ID, the channels used, and those
      that were given whole messages with events. */
  datatype Trace = Trace(logs: map<Key, seq<Message>>, streams: map<Key, seq<LogItem>>, clock: Bytes,
                         used: set<Key>, odd: set<Key>)

  /** No other channel was logged to the channel's bucket, and nothing but texts and single events to it. */
  ghost predicate InScope(t: Trace, k: Key) { k !in t.odd && forall j :: j in t.used && Name(j) == Name(k) ==> j == k }

  ghost predicate AllCoherent(last: Cache, buckets: map<Bytes, Bucket>, t: Trace) {
    forall k: Key {:trigger InScope(t, k)} :: InScope(t, k) ==>
      Coherent(k, Find(buckets, Name(k)), GetLast(last, k), ListAt(t.logs, k), ListAt(t.streams, k), t.clock)
  }

  /** Cached messages are filed under their own routing. */
  ghost predicate Filed(last: Cache) {
    forall k: Key {:trigger GetLast(last, k)} ::
      GetLast(last, k).Some? ==> Key(GetLast(last, k).value.network, GetLast(last, k).value.to) == k
  }

  lemma {:induction false} FiledMore(last: Cache, k: Key, m: Message)
    requires Filed(last)
    ensures Filed(SetLast(last, k, Routed(k.network, k.channel, m)))
  {
    var last' := SetLast(last, k, Routed(k.network, k.channel, m));
    forall j: Key {:trigger GetLast(last', j)} | GetLast(last', j).Some?
      ensures Key(GetLast(last', j).value.network, GetLast(last', j).value.to) == j
    {
      if j != k { assert GetLast(last', j) == GetLast(last, j); }
    }
  }

  /** With a channel that shares no bucket neither do those before it, and the channel's own is not theirs. */
  lemma {:induction false} ScopeShrinks(t: Trace, t': Trace, k: Key, j: Key)
    requires t'.used == t.used + {k} && t.odd <= t'.odd && InScope(t', j)
    ensures InScope(t, j) && (j != k ==> Name(j) != Name(k))
  {
    assert k in t'.used;
  }

  /** Whatever is logged to one channel, all others in scope stay coherent; so does this one if it is in scope
      and is changed coherently. */
  lemma {:induction false} UpdateOne(last: Cache, buckets: map<Bytes, Bucket>, t: Trace, k: Key, b: Bucket, msg: Routed,
                                     log: seq<Message>, stream: seq<LogItem>, t': Trace)
    requires AllCoherent(last, buckets, t) && (t.clock == t'.clock || Less(t.clock, t'.clock))
    requires t'.used == t.used + {k} && t.odd <= t'.odd
    requires t'.logs == t.logs[k := log] && t'.streams == t.streams[k := stream]
    requires InScope(t', k) ==> Coherent(k, Some(b), Some(msg), log, stream, t'.clock)
    ensures AllCoherent(SetLast(last, k, msg), buckets[Name(k) := b], t')
  {
    forall j: Key {:trigger InScope(t', j)} | InScope(t', j)
      ensures Coherent(j, Find(buckets[Name(k) := b], Name(j)), GetLast(SetLast(last, k, msg), j),
                       ListAt(t'.logs, j), ListAt(t'.streams, j), t'.clock)
    {
      ScopeShrinks(t, t', k, j);
      if j != k {
        ClockAdvances(j, Find(buckets, Name(j)), GetLast(last, j), ListAt(t.logs, j), ListAt(t.streams, j),
                      t.clock, t'.clock);
      }
    }
  }

  function Cached(last: Cache, k: Key, m: Message): Cache { SetLast(last, k, Routed(k.network, k.channel, m)) }

  function Stored(buckets: map<Bytes, Bucket>, k: Key, m: Message): map<Bytes, Bucket> {
    buckets[Name(k) := Put(Contents(Find(buckets, Name(k))), m.id, MessageBytes(m))]
  }

  /** A message was logged as a new entry; `odd` if it is not one text or one event. */
  ghost function Appended(t: Trace, k: Key, m: Message, odd: bool): Trace {
    Trace(t.logs[k := ListAt(t.logs, k) + [m]], t.streams[k := ListAt(t.streams, k) + GroupOf(m)], m.id,
          t.used + {k}, if odd then t.odd + {k} else t.odd)
  }

  lemma {:induction false} AppendAll(last: Cache, buckets: map<Bytes, Bucket>, t: Trace, k: Key, m: Message, odd: bool)
    requires AllCoherent(last, buckets, t) && Less(t.clock, m.id)
    requires !odd ==> |GroupOf(m)| == 1
    requires !odd && GetLast(last, k).Some? && GroupOf(m)[0].Happened? ==>
               !Collapses(GetLast(last, k).value.m, GroupOf(m)[0].event)
    ensures AllCoherent(Cached(last, k, m), Stored(buckets, k, m), Appended(t, k, m, odd))
  {
    var t', log, stream := Appended(t, k, m, odd), ListAt(t.logs, k), ListAt(t.streams, k);
    var b, msg := Put(Contents(Find(buckets, Name(k))), m.id, MessageBytes(m)), Routed(k.network, k.channel, m);
    if InScope(t', k) {
      ScopeShrinks(t, t', k, k);
      assert GroupOf(m) == [GroupOf(m)[0]];
      AppendCoherent(k, Find(buckets, Name(k)), GetLast(last, k), log, stream, t.clock, m, GroupOf(m)[0]);
    }
    UpdateOne(last, buckets, t, k, b, msg, log + [m], stream + GroupOf(m), t');
  }

  /** A channel's log with an event merged into its last message. */
  ghost function Merged(log: seq<Message>, e: Event): seq<Message> {
    if log == [] then [] else Front(log) + [Last(log).(events := Last(log).events + [e])]
  }

  /** An event was merged into the last message of the channel. */
  ghost function Collapsed(t: Trace, k: Key, e: Event): Trace {
    t.(logs := t.logs[k := Merged(ListAt(t.logs, k), e)],
       streams := t.streams[k := ListAt(t.streams, k) + [Happened(e)]], used := t.used + {k})
  }

  lemma {:induction false} CollapseAll(last: Cache, buckets: map<Bytes, Bucket>, t: Trace, k: Key, msg: Routed,
                                       e: Event, m: Message)
    requires AllCoherent(last, buckets, t) && Filed(last)
    requires GetLast(last, k) == Some(msg) && Collapses(msg.m, e)
    requires m == msg.m.(events := msg.m.events + [e])
    ensures msg == Routed(k.network, k.channel, msg.m)
    ensures AllCoherent(Cached(last, k, m), Stored(buckets, k, m), Collapsed(t, k, e))
  {
    var t', log, stream := Collapsed(t, k, e), ListAt(t.logs, k), ListAt(t.streams, k);
    var b := Contents(Find(buckets, Name(k)));
    if InScope(t', k) {
      ScopeShrinks(t, t', k, k);
      CollapseCoherent(k, b, msg.m, log, stream, t.clock, e);
    }
    UpdateOne(last, buckets, t, k, Put(b, m.id, MessageBytes(m)), msg.(m := m), Merged(log, e),
              stream + [Happened(e)], t');
  }

  /** Whatever of a message Go's types bound, but for the number of its events. */
  predicate PartsFit(m: Message) {
    Fits(m.id) && Fits(m.from) && Fits(m.content) && forall e | e in m.events :: EventFits(e)
  }

  ghost predicate LogsFit(logs: map<Key, seq<Message>>) {
    forall k, i :: k in logs && 0 <= i < |logs[k]| ==> PartsFit(logs[k][i])
  }

  lemma {:induction false} CollapseFits(t: Trace, k: Key, e: Event)
    requires LogsFit(t.logs) && EventFits(e)
    ensures LogsFit(Collapsed(t, k, e).logs)
  {
    var log := ListAt(t.logs, k);
    if log != [] { assert PartsFit(log[|log| - 1]); }
  }

  lemma {:induction false} AppendFits(t: Trace, k: Key, m: Message, odd: bool)
    requires LogsFit(t.logs) && PartsFit(m)
    ensures LogsFit(Appended(t, k, m, odd).logs)
  {
  }

  method Enter(last: Cache, buckets: map<Bytes, Bucket>, ghost t: Trace, k: Key, m: Message, ghost odd: bool)
    returns (last': Cache, buckets': map<Bytes, Bucket>)
    requires AllCoherent(last, buckets, t) && Filed(last) && Less(t.clock, m.id)
    requires !odd ==> |GroupOf(m)| == 1
    requires !odd && GetLast(last, k).Some? && GroupOf(m)[0].Happened? ==>
               !Collapses(GetLast(last, k).value.m, GroupOf(m)[0].event)
    ensures AllCoherent(last', buckets', Appended(t, k, m, odd)) && Filed(last')
    ensures last' == Cached(last, k, m) && buckets' == Stored(buckets, k, m)
  {
    AppendAll(last, buckets, t, k, m, odd);
    FiledMore(last, k, m);
    last' := SetLast(last, k, Routed(k.network, k.channel, m));
    buckets' := buckets[Name(k) := Put(Contents(Find(buckets, Name(k))), m.id, MessageBytes(m))];
  }

  method Merge(last: Cache, buckets: map<Bytes, Bucket>, ghost t: Trace, k: Key, msg: Routed, e: Event)
    returns (last': Cache, buckets': map<Bytes, Bucket>)
    requires AllCoherent(last, buckets, t) && Filed(last)
    requires GetLast(last, k) == Some(msg) && Collapses(msg.m, e)
    ensures AllCoherent(last', buckets', Collapsed(t, k, e)) && Filed(last')
    ensures var m := msg.m.(events := msg.m.events + [e]);
            last' == Cached(last, k, m) && buckets' == Stored(buckets, k, m)
  {
    var m := msg.m.(events := msg.m.events + [e]);
    CollapseAll(last, buckets, t, k, msg, e, m);
    FiledMore(last, k, m);
    var name := Name(Key(msg.network, msg.to));
    last' := SetLast(last, k, msg.(m := m));
    buckets' := buckets[name := Put(Contents(Find(buckets, name)), m.id, MessageBytes(m))];
  }

  /** The input of every channel after an event was reported for a list of channels. */
  ghost function Reported(streams: map<Key, seq<LogItem>>, network: Bytes, channels: seq<Bytes>, e: Event)
    : map<Key, seq<LogItem>>
  {
    if channels == [] then streams
    else
      var before := Reported(streams, network, Front(channels), e);
      var k := Key(network, Last(channels));
      before[k := ListAt(before, k) + [Happened(e)]]
  }

  /** Fresh IDs: ascending, and above everything issued before. */
  ghost predicate Ascending(clock: Bytes, ids: seq<Bytes>) {
    && (ids != [] ==> Less(clock, ids[0]))
    && forall i :: 0 < i < |ids| ==> Less(ids[i - 1], ids[i])
  }

  lemma StillAscending(clock: Bytes, later: Bytes, ids: seq<Bytes>)
    requires ids != [] && Ascending(clock, ids) && (later == clock || later == ids[0])
    ensures Ascending(later, ids[1..])
  {
    if |ids| > 1 {
      assert Less(ids[0], ids[1]);
      LessTransitive(clock, ids[0], ids[1]);
    }
  }

  /** An entry made for events has the time of the first of them, and neither sender nor text. */
  predicate StampedEntry(m: Message) {
    m.events != [] ==> m.time == m.events[0].time && m.from == [] && m.content == []
  }

  ghost predicate StampedLog(log: seq<Message>) { forall i :: 0 <= i < |log| ==> StampedEntry(log[i]) }

  ghost predicate AllStamped(t: Trace) {
    forall k: Key {:trigger InScope(t, k)} :: InScope(t, k) ==> StampedLog(ListAt(t.logs, k))
  }

  lemma {:induction false} AppendStamped(t: Trace, k: Key, m: Message, odd: bool)
    requires AllStamped(t) && (odd || StampedEntry(m))
    ensures AllStamped(Appended(t, k, m, odd))
  {
    var t' := Appended(t, k, m, odd);
    forall j: Key {:trigger InScope(t', j)} | InScope(t', j) ensures StampedLog(ListAt(t'.logs, j)) {
      ScopeShrinks(t, t', k, j);
    }
  }

  lemma {:induction false} CollapseStamped(last: Cache, buckets: map<Bytes, Bucket>, t: Trace, k: Key, e: Event)
    requires AllStamped(t) && AllCoherent(last, buckets, t)
    requires GetLast(last, k).Some? && Collapses(GetLast(last, k).value.m, e)
    ensures AllStamped(Collapsed(t, k, e))
  {
    var t' := Collapsed(t, k, e);
    forall j: Key {:trigger InScope(t', j)} | InScope(t', j) ensures StampedLog(ListAt(t'.logs, j)) {
      ScopeShrinks(t, t', k, j);
      if j == k { MergedStamped(ListAt(t.logs, k), e); }
    }
  }

  lemma {:induction false} MergedStamped(log: seq<Message>, e: Event)
    requires StampedLog(log) && log != [] && Last(log).events != []
    ensures StampedLog(Merged(log, e))
  {
    assert StampedEntry(Last(log));
    assert (Last(log).events + [e])[0] == Last(log).events[0];
  }

  /** The event is the last one of the channel's cached message; if it is the only one, the message was made for
      it at its time. */
  predicate Reports(last: Cache, k: Key, e: Event) {
    var cached := GetLast(last, k);
    && cached.Some? && cached.value.network == k.network && cached.value.to == k.channel
    && var m := cached.value.m;
    && m.events != [] && Last(m.events) == e
    && (|m.events| == 1 ==> m.time == e.time && m.from == [] && m.content == [])
  }

  ghost predicate AllReport(last: Cache, network: Bytes, channels: seq<Bytes>, e: Event) {
    forall c :: c in channels ==> Reports(last, Key(network, c), e)
  }

  lemma {:induction false} OneMoreReports(last: Cache, network: Bytes, channels: seq<Bytes>, c: Bytes, e: Event,
                                          m: Message)
    requires AllReport(last, network, channels, e) && Reports(Cached(last, Key(network, c), m), Key(network, c), e)
    ensures AllReport(Cached(last, Key(network, c), m), network, channels + [c], e)
  {
    var last' := Cached(last, Key(network, c), m);
    forall d | d in channels + [c] ensures Reports(last', Key(network, d), e) {
      if d != c { assert GetLast(last', Key(network, d)) == GetLast(last, Key(network, d)); }
    }
  }

  /** Channels that are not listed keep their last message, and so do buckets that no listed channel has. */
  ghost predicate OthersSame(last: Cache, last': Cache, buckets: map<Bytes, Bucket>, buckets': map<Bytes, Bucket>,
                             network: Bytes, channels: seq<Bytes>)
  {
    && (forall k: Key :: k.network != network || k.channel !in channels ==> GetLast(last', k) == GetLast(last, k))
    && (forall b :: (forall c :: c in channels ==> Name(Key(network, c)) != b) ==>
          Find(buckets', b) == Find(buckets, b))
  }

  lemma {:induction false} OthersStillSame(last: Cache, last': Cache, buckets: map<Bytes, Bucket>,
                                           buckets': map<Bytes, Bucket>, network: Bytes, channels: seq<Bytes>,
                                           c: Bytes, m: Message)
    requires OthersSame(last, last', buckets, buckets', network, channels) && c in channels
    ensures var k := Key(network, c);
            OthersSame(last, Cached(last', k, m), buckets, Stored(buckets', k, m), network, channels)
  {
  }

  /** The user's fields as one value. */
  datatype Memory = Memory(last: Cache, buckets: map<Bytes, Bucket>, trace: Trace)

  /** From `was` to `now` the event was reported to the channels up to `i`. */
  ghost predicate ReportedTo(was: Memory, now: Memory, network: Bytes, channels: seq<Bytes>, i: nat, e: Event)
    requires i <= |channels|
  {
    && now.trace.streams == Reported(was.trace.streams, network, channels[..i], e)
    && now.trace.used == was.trace.used + (set c | c in channels[..i] :: Key(network, c))
    && now.trace.odd == was.trace.odd
    && AllReport(now.last, network, channels[..i], e)
    && OthersSame(was.last, now.last, was.buckets, now.buckets, network, channels)
  }

  lemma {:induction false} ReportedToMore(was: Memory, mid: Memory, now: Memory, network: Bytes,
                                          channels: seq<Bytes>, i: nat, e: Event, m: Message)
    requires i < |channels| && ReportedTo(was, mid, network, channels, i, e)
    requires var k := Key(network, channels[i]);
             && now.last == Cached(mid.last, k, m) && now.buckets == Stored(mid.buckets, k, m)
             && Reports(now.last, k, e) && now.trace.odd == mid.trace.odd && now.trace.used == mid.trace.used + {k}
             && now.trace.streams == mid.trace.streams[k := ListAt(mid.trace.streams, k) + [Happened(e)]]
    ensures ReportedTo(was, now, network, channels, i + 1, e)
  {
    assert channels[..i + 1] == channels[..i] + [channels[i]] && Front(channels[..i + 1]) == channels[..i];
    UsedMore(network, channels, i);
    OneMoreReports(mid.last, network, channels[..i], channels[i], e, m);
    OthersStillSame(was.last, mid.last, was.buckets, mid.buckets, network, channels, channels[i], m);
  }

  class LoggingUser {
    var lastMessages: Cache
    var messageLog: map<Bytes, Bucket>

    ghost var trace: Trace

    /** Every channel in scope is coherent. */
    ghost predicate Valid()
      reads this
    {
      AllCoherent(lastMessages, messageLog, trace) && Filed(lastMessages) && LogsFit(trace.logs) && AllStamped(trace)
    }

    ghost function Fields(): Memory
      reads this
    {
      Memory(lastMessages, messageLog, trace)
    }

    constructor ()
      ensures Valid() && trace == Trace(map[], map[], [], {}, {})
    {
      lastMessages, messageLog, trace := map[], map[], Trace(map[], map[], [], {}, {});
    }

    method LogMessage(msg: Routed, now: int64, guid: Bytes)
      requires Valid() && PartsFit(msg.m) && Fits(guid)
      requires Less(trace.clock, if msg.m.id == [] then guid else msg.m.id)
      modifies this
      ensures Valid()
      ensures var m := msg.m.(time := if msg.m.time == 0 then now else msg.m.time,
                              id := if msg.m.id == [] then guid else msg.m.id);
              var k := Key(msg.network, if msg.to == [] then msg.m.from else msg.to);
              && trace == Appended(old(trace), k, m, m.events != [])
              && lastMessages == Cached(old(lastMessages), k, m) && messageLog == Stored(old(messageLog), k, m)
    {
      var m := msg.m;
      if m.time == 0 { m := m.(time := now); }
      if m.id == [] { m := m.(id := guid); }
      var to := if msg.to == [] then m.from else msg.to;
      AppendNew(Key(msg.network, to), m, m.events != []);
    }

    /** Cache a new message and log it under its own ID. */
    method AppendNew(k: Key, m: Message, ghost odd: bool)
      requires Valid() && Less(trace.clock, m.id) && PartsFit(m) && (odd || StampedEntry(m))
      requires !odd ==> |GroupOf(m)| == 1
      requires !odd && GetLast(lastMessages, k).Some? && GroupOf(m)[0].Happened? ==>
                 !Collapses(GetLast(lastMessages, k).value.m, GroupOf(m)[0].event)
      modifies this
      ensures Valid() && trace == Appended(old(trace), k, m, odd)
      ensures lastMessages == Cached(old(lastMessages), k, m) && messageLog == Stored(old(messageLog), k, m)
    {
      AppendFits(trace, k, m, odd);
      AppendStamped(trace, k, m, odd);
      lastMessages, messageLog := Enter(lastMessages, messageLog, trace, k, m, odd);
      trace := Appended(trace, k, m, odd);
    }

    /** Append the event to the cached message and log that again.  The bucket is named by the cached
        message's own routing fields. */
    method Collapse(k: Key, msg: Routed, e: Event)
      requires Valid() && EventFits(e)
      requires GetLast(lastMessages, k) == Some(msg) && Collapses(msg.m, e)
      modifies this
      ensures Valid() && trace == Collapsed(old(trace), k, e)
      ensures var m := msg.m.(events := msg.m.events + [e]);
              lastMessages == Cached(old(lastMessages), k, m) && messageLog == Stored(old(messageLog), k, m)
    {
      CollapseFits(trace, k, e);
      CollapseStamped(lastMessages, messageLog, trace, k, e);
      lastMessages, messageLog := Merge(lastMessages, messageLog, trace, k, msg, e);
      trace := Collapsed(trace, k, e);
    }

    /** One round of the `LogEvent` loop. The last message takes the event in, or a new one is made for it. */
    method LogOne(k: Key, e: Event, guid: Bytes)
      requires Valid() && Less(trace.clock, guid) && EventFits(e) && Fits(guid)
      modifies this
      ensures Valid() && (trace.clock == old(trace.clock) || trace.clock == guid)
      ensures trace.streams == old(trace.streams)[k := ListAt(old(trace.streams), k) + [Happened(e)]]
      ensures trace.used == old(trace.used) + {k} && trace.odd == old(trace.odd)
      ensures Reports(lastMessages, k, e)
      ensures var was, m := GetLast(old(lastMessages), k), GetLast(lastMessages, k).value.m;
              && lastMessages == Cached(old(lastMessages), k, m) && messageLog == Stored(old(messageLog), k, m)
              && if was.Some? && Collapses(was.value.m, e) then m == was.value.m.(events := was.value.m.events + [e])
                 else m.id == guid && m.events == [e]
    {
      var lastMessage := GetLast(lastMessages, k);
      var merge := false;
      if lastMessage.Some? { merge := ShouldCollapse(lastMessage.value.m, e); }
      if merge {
        Collapse(k, lastMessage.value, e);
      } else {
        var m := Message(guid, [], [], e.time, [e]);
        assert GroupOf(m) == [Happened(e)];
        AppendNew(k, m, false);
      }
    }

    /** Every listed channel's last message has the event, stamped with the time of the call; nothing is said to
        other channels. */
    method LogEvent(network: Bytes, name: Bytes, params: seq<Bytes>, channels: seq<Bytes>, now: int64,
                    guids: seq<Bytes>)
      requires Valid() && EventFits(Event(name, params, now))
      requires |guids| == |channels| && Ascending(trace.clock, guids)
      requires forall i :: 0 <= i < |guids| ==> Fits(guids[i])
      modifies this
      ensures Valid()
      ensures trace.streams == Reported(old(trace.streams), network, channels, Event(name, params, now))
      ensures trace.used == old(trace.used) + (set c | c in channels :: Key(network, c)) && trace.odd == old(trace.odd)
      ensures AllReport(lastMessages, network, channels, Event(name, params, now))
      ensures OthersSame(old(lastMessages), lastMessages, old(messageLog), messageLog, network, channels)
    {
      var e := Event(name, params, now);
      for i := 0 to |channels|
        invariant Valid() && Ascending(trace.clock, guids[i..])
        invariant ReportedTo(old(Fields()), Fields(), network, channels, i, e)
      {
        assert guids[i..][0] == guids[i] && guids[i..][1..] == guids[i + 1..];
        ghost var mid := Fields();
        LogOne(Key(network, channels[i]), e, guids[i]);
        StillAscending(mid.trace.clock, trace.clock, guids[i..]);
        ghost var m := GetLast(lastMessages, Key(network, channels[i])).value.m;
        ReportedToMore(old(Fields()), mid, Fields(), network, channels, i, e, m);
      }
      assert channels[..|channels|] == channels;
    }
  }

  lemma {:induction false} UsedMore(network: Bytes, channels: seq<Bytes>, i: nat)
    requires i < |channels|
    ensures (set c | c in channels[..i + 1] :: Key(network, c))
         == (set c | c in channels[..i] :: Key(network, c)) + {Key(network, channels[i])}
  {
    assert channels[..i + 1] == channels[..i] + [channels[i]];
  }

  /** A channel without a colon in its host and name is in scope whatever else was logged, and one without a
      colon in its host is if all hosts logged to are without one. */
  lemma {:induction false} ColonFreeInScope(t: Trace, k: Key)
    requires k !in t.odd && NoColon(k.network)
    requires NoColon(k.channel) || forall j :: j in t.used ==> NoColon(j.network)
    ensures InScope(t, k)
  {
    forall j | j in t.used && Name(j) == Name(k) ensures j == k {
      if NoColon(k.channel) { OneColon(k, j); } else { NameInjective(j, k); }
    }
  }

  /** What the invariant says about any channel in scope, after any number of logged messages and events: the
      stored log is the maximal-run grouping of the channel's input, and the cached message is its
      last entry. */
  lemma LogIsMaximalGrouping(last: Cache, buckets: map<Bytes, Bucket>, t: Trace, k: Key)
    requires AllCoherent(last, buckets, t) && InScope(t, k)
    ensures IsMaximal(Collapsible, ListAt(t.streams, k), Groups(ListAt(t.logs, k)))
    ensures Flatten(Groups(ListAt(t.logs, k))) == ListAt(t.streams, k)
    ensures ListAt(t.logs, k) != [] ==>
              && Name(k) in buckets && Holds(buckets[Name(k)], ListAt(t.logs, k))
              && GetLast(last, k) == Some(Routed(k.network, k.channel, Last(ListAt(t.logs, k))))
  {
    GroupIsMaximal(Collapsible, ListAt(t.streams, k));
  }

  /** Every stored entry of such a channel that has events has the time of the first, and neither sender nor text. */
  lemma {:induction false} EntriesAreStamped(last: Cache, buckets: map<Bytes, Bucket>, t: Trace, k: Key, i: nat)
    requires AllCoherent(last, buckets, t) && AllStamped(t) && InScope(t, k) && i < |ListAt(t.logs, k)|
    ensures var m := ListAt(t.logs, k)[i];
            && Name(k) in buckets && i < |buckets[Name(k)]| && buckets[Name(k)][i] == Entry(m.id, MessageBytes(m))
            && (m.events != [] ==> m.time == m.events[0].time && m.from == [] && m.content == [])
  {
    var log := ListAt(t.logs, k);
    assert StampedLog(log) && StampedEntry(log[i]);
    assert Stores(buckets[Name(k)][i].value, log[i]);
  }

  /** A stored message has no more events than its channel's input, so what the log writes can be read. */
  lemma {:induction false} LogFits(log: seq<Message>, stream: seq<LogItem>)
    requires Groups(log) == Group(Collapsible, stream) && Fits(stream)
    requires forall i :: 0 <= i < |log| ==> PartsFit(log[i])
    ensures AllFit(log)
  {
    GroupIsMaximal(Collapsible, stream);
    forall m | m in log ensures MessageFits(m) {
      var i :| 0 <= i < |log| && log[i] == m;
      GroupsAt(log, i);
      FlattenNoShorter(Groups(log), i);
    }
  }

  /** After any run from a new user, following the paging tokens through the log of a channel in scope gives the
      maximal-run grouping of everything that was logged to the channel. */
  lemma {:induction false} PagesRegroup(last: Cache, buckets: map<Bytes, Bucket>, t: Trace, k: Key, counts: nat -> nat)
    requires AllCoherent(last, buckets, t) && LogsFit(t.logs) && InScope(t, k)
    requires Fits(ListAt(t.streams, k)) && ListAt(t.streams, k) != [] && forall i :: counts(i) > 0
    ensures Name(k) in buckets
    ensures Holds(buckets[Name(k)], ListAt(t.logs, k)) && AllFit(ListAt(t.logs, k))
    ensures IsMaximal(Collapsible, ListAt(t.streams, k),
                      Groups(Gather(buckets[Name(k)], ListAt(t.logs, k), counts, 0, [])))
  {
    var log, stream := ListAt(t.logs, k), ListAt(t.streams, k);
    LogIsMaximalGrouping(last, buckets, t, k);
    assert log == [] ==> Flatten(Groups(log)) == [];
    LogFits(log, stream);
    GatherIsWholeLog(buckets[Name(k)], log, counts);
  }
}
