/** The channel tracker: server messages update per-channel user lists, which refine a map from channels
    to nicks to mode sets. */
module Tracker {
  import opened Wrappers
  import opened Text
  import opened ChannelUsers
  import IrcMessage

  type Roster = map<string, set<char>>
  type Rosters = map<string, Roster>
  type Users = map<string, seq<User>>

  // ---------------------------------------------------------------- one channel

  /** Who is in a user list, with which modes. */
  function RosterOf(us: seq<User>): Roster {
    if us == [] then map[]
    else
      var last := us[|us| - 1];
      RosterOf(us[..|us| - 1])[last.nick := Letters(last.modes)]
  }

  /** Every nick is listed once, with duplicate-free modes and the right prefix. */
  ghost predicate ListOk(us: seq<User>) {
    us == [] ||
    var front, last := us[..|us| - 1], us[|us| - 1];
    ListOk(front) && Ranked(last) && last.nick !in RosterOf(front)
  }

  ghost predicate Shows(us: seq<User>, r: Roster) { ListOk(us) && r == RosterOf(us) }

  lemma {:induction false} RosterConcat(a: seq<User>, b: seq<User>)
    ensures RosterOf(a + b) == RosterOf(a) + RosterOf(b)
  {
    if b == [] {
      assert a + b == a;
    } else {
      assert (a + b)[..|a + b| - 1] == a + b[..|b| - 1];
      RosterConcat(a, b[..|b| - 1]);
    }
  }

  lemma {:induction false} ListConcat(a: seq<User>, b: seq<User>)
    ensures ListOk(a + b) <==> ListOk(a) && ListOk(b) && RosterOf(a).Keys !! RosterOf(b).Keys
  {
    if b == [] {
      assert a + b == a;
    } else {
      var front := b[..|b| - 1];
      assert (a + b)[..|a + b| - 1] == a + front;
      ListConcat(a, front);
      RosterConcat(a, front);
    }
  }

  lemma {:induction false} RosterOne(u: User)
    ensures RosterOf([u]) == map[u.nick := Letters(u.modes)] && (ListOk([u]) <==> Ranked(u))
  {
    assert [u][..0] == [];
  }

  /** A list with one user in the middle. */
  lemma {:induction false} MiddleUser(a: seq<User>, u: User, b: seq<User>)
    ensures u.nick in RosterOf(a + [u] + b)
    ensures ListOk(a + [u] + b) <==> ListOk(a + b) && Ranked(u) && u.nick !in RosterOf(a + b)
    ensures u.nick !in RosterOf(a + b) ==> RosterOf(a + [u] + b) == RosterOf(a + b)[u.nick := Letters(u.modes)]
  {
    RosterConcat(a + [u], b);
    RosterConcat(a, [u]);
    RosterConcat(a, b);
    ListConcat(a + [u], b);
    ListConcat(a, [u]);
    ListConcat(a, b);
    RosterOne(u);
  }

  /** What the invariant says of two places. */
  lemma {:induction false} DistinctAt(us: seq<User>, i: nat, j: nat)
    requires ListOk(us) && i < j < |us|
    ensures us[i].nick != us[j].nick
  {
    var a, b := us[..j], us[j + 1..];
    assert us == a + [us[j]] + b;
    MiddleUser(a, us[j], b);
    RosterConcat(a, b);
    NickAt(a, i);
  }

  lemma {:induction false} NickAt(us: seq<User>, i: nat)
    requires i < |us|
    ensures us[i].nick in RosterOf(us)
  {
    assert us == us[..i] + [us[i]] + us[i + 1..];
    MiddleUser(us[..i], us[i], us[i + 1..]);
  }

  method Find(us: seq<User>, nick: string) returns (at: Option<nat>)
    ensures at.Some? ==> at.value < |us| && us[at.value].nick == nick
    ensures at.Some? <==> nick in RosterOf(us)
  {
    for i := 0 to |us|
      invariant nick !in RosterOf(us[..i])
    {
      if us[i].nick == nick {
        NickAt(us, i);
        return Some(i);
      }
      assert us[..i + 1][..i] == us[..i];
    }
    assert us[..|us|] == us;
    at := None;
  }

  lemma {:induction false} ShowsAppend(us: seq<User>, r: Roster, u: User)
    requires Shows(us, r) && Ranked(u) && u.nick !in r
    ensures Shows(us + [u], r[u.nick := Letters(u.modes)])
  {
    assert (us + [u])[..|us|] == us;
  }

  /** Taking the user out of the middle, or putting another one in its place whose nick nobody else in the
      channel has. */
  lemma {:induction false} ShowsWithout(a: seq<User>, u: User, b: seq<User>, r: Roster)
    requires Shows(a + [u] + b, r)
    ensures Shows(a + b, r - {u.nick}) && Ranked(u) && u.nick in r && r[u.nick] == Letters(u.modes)
  {
    MiddleUser(a, u, b);
    var m := RosterOf(a + b);
    assert m[u.nick := Letters(u.modes)] - {u.nick} == m;
  }

  lemma {:induction false} ShowsInstead(a: seq<User>, u: User, b: seq<User>, v: User, r: Roster)
    requires Shows(a + [u] + b, r) && Ranked(v) && (v.nick == u.nick || v.nick !in r)
    ensures Shows(a + [v] + b, (r - {u.nick})[v.nick := Letters(v.modes)])
  {
    ShowsWithout(a, u, b, r);
    MiddleUser(a, v, b);
  }

  lemma {:induction false} Middle(us: seq<User>, i: nat, v: User)
    requires i < |us|
    ensures us == us[..i] + [us[i]] + us[i + 1..] && us[i := v] == us[..i] + [v] + us[i + 1..]
  {
  }

  /** Renaming keeps nicks distinct exactly when the new nick is not taken by somebody else. */
  lemma {:induction false} RenameKeepsDistinct(us: seq<User>, r: Roster, i: nat, nick: string)
    requires Shows(us, r) && i < |us|
    ensures ListOk(us[i := us[i].(nick := nick)]) <==> nick == us[i].nick || nick !in r
  {
    var a, u, b := us[..i], us[i].(nick := nick), us[i + 1..];
    Middle(us, i, u);
    MiddleUser(a, us[i], b);
    MiddleUser(a, u, b);
  }

  // ---------------------------------------------------------------- the abstract channel map

  function Joined(r: Rosters, nick: string, ch: string): Rosters {
    if ch !in r then r[ch := map[NickOf(nick) := ModesOf(nick)]]
    else if nick in r[ch] then r
    else r[ch := r[ch][NickOf(nick) := ModesOf(nick)]]
  }

  function Left(r: Rosters, nick: string, ch: string): Rosters { if ch in r then r[ch := r[ch] - {nick}] else r }

  function Gone(r: Rosters, nick: string): Rosters { map ch | ch in r :: r[ch] - {nick} }

  function RenamedIn(r: Roster, was: string, now: string): Roster {
    if was in r then (r - {was})[now := r[was]] else r
  }

  function Renamed(r: Rosters, was: string, now: string): Rosters { map ch | ch in r :: RenamedIn(r[ch], was, now) }

  function Holding(r: Rosters, nick: string): set<string> { set ch | ch in r && nick in r[ch] }

  function ModedIn(r: Roster, nick: string, mode: string): Roster {
    if nick in r then r[nick := Applied(r[nick], mode)] else r
  }

  function Moded(r: Rosters, ch: string, nick: string, mode: string): Rosters {
    if ch in r then r[ch := ModedIn(r[ch], nick, mode)] else r
  }

  function Named(names: seq<string>): Roster {
    if names == [] then map[]
    else
      var last := names[|names| - 1];
      Named(names[..|names| - 1])[NickOf(last) := ModesOf(last)]
  }

  ghost predicate DistinctNames(names: seq<string>) {
    forall i, j :: 0 <= i < j < |names| ==> NickOf(names[i]) != NickOf(names[j])
  }

  /** A renaming is undone by the opposite one where nobody had the new nick. */
  lemma {:induction false} RenameBack(r: Rosters, was: string, now: string)
    requires forall ch :: ch in r ==> now !in r[ch]
    ensures Renamed(Renamed(r, was, now), now, was) == r
    ensures Holding(Renamed(r, was, now), now) == Holding(r, was)
  {
    forall ch | ch in r ensures RenamedIn(RenamedIn(r[ch], was, now), now, was) == r[ch] {
      if was in r[ch] { assert r[ch] == (r[ch] - {was})[was := r[ch][was]]; }
    }
  }

  /** Joining and leaving again. */
  lemma {:induction false} JoinThenPart(r: Rosters, nick: string, ch: string)
    requires !Prefixed(nick)
    ensures Left(Joined(r, nick, ch), nick, ch) == if ch in r then r[ch := r[ch] - {nick}] else r[ch := map[]]
  {
    if ch in r && nick !in r[ch] {
      assert r[ch][nick := {}] - {nick} == r[ch] - {nick};
    } else if ch !in r {
      var one: Roster := map[nick := {}];
      assert one - {nick} == map[];
    }
  }

  // ---------------------------------------------------------------- all channels

  ghost predicate Tracks(users: Users, r: Rosters) {
    users.Keys == r.Keys && forall ch :: ch in users ==> Shows(users[ch], r[ch])
  }

  /** Every list is in order. */
  ghost predicate AllOk(users: Users) { forall ch :: ch in users ==> ListOk(users[ch]) }

  /** Replacing the list of one channel. */
  lemma {:induction false} Relisted(users: Users, r: Rosters, ch: string, us: seq<User>)
    requires Tracks(users, r)
    ensures AllOk(users[ch := us]) <==> ListOk(us)
    ensures ListOk(us) ==> Tracks(users[ch := us], r[ch := RosterOf(us)])
  {
    assert users[ch := us][ch] == us;
  }

  /** `addUser` looks for the name as sent but lists it without its prefix. */
  ghost predicate JoinClear(r: Rosters, nick: string, ch: string) {
    ch in r && nick !in r[ch] ==> NickOf(nick) !in r[ch]
  }

  method AddUser(users: Users, ghost r: Rosters, nick: string, ch: string) returns (users': Users)
    requires Tracks(users, r)
    ensures if JoinClear(r, nick, ch) then Tracks(users', Joined(r, nick, ch)) else !AllOk(users')
  {
    var u := NewUser(nick);
    if ch in users {
      var at := Find(users[ch], nick);
      if at.Some? {
        return users;
      }
      var us := users[ch] + [u];
      assert us[..|us| - 1] == users[ch];
      Relisted(users, r, ch, us);
      users' := users[ch := us];
    } else {
      RosterOne(u);
      Relisted(users, r, ch, [u]);
      users' := users[ch := [u]];
    }
  }

  /** `internalRemoveUser` on a channel's list. */
  method DropFrom(us: seq<User>, ghost r: Roster, nick: string) returns (us': seq<User>, found: bool)
    requires Shows(us, r)
    ensures Shows(us', r - {nick}) && (found <==> nick in r)
  {
    us', found := us, false;
    var at := Find(us, nick);
    if at.Some? {
      var i := at.value;
      Middle(us, i, us[i]);
      ShowsWithout(us[..i], us[i], us[i + 1..], r);
      us', found := us[..i] + us[i + 1..], true;
    } else {
      assert r - {nick} == r;
    }
  }

  /** Nobody else in the channel has the new nick. */
  ghost predicate RenameClear(r: Roster, was: string, now: string) { was in r && now in r ==> was == now }

  /** `rename` on a channel's list. */
  method RenameIn(us: seq<User>, ghost r: Roster, was: string, now: string)
    returns (us': seq<User>, found: bool)
    requires Shows(us, r)
    ensures if RenameClear(r, was, now) then Shows(us', RenamedIn(r, was, now)) else !ListOk(us')
    ensures found <==> was in r
  {
    us', found := us, false;
    var at := Find(us, was);
    if at.Some? {
      var i := at.value;
      var v := us[i].(nick := now);
      Middle(us, i, v);
      ShowsWithout(us[..i], us[i], us[i + 1..], r);
      RenameKeepsDistinct(us, r, i, now);
      if now == was || now !in r { ShowsInstead(us[..i], us[i], us[i + 1..], v, r); }
      us', found := us[i := v], true;
    }
  }

  method RemoveUser(users: Users, ghost r: Rosters, nick: string, ch: string) returns (users': Users)
    requires Tracks(users, r)
    ensures Tracks(users', Left(r, nick, ch))
  {
    users' := users;
    if ch in users {
      var us, _ := DropFrom(users[ch], r[ch], nick);
      users' := users[ch := us];
    }
  }

  /** The channels in `done` have been visited, the others are as before. */
  ghost predicate Visited(users: Users, r: Rosters, done: set<string>, f: Roster -> Roster) {
    && users.Keys == r.Keys
    && forall ch :: ch in users ==> Shows(users[ch], if ch in done then f(r[ch]) else r[ch])
  }

  /** As above, for a renaming, which leaves a list out of order where the new nick is taken. */
  ghost predicate Relabelled(users: Users, r: Rosters, done: set<string>, was: string, now: string) {
    && users.Keys == r.Keys
    && forall ch :: ch in users ==>
         if ch !in done then Shows(users[ch], r[ch])
         else if RenameClear(r[ch], was, now) then Shows(users[ch], RenamedIn(r[ch], was, now))
         else !ListOk(users[ch])
  }

  function SetOf(xs: seq<string>): set<string> { set x | x in xs }

  ghost predicate NoTwice(xs: seq<string>) { forall i, j :: 0 <= i < j < |xs| ==> xs[i] != xs[j] }

  /** Marking one more channel as visited, and as found if it held the user. */
  lemma CollectStep(channels: seq<string>, held: set<string>, done: set<string>, ch: string)
    requires SetOf(channels) == held * done && NoTwice(channels) && ch !in done
    ensures ch in held ==> SetOf(channels + [ch]) == held * (done + {ch}) && NoTwice(channels + [ch])
    ensures ch !in held ==> held * (done + {ch}) == held * done
  {
    assert forall i :: 0 <= i < |channels| ==> channels[i] in SetOf(channels);
    assert SetOf(channels + [ch]) == SetOf(channels) + {ch};
  }

  /** `removeUserAll`: the channels, in any order, that held the user. */
  method RemoveUserAll(users: Users, ghost r: Rosters, nick: string)
    returns (users': Users, channels: seq<string>)
    requires Tracks(users, r)
    ensures Tracks(users', Gone(r, nick))
    ensures SetOf(channels) == Holding(r, nick) && NoTwice(channels)
  {
    ghost var f := (x: Roster) => x - {nick};
    users', channels := users, [];
    var left := users.Keys;
    ghost var done: set<string> := {};
    while left != {}
      invariant left + done == r.Keys && left !! done && Visited(users', r, done, f)
      invariant SetOf(channels) == Holding(r, nick) * done && NoTwice(channels)
    {
      var ch :| ch in left;
      var us, found := DropFrom(users'[ch], r[ch], nick);
      users' := users'[ch := us];
      CollectStep(channels, Holding(r, nick), done, ch);
      if found { channels := channels + [ch]; }
      left, done := left - {ch}, done + {ch};
    }
    assert done == r.Keys && Holding(r, nick) * r.Keys == Holding(r, nick);
  }

  lemma {:induction false} RelabelledMeans(users: Users, r: Rosters, was: string, now: string)
    requires Relabelled(users, r, r.Keys, was, now)
    ensures AllOk(users) <==> forall ch :: ch in r ==> RenameClear(r[ch], was, now)
    ensures AllOk(users) ==> Tracks(users, Renamed(r, was, now))
  {
    if AllOk(users) {
      forall ch | ch in r ensures RenameClear(r[ch], was, now) { assert ListOk(users[ch]); }
    }
  }

  /** `renameAll`: the channels, in any order, that held the user. */
  method RenameAll(users: Users, ghost r: Rosters, was: string, now: string)
    returns (users': Users, channels: seq<string>)
    requires Tracks(users, r)
    ensures AllOk(users') <==> forall ch :: ch in r ==> RenameClear(r[ch], was, now)
    ensures AllOk(users') ==> Tracks(users', Renamed(r, was, now))
    ensures SetOf(channels) == Holding(r, was) && NoTwice(channels)
  {
    users', channels := users, [];
    var left := users.Keys;
    ghost var done: set<string> := {};
    while left != {}
      invariant left + done == r.Keys && left !! done && Relabelled(users', r, done, was, now)
      invariant SetOf(channels) == Holding(r, was) * done && NoTwice(channels)
    {
      var ch :| ch in left;
      var us, found := RenameIn(users'[ch], r[ch], was, now);
      users' := users'[ch := us];
      CollectStep(channels, Holding(r, was), done, ch);
      if found { channels := channels + [ch]; }
      left, done := left - {ch}, done + {ch};
    }
    assert done == r.Keys && Holding(r, was) * r.Keys == Holding(r, was);
    RelabelledMeans(users', r, was, now);
  }

  method SetUserMode(us: seq<User>, ghost r: Roster, i: nat, added: string, removed: string)
    returns (us': seq<User>)
    requires Shows(us, r) && i < |us|
    ensures us[i].nick in r
    ensures Shows(us', r[us[i].nick := r[us[i].nick] + Letters(added) - Letters(removed)])
  {
    ghost var nick := us[i].nick;
    Middle(us, i, us[i]);
    ShowsWithout(us[..i], us[i], us[i + 1..], r);
    var v := AddModes(us[i], added);
    v := RemoveModes(v, removed);
    Middle(us, i, v);
    ShowsInstead(us[..i], us[i], us[i + 1..], v, r);
    assert (r - {nick})[nick := Letters(v.modes)] == r[nick := Letters(v.modes)];
    us' := us[i := v];
  }

  method SetMode(users: Users, ghost r: Rosters, ch: string, nick: string, added: string, removed: string)
    returns (users': Users)
    requires Tracks(users, r)
    ensures Tracks(users', if ch in r && nick in r[ch]
                           then r[ch := r[ch][nick := r[ch][nick] + Letters(added) - Letters(removed)]] else r)
  {
    users' := users;
    if ch !in users { return; }
    var at := Find(users[ch], nick);
    if at.Some? {
      var us := SetUserMode(users[ch], r[ch], at.value, added, removed);
      users' := users[ch := us];
    }
  }

  /** `setUsers`: the list a complete NAMES reply gives. */
  method SetUsers(names: seq<string>) returns (us: seq<User>)
    ensures if DistinctNames(names) then Shows(us, Named(names)) else !ListOk(us)
  {
    us := [];
    for i := 0 to |names|
      invariant Lists(us, names[..i]) && (DistinctNames(names[..i]) ==> Shows(us, Named(names[..i])))
    {
      var u := NewUser(names[i]);
      assert names[..i + 1] == names[..i] + [names[i]];
      ListsMore(us, names[..i], u, names[i]);
      us := us + [u];
    }
    assert names[..|names|] == names;
    if ListOk(us) { ListsDistinct(us, names); }
  }

  ghost predicate Lists(us: seq<User>, names: seq<string>) {
    |us| == |names| && forall j :: 0 <= j < |us| ==> us[j].nick == NickOf(names[j])
  }

  lemma {:induction false} ListsMore(us: seq<User>, names: seq<string>, u: User, name: string)
    requires Lists(us, names) && (DistinctNames(names) ==> Shows(us, Named(names)))
    requires Ranked(u) && u.nick == NickOf(name) && Letters(u.modes) == ModesOf(name)
    ensures Lists(us + [u], names + [name])
    ensures DistinctNames(names + [name]) ==> Shows(us + [u], Named(names + [name]))
  {
    var more := names + [name];
    if DistinctNames(more) {
      assert more[..|names|] == names;
      forall i, j | 0 <= i < j < |names| ensures NickOf(names[i]) != NickOf(names[j]) {
        assert more[i] == names[i] && more[j] == names[j];
      }
      forall i | 0 <= i < |names| ensures NickOf(names[i]) != NickOf(name) {
        assert more[i] == names[i] && more[|names|] == name;
      }
      NotNamed(names, NickOf(name));
      ShowsAppend(us, Named(names), u);
    }
  }

  lemma {:induction false} ListsDistinct(us: seq<User>, names: seq<string>)
    requires Lists(us, names) && ListOk(us)
    ensures DistinctNames(names)
  {
    forall i, j | 0 <= i < j < |names| ensures NickOf(names[i]) != NickOf(names[j]) { DistinctAt(us, i, j); }
  }

  lemma {:induction false} NotNamed(names: seq<string>, nick: string)
    requires forall i :: 0 <= i < |names| ==> NickOf(names[i]) != nick
    ensures nick !in Named(names)
  {
    if names != [] { NotNamed(names[..|names| - 1], nick); }
  }

  // ---------------------------------------------------------------- server messages

  datatype Event =
    | Join(sender: string, channel: string)
    | Part(sender: string, channel: string)
    | Quit(sender: string)
    | Kick(channel: string, nick: string)
    | Nick(sender: string, nick: string)
    | Mode(target: string, mode: string, nick: string)
    | Welcome(nick: string)
    | NamReply(channel: string, names: string)
    | EndOfNames(channel: string)

  predicate IsChannel(s: string) { s != "" && s[0] in "&#+!" }

  /** The messages that concern user lists and the client's own nick; with too few parameters they are ignored. */
  function EventOf(sender: string, command: string, params: seq<string>): Option<Event> {
    var n := |params|;
    if command == "JOIN" && n > 0 then Some(Join(sender, params[0]))
    else if command == "PART" && n > 0 then Some(Part(sender, params[0]))
    else if command == "QUIT" then Some(Quit(sender))
    else if command == "KICK" && n > 1 then Some(Kick(params[0], params[1]))
    else if command == "NICK" then Some(Nick(sender, IrcMessage.LastParam(params)))
    else if command == "MODE" && n > 2 && IsChannel(params[0]) then Some(Mode(params[0], params[1], params[2]))
    else if command == "001" && n > 0 then Some(Welcome(params[0]))
    else if command == "353" && n > 2 then Some(NamReply(params[2], IrcMessage.LastParam(params)))
    else if command == "366" && n > 1 then Some(EndOfNames(params[1]))
    else None
  }

  /** The abstract client: who it is, who is in which channel, and the names collected so far. */
  datatype Model = Model(self: string, rosters: Rosters, buffers: map<string, seq<string>>)

  function Buffered(buffers: map<string, seq<string>>, ch: string): seq<string> {
    if ch in buffers then buffers[ch] else []
  }

  function NamesIn(list: string): seq<string> {
    Split(if list != "" && list[|list| - 1] == ' ' then list[..|list| - 1] else list, ' ')
  }

  /** What becomes of the channel map; `self` says whether the message is about the client itself. */
  function NextRosters(m: Model, e: Event, self: bool): Rosters {
    match e
    case Join(sender, ch) => Joined(m.rosters, sender, ch)
    case Part(sender, ch) => if self then m.rosters - {ch} else Left(m.rosters, sender, ch)
    case Quit(sender) => Gone(m.rosters, sender)
    case Kick(ch, nick) => if self then m.rosters - {ch} else Left(m.rosters, nick, ch)
    case Nick(sender, nick) => Renamed(m.rosters, sender, nick)
    case Mode(target, mode, nick) => Moded(m.rosters, target, nick, mode)
    case Welcome(_) => m.rosters
    case NamReply(_, _) => m.rosters
    case EndOfNames(ch) => m.rosters[ch := Named(Buffered(m.buffers, ch))]
  }

  function NextBuffers(buffers: map<string, seq<string>>, e: Event): map<string, seq<string>> {
    match e
    case NamReply(ch, names) => buffers[ch := Buffered(buffers, ch) + NamesIn(names)]
    case EndOfNames(ch) => buffers - {ch}
    case _ => buffers
  }

  /** Whom a message is about. */
  function Subject(e: Event): string {
    match e
    case Join(sender, _) => sender
    case Part(sender, _) => sender
    case Quit(sender) => sender
    case Kick(_, nick) => nick
    case Nick(sender, _) => sender
    case _ => ""
  }

  /** Exactly the messages after which nicks are still listed once in every channel. */
  ghost predicate Clear(m: Model, e: Event) {
    match e
    case Join(sender, ch) => JoinClear(m.rosters, sender, ch)
    case Nick(sender, nick) => forall ch :: ch in m.rosters ==> RenameClear(m.rosters[ch], sender, nick)
    case EndOfNames(ch) => DistinctNames(Buffered(m.buffers, ch))
    case _ => true
  }

  class Client {
    const same: (string, string) -> bool
    var nick: string
    var users: Users
    var userBuffers: map<string, seq<string>>

    constructor (nick: string, same: (string, string) -> bool)
      ensures AllOk(users) && users == map[] && userBuffers == map[] && this.nick == nick && this.same == same
    {
      this.nick, this.same, users, userBuffers := nick, same, map[], map[];
    }

    ghost function Abstract(): Model
      reads this
    {
      Model(nick, map ch | ch in users :: RosterOf(users[ch]), userBuffers)
    }

    /** The message takes the abstract step and leaves every list in order, unless it is one of those that
        put a nick into a list twice. QUIT and NICK report the channels that held the user, once each. */
    method Handle(sender: string, command: string, params: seq<string>) returns (meta: seq<string>)
      requires AllOk(users)
      modifies this
      ensures var e := EventOf(sender, command, params);
              if e.None? then unchanged(this) else Follows(old(Abstract()), e.value)
      ensures var e := EventOf(sender, command, params);
              e.Some? && (e.value.Quit? || e.value.Nick?) ==>
                SetOf(meta) == Holding(old(Abstract()).rosters, sender) && NoTwice(meta)
      ensures var e := EventOf(sender, command, params);
              e.Some? && e.value.EndOfNames? ==> meta == Buffered(old(userBuffers), e.value.channel)
    {
      meta := [];
      var e := EventOf(sender, command, params);
      if e.Some? {
        if e.value.Quit? {
          meta := HandleQuit(sender);
        } else if e.value.Nick? {
          meta := HandleNick(sender, e.value.nick);
        } else if e.value.Welcome? {
          nick := e.value.nick;
        } else if e.value.NamReply? {
          HandleNamReply(e.value.channel, e.value.names);
        } else if e.value.EndOfNames? {
          meta := HandleEndOfNames(e.value.channel);
        } else {
          HandleOne(e.value);
        }
      }
    }

    ghost predicate Follows(was: Model, e: Event)
      reads this
    {
      var about := same(Subject(e), was.self);
      && (AllOk(users) <==> Clear(was, e))
      && (Clear(was, e) ==> Tracks(users, NextRosters(was, e, about)))
      && nick == (if e.Welcome? || (e.Nick? && about) then e.nick else was.self)
      && userBuffers == NextBuffers(was.buffers, e)
    }

    method HandleQuit(sender: string) returns (meta: seq<string>)
      requires AllOk(users)
      modifies this
      ensures Follows(old(Abstract()), Quit(sender))
      ensures SetOf(meta) == Holding(old(Abstract()).rosters, sender) && NoTwice(meta)
    {
      users, meta := RemoveUserAll(users, Abstract().rosters, sender);
    }

    method HandleNick(sender: string, now: string) returns (meta: seq<string>)
      requires AllOk(users)
      modifies this
      ensures Follows(old(Abstract()), Nick(sender, now))
      ensures SetOf(meta) == Holding(old(Abstract()).rosters, sender) && NoTwice(meta)
    {
      ghost var r := Abstract().rosters;
      if same(sender, nick) { nick := now; }
      users, meta := RenameAll(users, r, sender, now);
    }

    method HandleNamReply(ch: string, names: string)
      requires AllOk(users)
      modifies this`userBuffers
      ensures Follows(old(Abstract()), NamReply(ch, names))
    {
      userBuffers := userBuffers[ch := Buffered(userBuffers, ch) + NamesIn(names)];
    }

    method HandleEndOfNames(ch: string) returns (meta: seq<string>)
      requires AllOk(users)
      modifies this
      ensures Follows(old(Abstract()), EndOfNames(ch)) && meta == Buffered(old(userBuffers), ch)
    {
      meta := Buffered(userBuffers, ch);
      var list := SetUsers(meta);
      Relisted(users, Abstract().rosters, ch, list);
      users := users[ch := list];
      userBuffers := userBuffers - {ch};
    }

    method HandleOne(e: Event)
      requires AllOk(users) && (e.Join? || e.Part? || e.Kick? || e.Mode?)
      modifies this
      ensures Follows(old(Abstract()), e)
    {
      ghost var r := Abstract().rosters;
      match e
      case Join(sender, ch) => users := AddUser(users, r, sender, ch);
      case Part(sender, ch) => LeaveChannel(sender, ch);
      case Kick(ch, who) => LeaveChannel(who, ch);
      case Mode(target, mode, who) =>
        var added, removed := ParseMode(mode);
        users := SetMode(users, r, target, who, added, removed);
    }

    /** A channel is forgotten when the client itself leaves it. */
    method LeaveChannel(who: string, ch: string)
      requires AllOk(users)
      modifies this`users
      ensures Tracks(users, if same(who, nick) then old(Abstract()).rosters - {ch}
                            else Left(old(Abstract()).rosters, who, ch))
    {
      if same(who, nick) {
        users := users - {ch};
      } else {
        users := RemoveUser(users, Abstract().rosters, who, ch);
      }
    }
  }

  /** A map that the lists track is the one they show. */
  lemma {:induction false} TracksIs(c: Client, r: Rosters)
    requires Tracks(c.users, r)
    ensures AllOk(c.users) && c.Abstract().rosters == r
  {
  }

  /** A rename and the opposite one leave every channel as it was, where nobody had the new nick. */
  method RenameAndBack(c: Client, was: string, now: string)
    requires AllOk(c.users) && forall ch :: ch in c.users ==> now !in RosterOf(c.users[ch])
    modifies c
    ensures AllOk(c.users) && c.Abstract().rosters == old(c.Abstract().rosters)
  {
    ghost var r := c.Abstract().rosters;
    RenameBack(r, was, now);
    var _ := c.Handle(was, "NICK", [now]);
    TracksIs(c, Renamed(r, was, now));
    var _ := c.Handle(now, "NICK", [was]);
    TracksIs(c, r);
  }

  /** Somebody who joins and leaves again takes nobody else along. */
  method JoinAndPart(c: Client, nick: string, ch: string)
    requires AllOk(c.users) && !Prefixed(nick) && !c.same(nick, c.nick)
    modifies c
    ensures AllOk(c.users)
    ensures var r := old(c.Abstract().rosters);
            c.Abstract().rosters == if ch in r then r[ch := r[ch] - {nick}] else r[ch := map[]]
  {
    ghost var r := c.Abstract().rosters;
    JoinThenPart(r, nick, ch);
    var _ := c.Handle(nick, "JOIN", [ch]);
    TracksIs(c, Joined(r, nick, ch));
    var _ := c.Handle(nick, "PART", [ch]);
    TracksIs(c, Left(Joined(r, nick, ch), nick, ch));
  }
}
