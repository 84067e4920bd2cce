/** What the lines a server sends do to the user lists, told from the lines and the lists themselves. */
module TrackerLines {
  import opened Wrappers
  import opened Text
  import opened ChannelUsers
  import opened Tracker

  /** A user is listed in a channel with exactly these modes. */
  ghost predicate On(users: Users, ch: string, nick: string, modes: set<char>) {
    ch in users && exists i :: 0 <= i < |users[ch]| && users[ch][i].nick == nick && Letters(users[ch][i].modes) == modes
  }

  ghost predicate IsOn(users: Users, ch: string, nick: string) { exists modes :: On(users, ch, nick, modes) }

  lemma {:induction false} ListedIs(us: seq<User>, nick: string, modes: set<char>)
    requires ListOk(us)
    ensures (exists i :: 0 <= i < |us| && us[i].nick == nick && Letters(us[i].modes) == modes)
       <==> nick in RosterOf(us) && RosterOf(us)[nick] == modes
  {
    if us != [] {
      var front, last := us[..|us| - 1], us[|us| - 1];
      ListedIs(front, nick, modes);
      assert forall i :: 0 <= i < |front| ==> front[i] == us[i];
      if nick in RosterOf(us) && RosterOf(us)[nick] == modes {
        if nick == last.nick {
          assert us[|us| - 1].nick == nick;
        } else {
          var i :| 0 <= i < |front| && front[i].nick == nick && Letters(front[i].modes) == modes;
          assert us[i].nick == nick;
        }
      }
      forall i | 0 <= i < |us| && us[i].nick == nick ensures i < |us| - 1 <==> nick != last.nick {
        if i < |us| - 1 { NickAt(front, i); }
      }
    }
  }

  lemma {:induction false} OnIs(users: Users, r: Rosters, ch: string, nick: string, modes: set<char>)
    requires Tracks(users, r)
    ensures On(users, ch, nick, modes) <==> ch in r && nick in r[ch] && r[ch][nick] == modes
  {
    if ch in users { ListedIs(users[ch], nick, modes); }
  }

  lemma {:induction false} AllOn(users: Users, r: Rosters)
    requires Tracks(users, r)
    ensures forall ch, nick, modes :: On(users, ch, nick, modes) <==> ch in r && nick in r[ch] && r[ch][nick] == modes
  {
    forall ch, nick, modes ensures On(users, ch, nick, modes) <==> ch in r && nick in r[ch] && r[ch][nick] == modes {
      OnIs(users, r, ch, nick, modes);
    }
  }

  /** Handling a line whose reading is known. */
  method Take(c: Client, sender: string, command: string, params: seq<string>, ghost e: Event)
    returns (meta: seq<string>)
    requires AllOk(c.users) && EventOf(sender, command, params) == Some(e)
    modifies c
    ensures c.Follows(old(c.Abstract()), e)
    ensures e.Quit? || e.Nick? ==> SetOf(meta) == Holding(old(c.Abstract()).rosters, sender) && NoTwice(meta)
  {
    meta := c.Handle(sender, command, params);
  }

  // ---------------------------------------------------------------- leaving

  lemma {:induction false} LeavingLines(sender: string, ch: string, who: string, why: seq<string>)
    ensures EventOf(sender, "KICK", [ch, who] + why) == Some(Event.Kick(ch, who))
    ensures EventOf(sender, "PART", [ch] + why) == Some(Event.Part(sender, ch))
    ensures EventOf(sender, "QUIT", why) == Some(Event.Quit(sender))
  {
  }

  /** One user goes from a channel, or, if it is the client, the channel goes. */
  ghost predicate Leaves(was: Users, now: Users, ch: string, who: string, self: bool) {
    && now.Keys == was.Keys - (if self then {ch} else {})
    && forall d, n, ms :: On(now, d, n, ms) <==> On(was, d, n, ms) && !(d == ch && (self || n == who))
  }

  lemma {:induction false} OneLess(was: Users, r: Rosters, now: Users, ch: string, who: string, self: bool)
    requires Tracks(was, r) && Tracks(now, if self then r - {ch} else Left(r, who, ch))
    ensures Leaves(was, now, ch, who, self)
  {
    AllOn(was, r);
    AllOn(now, if self then r - {ch} else Left(r, who, ch));
  }

  /** Who is kicked from a channel goes from its list, and nobody else from any; a channel that the client itself
      is kicked from is forgotten. */
  method OnKick(c: Client, sender: string, ch: string, who: string, why: seq<string>)
    requires AllOk(c.users)
    modifies c
    ensures AllOk(c.users) && c.nick == old(c.nick) && c.userBuffers == old(c.userBuffers)
    ensures Leaves(old(c.users), c.users, ch, who, c.same(who, c.nick))
  {
    ghost var r := c.Abstract().rosters;
    LeavingLines(sender, ch, who, why);
    var _ := Take(c, sender, "KICK", [ch, who] + why, Event.Kick(ch, who));
    OneLess(old(c.users), r, c.users, ch, who, c.same(who, c.nick));
  }

  method OnPart(c: Client, sender: string, ch: string, why: seq<string>)
    requires AllOk(c.users)
    modifies c
    ensures AllOk(c.users) && c.nick == old(c.nick) && c.userBuffers == old(c.userBuffers)
    ensures Leaves(old(c.users), c.users, ch, sender, c.same(sender, c.nick))
  {
    ghost var r := c.Abstract().rosters;
    LeavingLines(sender, ch, sender, why);
    var _ := Take(c, sender, "PART", [ch] + why, Event.Part(sender, ch));
    OneLess(old(c.users), r, c.users, ch, sender, c.same(sender, c.nick));
  }

  /** Who quits goes from every list, and the channels that listed the user are reported once each. */
  method OnQuit(c: Client, sender: string, why: seq<string>) returns (channels: seq<string>)
    requires AllOk(c.users)
    modifies c
    ensures AllOk(c.users) && c.nick == old(c.nick) && c.userBuffers == old(c.userBuffers)
    ensures c.users.Keys == old(c.users).Keys
    ensures forall d, n, ms :: On(c.users, d, n, ms) <==> On(old(c.users), d, n, ms) && n != sender
    ensures NoTwice(channels) && forall d :: d in channels <==> IsOn(old(c.users), d, sender)
  {
    ghost var was, r := c.users, c.Abstract().rosters;
    LeavingLines(sender, "", "", why);
    channels := Take(c, sender, "QUIT", why, Event.Quit(sender));
    AllOn(was, r);
    AllOn(c.users, Gone(r, sender));
    HeldBy(was, r, sender, channels);
  }

  lemma {:induction false} HeldBy(was: Users, r: Rosters, nick: string, channels: seq<string>)
    requires Tracks(was, r) && SetOf(channels) == Holding(r, nick)
    ensures forall d :: d in channels <==> IsOn(was, d, nick)
  {
    forall d ensures d in channels <==> IsOn(was, d, nick) {
      assert d in channels <==> d in SetOf(channels);
      AllOn(was, r);
      if d in Holding(r, nick) { assert On(was, d, nick, r[d][nick]); }
    }
  }

  // ---------------------------------------------------------------- joining and renaming

  lemma {:induction false} ComingLines(sender: string, ch: string, now: string, rest: seq<string>)
    ensures EventOf(sender, "JOIN", [ch] + rest) == Some(Event.Join(sender, ch))
    ensures EventOf(sender, "NICK", rest + [now]) == Some(Event.Nick(sender, now))
    ensures EventOf(sender, "001", [now] + rest) == Some(Event.Welcome(now))
  {
  }

  /** Who joins under a name without prefix is listed there, without modes unless listed already; a channel not
      known before is listed with that user only. */
  method OnJoin(c: Client, sender: string, ch: string, rest: seq<string>)
    requires AllOk(c.users) && !Prefixed(sender)
    modifies c
    ensures AllOk(c.users) && c.nick == old(c.nick) && c.userBuffers == old(c.userBuffers)
    ensures c.users.Keys == old(c.users).Keys + {ch}
    ensures forall d, n, ms :: On(c.users, d, n, ms) <==>
              || On(old(c.users), d, n, ms)
              || (d == ch && n == sender && ms == {} && !IsOn(old(c.users), ch, sender))
  {
    ghost var was, r := c.users, c.Abstract().rosters;
    ComingLines(sender, ch, "", rest);
    var _ := Take(c, sender, "JOIN", [ch] + rest, Event.Join(sender, ch));
    OneMore(was, r, c.users, ch, sender);
  }

  lemma {:induction false} OneMore(was: Users, r: Rosters, now: Users, ch: string, who: string)
    requires Tracks(was, r) && !Prefixed(who) && Tracks(now, Joined(r, who, ch))
    ensures now.Keys == was.Keys + {ch}
    ensures forall d, n, ms :: On(now, d, n, ms) <==>
              On(was, d, n, ms) || (d == ch && n == who && ms == {} && !IsOn(was, ch, who))
  {
    IsOnIs(was, r, ch, who);
    forall d, n, ms ensures On(now, d, n, ms) <==>
                              On(was, d, n, ms) || (d == ch && n == who && ms == {} && !IsOn(was, ch, who))
    {
      OnIs(was, r, d, n, ms);
      OnIs(now, Joined(r, who, ch), d, n, ms);
    }
  }

  lemma {:induction false} IsOnIs(users: Users, r: Rosters, ch: string, nick: string)
    requires Tracks(users, r)
    ensures IsOn(users, ch, nick) <==> ch in r && nick in r[ch]
  {
    if ch in r && nick in r[ch] { OnIs(users, r, ch, nick, r[ch][nick]); }
    AllOn(users, r);
  }

  /** A rename moves the user, with all modes, to the new nick, in every channel; nicks are still listed once exactly
      if no channel lists both. The client's own nick follows. */
  method OnNick(c: Client, was: string, rest: seq<string>, now: string) returns (channels: seq<string>)
    requires AllOk(c.users)
    modifies c
    ensures c.nick == (if c.same(was, old(c.nick)) then now else old(c.nick)) && c.userBuffers == old(c.userBuffers)
    ensures AllOk(c.users) <==> was == now || forall d :: !(IsOn(old(c.users), d, was) && IsOn(old(c.users), d, now))
    ensures AllOk(c.users) ==>
              && c.users.Keys == old(c.users).Keys
              && forall d, n, ms :: On(c.users, d, n, ms) <==>
                   (n != was && On(old(c.users), d, n, ms)) || (n == now && On(old(c.users), d, was, ms))
    ensures NoTwice(channels) && forall d :: d in channels <==> IsOn(old(c.users), d, was)
  {
    ghost var before, r := c.users, c.Abstract().rosters;
    ComingLines(was, "", now, rest);
    channels := Take(c, was, "NICK", rest + [now], Event.Nick(was, now));
    HeldBy(before, r, was, channels);
    ClearIs(before, r, was, now);
    if AllOk(c.users) { Moved(before, r, c.users, was, now); }
  }

  lemma {:induction false} ClearIs(users: Users, r: Rosters, was: string, now: string)
    requires Tracks(users, r)
    ensures (forall d :: d in r ==> RenameClear(r[d], was, now))
       <==> was == now || forall d :: !(IsOn(users, d, was) && IsOn(users, d, now))
  {
    AllOn(users, r);
    forall d, n ensures IsOn(users, d, n) <==> d in r && n in r[d] {
      if d in r && n in r[d] { assert On(users, d, n, r[d][n]); }
    }
  }

  lemma {:induction false} Moved(before: Users, r: Rosters, after: Users, was: string, now: string)
    requires Tracks(before, r) && Tracks(after, Renamed(r, was, now))
    requires forall d :: d in r ==> RenameClear(r[d], was, now)
    ensures after.Keys == before.Keys
    ensures forall d, n, ms :: On(after, d, n, ms) <==>
              (n != was && On(before, d, n, ms)) || (n == now && On(before, d, was, ms))
  {
    AllOn(before, r);
    AllOn(after, Renamed(r, was, now));
    assert forall d :: d in r ==> Renamed(r, was, now)[d] == RenamedIn(r[d], was, now);
  }

  /** The server tells the client its nick. */
  method OnWelcome(c: Client, sender: string, nick: string, rest: seq<string>)
    requires AllOk(c.users)
    modifies c
    ensures AllOk(c.users) && c.nick == nick && c.userBuffers == old(c.userBuffers)
    ensures c.users.Keys == old(c.users).Keys
    ensures forall d, n, ms :: On(c.users, d, n, ms) <==> On(old(c.users), d, n, ms)
  {
    ghost var was, r := c.users, c.Abstract().rosters;
    ComingLines(sender, "", nick, rest);
    var _ := Take(c, sender, "001", [nick] + rest, Event.Welcome(nick));
    AllOn(was, r);
    AllOn(c.users, r);
  }

  // ---------------------------------------------------------------- modes

  /** The last sign before the place is a plus. */
  ghost predicate AfterPlus(mode: string, i: nat)
    requires i <= |mode|
  {
    exists j :: 0 <= j < i && mode[j] == '+' && forall k :: j < k < i ==> mode[k] != '-'
  }

  lemma {:induction false} PlusAtMeans(mode: string, i: nat)
    requires i <= |mode|
    ensures PlusAt(mode, i) <==> AfterPlus(mode, i)
  {
    if i > 0 {
      PlusAtMeans(mode, i - 1);
      if mode[i - 1] == '+' { assert AfterPlus(mode, i); }
    }
  }

  /** A letter of the mode string that is no sign. */
  ghost predicate LetterAt(mode: string, i: nat, c: char)
    requires i < |mode|
  {
    mode[i] == c && c != '+' && c != '-'
  }

  ghost predicate Gives(mode: string, c: char) {
    exists i :: 0 <= i < |mode| && LetterAt(mode, i, c) && AfterPlus(mode, i)
  }

  ghost predicate TakesAway(mode: string, c: char) {
    exists i :: 0 <= i < |mode| && LetterAt(mode, i, c) && !AfterPlus(mode, i)
  }

  lemma {:induction false} AppliedMeans(modes: set<char>, mode: string, c: char)
    ensures c in Applied(modes, mode) <==> (c in modes || Gives(mode, c)) && !TakesAway(mode, c)
  {
    var n := |mode|;
    UnderHas(mode, n, true, c);
    UnderHas(mode, n, false, c);
    forall i | 0 <= i < n ensures PlusAt(mode, i) <==> AfterPlus(mode, i) { PlusAtMeans(mode, i); }
    assert c in Letters(Under(mode, n, true)) <==> c in Under(mode, n, true);
    assert c in Letters(Under(mode, n, false)) <==> c in Under(mode, n, false);
  }

  /** What a mode string makes of a set of modes. */
  ghost predicate Changed(before: set<char>, mode: string, after: set<char>) {
    forall c :: c in after <==> (c in before || Gives(mode, c)) && !TakesAway(mode, c)
  }

  lemma {:induction false} ModeLine(sender: string, ch: string, mode: string, nick: string, rest: seq<string>)
    ensures EventOf(sender, "MODE", [ch, mode, nick] + rest)
         == if ch != "" && ch[0] in {'&', '#', '+', '!'} then Some(Event.Mode(ch, mode, nick)) else None
  {
  }

  /** The mode string is for the first user named: that one gets the letters behind a plus and loses the others. Only
      channels have users with modes. */
  method OnMode(c: Client, sender: string, ch: string, mode: string, nick: string, rest: seq<string>)
    requires AllOk(c.users)
    modifies c
    ensures AllOk(c.users) && c.nick == old(c.nick) && c.userBuffers == old(c.userBuffers)
    ensures c.users.Keys == old(c.users).Keys
    ensures ch == "" || ch[0] !in {'&', '#', '+', '!'} ==> c.users == old(c.users)
    ensures ch != "" && ch[0] in {'&', '#', '+', '!'} ==>
              forall d, n, ms :: On(c.users, d, n, ms) <==>
                if d == ch && n == nick
                then exists before :: On(old(c.users), d, n, before) && Changed(before, mode, ms)
                else On(old(c.users), d, n, ms)
  {
    ghost var was, r := c.users, c.Abstract().rosters;
    ModeLine(sender, ch, mode, nick, rest);
    if ch != "" && ch[0] in {'&', '#', '+', '!'} {
      var _ := Take(c, sender, "MODE", [ch, mode, nick] + rest, Event.Mode(ch, mode, nick));
      OneChanged(was, r, c.users, ch, nick, mode);
    } else {
      var _ := c.Handle(sender, "MODE", [ch, mode, nick] + rest);
    }
  }

  lemma {:induction false} OneChanged(was: Users, r: Rosters, now: Users, ch: string, nick: string, mode: string)
    requires Tracks(was, r) && Tracks(now, Moded(r, ch, nick, mode))
    ensures now.Keys == was.Keys
    ensures forall d, n, ms :: On(now, d, n, ms) <==>
              if d == ch && n == nick then exists before :: On(was, d, n, before) && Changed(before, mode, ms)
              else On(was, d, n, ms)
  {
    AllOn(was, r);
    AllOn(now, Moded(r, ch, nick, mode));
    if ch in r && nick in r[ch] {
      var before := r[ch][nick];
      forall c ensures c in Applied(before, mode) <==> (c in before || Gives(mode, c)) && !TakesAway(mode, c) {
        AppliedMeans(before, mode, c);
      }
      assert On(was, ch, nick, before);
      forall ms ensures Changed(before, mode, ms) <==> ms == Applied(before, mode) { }
    }
  }

  // ---------------------------------------------------------------- names

  /** The prefixes a name can come with, and the modes they stand for. */
  predicate StandsFor(p: char, m: char) {
    (p == '~' && m == 'q') || (p == '&' && m == 'a') || (p == '@' && m == 'o') || (p == '%' && m == 'h')
    || (p == '+' && m == 'v')
  }

  lemma {:induction false} PrefixMeans(p: char, m: char, nick: string)
    requires StandsFor(p, m)
    ensures NickOf([p] + nick) == nick && ModesOf([p] + nick) == {m}
  {
    var i := if p == '~' then 0 else if p == '&' then 1 else if p == '@' then 2 else if p == '%' then 3 else 4;
    var name := [p] + nick;
    assert name[0] == p && name[1..] == nick;
    assert PREFIXES[i] == p && MODES[i] == m;
    assert forall j :: 0 <= j < 5 && j != i ==> PREFIXES[j] != p;
  }

  lemma {:induction false} NoPrefixMeans(name: string)
    requires name == "" || forall m :: !StandsFor(name[0], m)
    ensures NickOf(name) == name && ModesOf(name) == {}
  {
    if Prefixed(name) {
      var i := Index(PREFIXES, name[0]).value;
      assert StandsFor(PREFIXES[i], MODES[i]);
    }
  }

  ghost predicate AllWords(names: seq<string>) { names != [] && forall n :: n in names ==> n != "" && ' ' !in n }

  /** A list of names with single blanks between them, and possibly one at its end. */
  lemma {:induction false} NamesInLine(names: seq<string>)
    requires AllWords(names)
    ensures NamesIn(Text.Join(names, ' ')) == names && NamesIn(Text.Join(names, ' ') + " ") == names
  {
    var line := Text.Join(names, ' ');
    SplitJoin(names, ' ');
    JoinEnds(names);
    assert (line + " ")[..|line|] == line;
  }

  lemma {:induction false} JoinEnds(names: seq<string>)
    requires AllWords(names)
    ensures Text.Join(names, ' ') != "" && Text.Join(names, ' ')[|Text.Join(names, ' ')| - 1] != ' '
  {
    assert names[0] in names;
    if |names| > 1 {
      assert forall n :: n in names[1..] ==> n in names;
      JoinEnds(names[1..]);
    } else {
      assert names[0][|names[0]| - 1] in names[0];
    }
  }

  lemma {:induction false} NamesLines(sender: string, me: string, sign: string, ch: string, list: string,
                                      rest: seq<string>)
    ensures EventOf(sender, "353", [me, sign, ch, list]) == Some(Event.NamReply(ch, list))
    ensures EventOf(sender, "366", [me, ch] + rest) == Some(Event.EndOfNames(ch))
  {
  }

  /** All names of several lists. */
  function Together(lists: seq<seq<string>>): seq<string> {
    if lists == [] then [] else Together(lists[..|lists| - 1]) + lists[|lists| - 1]
  }

  lemma {:induction false} NamedMeans(names: seq<string>, nick: string, modes: set<char>)
    requires DistinctNames(names)
    ensures nick in Named(names) && Named(names)[nick] == modes
       <==> exists i :: 0 <= i < |names| && nick == NickOf(names[i]) && modes == ModesOf(names[i])
  {
    if names != [] {
      var front, last := names[..|names| - 1], names[|names| - 1];
      assert forall i :: 0 <= i < |front| ==> front[i] == names[i];
      NamedMeans(front, nick, modes);
      if nick == NickOf(last) && modes == ModesOf(last) { assert names[|names| - 1] == last; }
    }
  }

  /** One line of a NAMES reply changes no list. */
  method NamesLine(c: Client, sender: string, me: string, sign: string, ch: string, names: seq<string>, blank: bool)
    requires AllOk(c.users) && AllWords(names)
    modifies c
    ensures AllOk(c.users) && c.nick == old(c.nick) && c.Abstract().rosters == old(c.Abstract().rosters)
    ensures c.userBuffers == old(c.userBuffers)[ch := Buffered(old(c.userBuffers), ch) + names]
  {
    ghost var r := c.Abstract().rosters;
    var list := Text.Join(names, ' ') + if blank then " " else "";
    assert Text.Join(names, ' ') + "" == Text.Join(names, ' ');
    NamesLines(sender, me, sign, ch, list, []);
    NamesInLine(names);
    var _ := Take(c, sender, "353", [me, sign, ch, list], Event.NamReply(ch, list));
    TracksIs(c, r);
  }

  method NamesLinesOf(c: Client, sender: string, me: string, sign: string, ch: string, lists: seq<seq<string>>,
                      blank: bool)
    requires AllOk(c.users) && (forall l :: l in lists ==> AllWords(l)) && ch !in c.userBuffers && lists != []
    modifies c
    ensures AllOk(c.users) && c.nick == old(c.nick) && c.Abstract().rosters == old(c.Abstract().rosters)
    ensures c.userBuffers == old(c.userBuffers)[ch := Together(lists)]
  {
    for i := 0 to |lists|
      invariant AllOk(c.users) && c.nick == old(c.nick) && c.Abstract().rosters == old(c.Abstract().rosters)
      invariant Buffered(c.userBuffers, ch) == Together(lists[..i])
      invariant c.userBuffers == if i == 0 then old(c.userBuffers) else old(c.userBuffers)[ch := Together(lists[..i])]
    {
      assert lists[..i + 1][..i] == lists[..i] && lists[i] in lists;
      NamesLine(c, sender, me, sign, ch, lists[i], blank);
    }
    assert lists[..|lists|] == lists;
  }

  method NamesEnd(c: Client, sender: string, me: string, ch: string, rest: seq<string>)
    requires AllOk(c.users)
    modifies c
    ensures var names := Buffered(old(c.userBuffers), ch);
            && (AllOk(c.users) <==> DistinctNames(names))
            && (AllOk(c.users) ==> Tracks(c.users, old(c.Abstract().rosters)[ch := Named(names)]))
    ensures c.nick == old(c.nick) && c.userBuffers == old(c.userBuffers) - {ch}
  {
    NamesLines(sender, me, "", ch, "", rest);
    var _ := Take(c, sender, "366", [me, ch] + rest, Event.EndOfNames(ch));
  }

  /** A NAMES reply of any number of lines and its end: the channel lists exactly the names sent, each with the mode
      of its prefix, and no other channel changes. Nicks are listed once exactly if none was sent twice. */
  method OnNames(c: Client, sender: string, me: string, sign: string, ch: string, lists: seq<seq<string>>,
                    blank: bool, rest: seq<string>)
    requires AllOk(c.users) && (forall l :: l in lists ==> AllWords(l)) && ch !in c.userBuffers && lists != []
    modifies c
    ensures AllOk(c.users) <==> DistinctNames(Together(lists))
    ensures AllOk(c.users) ==>
              && c.nick == old(c.nick) && c.userBuffers == old(c.userBuffers)
              && ListsNow(old(c.users), c.users, ch, Together(lists))
  {
    ghost var was, r, names := c.users, c.Abstract().rosters, Together(lists);
    NamesLinesOf(c, sender, me, sign, ch, lists, blank);
    NamesEnd(c, sender, me, ch, rest);
    if AllOk(c.users) {
      Renewed(was, r, c.users, ch, names);
      BufferGone(old(c.userBuffers), ch, names);
    }
  }

  lemma {:induction false} BufferGone(buffers: map<string, seq<string>>, ch: string, names: seq<string>)
    requires ch !in buffers
    ensures buffers[ch := names] - {ch} == buffers
  {
  }

  /** The channel lists the names, each with the mode of its prefix, and other channels list whom they did. */
  ghost predicate ListsNow(was: Users, now: Users, ch: string, names: seq<string>) {
    && now.Keys == was.Keys + {ch}
    && forall d, n, ms :: On(now, d, n, ms) <==>
         if d == ch then exists i :: 0 <= i < |names| && n == NickOf(names[i]) && ms == ModesOf(names[i])
         else On(was, d, n, ms)
  }

  lemma {:induction false} Renewed(was: Users, r: Rosters, now: Users, ch: string, names: seq<string>)
    requires Tracks(was, r) && DistinctNames(names) && Tracks(now, r[ch := Named(names)])
    ensures ListsNow(was, now, ch, names)
  {
    forall d, n, ms
      ensures On(now, d, n, ms) <==>
                if d == ch then exists i :: 0 <= i < |names| && n == NickOf(names[i]) && ms == ModesOf(names[i])
                else On(was, d, n, ms)
    {
      OnIs(was, r, d, n, ms);
      OnIs(now, r[ch := Named(names)], d, n, ms);
      NamedMeans(names, n, ms);
    }
  }
}
