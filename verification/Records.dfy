/** The persisted records: their wire format, their readers, and the round trips. */
module Records {
  import opened Wrappers
  import opened Wire

  datatype Event = Event(typ: Bytes, params: seq<Bytes>, time: int64)
  datatype Message = Message(id: Bytes, from: Bytes, content: Bytes, time: int64, events: seq<Event>)
  datatype ClientSettings = ClientSettings(coloredNicks: bool)
  datatype User = User(id: uint64, username: Bytes, settings: Option<ClientSettings>, lastIP: Bytes)
  datatype Network = Network(name: Bytes, host: Bytes, port: Bytes, tls: bool, serverPassword: Bytes,
                             nick: Bytes, username: Bytes, realname: Bytes, account: Bytes,
                             password: Bytes)
  datatype Channel = Channel(network: Bytes, name: Bytes)
  datatype Session = Session(userID: uint64, key: Bytes, createdAt: int64)

  // ---------------------------------------------------------------- what Go's types allow

  predicate EventFits(e: Event) {
    Fits(e.typ) && Fits(e.params) && forall p | p in e.params :: Fits(p)
  }

  predicate MessageFits(m: Message) {
    Fits(m.id) && Fits(m.from) && Fits(m.content) && Fits(m.events)
    && forall e | e in m.events :: EventFits(e)
  }

  predicate NetworkFits(n: Network) {
    forall s | s in NetworkAddress(n) + NetworkLogin(n) :: Fits(s)
  }

  // ---------------------------------------------------------------- wire format

  function Bool(b: bool): Bytes { [if b then 1 else 0] }

  function EventBytes(e: Event): Bytes {
    Str(e.typ) + List(Str, e.params) + Fixed64(Unsigned(e.time))
  }

  /** The strings of a message, in wire order. */
  function MessageText(m: Message): seq<Bytes> { [m.id, m.from, m.content] }

  function MessageBytes(m: Message): Bytes {
    All(Str, MessageText(m)) + Fixed64(Unsigned(m.time)) + List(EventBytes, m.events)
  }

  function SettingsBytes(c: Option<ClientSettings>): Bytes {
    match c case None => [0] case Some(s) => [1] + Bool(s.coloredNicks)
  }

  function UserBytes(u: User): Bytes {
    Fixed64(u.id) + Str(u.username) + SettingsBytes(u.settings) + Str(u.lastIP)
  }

  /** The strings of a network before and after its TLS flag, in wire order. */
  function NetworkAddress(n: Network): seq<Bytes> { [n.name, n.host, n.port] }
  function NetworkLogin(n: Network): seq<Bytes> {
    [n.serverPassword, n.nick, n.username, n.realname, n.account, n.password]
  }

  function NetworkBytes(n: Network): Bytes {
    All(Str, NetworkAddress(n)) + Bool(n.tls) + All(Str, NetworkLogin(n))
  }

  function ChannelBytes(c: Channel): Bytes { Str(c.network) + Str(c.name) }

  function SessionBytes(s: Session): Bytes {
    Fixed64(s.userID) + Str(s.key) + Fixed64(Unsigned(s.createdAt))
  }

  // ---------------------------------------------------------------- readers

  function ReadBool(b: Bytes): Parsed<bool> {
    if b == [] then Panic else Parsed(b[0] == 1, b[1..])
  }

  /** Exactly the byte 1 is true, and announces settings. */
  lemma {:induction false} FlagsRead(x: byte, rest: Bytes)
    ensures ReadBool([x] + rest) == Parsed(x == 1, rest)
    ensures x != 1 ==> ReadSettings([x] + rest) == Parsed(None, rest)
  {
    assert ([x] + rest)[1..] == rest;
  }

  function ReadEvent(b: Bytes): Parsed<Event> {
    var (typ, b1) :- ReadStr(b);
    var (params, b2) :- ReadList(ReadStr, b1);
    var (time, b3) :- ReadInt64(b2);
    Parsed(Event(typ, params, time), b3)
  }

  function ReadMessage(b: Bytes): Parsed<Message> {
    var (text, b1) :- ReadAll(ReadStr, 3, b);
    ReadAllLength(ReadStr, 3, b);
    var (time, b2) :- Followed(ReadInt64(b1));
    var (events, b3) :- ReadList(ReadEvent, b2);
    Parsed(Message(text[0], text[1], text[2], time, events), b3)
  }

  function ReadSettings(b: Bytes): (r: Parsed<Option<ClientSettings>>)
    ensures !r.Overread?
  {
    if b == [] then Panic
    else if b[0] != 1 then Parsed(None, b[1..])
    else
      var (c, b1) :- ReadBool(b[1..]);
      Parsed(Some(ClientSettings(c)), b1)
  }

  function ReadNetwork(b: Bytes): Parsed<Network> {
    var (p, b1) :- ReadAll(ReadStr, 3, b);
    ReadAllLength(ReadStr, 3, b);
    var (tls, b2) :- ReadBool(b1);
    var (q, b3) :- ReadAll(ReadStr, 6, b2);
    ReadAllLength(ReadStr, 6, b2);
    Parsed(Network(p[0], p[1], p[2], tls, q[0], q[1], q[2], q[3], q[4], q[5]), b3)
  }

  function ReadChannel(b: Bytes): Parsed<Channel> {
    var (network, b1) :- ReadStr(b);
    var (name, b2) :- ReadStr(b1);
    Parsed(Channel(network, name), b2)
  }

  function ReadSession(b: Bytes): Parsed<Session> {
    var (userID, b1) :- Followed(ReadFixed64(b));
    var (key, b2) :- ReadStr(b1);
    var (createdAt, b3) :- ReadInt64(b2);
    Parsed(Session(userID, key, createdAt), b3)
  }

  /** The fields of a user up to the length of the address. */
  function ReadUserHead(b: Bytes): Parsed<(User, nat)> {
    var (id, b1) :- Followed(ReadFixed64(b));
    var (username, b2) :- ReadStr(b1);
    var (settings, b3) :- ReadSettings(b2);
    var (l, b4) :- ReadUvarint(b3);
    Parsed((User(id, username, settings, []), l), b4)
  }

  /** `copy(dst, src)`: the shorter length wins, and the rest of `dst` keeps what it held. */
  function CopyOver(dst: Bytes, src: Bytes): (r: Bytes)
    ensures |r| == |dst|
  {
    if |src| < |dst| then src + dst[|src|..] else src[..|dst|]
  }

  /** Only the 8-byte integers can be read past the end of the buffer. */
  lemma {:induction false} StrsStayInside(n: nat, b: Bytes)
    ensures !ReadAll(ReadStr, n, b).Overread?
  {
    if n > 0 {
      StrStaysInside(b);
      if ReadStr(b).Parsed? { StrsStayInside(n - 1, ReadStr(b).rest); }
    }
  }

  lemma {:induction false} UserHeadStaysInside(b: Bytes)
    ensures !ReadUserHead(b).Overread?
  {
    if ReadFixed64(b).Parsed? {
      var b1 := ReadFixed64(b).rest;
      StrStaysInside(b1);
      if ReadStr(b1).Parsed? && ReadSettings(ReadStr(b1).rest).Parsed? {
        UvarintStaysInside(ReadSettings(ReadStr(b1).rest).rest);
      }
    }
  }

  // ---------------------------------------------------------------- round trips

  lemma StrsRoundTrip(ss: seq<Bytes>, rest: Bytes)
    requires forall s | s in ss :: Fits(s)
    ensures ReadAll(ReadStr, |ss|, All(Str, ss) + rest) == Parsed(ss, rest)
  {
    forall s, r | s in ss ensures ReadStr(Str(s) + r) == Parsed(s, r) { StrRoundTrip(s, r); }
    AllRoundTrip(Str, ReadStr, ss, rest);
  }

  lemma EventRoundTrip(e: Event, rest: Bytes)
    requires EventFits(e)
    ensures ReadEvent(EventBytes(e) + rest) == Parsed(e, rest)
  {
    var b2 := Fixed64(Unsigned(e.time)) + rest;
    var b1 := List(Str, e.params) + b2;
    assert EventBytes(e) + rest == Str(e.typ) + b1;
    StrRoundTrip(e.typ, b1);
    forall p, r | p in e.params ensures ReadStr(Str(p) + r) == Parsed(p, r) { StrRoundTrip(p, r); }
    ListRoundTrip(Str, ReadStr, e.params, b2);
    Int64RoundTrip(e.time, rest);
  }

  lemma MessageRoundTrip(m: Message, rest: Bytes)
    requires MessageFits(m)
    ensures ReadMessage(MessageBytes(m) + rest) == Parsed(m, rest)
  {
    var b2 := List(EventBytes, m.events) + rest;
    var b1 := Fixed64(Unsigned(m.time)) + b2;
    assert MessageBytes(m) + rest == All(Str, MessageText(m)) + b1;
    StrsRoundTrip(MessageText(m), b1);
    Int64RoundTrip(m.time, b2);
    forall e, r | e in m.events ensures ReadEvent(EventBytes(e) + r) == Parsed(e, r) {
      EventRoundTrip(e, r);
    }
    ListRoundTrip(EventBytes, ReadEvent, m.events, rest);
  }

  lemma SettingsRoundTrip(c: Option<ClientSettings>, rest: Bytes)
    ensures ReadSettings(SettingsBytes(c) + rest) == Parsed(c, rest)
  {
    var b := SettingsBytes(c) + rest;
    if c.Some? { assert b[1..] == Bool(c.value.coloredNicks) + rest; }
  }

  lemma UserHeadRoundTrip(u: User, rest: Bytes)
    requires Fits(u.username) && Fits(u.lastIP)
    ensures ReadUserHead(UserBytes(u) + rest)
         == Parsed((u.(lastIP := []), |u.lastIP|), u.lastIP + rest)
  {
    var b3 := Uvarint(|u.lastIP|) + (u.lastIP + rest);
    var b2 := SettingsBytes(u.settings) + b3;
    var b1 := Str(u.username) + b2;
    assert UserBytes(u) + rest == Fixed64(u.id) + b1;
    Fixed64RoundTrip(u.id, b1);
    StrRoundTrip(u.username, b2);
    SettingsRoundTrip(u.settings, b3);
    UvarintRoundTrip(|u.lastIP|, u.lastIP + rest);
  }

  lemma NetworkRoundTrip(n: Network, rest: Bytes)
    requires NetworkFits(n)
    ensures ReadNetwork(NetworkBytes(n) + rest) == Parsed(n, rest)
  {
    var b2 := All(Str, NetworkLogin(n)) + rest;
    var b1 := Bool(n.tls) + b2;
    assert NetworkBytes(n) + rest == All(Str, NetworkAddress(n)) + b1;
    StrsRoundTrip(NetworkAddress(n), b1);
    assert b1[1..] == b2;
    StrsRoundTrip(NetworkLogin(n), rest);
  }

  lemma ChannelRoundTrip(c: Channel, rest: Bytes)
    requires Fits(c.network) && Fits(c.name)
    ensures ReadChannel(ChannelBytes(c) + rest) == Parsed(c, rest)
  {
    assert ChannelBytes(c) + rest == Str(c.network) + (Str(c.name) + rest);
    StrRoundTrip(c.network, Str(c.name) + rest);
    StrRoundTrip(c.name, rest);
  }

  lemma SessionRoundTrip(s: Session, rest: Bytes)
    requires Fits(s.key)
    ensures ReadSession(SessionBytes(s) + rest) == Parsed(s, rest)
  {
    var b2 := Fixed64(Unsigned(s.createdAt)) + rest;
    var b1 := Str(s.key) + b2;
    assert SessionBytes(s) + rest == Fixed64(s.userID) + b1;
    Fixed64RoundTrip(s.userID, b1);
    StrRoundTrip(s.key, b2);
    Int64RoundTrip(s.createdAt, rest);
  }
}
