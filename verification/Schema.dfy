/** The wire format told without the codec: what the bytes of a number are, and that a record is the fields of its
    schema, in the schema's order. */
module Schema {
  import opened Wrappers
  import opened Wire
  import opened Records

  // ---------------------------------------------------------------- numbers

  /** The number that base-128 digits stand for, the lowest first; the top bit of a byte is no part of its digit. */
  function Digits(b: Bytes): nat { if b == [] then 0 else b[0] % 128 + 128 * Digits(b[1..]) }

  /** The bytes are the digits of the number; the top bit is set on all but the last, and there are no more digits
      than it takes. */
  lemma {:induction false} UvarintMeans(t: nat)
    ensures var b := Uvarint(t);
            && Digits(b) == t
            && (forall i :: 0 <= i < |b| ==> (b[i] >= 128 <==> i < |b| - 1))
            && (|b| > 1 ==> b[|b| - 1] != 0)
  {
    if t >= 128 {
      UvarintMeans(t / 128);
      var b, rest := Uvarint(t), Uvarint(t / 128);
      assert b[1..] == rest;
      forall i | 0 <= i < |b| ensures b[i] >= 128 <==> i < |b| - 1 {
        if i > 0 { assert b[i] == rest[i - 1]; }
      }
    }
  }

  /** A number with its lowest `i` bytes taken off. */
  function Above(v: nat, i: nat): nat { if i == 0 then v else Above(v / 256, i - 1) }

  /** Numbers of a fixed width have their lowest byte first. */
  lemma {:induction false} LittleEndianMeans(v: nat, n: nat, i: nat)
    requires i < n
    ensures LittleEndian(v, n)[i] == Above(v, i) % 256
  {
    if i > 0 { LittleEndianMeans(v / 256, n - 1, i - 1); }
  }

  // ---------------------------------------------------------------- records

  datatype Field = Number(n: uint64) | Signed(i: int64) | Text(s: Bytes) | Flag(b: bool) | Count(c: nat)

  /** Numbers take eight bytes, signed ones in two's complement; a text follows its length. */
  function FieldBytes(f: Field): Bytes {
    match f
    case Number(n) => LittleEndian(n, 8)
    case Signed(i) => LittleEndian(i % 0x1_0000_0000_0000_0000, 8)
    case Text(s) => Uvarint(|s|) + s
    case Flag(b) => [if b then 1 else 0]
    case Count(c) => Uvarint(c)
  }

  function Written(fs: seq<Field>): Bytes { All(FieldBytes, fs) }

  lemma {:induction false} WrittenConcat(a: seq<Field>, b: seq<Field>)
    ensures Written(a + b) == Written(a) + Written(b)
  {
    if a == [] {
      assert a + b == b;
    } else {
      assert (a + b)[1..] == a[1..] + b;
      WrittenConcat(a[1..], b);
    }
  }

  lemma {:induction false} WrittenOne(f: Field)
    ensures Written([f]) == FieldBytes(f)
  {
    assert [f][1..] == [] && [f] == [f] + [];
    assert Written([f]) == FieldBytes(f) + All(FieldBytes, []);
  }

  lemma {:induction false} SignedIs(v: int64)
    ensures Fixed64(Unsigned(v)) == FieldBytes(Signed(v))
  {
    TwosComplement(v);
  }

  lemma TwosComplement(v: int64)
    ensures Unsigned(v) == v % 0x1_0000_0000_0000_0000
  {
  }

  function Texts(ss: seq<Bytes>): seq<Field> { if ss == [] then [] else [Text(ss[0])] + Texts(ss[1..]) }

  lemma {:induction false} TextsWritten(ss: seq<Bytes>)
    ensures All(Str, ss) == Written(Texts(ss))
  {
    if ss != [] {
      TextsWritten(ss[1..]);
      WrittenConcat([Text(ss[0])], Texts(ss[1..]));
      WrittenOne(Text(ss[0]));
    }
  }

  function EventFields(e: Event): seq<Field> { [Text(e.typ), Count(|e.params|)] + Texts(e.params) + [Signed(e.time)] }

  lemma {:induction false} EventIsFields(e: Event)
    ensures EventBytes(e) == Written(EventFields(e))
  {
    var head, params, time := [Text(e.typ), Count(|e.params|)], Texts(e.params), [Signed(e.time)];
    WrittenConcat(head + params, time);
    WrittenConcat(head, params);
    WrittenConcat([Text(e.typ)], [Count(|e.params|)]);
    assert head == [Text(e.typ)] + [Count(|e.params|)];
    WrittenOne(Text(e.typ));
    WrittenOne(Count(|e.params|));
    WrittenOne(Signed(e.time));
    TextsWritten(e.params);
    SignedIs(e.time);
    assert EventBytes(e) == Str(e.typ) + Uvarint(|e.params|) + All(Str, e.params) + Fixed64(Unsigned(e.time));
  }

  function EventsFields(es: seq<Event>): seq<Field> {
    if es == [] then [] else EventFields(es[0]) + EventsFields(es[1..])
  }

  lemma {:induction false} EventsWritten(es: seq<Event>)
    ensures All(EventBytes, es) == Written(EventsFields(es))
  {
    if es != [] {
      EventsWritten(es[1..]);
      EventIsFields(es[0]);
      WrittenConcat(EventFields(es[0]), EventsFields(es[1..]));
    }
  }

  function MessageFields(m: Message): seq<Field> {
    Texts([m.id, m.from, m.content]) + [Signed(m.time)] + ([Count(|m.events|)] + EventsFields(m.events))
  }

  lemma {:induction false} MessageIsFields(m: Message)
    ensures MessageBytes(m) == Written(MessageFields(m))
  {
    var text, time, count := Texts([m.id, m.from, m.content]), [Signed(m.time)], [Count(|m.events|)];
    WrittenConcat(text + time, count + EventsFields(m.events));
    WrittenConcat(text, time);
    WrittenConcat(count, EventsFields(m.events));
    TextsWritten([m.id, m.from, m.content]);
    WrittenOne(Signed(m.time));
    WrittenOne(Count(|m.events|));
    EventsWritten(m.events);
    SignedIs(m.time);
  }

  function SettingsFields(c: Option<ClientSettings>): seq<Field> {
    if c.None? then [Flag(false)] else [Flag(true), Flag(c.value.coloredNicks)]
  }

  function UserFields(u: User): seq<Field> {
    [Number(u.id), Text(u.username)] + SettingsFields(u.settings) + [Text(u.lastIP)]
  }

  lemma {:induction false} SettingsWritten(c: Option<ClientSettings>)
    ensures SettingsBytes(c) == Written(SettingsFields(c))
  {
    WrittenOne(Flag(false));
    if c.Some? {
      assert SettingsFields(c) == [Flag(true)] + [Flag(c.value.coloredNicks)];
      WrittenConcat([Flag(true)], [Flag(c.value.coloredNicks)]);
      WrittenOne(Flag(true));
      WrittenOne(Flag(c.value.coloredNicks));
    }
  }

  lemma {:induction false} UserIsFields(u: User)
    ensures UserBytes(u) == Written(UserFields(u))
  {
    var head, settings, ip := [Number(u.id), Text(u.username)], SettingsFields(u.settings), [Text(u.lastIP)];
    WrittenConcat(head + settings, ip);
    WrittenConcat(head, settings);
    WrittenConcat([Number(u.id)], [Text(u.username)]);
    assert head == [Number(u.id)] + [Text(u.username)];
    WrittenOne(Number(u.id));
    WrittenOne(Text(u.username));
    WrittenOne(Text(u.lastIP));
    SettingsWritten(u.settings);
  }

  function NetworkFields(n: Network): seq<Field> {
    Texts([n.name, n.host, n.port]) + [Flag(n.tls)]
    + Texts([n.serverPassword, n.nick, n.username, n.realname, n.account, n.password])
  }

  lemma {:induction false} NetworkIsFields(n: Network)
    ensures NetworkBytes(n) == Written(NetworkFields(n))
  {
    var address, login := [n.name, n.host, n.port],
                          [n.serverPassword, n.nick, n.username, n.realname, n.account, n.password];
    WrittenConcat(Texts(address) + [Flag(n.tls)], Texts(login));
    WrittenConcat(Texts(address), [Flag(n.tls)]);
    TextsWritten(address);
    TextsWritten(login);
    WrittenOne(Flag(n.tls));
  }

  lemma {:induction false} ChannelIsFields(c: Channel)
    ensures ChannelBytes(c) == Written([Text(c.network), Text(c.name)])
  {
    assert [Text(c.network), Text(c.name)] == [Text(c.network)] + [Text(c.name)];
    WrittenConcat([Text(c.network)], [Text(c.name)]);
    WrittenOne(Text(c.network));
    WrittenOne(Text(c.name));
  }

  lemma {:induction false} SessionIsFields(s: Session)
    ensures SessionBytes(s) == Written([Number(s.userID), Text(s.key), Signed(s.createdAt)])
  {
    var fs := [Number(s.userID), Text(s.key), Signed(s.createdAt)];
    assert fs == [Number(s.userID)] + [Text(s.key)] + [Signed(s.createdAt)];
    WrittenConcat([Number(s.userID)] + [Text(s.key)], [Signed(s.createdAt)]);
    WrittenConcat([Number(s.userID)], [Text(s.key)]);
    WrittenOne(Number(s.userID));
    WrittenOne(Text(s.key));
    WrittenOne(Signed(s.createdAt));
    SignedIs(s.createdAt);
  }
}
