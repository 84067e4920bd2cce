/** Encodings that are cut short: the outcome of reading any proper prefix of a record. */
module Truncation {
  import opened Wire
  import opened Records

  /** The outcome of reading a value with its last `missing` bytes cut off, when only the last `loose` bytes
      of its encoding can be missing without a panic. */
  function Cut<T>(missing: nat, loose: nat): Parsed<T> { if missing <= loose then Overread(missing) else Panic }

  // ---------------------------------------------------------------- primitive formats

  /** All bytes but the last announce another one, so no proper prefix is complete. */
  lemma {:induction false} UvarintContinues(v: nat, i: nat)
    requires i < |Uvarint(v)| - 1
    ensures Uvarint(v)[i] >= 128
    decreases v
  {
    if i > 0 { UvarintContinues(v / 128, i - 1); }
  }

  lemma {:induction false} ReadMorePanics(b: Bytes, t: nat, shift: nat)
    requires b != [] && forall i :: 0 <= i < |b| ==> b[i] >= 128
    ensures ReadMore(b, t, shift).Panic?
    decreases |b|
  {
    if |b| > 1 {
      ReadMorePanics(b[1..], Or(t, Shl64(b[1] % 128, shift)), (shift + 7) % 256);
    }
  }

  lemma {:induction false} UvarintCut(v: nat, k: nat)
    requires k < |Uvarint(v)|
    ensures ReadUvarint(Uvarint(v)[..k]).Panic?
  {
    var b := Uvarint(v)[..k];
    forall i | 0 <= i < |b| ensures b[i] >= 128 { UvarintContinues(v, i); }
    if b != [] { ReadMorePanics(b, b[0] % 128, 7); }
  }

  lemma {:induction false} StrCut(s: Bytes, k: nat)
    requires Fits(s) && k < |Str(s)|
    ensures ReadStr(Str(s)[..k]).Panic?
  {
    var u := Uvarint(|s|);
    if k < |u| {
      assert Str(s)[..k] == u[..k];
      UvarintCut(|s|, k);
    } else {
      assert Str(s)[..k] == u + s[..k - |u|];
      UvarintRoundTrip(|s|, s[..k - |u|]);
    }
  }

  /** Each element reads back from its encoding, and a truncated one has the outcome of a cut. */
  ghost predicate Codes<T(!new)>(enc: T -> Bytes, read: Bytes -> Parsed<T>, xs: seq<T>, loose: nat) {
    && (forall x, r :: x in xs ==> read(enc(x) + r) == Parsed(x, r))
    && (forall x, j :: x in xs && 0 <= j < |enc(x)| ==> read(enc(x)[..j]) == Cut(|enc(x)| - j, loose))
    && (forall x :: x in xs ==> |enc(x)| > loose)
  }

  /** Cutting an encoded list short has the outcome of cutting its last element short, or panics. */
  lemma {:induction false} AllCut<T(!new)>(enc: T -> Bytes, read: Bytes -> Parsed<T>, xs: seq<T>, k: nat, loose: nat)
    requires k < |All(enc, xs)|
    requires Codes(enc, read, xs, loose)
    ensures ReadAll(read, |xs|, All(enc, xs)[..k]) == Cut<seq<T>>(|All(enc, xs)| - k, loose)
  {
    var x, tail, b := xs[0], xs[1..], All(enc, xs)[..k];
    assert x in xs && forall y :: y in tail ==> y in xs;
    if k < |enc(x)| {
      assert b == enc(x)[..k];
      if tail != [] {
        assert tail[0] in xs;
        assert |All(enc, tail)| >= |enc(tail[0])|;
      } else {
        assert All(enc, xs) == enc(x);
      }
    } else {
      var rest := All(enc, tail)[..k - |enc(x)|];
      assert b == enc(x) + rest;
      AllCut(enc, read, tail, k - |enc(x)|, loose);
    }
  }

  lemma {:induction false} ListCut<T(!new)>(enc: T -> Bytes, read: Bytes -> Parsed<T>, xs: seq<T>, k: nat, loose: nat)
    requires Fits(xs) && k < |List(enc, xs)|
    requires Codes(enc, read, xs, loose)
    ensures |xs| == 0 ==> ReadList(read, List(enc, xs)[..k]) == Panic
    ensures |xs| > 0 ==> ReadList(read, List(enc, xs)[..k]) == Cut<seq<T>>(|List(enc, xs)| - k, loose)
  {
    var u := Uvarint(|xs|);
    if k < |u| {
      assert List(enc, xs)[..k] == u[..k];
      UvarintCut(|xs|, k);
      if xs != [] {
        assert xs[0] in xs;
        assert |All(enc, xs)| >= |enc(xs[0])|;
      }
    } else {
      var rest := All(enc, xs)[..k - |u|];
      assert List(enc, xs)[..k] == u + rest;
      UvarintRoundTrip(|xs|, rest);
      AllCut(enc, read, xs, k - |u|, loose);
    }
  }

  // ---------------------------------------------------------------- records

  /** The bytes an 8-byte integer at the end of a record can lack without a panic. */
  const LOOSE := 7

  lemma {:induction false} Int64Cut(v: int64, k: nat)
    requires k < 8
    ensures ReadInt64(Fixed64(Unsigned(v))[..k]) == Cut(8 - k, LOOSE)
  {
  }

  /** A cut behind the first part of an encoding leaves that part whole. */
  lemma {:induction false} CutBehind(a: Bytes, b: Bytes, k: nat)
    requires k < |a + b|
    ensures (a + b)[..k] == if k < |a| then a[..k] else a + b[..k - |a|]
  {
  }

  lemma {:induction false} StrCodes(ss: seq<Bytes>)
    requires forall s | s in ss :: Fits(s)
    ensures Codes(Str, ReadStr, ss, 0)
  {
    forall s, r | s in ss ensures ReadStr(Str(s) + r) == Parsed(s, r) { StrRoundTrip(s, r); }
    forall s, j | s in ss && 0 <= j < |Str(s)| ensures ReadStr(Str(s)[..j]) == Cut(|Str(s)| - j, 0) {
      StrCut(s, j);
    }
  }

  lemma {:induction false} StrListCut(ss: seq<Bytes>, k: nat)
    requires Fits(ss) && (forall s | s in ss :: Fits(s)) && k < |List(Str, ss)|
    ensures ReadList(ReadStr, List(Str, ss)[..k]).Panic?
  {
    StrCodes(ss);
    ListCut(Str, ReadStr, ss, k, 0);
  }

  lemma {:induction false} StrsCut(ss: seq<Bytes>, k: nat)
    requires (forall s | s in ss :: Fits(s)) && k < |All(Str, ss)|
    ensures ReadAll(ReadStr, |ss|, All(Str, ss)[..k]).Panic?
  {
    StrCodes(ss);
    AllCut(Str, ReadStr, ss, k, 0);
  }

  /** The end of an event, and of a session, cut short. */
  lemma {:induction false} ParamsThenTimeCut(e: Event, k: nat)
    requires EventFits(e) && k < |List(Str, e.params)| + 8
    ensures var n := |List(Str, e.params)|;
            var b := (List(Str, e.params) + Fixed64(Unsigned(e.time)))[..k];
            if k < n then ReadList(ReadStr, b).Panic?
            else ReadList(ReadStr, b).Parsed? && ReadInt64(ReadList(ReadStr, b).rest) == Cut(n + 8 - k, LOOSE)
  {
    var p, f := List(Str, e.params), Fixed64(Unsigned(e.time));
    CutBehind(p, f, k);
    if k < |p| {
      StrListCut(e.params, k);
    } else {
      forall s, r | s in e.params ensures ReadStr(Str(s) + r) == Parsed(s, r) { StrRoundTrip(s, r); }
      ListRoundTrip(Str, ReadStr, e.params, f[..k - |p|]);
      Int64Cut(e.time, k - |p|);
    }
  }

  lemma {:induction false} KeyThenTimeCut(key: Bytes, time: int64, k: nat)
    requires Fits(key) && k < |Str(key)| + 8
    ensures var n := |Str(key)|;
            var b := (Str(key) + Fixed64(Unsigned(time)))[..k];
            if k < n then ReadStr(b).Panic?
            else ReadStr(b).Parsed? && ReadInt64(ReadStr(b).rest) == Cut(n + 8 - k, LOOSE)
  {
    var f := Fixed64(Unsigned(time));
    CutBehind(Str(key), f, k);
    if k < |Str(key)| {
      StrCut(key, k);
    } else {
      StrRoundTrip(key, f[..k - |Str(key)|]);
      Int64Cut(time, k - |Str(key)|);
    }
  }

  /** An event that lacks its last bytes is read past the end if one to seven are missing, and panics if more
      are. */
  lemma {:induction false} EventCut(e: Event, k: nat)
    requires EventFits(e) && k < |EventBytes(e)|
    ensures ReadEvent(EventBytes(e)[..k]) == Cut(|EventBytes(e)| - k, LOOSE)
  {
    var t, b := Str(e.typ), List(Str, e.params) + Fixed64(Unsigned(e.time));
    assert EventBytes(e) == t + b;
    CutBehind(t, b, k);
    if k < |t| {
      StrCut(e.typ, k);
    } else {
      StrRoundTrip(e.typ, b[..k - |t|]);
      ParamsThenTimeCut(e, k - |t|);
    }
  }

  lemma {:induction false} EventsCut(es: seq<Event>, k: nat)
    requires Fits(es) && (forall e | e in es :: EventFits(e)) && k < |List(EventBytes, es)|
    ensures ReadList(ReadEvent, List(EventBytes, es)[..k])
         == if es == [] then Panic else Cut(|List(EventBytes, es)| - k, LOOSE)
  {
    forall e, r | e in es ensures ReadEvent(EventBytes(e) + r) == Parsed(e, r) { EventRoundTrip(e, r); }
    forall e, j | e in es && 0 <= j < |EventBytes(e)|
      ensures ReadEvent(EventBytes(e)[..j]) == Cut(|EventBytes(e)| - j, LOOSE)
    {
      EventCut(e, j);
    }
    ListCut(EventBytes, ReadEvent, es, k, LOOSE);
  }

  lemma {:induction false} TimeThenEventsCut(m: Message, k: nat)
    requires MessageFits(m) && k < 8 + |List(EventBytes, m.events)|
    ensures var n := 8 + |List(EventBytes, m.events)|;
            var b := (Fixed64(Unsigned(m.time)) + List(EventBytes, m.events))[..k];
            if k < 8 then Followed(ReadInt64(b)).Panic? && (m.events != [] ==> n - k > LOOSE)
            else ReadInt64(b).Parsed? && ReadList(ReadEvent, ReadInt64(b).rest)
                                         == if m.events == [] then Panic else Cut(n - k, LOOSE)
  {
    var f, es := Fixed64(Unsigned(m.time)), List(EventBytes, m.events);
    CutBehind(f, es, k);
    if k < 8 {
      Int64Cut(m.time, k);
      if m.events != [] { assert |All(EventBytes, m.events)| >= 8; }
    } else {
      Int64RoundTrip(m.time, es[..k - 8]);
      EventsCut(m.events, k - 8);
    }
  }

  lemma {:induction false} TextThen(m: Message, b: Bytes)
    requires MessageFits(m)
    ensures Followed(ReadInt64(b)).Panic? ==> ReadMessage(All(Str, MessageText(m)) + b).Panic?
    ensures ReadInt64(b).Parsed? && ReadList(ReadEvent, ReadInt64(b).rest).IsFailure() ==>
              ReadMessage(All(Str, MessageText(m)) + b) == ReadList(ReadEvent, ReadInt64(b).rest).PropagateFailure()
  {
    StrsRoundTrip(MessageText(m), b);
  }

  /** A message that lacks its last bytes panics, unless it has events and lacks at most seven: then the time
      of the last event is read past the end. */
  lemma {:induction false} MessageCut(m: Message, k: nat)
    requires MessageFits(m) && k < |MessageBytes(m)|
    ensures ReadMessage(MessageBytes(m)[..k])
         == if m.events == [] then Panic else Cut(|MessageBytes(m)| - k, LOOSE)
  {
    var t, b := All(Str, MessageText(m)), Fixed64(Unsigned(m.time)) + List(EventBytes, m.events);
    assert MessageBytes(m) == t + b;
    CutBehind(t, b, k);
    if k < |t| {
      StrsCut(MessageText(m), k);
      TimeThenEventsCut(m, 0);
    } else {
      TextThen(m, b[..k - |t|]);
      TimeThenEventsCut(m, k - |t|);
    }
  }

  /** A session that lacks its last bytes is read past the end if one to seven are missing, and panics if more
      are. */
  lemma {:induction false} SessionCut(s: Session, k: nat)
    requires Fits(s.key) && k < |SessionBytes(s)|
    ensures ReadSession(SessionBytes(s)[..k]) == Cut(|SessionBytes(s)| - k, LOOSE)
  {
    var u, b := Fixed64(s.userID), Str(s.key) + Fixed64(Unsigned(s.createdAt));
    assert SessionBytes(s) == u + b;
    CutBehind(u, b, k);
    if k >= 8 {
      Fixed64RoundTrip(s.userID, b[..k - 8]);
      KeyThenTimeCut(s.key, s.createdAt, k - 8);
    }
  }

  /** A user that lacks no more than its address still reads, with the part of the address that is there. */
  lemma {:induction false} UserCut(u: User, k: nat)
    requires Fits(u.username) && Fits(u.lastIP) && k < |UserBytes(u)|
    ensures ReadUserHead(UserBytes(u)[..k])
         == if |UserBytes(u)| - k <= |u.lastIP|
            then Parsed((u.(lastIP := []), |u.lastIP|), u.lastIP[..|u.lastIP| - (|UserBytes(u)| - k)]) else Panic
  {
    var f, n, b := Fixed64(u.id), Str(u.username), SettingsBytes(u.settings) + Str(u.lastIP);
    assert UserBytes(u) == f + (n + b) == (f + n) + b;
    CutBehind(f + n, b, k);
    if k < 8 + |n| {
      CutBehind(f, n, k);
      NameCut(u, k);
    } else {
      var j := k - 8 - |n|;
      assert UserBytes(u)[..k] == f + (n + b[..j]);
      NameThen(u, b[..j]);
      UserTailCut(u, j);
    }
  }

  lemma {:induction false} NameCut(u: User, k: nat)
    requires Fits(u.username) && k < 8 + |Str(u.username)|
    ensures ReadUserHead((Fixed64(u.id) + Str(u.username))[..k]).Panic?
  {
    var f, n := Fixed64(u.id), Str(u.username);
    CutBehind(f, n, k);
    if k >= 8 {
      Fixed64RoundTrip(u.id, n[..k - 8]);
      StrCut(u.username, k - 8);
    }
  }

  lemma {:induction false} NameThen(u: User, b: Bytes)
    requires Fits(u.username)
    ensures var c := ReadSettings(b);
            ReadUserHead(Fixed64(u.id) + (Str(u.username) + b))
            == if c.Panic? || !ReadUvarint(c.rest).Parsed? then Panic
               else Parsed((User(u.id, u.username, c.value, []), ReadUvarint(c.rest).value), ReadUvarint(c.rest).rest)
  {
    Fixed64RoundTrip(u.id, Str(u.username) + b);
    StrRoundTrip(u.username, b);
    if ReadSettings(b).Parsed? { UvarintStaysInside(ReadSettings(b).rest); }
  }

  lemma {:induction false} UserTailCut(u: User, k: nat)
    requires Fits(u.lastIP) && k < |SettingsBytes(u.settings) + Str(u.lastIP)|
    ensures var b := (SettingsBytes(u.settings) + Str(u.lastIP))[..k];
            var missing := |SettingsBytes(u.settings) + Str(u.lastIP)| - k;
            if missing <= |u.lastIP|
            then ReadSettings(b).Parsed? && ReadSettings(b).value == u.settings
                 && ReadUvarint(ReadSettings(b).rest) == Parsed(|u.lastIP|, u.lastIP[..|u.lastIP| - missing])
            else ReadSettings(b).Panic? || ReadUvarint(ReadSettings(b).rest).Panic?
  {
    var c, l := SettingsBytes(u.settings), Uvarint(|u.lastIP|);
    var b3 := l + u.lastIP;
    CutBehind(c, b3, k);
    if k >= |c| {
      var j := k - |c|;
      SettingsRoundTrip(u.settings, b3[..j]);
      CutBehind(l, u.lastIP, j);
      if j < |l| {
        UvarintCut(|u.lastIP|, j);
      } else {
        UvarintRoundTrip(|u.lastIP|, u.lastIP[..j - |l|]);
      }
    }
  }

  /** Networks and channels end in strings, so every one that is cut short panics. */
  lemma {:induction false} ChannelCut(c: Channel, k: nat)
    requires Fits(c.network) && Fits(c.name) && k < |ChannelBytes(c)|
    ensures ReadChannel(ChannelBytes(c)[..k]).Panic?
  {
    var a, b := Str(c.network), Str(c.name);
    CutBehind(a, b, k);
    if k < |a| {
      StrCut(c.network, k);
    } else {
      StrRoundTrip(c.network, b[..k - |a|]);
      StrCut(c.name, k - |a|);
    }
  }

  lemma {:induction false} FlagThenStringsCut(n: Network, k: nat)
    requires NetworkFits(n) && k < 1 + |All(Str, NetworkLogin(n))|
    ensures var b := (Bool(n.tls) + All(Str, NetworkLogin(n)))[..k];
            b == [] || ReadAll(ReadStr, 6, b[1..]).Panic?
  {
    var q := All(Str, NetworkLogin(n));
    CutBehind(Bool(n.tls), q, k);
    if k > 0 {
      StrsCut(NetworkLogin(n), k - 1);
      assert (Bool(n.tls) + q[..k - 1])[1..] == q[..k - 1];
    }
  }

  lemma {:induction false} NetworkCut(n: Network, k: nat)
    requires NetworkFits(n) && k < |NetworkBytes(n)|
    ensures ReadNetwork(NetworkBytes(n)[..k]).Panic?
  {
    var a, b := All(Str, NetworkAddress(n)), Bool(n.tls) + All(Str, NetworkLogin(n));
    assert NetworkBytes(n) == a + b;
    CutBehind(a, b, k);
    if k < |a| {
      StrsCut(NetworkAddress(n), k);
    } else {
      StrsRoundTrip(NetworkAddress(n), b[..k - |a|]);
      FlagThenStringsCut(n, k - |a|);
    }
  }
}
