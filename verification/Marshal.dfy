/** `Size` and `Marshal`: records written in place into one pre-sized buffer.  A Go slice
    `buf[off:]` is the pair of an array and an offset, so its capacity is `buf.Length - off`. */
module Marshal {
  import opened Wrappers
  import opened Wire
  import opened Records

  // ---------------------------------------------------------------- in-place writes

  /** `after` is `before` with `data` written at `i` and nothing else changed. */
  ghost predicate Wrote(before: Bytes, after: Bytes, i: nat, data: Bytes) {
    && |after| == |before| && i + |data| <= |before|
    && (forall k :: 0 <= k < |data| ==> after[i + k] == data[k])
    && (forall k :: 0 <= k < i || i + |data| <= k < |before| ==> after[k] == before[k])
  }

  lemma WroteThen(a: Bytes, b: Bytes, c: Bytes, i: nat, x: Bytes, y: Bytes)
    requires Wrote(a, b, i, x) && Wrote(b, c, i + |x|, y)
    ensures Wrote(a, c, i, x + y)
  {
    forall k | 0 <= k < |x + y| ensures c[i + k] == (x + y)[k] {
      if k < |x| { assert b[i + k] == x[k]; } else { assert c[i + |x| + (k - |x|)] == y[k - |x|]; }
    }
  }

  lemma WroteNothing(a: Bytes, i: nat)
    requires i <= |a|
    ensures Wrote(a, a, i, [])
  {
  }

  method PutByte(buf: array<byte>, i: nat, x: byte)
    requires i < buf.Length
    modifies buf
    ensures Wrote(old(buf[..]), buf[..], i, [x])
  {
    buf[i] := x;
  }

  method PutUvarint(buf: array<byte>, start: nat, l: nat) returns (i: nat)
    requires start + |Uvarint(l)| <= buf.Length
    modifies buf
    ensures i == start + |Uvarint(l)|
    ensures Wrote(old(buf[..]), buf[..], start, Uvarint(l))
  {
    var t := l;
    i := start;
    ghost var done: Bytes := [];
    WroteNothing(buf[..], i);
    while t >= 0x80
      invariant done + Uvarint(t) == Uvarint(l) && i == start + |done|
      invariant Wrote(old(buf[..]), buf[..], start, done)
    {
      ghost var mid := buf[..];
      PutByte(buf, i, t % 128 + 0x80);
      WroteThen(old(buf[..]), mid, buf[..], start, done, [t % 128 + 0x80]);
      done := done + [t % 128 + 0x80];
      t := t / 128;
      i := i + 1;
    }
    ghost var mid := buf[..];
    PutByte(buf, i, t);
    WroteThen(old(buf[..]), mid, buf[..], start, done, [t]);
    i := i + 1;
  }

  /** `copy(buf[i:], data)` with enough room. */
  method PutBytes(buf: array<byte>, i: nat, data: Bytes)
    requires i + |data| <= buf.Length
    modifies buf
    ensures Wrote(old(buf[..]), buf[..], i, data)
  {
    forall k | 0 <= k < |data| { buf[i + k] := data[k]; }
  }

  method PutStr(buf: array<byte>, start: nat, s: Bytes) returns (i: nat)
    requires start + |Str(s)| <= buf.Length
    modifies buf
    ensures i == start + |Str(s)|
    ensures Wrote(old(buf[..]), buf[..], start, Str(s))
  {
    i := PutUvarint(buf, start, |s|);
    ghost var mid := buf[..];
    PutBytes(buf, i, s);
    WroteThen(old(buf[..]), mid, buf[..], start, Uvarint(|s|), s);
    i := i + |s|;
  }

  method PutStrs(buf: array<byte>, start: nat, ss: seq<Bytes>) returns (i: nat)
    requires start + |All(Str, ss)| <= buf.Length
    modifies buf
    ensures i == start + |All(Str, ss)|
    ensures Wrote(old(buf[..]), buf[..], start, All(Str, ss))
  {
    i := start;
    WroteNothing(buf[..], i);
    for k := 0 to |ss|
      invariant i == start + |All(Str, ss[..k])|
      invariant Wrote(old(buf[..]), buf[..], start, All(Str, ss[..k]))
    {
      TakeMore(Str, ss, k);
      ghost var mid := buf[..];
      i := PutStr(buf, i, ss[k]);
      WroteThen(old(buf[..]), mid, buf[..], start, All(Str, ss[..k]), Str(ss[k]));
    }
    assert ss[..|ss|] == ss;
  }

  method PutStrList(buf: array<byte>, start: nat, ss: seq<Bytes>) returns (i: nat)
    requires start + |List(Str, ss)| <= buf.Length
    modifies buf
    ensures i == start + |List(Str, ss)|
    ensures Wrote(old(buf[..]), buf[..], start, List(Str, ss))
  {
    i := PutUvarint(buf, start, |ss|);
    ghost var mid := buf[..];
    i := PutStrs(buf, i, ss);
    WroteThen(old(buf[..]), mid, buf[..], start, Uvarint(|ss|), All(Str, ss));
  }

  lemma TakeMore<T>(enc: T -> Bytes, xs: seq<T>, k: nat)
    requires k < |xs|
    ensures All(enc, xs[..k + 1]) == All(enc, xs[..k]) + enc(xs[k])
    ensures |All(enc, xs[..k + 1])| <= |All(enc, xs)|
  {
    assert xs[..k + 1] == xs[..k] + [xs[k]];
    AllSnoc(enc, xs[..k], xs[k]);
    PrefixNoLonger(enc, xs, k + 1);
  }

  lemma {:induction false} PrefixNoLonger<T>(enc: T -> Bytes, xs: seq<T>, k: nat)
    requires k <= |xs|
    ensures |All(enc, xs[..k])| <= |All(enc, xs)|
    decreases |xs| - k
  {
    if k < |xs| {
      assert xs[..k + 1] == xs[..k] + [xs[k]];
      AllSnoc(enc, xs[..k], xs[k]);
      PrefixNoLonger(enc, xs, k + 1);
    } else {
      assert xs[..k] == xs;
    }
  }

  // ---------------------------------------------------------------- sizes

  method SizeUvarint(l: nat) returns (s: nat)
    ensures s == |Uvarint(l)|
  {
    var t := l;
    s := 0;
    while t >= 0x80
      invariant s + |Uvarint(t)| == |Uvarint(l)|
    {
      t := t / 128;
      s := s + 1;
    }
    s := s + 1;
  }

  method SizeStr(b: Bytes) returns (s: nat)
    ensures s == |Str(b)|
  {
    s := SizeUvarint(|b|);
    s := s + |b|;
  }

  method SizeStrs(ss: seq<Bytes>) returns (s: nat)
    ensures s == |All(Str, ss)|
  {
    s := 0;
    for k := 0 to |ss|
      invariant s == |All(Str, ss[..k])|
    {
      TakeMore(Str, ss, k);
      var l := SizeStr(ss[k]);
      s := s + l;
    }
    assert ss[..|ss|] == ss;
  }

  method SizeEvent(e: Event) returns (s: nat)
    ensures s == |EventBytes(e)|
  {
    s := SizeStr(e.typ);
    var l := SizeUvarint(|e.params|);
    var p := SizeStrs(e.params);
    s := s + l + p + 8;
  }

  method SizeMessage(m: Message) returns (s: nat)
    ensures s == |MessageBytes(m)|
  {
    s := SizeStrs(MessageText(m));
    var l := SizeUvarint(|m.events|);
    s := s + l;
    ghost var head := s;
    for k := 0 to |m.events|
      invariant s == head + |All(EventBytes, m.events[..k])|
    {
      TakeMore(EventBytes, m.events, k);
      var n := SizeEvent(m.events[k]);
      s := s + n;
    }
    assert m.events[..|m.events|] == m.events;
    s := s + 8;
  }

  method SizeUser(u: User) returns (s: nat)
    ensures s == |UserBytes(u)|
  {
    var a := SizeStr(u.username);
    var b := SizeStr(u.lastIP);
    s := a + (if u.settings.Some? then 1 else 0) + b + 9;
  }

  method SizeNetwork(n: Network) returns (s: nat)
    ensures s == |NetworkBytes(n)|
  {
    var a := SizeStrs(NetworkAddress(n));
    var b := SizeStrs(NetworkLogin(n));
    s := a + b + 1;
  }

  method SizeChannel(c: Channel) returns (s: nat)
    ensures s == |ChannelBytes(c)|
  {
    var a := SizeStr(c.network);
    var b := SizeStr(c.name);
    s := a + b;
  }

  method SizeSession(d: Session) returns (s: nat)
    ensures s == |SessionBytes(d)|
  {
    s := SizeStr(d.key);
    s := s + 16;
  }

  // ---------------------------------------------------------------- marshalling

  /** Reslice `buf[off:]` when its capacity suffices, otherwise allocate. */
  method Room(buf: array<byte>, off: nat, size: nat) returns (out: array<byte>, at: nat)
    requires off <= buf.Length
    ensures if size <= buf.Length - off then out == buf && at == off
            else fresh(out) && out.Length == size && at == 0
  {
    if buf.Length - off >= size {
      out, at := buf, off;
    } else {
      out, at := new byte[size](_ => 0), 0;
    }
  }

  /** The outcome every `Marshal` promises: `out[at..at + |data|]` holds the encoding, and it is
      the caller's own buffer exactly when that had the room. */
  twostate predicate Marshalled(buf: array<byte>, off: nat, new out: array<byte>, at: nat, n: nat,
                                data: Bytes)
    reads buf, out
  {
    && n == |data|
    && if n <= buf.Length - off
       then out == buf && at == off && Wrote(old(buf[..]), buf[..], off, data)
       else fresh(out) && at == 0 && out[..] == data && buf[..] == old(buf[..])
  }

  method MarshalEvent(e: Event, buf: array<byte>, off: nat)
    returns (out: array<byte>, at: nat, n: nat)
    requires off <= buf.Length
    modifies buf
    ensures Marshalled(buf, off, out, at, n, EventBytes(e))
  {
    var size := SizeEvent(e);
    out, at := Room(buf, off, size);
    ghost var before := out[..];
    ghost var mid := out[..];

    var i := PutStr(out, at, e.typ);
    ghost var done := Str(e.typ);

    mid := out[..];
    i := PutStrList(out, i, e.params);
    WroteThen(before, mid, out[..], at, done, List(Str, e.params));
    done := done + List(Str, e.params);

    mid := out[..];
    PutBytes(out, i, Fixed64(Unsigned(e.time)));
    WroteThen(before, mid, out[..], at, done, Fixed64(Unsigned(e.time)));
    n := i + 8 - at;
  }

  method MarshalMessage(m: Message, buf: array<byte>, off: nat)
    returns (out: array<byte>, at: nat, n: nat)
    requires off <= buf.Length
    modifies buf
    ensures Marshalled(buf, off, out, at, n, MessageBytes(m))
  {
    var size := SizeMessage(m);
    out, at := Room(buf, off, size);
    ghost var before := out[..];
    ghost var mid;

    var i := PutStrs(out, at, MessageText(m));
    ghost var done := All(Str, MessageText(m));

    mid := out[..];
    PutBytes(out, i, Fixed64(Unsigned(m.time)));
    WroteThen(before, mid, out[..], at, done, Fixed64(Unsigned(m.time)));
    done := done + Fixed64(Unsigned(m.time));

    mid := out[..];
    i := MarshalEventList(m.events, out, i + 8);
    i := i - 8;
    WroteThen(before, mid, out[..], at, done, List(EventBytes, m.events));
    n := i + 8 - at;
  }

  method MarshalEventList(events: seq<Event>, out: array<byte>, start: nat) returns (i: nat)
    requires start + |List(EventBytes, events)| <= out.Length
    modifies out
    ensures i == start + |List(EventBytes, events)|
    ensures Wrote(old(out[..]), out[..], start, List(EventBytes, events))
  {
    i := PutUvarint(out, start, |events|);
    ghost var mid := out[..];
    i := MarshalEvents(events, out, i);
    WroteThen(old(out[..]), mid, out[..], start, Uvarint(|events|), All(EventBytes, events));
  }

  /** The event loop of `MarshalMessage`.  The nested `Marshal` of every event gets a tail slice
      with at least its own size left, so it writes into the outer buffer: `inner == out`. */
  method MarshalEvents(events: seq<Event>, out: array<byte>, start: nat) returns (i: nat)
    requires start + |All(EventBytes, events)| <= out.Length
    modifies out
    ensures i == start + |All(EventBytes, events)|
    ensures Wrote(old(out[..]), out[..], start, All(EventBytes, events))
  {
    i := start;
    ghost var was, done := out[..], [];
    WroteNothing(was, i);
    for k := 0 to |events|
      invariant done == All(EventBytes, events[..k]) && i == start + |done|
      invariant Wrote(was, out[..], start, done)
    {
      TakeMore(EventBytes, events, k);
      i := MarshalNext(events[k], out, i, was, start, done);
      done := done + EventBytes(events[k]);
    }
    assert events[..|events|] == events;
  }

  method MarshalNext(e: Event, out: array<byte>, i: nat, ghost was: Bytes, ghost start: nat, ghost done: Bytes)
    returns (next: nat)
    requires i == start + |done| && i + |EventBytes(e)| <= out.Length && Wrote(was, out[..], start, done)
    modifies out
    ensures next == i + |EventBytes(e)| && Wrote(was, out[..], start, done + EventBytes(e))
  {
    ghost var mid := out[..];
    var inner, _, n := MarshalEvent(e, out, i);
    assert inner == out;
    WroteThen(was, mid, out[..], start, done, EventBytes(e));
    next := i + n;
  }

  method MarshalSettings(c: ClientSettings, buf: array<byte>, off: nat)
    returns (out: array<byte>, at: nat, n: nat)
    requires off <= buf.Length
    modifies buf
    ensures Marshalled(buf, off, out, at, n, Bool(c.coloredNicks))
  {
    out, at := Room(buf, off, 1);
    PutByte(out, at, if c.coloredNicks then 1 else 0);
    n := 1;
  }

  /** The presence byte of a user's settings and, when there are any, the settings themselves;
      `k` is the length of the nested encoding. */
  method MarshalOptional(c: Option<ClientSettings>, out: array<byte>, i: nat) returns (k: nat)
    requires i + |SettingsBytes(c)| <= out.Length
    modifies out
    ensures k + 1 == |SettingsBytes(c)|
    ensures Wrote(old(out[..]), out[..], i, SettingsBytes(c))
  {
    k := 0;
    if c.None? {
      PutByte(out, i, 0);
    } else {
      PutByte(out, i, 1);
      ghost var mid := out[..];
      var inner, _, n := MarshalSettings(c.value, out, i + 1);
      assert inner == out;
      WroteThen(old(out[..]), mid, out[..], i, [1], Bool(c.value.coloredNicks));
      k := n;
    }
  }

  method MarshalUser(u: User, buf: array<byte>, off: nat)
    returns (out: array<byte>, at: nat, n: nat)
    requires off <= buf.Length
    modifies buf
    ensures Marshalled(buf, off, out, at, n, UserBytes(u))
  {
    var size := SizeUser(u);
    out, at := Room(buf, off, size);
    ghost var before := out[..];

    PutBytes(out, at, Fixed64(u.id));
    ghost var done := Fixed64(u.id);

    ghost var mid := out[..];
    var i := PutStr(out, at + 8, u.username);
    i := i - 8;
    WroteThen(before, mid, out[..], at, done, Str(u.username));
    done := done + Str(u.username);

    mid := out[..];
    var k := MarshalOptional(u.settings, out, i + 8);
    WroteThen(before, mid, out[..], at, done, SettingsBytes(u.settings));
    done := done + SettingsBytes(u.settings);
    i := i + k;

    mid := out[..];
    i := PutStr(out, i + 9, u.lastIP);
    i := i - 9;
    WroteThen(before, mid, out[..], at, done, Str(u.lastIP));
    n := i + 9 - at;
  }

  method MarshalNetwork(d: Network, buf: array<byte>, off: nat)
    returns (out: array<byte>, at: nat, n: nat)
    requires off <= buf.Length
    modifies buf
    ensures Marshalled(buf, off, out, at, n, NetworkBytes(d))
  {
    var size := SizeNetwork(d);
    out, at := Room(buf, off, size);
    ghost var before := out[..];

    var i := PutStrs(out, at, NetworkAddress(d));
    ghost var done := All(Str, NetworkAddress(d));

    ghost var mid := out[..];
    PutByte(out, i, if d.tls then 1 else 0);
    WroteThen(before, mid, out[..], at, done, Bool(d.tls));
    done := done + Bool(d.tls);

    mid := out[..];
    i := PutStrs(out, i + 1, NetworkLogin(d));
    i := i - 1;
    WroteThen(before, mid, out[..], at, done, All(Str, NetworkLogin(d)));
    n := i + 1 - at;
  }

  method MarshalChannel(c: Channel, buf: array<byte>, off: nat)
    returns (out: array<byte>, at: nat, n: nat)
    requires off <= buf.Length
    modifies buf
    ensures Marshalled(buf, off, out, at, n, ChannelBytes(c))
  {
    var size := SizeChannel(c);
    out, at := Room(buf, off, size);
    ghost var before := out[..];
    var i := PutStr(out, at, c.network);
    ghost var mid := out[..];
    i := PutStr(out, i, c.name);
    WroteThen(before, mid, out[..], at, Str(c.network), Str(c.name));
    n := i - at;
  }

  method MarshalSession(s: Session, buf: array<byte>, off: nat)
    returns (out: array<byte>, at: nat, n: nat)
    requires off <= buf.Length
    modifies buf
    ensures Marshalled(buf, off, out, at, n, SessionBytes(s))
  {
    var size := SizeSession(s);
    out, at := Room(buf, off, size);
    ghost var before := out[..];

    PutBytes(out, at, Fixed64(s.userID));
    ghost var done := Fixed64(s.userID);

    ghost var mid := out[..];
    var i := PutStr(out, at + 8, s.key);
    i := i - 8;
    WroteThen(before, mid, out[..], at, done, Str(s.key));
    done := done + Str(s.key);

    mid := out[..];
    PutBytes(out, i + 8, Fixed64(Unsigned(s.createdAt)));
    WroteThen(before, mid, out[..], at, done, Fixed64(Unsigned(s.createdAt)));
    n := i + 16 - at;
  }
}
