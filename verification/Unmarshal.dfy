/** `Unmarshal`: fields of a target are overwritten from a buffer, reusing whatever slices the
    target already has.  A run-time panic ends the method with `ok == false`; a count beyond the buffer means
    that memory behind it was read. */
module Unmarshal {
  import opened Wrappers
  import opened Wire
  import opened Records

  /** A Go slice: `len` live elements in a backing array of capacity `|backing|`. */
  datatype Slice<T> = Slice(backing: seq<T>, len: nat) {
    ghost predicate Valid() { len <= |backing| }
    function View(): seq<T> { if len <= |backing| then backing[..len] else backing }
    /** Reslice within the capacity, otherwise allocate zero values. */
    function Resize(n: nat, zero: T): (r: Slice<T>)
      ensures r.Valid() && r.len == n
    {
      if |backing| >= n then Slice(backing, n) else Slice(seq(n, _ => zero), n)
    }
  }

  // ---------------------------------------------------------------- primitive reads

  function Tail(buf: Bytes, i: nat): Bytes { if i <= |buf| then buf[i..] else [] }

  /** What a reading method promises: it panics, reads past the end, or gives the value and stops behind it,
      each exactly when the specification says so. */
  ghost predicate Got<T>(r: Parsed<T>, buf: Bytes, ok: bool, v: T, i: nat) {
    match r
    case Panic => !ok
    case Overread(missing) => ok && missing > 0 && i == |buf| + missing
    case Parsed(x, rest) => ok && x == v && i <= |buf| && rest == buf[i..]
  }

  method GetUvarint(buf: Bytes, start: nat) returns (ok: bool, t: nat, i: nat)
    ensures !ReadUvarint(Tail(buf, start)).Overread?
    ensures Got(ReadUvarint(Tail(buf, start)), buf, ok, t, i)
  {
    UvarintStaysInside(Tail(buf, start));
    ok, t, i := false, 0, start;
    if i >= |buf| { return; }
    var shift: nat := 7;
    t := buf[i] % 128;
    while buf[i] >= 128
      invariant start <= i < |buf|
      invariant ReadUvarint(buf[start..]) == ReadMore(buf[i..], t, shift)
      decreases |buf| - i
    {
      if i + 1 >= |buf| { return; }
      assert buf[i..][1..] == buf[i + 1..];
      ReadMoreStep(buf[i..], buf[i + 1..], buf[i + 1] % 128, t, shift);
      i := i + 1;
      t := Or(t, Shl64(buf[i] % 128, shift));
      shift := (shift + 7) % 256;
    }
    assert buf[i..][1..] == buf[i + 1..];
    i := i + 1;
    ok := true;
  }

  method GetStr(buf: Bytes, start: nat) returns (ok: bool, s: Bytes, i: nat)
    ensures !ReadStr(Tail(buf, start)).Overread?
    ensures Got(ReadStr(Tail(buf, start)), buf, ok, s, i)
  {
    s := [];
    var l;
    ok, l, i := GetUvarint(buf, start);
    if !ok { return; }
    if l > |buf| - i { ok := false; return; }
    s := buf[i..i + l];
    assert buf[i..][..l] == s && buf[i..][l..] == buf[i + l..];
    i := i + l;
  }

  /** Only the first byte is checked to be there; what lies behind the buffer can be anything. */
  method GetFixed64(buf: Bytes, start: nat) returns (ok: bool, v: uint64, i: nat)
    ensures Got(ReadFixed64(Tail(buf, start)), buf, ok, v, i)
  {
    ok, v, i := start < |buf|, *, start + 8;
    if i <= |buf| {
      v := ReadFixed64(buf[start..]).value;
    }
  }

  method GetInt64(buf: Bytes, start: nat) returns (ok: bool, v: int64, i: nat)
    ensures Got(ReadInt64(Tail(buf, start)), buf, ok, v, i)
  {
    var bits;
    ok, bits, i := GetFixed64(buf, start);
    v := Signed(bits);
  }

  // ---------------------------------------------------------------- lists into reused slices

  /** The list read so far in front of the outcome of reading the rest. */
  function Onto<T>(xs: seq<T>, r: Parsed<seq<T>>): Parsed<seq<T>> {
    match r
    case Panic => Panic
    case Overread(missing) => Overread(missing)
    case Parsed(ys, rest) => Parsed(xs + ys, rest)
  }

  lemma OntoNothing<T>(r: Parsed<seq<T>>)
    ensures Onto([], r) == r
  {
    if r.Parsed? { assert [] + r.value == r.value; }
  }

  lemma OntoStep<T>(read: Bytes -> Parsed<T>, xs: seq<T>, n: nat, b: Bytes)
    requires n > 0
    ensures Onto(xs, ReadAll(read, n, b))
         == match read(b)
            case Panic => Panic
            case Overread(missing) => if n == 1 then Overread(missing) else Panic
            case Parsed(x, rest) => Onto(xs + [x], ReadAll(read, n - 1, rest))
  {
    if read(b).Parsed? {
      var x, r := read(b).value, ReadAll(read, n - 1, read(b).rest);
      if r.Parsed? { assert xs + ([x] + r.value) == (xs + [x]) + r.value; }
    }
  }

  function Stored<T>(backing: seq<T>, k: nat, x: T): (r: seq<T>)
    requires k < |backing|
    ensures |r| == |backing| && r[..k + 1] == backing[..k] + [x]
  {
    backing[k := x]
  }

  method GetStrs(buf: Bytes, start: nat, n: nat, target: Slice<Bytes>)
    returns (ok: bool, d: Slice<Bytes>, i: nat)
    requires start <= |buf|
    ensures d.Valid() && d.len == n && !ReadAll(ReadStr, n, buf[start..]).Overread?
    ensures Got(ReadAll(ReadStr, n, buf[start..]), buf, ok, d.View(), i)
  {
    StrsStayInside(n, buf[start..]);
    ok, d, i := true, target.Resize(n, []), start;
    ghost var whole := ReadAll(ReadStr, n, buf[start..]);
    OntoNothing(whole);
    assert d.backing[..0] == [];
    for k := 0 to n
      invariant d.Valid() && d.len == n && i <= |buf|
      invariant whole == Onto(d.backing[..k], ReadAll(ReadStr, n - k, buf[i..]))
    {
      OntoStep(ReadStr, d.backing[..k], n - k, buf[i..]);
      var s, next;
      ok, s, next := GetStr(buf, i);
      if !ok { return; }
      d := d.(backing := Stored(d.backing, k, s));
      i := next;
    }
    assert d.backing[..n] + [] == d.View();
  }

  datatype EventTarget = EventTarget(typ: Bytes, params: Slice<Bytes>, time: int64) {
    function View(): Event { Event(typ, params.View(), time) }
  }

  const ZeroEvent := EventTarget([], Slice([], 0), 0)

  method UnmarshalEvent(target: EventTarget, buf: Bytes, start: nat)
    returns (ok: bool, d: EventTarget, i: nat)
    requires start <= |buf|
    ensures Got(ReadEvent(buf[start..]), buf, ok, d.View(), i)
  {
    d, i := ZeroEvent, start;
    var typ, l, params, time;
    ok, typ, i := GetStr(buf, i);
    if !ok { return; }
    ok, l, i := GetUvarint(buf, i);
    if !ok { return; }
    ok, params, i := GetStrs(buf, i, l, target.params);
    if !ok { return; }
    ok, time, i := GetInt64(buf, i);
    d := EventTarget(typ, params, time);
  }

  function Views(es: seq<EventTarget>): (r: seq<Event>)
    ensures |r| == |es| && forall i :: 0 <= i < |es| ==> r[i] == es[i].View()
  {
    seq(|es|, i requires 0 <= i < |es| => es[i].View())
  }

  lemma {:induction false} ViewsSnoc(es: seq<EventTarget>, e: EventTarget)
    ensures Views(es + [e]) == Views(es) + [e.View()]
  {
  }

  /** `left` events are still to be read, at `i`, behind `es`. */
  ghost predicate Reading(whole: Parsed<seq<Event>>, es: seq<Event>, buf: Bytes, i: nat, left: nat) {
    whole == if i <= |buf| then Onto(es, ReadAll(ReadEvent, left, buf[i..]))
             else if left == 0 then Overread(i - |buf|) else Panic
  }

  lemma {:induction false} ReadingStep(whole: Parsed<seq<Event>>, es: seq<Event>, buf: Bytes, i: nat, left: nat,
                                       ok: bool, e: Event, next: nat)
    requires Reading(whole, es, buf, i, left) && left > 0 && i <= |buf|
    requires Got(ReadEvent(buf[i..]), buf, ok, e, next)
    ensures if ok then Reading(whole, es + [e], buf, next, left - 1) else whole.Panic?
  {
    OntoStep(ReadEvent, es, left, buf[i..]);
  }

  lemma {:induction false} ReadingEnds(whole: Parsed<seq<Event>>, es: seq<Event>, buf: Bytes, i: nat)
    requires Reading(whole, es, buf, i, 0)
    ensures Got(whole, buf, true, es, i)
  {
    assert es + [] == es;
  }

  /** Every round takes the rest of the buffer, which panics behind an event that was read past the end. */
  method NextEvent(ghost whole: Parsed<seq<Event>>, ghost es: seq<Event>, buf: Bytes, i: nat, ghost left: nat,
                   slot: EventTarget)
    returns (ok: bool, e: EventTarget, next: nat)
    requires Reading(whole, es, buf, i, left) && left > 0
    ensures if ok then Reading(whole, es + [e.View()], buf, next, left - 1) else whole.Panic?
  {
    ok, e, next := false, slot, i;
    if i <= |buf| {
      ok, e, next := UnmarshalEvent(slot, buf, i);
      ReadingStep(whole, es, buf, i, left, ok, e.View(), next);
    }
  }

  method FillEvents(ghost whole: Parsed<seq<Event>>, buf: Bytes, start: nat, slots: Slice<EventTarget>)
    returns (ok: bool, d: Slice<EventTarget>, i: nat)
    requires slots.Valid() && Reading(whole, [], buf, start, slots.len)
    ensures Got(whole, buf, ok, Views(d.View()), i)
  {
    ok, d, i := true, slots, start;
    ghost var es: seq<Event> := [];
    for k := 0 to d.len
      invariant d.Valid() && d.len == slots.len && es == Views(d.backing[..k])
      invariant Reading(whole, es, buf, i, d.len - k)
    {
      var e;
      ok, e, i := NextEvent(whole, es, buf, i, d.len - k, d.backing[k]);
      if !ok { return; }
      ViewsSnoc(d.backing[..k], e);
      d, es := d.(backing := Stored(d.backing, k, e)), es + [e.View()];
    }
    ReadingEnds(whole, es, buf, i);
    ok := true;
  }

  method GetEvents(buf: Bytes, start: nat, n: nat, target: Slice<EventTarget>)
    returns (ok: bool, d: Slice<EventTarget>, i: nat)
    requires start <= |buf|
    ensures Got(ReadAll(ReadEvent, n, buf[start..]), buf, ok, Views(d.View()), i)
  {
    ghost var whole := ReadAll(ReadEvent, n, buf[start..]);
    OntoNothing(whole);
    ok, d, i := FillEvents(whole, buf, start, target.Resize(n, ZeroEvent));
  }

  // ---------------------------------------------------------------- records

  class MessageTarget {
    var id: Bytes
    var from: Bytes
    var content: Bytes
    var time: int64
    var events: Slice<EventTarget>

    constructor () {
      id, from, content, time, events := [], [], [], 0, Slice([], 0);
    }

    function View(): Message
      reads this
    {
      Message(id, from, content, time, Views(events.View()))
    }

    /** The outcome is a function of `buf` alone: nothing the target held before survives. */
    method Unmarshal(buf: Bytes) returns (ok: bool, n: nat)
      modifies this
      ensures Got(ReadMessage(buf), buf, ok, View(), n)
    {
      n := 0;
      assert buf[0..] == buf;
      var l, i, text;
      ok, text, i := GetStrs(buf, 0, 3, Slice([], 0));
      if !ok { return; }
      id, from, content := text.backing[0], text.backing[1], text.backing[2];
      var t;
      ok, t, i := GetInt64(buf, i);
      if !ok { return; }
      time := t;
      ok, l, i := GetUvarint(buf, i);
      if !ok { return; }
      var es;
      ok, es, i := GetEvents(buf, i, l, events);
      events := es;
      n := i;
    }
  }

  method GetSettings(buf: Bytes, start: nat)
    returns (ok: bool, c: Option<ClientSettings>, i: nat)
    requires start <= |buf|
    ensures Got(ReadSettings(buf[start..]), buf, ok, c, i)
  {
    c, i := None, start;
    ok := i < |buf| && (buf[i] != 1 || i + 1 < |buf|);
    if !ok { return; }
    assert buf[i..][1..] == buf[i + 1..];
    if buf[i] == 1 {
      assert buf[i + 1..][1..] == buf[i + 2..];
      c := Some(ClientSettings(buf[i + 1] == 1));
      i := i + 1;
    }
    i := i + 1;
  }

  method GetAddress(target: Slice<byte>, l: nat, src: Bytes) returns (d: Slice<byte>)
    ensures d.View() == CopyOver(target.Resize(l, 0).View(), src)
  {
    d := target.Resize(l, 0);
    d := Slice(CopyOver(d.View(), src) + d.backing[l..], l);
  }

  class UserTarget {
    var id: uint64
    var username: Bytes
    var settings: Option<ClientSettings>
    var lastIP: Slice<byte>

    constructor () {
      id, username, settings, lastIP := 0, [], None, Slice([], 0);
    }

    function View(): User
      reads this
    {
      User(id, username, settings, lastIP.View())
    }

    /** The address is copied without a bounds check, so bytes missing from a truncated buffer
        are left as the reused slice had them; `OldAddressShows` says when. */
    method Unmarshal(buf: Bytes) returns (ok: bool, n: nat)
      modifies this
      ensures !ReadUserHead(buf).Overread?
      ensures ok <==> ReadUserHead(buf).Parsed? && ReadUserHead(buf).value.1 < TWO_63
      ensures ok ==>
        var ((u, l), rest) := ReadUserHead(buf).Extract();
        && n == |buf| - |rest| + l
        && View() == u.(lastIP := CopyOver(old(lastIP).Resize(l, 0).View(), rest))
    {
      n := 0;
      assert buf[0..] == buf;
      UserHeadStaysInside(buf);
      var i, l, name, c, userID;
      ok, userID, i := GetFixed64(buf, 0);
      if !ok { return; }
      id := userID;
      ok, name, i := GetStr(buf, i);
      if !ok { return; }
      username := name;
      ok, c, i := GetSettings(buf, i);
      if !ok { return; }
      settings := c;
      ok, l, i := GetUvarint(buf, i);
      if !ok { return; }
      ok := l < TWO_63;
      if !ok { return; }
      lastIP := GetAddress(lastIP, l, buf[i..]);
      n := i + l;
    }
  }

  /** Every user record is restored by the bytes `Marshal` wrote for it, whatever follows them and
      whatever address slice the target had. */
  lemma UserRoundTrip(u: User, rest: Bytes, was: Slice<byte>)
    requires Fits(u.username) && Fits(u.lastIP)
    ensures var r := ReadUserHead(UserBytes(u) + rest);
            && r.Parsed? && r.value.1 < TWO_63
            && |UserBytes(u) + rest| - |r.rest| + r.value.1 == |UserBytes(u)|
            && r.value.0.(lastIP := CopyOver(was.Resize(r.value.1, 0).View(), r.rest)) == u
  {
    UserHeadRoundTrip(u, rest);
  }

  /** The address that is read depends on what the target held exactly when bytes of it are missing. */
  lemma {:induction false} OldAddressShows(l: nat, rest: Bytes)
    ensures (forall was: Slice<byte>, other: Slice<byte> ::
               CopyOver(was.Resize(l, 0).View(), rest) == CopyOver(other.Resize(l, 0).View(), rest))
       <==> l <= |rest|
  {
    var zeros, ones := Slice(seq(l, _ => 0), l), Slice(seq(l, _ => 1), l);
    if l > |rest| {
      var a := CopyOver(zeros.Resize(l, 0).View(), rest);
      var b := CopyOver(ones.Resize(l, 0).View(), rest);
      assert a[|rest|] == 0 && b[|rest|] == 1;
    }
  }

  method UnmarshalNetwork(buf: Bytes) returns (ok: bool, d: Network, n: nat)
    ensures Got(ReadNetwork(buf), buf, ok, d, n)
  {
    d, n := Network([], [], [], false, [], [], [], [], [], []), 0;
    assert buf[0..] == buf;
    var p, q, i;
    ok, p, i := GetStrs(buf, 0, 3, Slice([], 0));
    if !ok { return; }
    ok := i < |buf|;
    if !ok { return; }
    var tls := buf[i] == 1;
    assert buf[i..][1..] == buf[i + 1..];
    ok, q, i := GetStrs(buf, i + 1, 6, Slice([], 0));
    if !ok { return; }
    var a, b := p.View(), q.View();
    d, n := Network(a[0], a[1], a[2], tls, b[0], b[1], b[2], b[3], b[4], b[5]), i;
  }

  method UnmarshalChannel(buf: Bytes) returns (ok: bool, d: Channel, n: nat)
    ensures Got(ReadChannel(buf), buf, ok, d, n)
  {
    d := Channel([], []);
    assert buf[0..] == buf;
    var network, name;
    ok, network, n := GetStr(buf, 0);
    if !ok { return; }
    ok, name, n := GetStr(buf, n);
    d := Channel(network, name);
  }

  method UnmarshalSession(buf: Bytes) returns (ok: bool, d: Session, n: nat)
    ensures Got(ReadSession(buf), buf, ok, d, n)
  {
    d := Session(0, [], 0);
    assert buf[0..] == buf;
    var userID, key, createdAt;
    ok, userID, n := GetFixed64(buf, 0);
    if !ok { return; }
    ok, key, n := GetStr(buf, n);
    if !ok { return; }
    ok, createdAt, n := GetInt64(buf, n);
    d := Session(userID, key, createdAt);
  }
}
