/** Writing and reading end to end: what `Marshal` leaves in its buffer, followed by anything, is restored by
    `Unmarshal` into any target, and exactly `Size` bytes are consumed. */
module Codec {
  import opened Wire
  import opened Records
  import Marshal
  import Unmarshal

  method MessageSurvives(m: Message, rest: Bytes, target: Unmarshal.MessageTarget) returns (n: nat)
    requires MessageFits(m)
    modifies target
    ensures target.View() == m && n == |MessageBytes(m)|
  {
    var none := new byte[0];
    var out, at, len := Marshal.MarshalMessage(m, none, 0);
    MessageRoundTrip(m, rest);
    Written(none, out, at, len, MessageBytes(m));
    var ok;
    ok, n := target.Unmarshal(out[at..at + len] + rest);
  }

  method UserSurvives(u: User, rest: Bytes, target: Unmarshal.UserTarget) returns (n: nat)
    requires Fits(u.username) && Fits(u.lastIP)
    modifies target
    ensures target.View() == u && n == |UserBytes(u)|
  {
    var none := new byte[0];
    var out, at, len := Marshal.MarshalUser(u, none, 0);
    Unmarshal.UserRoundTrip(u, rest, target.lastIP);
    Written(none, out, at, len, UserBytes(u));
    var ok;
    ok, n := target.Unmarshal(out[at..at + len] + rest);
  }

  method NetworkSurvives(w: Network, rest: Bytes) returns (d: Network, n: nat)
    requires NetworkFits(w)
    ensures d == w && n == |NetworkBytes(w)|
  {
    var none := new byte[0];
    var out, at, len := Marshal.MarshalNetwork(w, none, 0);
    NetworkRoundTrip(w, rest);
    Written(none, out, at, len, NetworkBytes(w));
    var ok;
    ok, d, n := Unmarshal.UnmarshalNetwork(out[at..at + len] + rest);
  }

  method ChannelSurvives(c: Channel, rest: Bytes) returns (d: Channel, n: nat)
    requires Fits(c.network) && Fits(c.name)
    ensures d == c && n == |ChannelBytes(c)|
  {
    var none := new byte[0];
    var out, at, len := Marshal.MarshalChannel(c, none, 0);
    ChannelRoundTrip(c, rest);
    Written(none, out, at, len, ChannelBytes(c));
    var ok;
    ok, d, n := Unmarshal.UnmarshalChannel(out[at..at + len] + rest);
  }

  method SessionSurvives(s: Session, rest: Bytes) returns (d: Session, n: nat)
    requires Fits(s.key)
    ensures d == s && n == |SessionBytes(s)|
  {
    var none := new byte[0];
    var out, at, len := Marshal.MarshalSession(s, none, 0);
    SessionRoundTrip(s, rest);
    Written(none, out, at, len, SessionBytes(s));
    var ok;
    ok, d, n := Unmarshal.UnmarshalSession(out[at..at + len] + rest);
  }

  /** What a `Marshal` into no buffer returns is the encoding. */
  lemma Written(none: array<byte>, out: array<byte>, at: nat, n: nat, data: Bytes)
    requires none.Length == 0 && n == |data| && at == 0 && (if n == 0 then out == none else out[..] == data)
    ensures at + n <= out.Length && out[at..at + n] == data
  {
  }
}
