/** What the lines of a capability negotiation do, told from the lines themselves: which capabilities are
    requested and enabled after any run, and what each line makes the client write. */
module CapLines {
  import opened Wrappers
  import opened Text
  import opened Negotiation

  /** A CAP line with a given subcommand that names a capability. */
  predicate Says(e: Event, sub: string, c: string) {
    e.Cap? && |e.params| >= 3 && e.params[1] == sub && c in ParsedCaps(e.params[|e.params| - 1])
  }

  /** The values that the line gives for it. */
  function ValuesIn(e: Event, c: string): Option<seq<string>>
    requires e.Cap? && e.params != [] && c in ParsedCaps(e.params[|e.params| - 1])
  {
    ParsedCaps(e.params[|e.params| - 1])[c]
  }

  /** The line offers a capability that is wanted, and, for NEW, not enabled already. */
  predicate Offers(s: Neg, e: Event, c: string) {
    c in s.wanted && (Says(e, "LS", c) || (Says(e, "NEW", c) && c !in s.enabled))
  }

  predicate Answers(e: Event, c: string) { Says(e, "ACK", c) || Says(e, "NAK", c) }

  ghost function Lookup(caps: Caps, c: string): Option<Option<seq<string>>> {
    if c in caps then Some(caps[c]) else None
  }

  // ---------------------------------------------------------------- one line

  /** From `s` to `t` a line enables the capability with the requested values, deletes it or leaves it. */
  ghost predicate EnablesAs(s: Neg, e: Event, t: Neg, c: string) {
    Lookup(t.enabled, c) == if Says(e, "ACK", c) && c in s.requested then Lookup(s.requested, c)
                            else if Says(e, "DEL", c) then None
                            else Lookup(s.enabled, c)
  }

  /** A line requests the capability with the values it offers, answers the request or leaves it. */
  ghost predicate RequestsAs(s: Neg, e: Event, t: Neg, c: string) {
    Lookup(t.requested, c) == if Offers(s, e, c) then Some(ValuesIn(e, c))
                              else if Answers(e, c) then None
                              else Lookup(s.requested, c)
  }

  lemma {:induction false} SettleAsks(s: Neg)
    ensures Settle(s).requested == s.requested && Settle(s).enabled == s.enabled
  {
  }

  lemma {:induction false} AnswersChange(s: Neg, caps: Caps)
    ensures OnACK(s, caps).requested == s.requested - caps.Keys && OnNAK(s, caps).requested == s.requested - caps.Keys
    ensures OnACK(s, caps).enabled == s.enabled + Granted(caps, s.requested) && OnNAK(s, caps).enabled == s.enabled
  {
    SettleAsks(s.(enabled := s.enabled + Granted(caps, s.requested), requested := s.requested - caps.Keys));
    SettleAsks(s.(requested := s.requested - caps.Keys));
  }

  lemma {:induction false} OffersChange(s: Neg, caps: Caps, final: bool, c: string)
    ensures OnLS(s, caps, final).enabled == s.enabled && OnNEW(s, caps).enabled == s.enabled
    ensures Lookup(OnLS(s, caps, final).requested, c) == if c in caps && c in s.wanted then Some(caps[c])
                                                         else Lookup(s.requested, c)
    ensures Lookup(OnNEW(s, caps).requested, c) == if c in caps && c in s.wanted && c !in s.enabled then Some(caps[c])
                                                   else Lookup(s.requested, c)
  {
  }

  lemma {:induction false} LSChanges(s: Neg, params: seq<string>, c: string)
    requires |params| >= 3 && params[1] == "LS"
    ensures EnablesAs(s, Cap(params), OnCAP(s, params), c) && RequestsAs(s, Cap(params), OnCAP(s, params), c)
  {
    OffersChange(s, ParsedCaps(params[|params| - 1]), |params| == 3, c);
  }

  lemma {:induction false} NEWChanges(s: Neg, params: seq<string>, c: string)
    requires |params| >= 3 && params[1] == "NEW"
    ensures EnablesAs(s, Cap(params), OnCAP(s, params), c) && RequestsAs(s, Cap(params), OnCAP(s, params), c)
  {
    OffersChange(s, ParsedCaps(params[|params| - 1]), false, c);
  }

  lemma {:induction false} ACKChanges(s: Neg, params: seq<string>, c: string)
    requires |params| >= 3 && params[1] == "ACK"
    ensures EnablesAs(s, Cap(params), OnCAP(s, params), c) && RequestsAs(s, Cap(params), OnCAP(s, params), c)
  {
    AnswersChange(s, ParsedCaps(params[|params| - 1]));
  }

  lemma {:induction false} NAKChanges(s: Neg, params: seq<string>, c: string)
    requires |params| >= 3 && params[1] == "NAK"
    ensures EnablesAs(s, Cap(params), OnCAP(s, params), c) && RequestsAs(s, Cap(params), OnCAP(s, params), c)
  {
    AnswersChange(s, ParsedCaps(params[|params| - 1]));
  }

  lemma {:induction false} OtherChanges(s: Neg, params: seq<string>, c: string)
    requires |params| >= 3 && params[1] !in {"LS", "NEW", "ACK", "NAK"}
    ensures EnablesAs(s, Cap(params), OnCAP(s, params), c) && RequestsAs(s, Cap(params), OnCAP(s, params), c)
  {
  }

  lemma {:induction false} CAPChanges(s: Neg, params: seq<string>, c: string)
    ensures EnablesAs(s, Cap(params), OnCAP(s, params), c) && RequestsAs(s, Cap(params), OnCAP(s, params), c)
  {
    if |params| >= 3 {
      if params[1] == "LS" {
        LSChanges(s, params, c);
      } else if params[1] == "NEW" {
        NEWChanges(s, params, c);
      } else if params[1] == "ACK" {
        ACKChanges(s, params, c);
      } else if params[1] == "NAK" {
        NAKChanges(s, params, c);
      } else {
        OtherChanges(s, params, c);
      }
    }
  }

  lemma {:induction false} StepEnables(s: Neg, e: Event, c: string)
    ensures EnablesAs(s, e, Step(s, e), c)
  {
    if e.Cap? { CAPChanges(s, e.params, c); } else { assert Step(s, e).enabled == s.enabled; }
  }

  lemma {:induction false} StepRequests(s: Neg, e: Event, c: string)
    ensures RequestsAs(s, e, Step(s, e), c)
  {
    if e.Cap? { CAPChanges(s, e.params, c); } else { assert Step(s, e).requested == s.requested; }
  }

  /** A NAK only refuses. */
  lemma {:induction false} NakEnablesNothing(s: Neg, nick: string, line: string)
    ensures Step(s, Cap([nick, "NAK", line])).enabled == s.enabled
  {
    AnswersChange(s, ParsedCaps(line));
  }

  // ---------------------------------------------------------------- whole runs

  /** The states of a run, before and after each line. */
  ghost predicate IsHistory(hist: seq<Neg>, es: seq<Event>) {
    |hist| == |es| + 1 && forall i :: 0 <= i < |es| ==> hist[i + 1] == Step(hist[i], es[i])
  }

  lemma {:induction false} RunEndsHistory(hist: seq<Neg>, es: seq<Event>, n: nat)
    requires IsHistory(hist, es) && n <= |es|
    ensures Run(hist[0], es[..n]) == hist[n]
  {
    if n > 0 {
      RunEndsHistory(hist, es, n - 1);
      assert es[..n][..n - 1] == es[..n - 1];
    }
  }

  /** Some steps turn something on and others off: step `i` is the last of them, and turned it on. */
  ghost predicate LastOn(on: nat -> bool, off: nat -> bool, n: nat, i: nat) {
    i < n && on(i) && forall j :: i < j < n ==> !on(j) && !off(j)
  }

  lemma {:induction false} Latch<V(!new)>(state: nat -> Option<V>, on: nat -> bool, off: nat -> bool,
                                          given: nat -> Option<V>, n: nat)
    requires state(0).None?
    requires forall i {:trigger on(i)} :: 0 <= i < n ==>
               && state(i + 1) == (if on(i) then given(i) else if off(i) then None else state(i))
               && (on(i) ==> given(i).Some?)
    ensures state(n).Some? <==> exists i: nat :: LastOn(on, off, n, i)
    ensures forall i: nat :: LastOn(on, off, n, i) ==> state(n) == given(i)
  {
    if n > 0 {
      var m := n - 1;
      Latch(state, on, off, given, m);
      assert on(m) || !on(m);
      forall i: nat | i < m ensures LastOn(on, off, n, i) <==> LastOn(on, off, m, i) && !on(m) && !off(m) { }
      assert LastOn(on, off, n, m) <==> on(m);
    }
  }

  /** The lines that acknowledge the capability while it is requested, and those that delete it. */
  ghost function Acks(hist: seq<Neg>, es: seq<Event>, c: string): nat -> bool {
    (i: nat) => i < |es| && i < |hist| && Says(es[i], "ACK", c) && c in hist[i].requested
  }

  ghost function Deletes(es: seq<Event>, c: string): nat -> bool { (i: nat) => i < |es| && Says(es[i], "DEL", c) }

  /** The lines that offer the capability while it is wanted, and those that answer a request for it. */
  ghost function Advertises(hist: seq<Neg>, es: seq<Event>, c: string): nat -> bool {
    (i: nat) => i < |es| && i < |hist| && Offers(hist[i], es[i], c)
  }

  ghost function AnswersTo(es: seq<Event>, c: string): nat -> bool { (i: nat) => i < |es| && Answers(es[i], c) }

  /** After any run that starts with nothing enabled, a capability is enabled exactly if a line acknowledged it
      while it was requested and no later line deleted it; its values are those that were requested. */
  lemma {:induction false} EnabledExactly(hist: seq<Neg>, es: seq<Event>, c: string)
    requires IsHistory(hist, es) && hist[0].enabled == map[]
    ensures c in hist[|es|].enabled <==> exists i: nat :: LastOn(Acks(hist, es, c), Deletes(es, c), |es|, i)
    ensures forall i: nat :: LastOn(Acks(hist, es, c), Deletes(es, c), |es|, i) ==>
              Lookup(hist[|es|].enabled, c) == Lookup(hist[i].requested, c)
  {
    forall i | 0 <= i < |es| ensures EnablesAs(hist[i], es[i], hist[i + 1], c) { StepEnables(hist[i], es[i], c); }
    EnabledOver(hist, es, c);
  }

  lemma {:induction false} EnabledOver(hist: seq<Neg>, es: seq<Event>, c: string)
    requires |hist| == |es| + 1 && hist[0].enabled == map[]
    requires forall i :: 0 <= i < |es| ==> EnablesAs(hist[i], es[i], hist[i + 1], c)
    ensures c in hist[|es|].enabled <==> exists i: nat :: LastOn(Acks(hist, es, c), Deletes(es, c), |es|, i)
    ensures forall i: nat :: LastOn(Acks(hist, es, c), Deletes(es, c), |es|, i) ==>
              Lookup(hist[|es|].enabled, c) == Lookup(hist[i].requested, c)
  {
    var n, on, off := |es|, Acks(hist, es, c), Deletes(es, c);
    var state := (i: nat) => if i <= n then Lookup(hist[i].enabled, c) else None;
    var given := (i: nat) => if i <= n then Lookup(hist[i].requested, c) else None;
    forall i {:trigger on(i)} | 0 <= i < n
      ensures state(i + 1) == (if on(i) then given(i) else if off(i) then None else state(i))
      ensures on(i) ==> given(i).Some?
    {
      assert EnablesAs(hist[i], es[i], hist[i + 1], c);
    }
    Latch(state, on, off, given, n);
  }

  /** A capability is requested exactly if a line offered it, it being wanted, and no later line answered; its
      values are those that were offered. */
  lemma {:induction false} RequestedExactly(hist: seq<Neg>, es: seq<Event>, c: string)
    requires IsHistory(hist, es) && hist[0].requested == map[]
    ensures c in hist[|es|].requested <==> exists i: nat :: LastOn(Advertises(hist, es, c), AnswersTo(es, c), |es|, i)
    ensures forall i: nat :: LastOn(Advertises(hist, es, c), AnswersTo(es, c), |es|, i) ==>
              Lookup(hist[|es|].requested, c) == Some(ValuesIn(es[i], c))
  {
    forall i | 0 <= i < |es| ensures RequestsAs(hist[i], es[i], hist[i + 1], c) { StepRequests(hist[i], es[i], c); }
    RequestedOver(hist, es, c);
  }

  lemma {:induction false} RequestedOver(hist: seq<Neg>, es: seq<Event>, c: string)
    requires |hist| == |es| + 1 && hist[0].requested == map[]
    requires forall i :: 0 <= i < |es| ==> RequestsAs(hist[i], es[i], hist[i + 1], c)
    ensures c in hist[|es|].requested <==> exists i: nat :: LastOn(Advertises(hist, es, c), AnswersTo(es, c), |es|, i)
    ensures forall i: nat :: LastOn(Advertises(hist, es, c), AnswersTo(es, c), |es|, i) ==>
              Lookup(hist[|es|].requested, c) == Some(ValuesIn(es[i], c))
  {
    var n, on, off := |es|, Advertises(hist, es, c), AnswersTo(es, c);
    var state := (i: nat) => if i <= n then Lookup(hist[i].requested, c) else None;
    var given := (i: nat) => if on(i) then Some(ValuesIn(es[i], c)) else None;
    forall i {:trigger on(i)} | 0 <= i < n
      ensures state(i + 1) == (if on(i) then given(i) else if off(i) then None else state(i))
    {
      assert RequestsAs(hist[i], es[i], hist[i + 1], c);
    }
    Latch(state, on, off, given, n);
  }

  // ---------------------------------------------------------------- capability lists

  datatype Advertised = Advertised(name: string, values: seq<string>)

  /** A name, and behind an equals sign its values, if it has some. */
  function Print(a: Advertised): string { if a.values == [] then a.name else a.name + "=" + Join(a.values, ',') }

  function PrintAll(list: seq<Advertised>): seq<string> {
    if list == [] then [] else PrintAll(list[..|list| - 1]) + [Print(list[|list| - 1])]
  }

  ghost predicate Printable(a: Advertised) {
    && ' ' !in a.name && '=' !in a.name
    && forall v :: v in a.values ==> ' ' !in v && ',' !in v && '=' !in v
  }

  lemma {:induction false} JoinHasNo(parts: seq<string>, sep: char, c: char)
    requires c != sep && forall p :: p in parts ==> c !in p
    ensures c !in Join(parts, sep)
  {
    if |parts| > 1 { JoinHasNo(parts[1..], sep, c); }
  }

  /** A printed capability stands for its name and its values. */
  lemma {:induction false} CapabilityMeans(a: Advertised)
    requires Printable(a)
    ensures Capability(Print(a)) == (a.name, if a.values == [] then None else Some(a.values)) && ' ' !in Print(a)
  {
    SplitWhole(a.name, '=');
    if a.values != [] {
      var values := Join(a.values, ',');
      JoinHasNo(a.values, ',', '=');
      JoinHasNo(a.values, ',', ' ');
      SplitConcat(a.name, values, '=');
      SplitWhole(values, '=');
      SplitJoin(a.values, ',');
      assert a.name + "=" + values == a.name + ['='] + values;
    }
  }

  lemma {:induction false} PrintAllAt(list: seq<Advertised>)
    ensures |PrintAll(list)| == |list| && forall i :: 0 <= i < |list| ==> PrintAll(list)[i] == Print(list[i])
  {
    if list != [] { PrintAllAt(list[..|list| - 1]); }
  }

  /** The values of the last entry with the name. */
  function Meant(list: seq<Advertised>, c: string): Option<Option<seq<string>>> {
    if list == [] then None
    else
      var a := list[|list| - 1];
      if a.name == c then Some(if a.values == [] then None else Some(a.values)) else Meant(list[..|list| - 1], c)
  }

  lemma {:induction false} PartsMean(list: seq<Advertised>, c: string)
    requires forall a :: a in list ==> Printable(a)
    ensures Lookup(CapMap(PrintAll(list)), c) == Meant(list, c)
  {
    if list != [] {
      var front, a := list[..|list| - 1], list[|list| - 1];
      PartsMean(front, c);
      CapabilityMeans(a);
      assert PrintAll(list)[..|PrintAll(list)| - 1] == PrintAll(front);
    }
  }

  /** Parsing a printed list gives each capability named on it the values of its last entry, and no other. */
  lemma {:induction false} ListMeans(list: seq<Advertised>, c: string)
    requires list != [] && forall a :: a in list ==> Printable(a)
    ensures Lookup(ParsedCaps(Join(PrintAll(list), ' ')), c) == Meant(list, c)
  {
    PrintAllAt(list);
    forall p | p in PrintAll(list) ensures ' ' !in p {
      var i :| 0 <= i < |list| && PrintAll(list)[i] == p;
      CapabilityMeans(list[i]);
    }
    SplitJoin(PrintAll(list), ' ');
    PartsMean(list, c);
  }

  // ---------------------------------------------------------------- what is written

  lemma {:induction false} NamedInJoin(lines: seq<string>, c: string)
    requires lines != []
    ensures c in ParsedCaps(Join(lines, ' ')) <==> exists line :: line in lines && c in ParsedCaps(line)
  {
    var front, last := lines[..|lines| - 1], lines[|lines| - 1];
    assert lines == front + [last];
    if front != [] {
      NamedInJoin(front, c);
      JoinSnoc(front, last);
      ParsedCapsConcat(Join(front, ' '), last);
    }
  }

  /** The wanted capabilities that some of the lines name. */
  ghost function WantedOn(wanted: seq<string>, lines: seq<string>): set<string> {
    set c | c in wanted && exists line :: line in lines && c in ParsedCaps(line)
  }

  /** However the server's list is cut into lines, the request after the last one names what is wanted of it. */
  lemma {:induction false} RequestNamesWanted(s: Neg, nick: string, lines: seq<string>)
    requires lines != [] && s.requested == map[]
    ensures var t, names := Run(s, LSEvents(nick, lines)), WantedOn(s.wanted, lines);
            && t.out == s.out + [if names == {} then End(NothingWanted) else Req(names)]
            && t.negotiating == (s.negotiating || names != {})
            && t.requested.Keys == names && t.enabled == s.enabled && t.mechs == s.mechs && t.current == s.current
  {
    var line := Join(lines, ' ');
    SplitDoesNotMatter(s, nick, lines);
    LSStep(s, nick, line);
    forall c ensures c in ParsedCaps(line) <==> exists l :: l in lines && c in ParsedCaps(l) { NamedInJoin(lines, c); }
    assert (s.requested + Wanted(ParsedCaps(line), s.wanted)).Keys == WantedOn(s.wanted, lines);
  }

  /** A NEW line is answered by a request for what is wanted of it and not enabled. */
  lemma {:induction false} NewNamesWanted(s: Neg, nick: string, line: string)
    ensures var t := Step(s, Cap([nick, "NEW", line]));
            var names := WantedOn(s.wanted, [line]) - s.enabled.Keys;
            && t.out == s.out + (if names == {} then [] else [Req(names)])
            && t.enabled == s.enabled && t.negotiating == s.negotiating && t.mechs == s.mechs && t.current == s.current
  {
    assert Offered(ParsedCaps(line), s.wanted, s.enabled).Keys == WantedOn(s.wanted, [line]) - s.enabled.Keys;
  }

  /** An answer is waited for while something is requested. With the last one, authentication starts with the first
      mechanism that can be used, if there is one and SASL is enabled; else the negotiation ends. */
  ghost predicate SettlesAs(s: Neg, t: Neg) {
    if t.requested != map[] || !s.negotiating then
      t.out == s.out && t.negotiating == s.negotiating && t.mechs == s.mechs && t.current == s.current
    else
      var usable := if "sasl" !in t.enabled then []
                    else if t.enabled["sasl"].None? then s.mechs
                    else Filter(s.mechs, t.enabled["sasl"].value);
      if usable == [] then t.out == s.out + [End(Finished)] && !t.negotiating && t.current == s.current
      else
        && t.out == s.out + [Attempt(usable[0])] && t.negotiating
        && t.mechs == usable[1..] && t.current == Some(usable[0])
  }

  lemma {:induction false} AnswerSettles(s: Neg, params: seq<string>)
    requires |params| >= 3 && (params[1] == "ACK" || params[1] == "NAK")
    ensures SettlesAs(s, Step(s, Cap(params)))
  {
    var caps := ParsedCaps(params[|params| - 1]);
    SettleSettles(s.(enabled := s.enabled + Granted(caps, s.requested), requested := s.requested - caps.Keys));
    SettleSettles(s.(requested := s.requested - caps.Keys));
  }

  lemma {:induction false} SettleSettles(s: Neg)
    ensures SettlesAs(s, Settle(s))
  {
  }

  /** A line with too few parameters is answered by CAP END, and a DEL line is not answered. */
  lemma {:induction false} OtherLines(s: Neg, params: seq<string>)
    ensures |params| < 3 ==> Step(s, Cap(params)) == s.(out := s.out + [End(Malformed)])
    ensures |params| >= 3 && params[1] == "DEL" ==> Step(s, Cap(params)) == s.(enabled := Step(s, Cap(params)).enabled)
  {
  }

  // ---------------------------------------------------------------- mechanisms

  /** So many failures in a row. */
  ghost function Fails(k: nat): seq<Event> { if k == 0 then [] else Fails(k - 1) + [Fail] }

  /** After `k` failures: of the usable mechanisms `k + 1` have been attempted, as far as there are so many. */
  ghost predicate Tried(t: Neg, was: seq<string>, us: seq<string>, k: nat) {
    if k < |us|
    then Attempts(t.out) == was + us[..k + 1] && t.mechs == us[k + 1..] && t.negotiating && t.current == Some(us[k])
    else Attempts(t.out) == was + us && t.mechs == [] && !t.negotiating
  }

  lemma {:induction false} TryOneMore(t: Neg, was: seq<string>, us: seq<string>, k: nat)
    requires Tried(t, was, us, k)
    ensures Tried(TryNextSASL(t), was, us, k + 1)
  {
    AttemptsSnoc(t.out, End(Finished));
    if k + 1 < |us| {
      AttemptsSnoc(t.out, Attempt(us[k + 1]));
      assert was + us[..k + 1] + [us[k + 1]] == was + us[..k + 2];
    } else if k + 1 == |us| {
      assert us[..|us|] == us;
    }
  }

  /** When SASL starts, the usable mechanisms are attempted one after the other, one more with each failure,
      and the failure of the last one ends the negotiation. */
  lemma {:induction false} FailuresTryInOrder(s: Neg, k: nat)
    requires BeginsSASL(s) && Usable(s) != []
    ensures Tried(Run(BeginSASL(s), Fails(k)), Attempts(s.out), Usable(s), k)
  {
    AttemptsSnoc(s.out, Attempt(Usable(s)[0]));
    assert Usable(s)[..1] == [Usable(s)[0]];
    FailuresFollow(BeginSASL(s), Attempts(s.out), Usable(s), k);
  }

  lemma {:induction false} FailuresFollow(t: Neg, was: seq<string>, us: seq<string>, k: nat)
    requires Tried(t, was, us, 0)
    ensures Tried(Run(t, Fails(k)), was, us, k)
  {
    if k > 0 {
      FailuresFollow(t, was, us, k - 1);
      RunSnoc(t, Fails(k - 1), Fail);
      TryOneMore(Run(t, Fails(k - 1)), was, us, k - 1);
    }
  }

  /** The negotiation ends, with CAP END if it was going on. */
  ghost predicate Ends(s: Neg, t: Neg) {
    t == s.(negotiating := false, out := s.out + if s.negotiating then [End(Finished)] else [])
  }

  /** What the server says about SASL otherwise: a list of mechanisms narrows those left, and ends the negotiation if
      none is; so does success. A challenge is answered by the mechanism in use, whose failure moves on to the next. */
  lemma {:induction false} SASLLines(s: Neg, supported: seq<string>, answer: Option<string>)
    ensures var left := s.(mechs := Filter(s.mechs, supported));
            var t := Step(s, Mechs(Some(supported)));
            if left.mechs == [] then Ends(left, t) else t == left
    ensures Ends(s, Step(s, Success)) && Step(s, Welcome) == s.(negotiating := false)
    ensures s.current.None? ==> Step(s, Authenticate(answer)) == s
    ensures s.current.Some? && answer.Some? ==> Step(s, Authenticate(answer)) == s.(out := s.out + Chunks(answer.value))
    ensures s.current.Some? && answer.None? ==> Step(s, Authenticate(answer)) == Step(s, Fail)
  {
    assert s.out + [] == s.out;
  }

  // ---------------------------------------------------------------- responses

  /** How the IRCv3 SASL specification sends a response: in pieces of 400 bytes, the last one shorter, "+" for an
      empty one. */
  function Pieces(auth: string): seq<Out>
    decreases |auth|
  {
    if |auth| >= 400 then [Response(auth[..400])] + Pieces(auth[400..])
    else [Response(if auth == "" then "+" else auth)]
  }

  /** The client does so exactly up to 400 bytes: of a longer response it sends the whole of what is left each
      time. */
  lemma {:induction false} ChunksAreStandard(auth: string)
    ensures Chunks(auth) == Pieces(auth) <==> |auth| <= 400
  {
    if |auth| >= 400 {
      assert Chunks(auth)[0] == Response(auth) && Pieces(auth)[0] == Response(auth[..400]);
      if |auth| == 400 {
        assert auth[..400] == auth && auth[400..] == "";
      }
    }
  }
}
