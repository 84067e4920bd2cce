/** IRCv3 capability negotiation and SASL authentication as a client-side state machine. */
module Negotiation {
  import opened Wrappers
  import opened Text

  /** Capability names with their values; `None` is a capability without values. */
  type Caps = map<string, Option<seq<string>>>

  /** Why a CAP END was written: a malformed CAP line, nothing to request, or `finishCAP`. */
  datatype Reason = Malformed | NothingWanted | Finished

  /** A line written by the client.  The order of the names in a REQ is that of a map iteration. */
  datatype Out = Req(names: set<string>) | End(why: Reason) | Attempt(mech: string) | Response(text: string)

  datatype Neg = Neg(wanted: seq<string>, requested: Caps, enabled: Caps, negotiating: bool,
                     mechs: seq<string>, current: Option<string>, out: seq<Out>)

  // ---------------------------------------------------------------- capability lists

  function Capability(part: string): (string, Option<seq<string>>) {
    var p := Split(part, '=');
    (p[0], if |p| > 1 then Some(Split(p[1], ',')) else None)
  }

  function CapMap(parts: seq<string>): Caps {
    if parts == [] then map[]
    else var (name, values) := Capability(parts[|parts| - 1]); CapMap(parts[..|parts| - 1])[name := values]
  }

  function ParsedCaps(caps: string): Caps { CapMap(Split(caps, ' ')) }

  method ParseCaps(caps: string) returns (result: Caps)
    ensures result == ParsedCaps(caps)
  {
    result := map[];
    var parts := Split(caps, ' ');
    for i := 0 to |parts|
      invariant result == CapMap(parts[..i])
    {
      assert parts[..i + 1][..i] == parts[..i];
      var p := Split(parts[i], '=');
      if |p| > 1 {
        result := result[p[0] := Some(Split(p[1], ','))];
      } else {
        result := result[p[0] := None];
      }
    }
    assert parts[..|parts|] == parts;
  }

  lemma {:induction false} CapMapConcat(p: seq<string>, q: seq<string>)
    ensures CapMap(p + q) == CapMap(p) + CapMap(q)
  {
    if q == [] {
      assert p + q == p;
    } else {
      var front := q[..|q| - 1];
      assert (p + q)[..|p + q| - 1] == p + front;
      CapMapConcat(p, front);
    }
  }

  /** A list that is cut at a space parses to the union of its halves, later entries winning. */
  lemma ParsedCapsConcat(a: string, b: string)
    ensures ParsedCaps(a + " " + b) == ParsedCaps(a) + ParsedCaps(b)
  {
    SplitConcat(a, b, ' ');
    CapMapConcat(Split(a, ' '), Split(b, ' '));
  }

  // ---------------------------------------------------------------- the steps

  function Wanted(caps: Caps, wanted: seq<string>): Caps { map c | c in caps && c in wanted :: caps[c] }

  function FinishCAP(s: Neg): Neg {
    if s.negotiating then s.(negotiating := false, out := s.out + [End(Finished)]) else s
  }

  function TryNextSASL(s: Neg): Neg {
    if s.mechs != [] then
      s.(current := Some(s.mechs[0]), mechs := s.mechs[1..], out := s.out + [Attempt(s.mechs[0])])
    else FinishCAP(s)
  }

  /** `filterSASLMechanisms`: the supported ones, in the order configured. */
  function Filter(mechs: seq<string>, supported: seq<string>): seq<string> {
    if mechs == [] then []
    else
      var front, last := Filter(mechs[..|mechs| - 1], supported), mechs[|mechs| - 1];
      if last in supported then front + [last] else front
  }

  /** The mechanisms left once the server's list is taken into account. */
  function Usable(s: Neg): seq<string>
    requires "sasl" in s.enabled
  {
    match s.enabled["sasl"] case None => s.mechs case Some(supported) => Filter(s.mechs, supported)
  }

  predicate BeginsSASL(s: Neg) { s.negotiating && "sasl" in s.enabled }

  function BeginSASL(s: Neg): Neg
    requires BeginsSASL(s)
  {
    TryNextSASL(s.(mechs := Usable(s)))
  }

  /** After an ACK or NAK: wait for more answers, authenticate, or end the negotiation. */
  function Settle(s: Neg): Neg {
    if s.requested != map[] then s else if BeginsSASL(s) then BeginSASL(s) else FinishCAP(s)
  }

  function OnLS(s: Neg, caps: Caps, final: bool): Neg {
    var t := s.(requested := s.requested + Wanted(caps, s.wanted));
    if !final then t
    else if t.requested == map[] then t.(out := t.out + [End(NothingWanted)])
    else t.(negotiating := true, out := t.out + [Req(t.requested.Keys)])
  }

  /** What an ACK line grants of the requested capabilities. */
  function Granted(caps: Caps, requested: Caps): Caps { map c | c in caps && c in requested :: requested[c] }

  function OnACK(s: Neg, caps: Caps): Neg {
    Settle(s.(enabled := s.enabled + Granted(caps, s.requested), requested := s.requested - caps.Keys))
  }

  function OnNAK(s: Neg, caps: Caps): Neg { Settle(s.(requested := s.requested - caps.Keys)) }

  /** What a NEW line offers that is wanted and not enabled yet. */
  function Offered(caps: Caps, wanted: seq<string>, enabled: Caps): Caps {
    map c | c in caps && c in wanted && c !in enabled :: caps[c]
  }

  function OnNEW(s: Neg, caps: Caps): Neg {
    var offered := Offered(caps, s.wanted, s.enabled);
    s.(requested := s.requested + offered, out := s.out + if offered == map[] then [] else [Req(offered.Keys)])
  }

  function OnDEL(s: Neg, caps: Caps): Neg { s.(enabled := s.enabled - caps.Keys) }

  function OnCAP(s: Neg, params: seq<string>): Neg {
    if |params| < 3 then s.(out := s.out + [End(Malformed)])
    else
      var caps := ParsedCaps(params[|params| - 1]);
      match params[1]
      case "LS" => OnLS(s, caps, |params| == 3)
      case "ACK" => OnACK(s, caps)
      case "NAK" => OnNAK(s, caps)
      case "NEW" => OnNEW(s, caps)
      case "DEL" => OnDEL(s, caps)
      case _ => s
  }

  /** The lines a response is sent in: while 400 bytes or more are left, all of what is left. */
  function Chunks(auth: string): seq<Out>
    decreases |auth|
  {
    if |auth| >= 400 then [Response(auth)] + Chunks(auth[400..])
    else if |auth| > 0 then [Response(auth)]
    else [Response("+")]
  }

  /** What the server may send; the outcome of a mechanism's own step is part of the event. */
  datatype Event =
    | Cap(params: seq<string>)
    | Authenticate(step: Option<string>)
    | Fail
    | Mechs(supported: Option<seq<string>>)
    | Success
    | Welcome

  function Step(s: Neg, e: Event): Neg {
    match e
    case Cap(params) => OnCAP(s, params)
    case Authenticate(step) =>
      if s.current.None? then s
      else if step.None? then TryNextSASL(s)
      else s.(out := s.out + Chunks(step.value))
    case Fail => TryNextSASL(s)
    case Mechs(supported) =>
      var t := if supported.Some? then s.(mechs := Filter(s.mechs, supported.value)) else s;
      if t.mechs == [] then FinishCAP(t) else t
    case Success => FinishCAP(s)
    case Welcome => s.(negotiating := false)
  }

  function Run(s: Neg, es: seq<Event>): Neg
    decreases |es|
  {
    if es == [] then s else Step(Run(s, es[..|es| - 1]), es[|es| - 1])
  }

  // ---------------------------------------------------------------- capabilities stay wanted

  ghost predicate Within(caps: Caps, wanted: seq<string>) { forall c :: c in caps ==> c in wanted }

  ghost predicate RequestsWithin(o: Out, wanted: seq<string>) {
    o.Req? ==> forall c :: c in o.names ==> c in wanted
  }

  ghost predicate OnlyWanted(s: Neg) {
    && Within(s.requested, s.wanted) && Within(s.enabled, s.wanted)
    && forall i :: 0 <= i < |s.out| ==> RequestsWithin(s.out[i], s.wanted)
  }

  lemma {:induction false} SettleKeepsWanted(s: Neg)
    requires OnlyWanted(s)
    ensures OnlyWanted(Settle(s)) && Settle(s).wanted == s.wanted
  {
  }

  lemma {:induction false} ChunksRequestNothing(auth: string)
    ensures forall i :: 0 <= i < |Chunks(auth)| ==> Chunks(auth)[i].Response?
    decreases |auth|
  {
    if |auth| >= 400 { ChunksRequestNothing(auth[400..]); }
  }

  lemma {:induction false} LSKeepsWanted(s: Neg, caps: Caps, final: bool)
    requires OnlyWanted(s)
    ensures OnlyWanted(OnLS(s, caps, final)) && OnLS(s, caps, final).wanted == s.wanted
  {
  }

  lemma {:induction false} NEWKeepsWanted(s: Neg, caps: Caps)
    requires OnlyWanted(s)
    ensures OnlyWanted(OnNEW(s, caps)) && OnNEW(s, caps).wanted == s.wanted
  {
  }

  lemma {:induction false} AnswerKeepsWanted(s: Neg, caps: Caps)
    requires OnlyWanted(s)
    ensures OnlyWanted(OnACK(s, caps)) && OnACK(s, caps).wanted == s.wanted
    ensures OnlyWanted(OnNAK(s, caps)) && OnNAK(s, caps).wanted == s.wanted
  {
    SettleKeepsWanted(s.(requested := s.requested - caps.Keys));
    SettleKeepsWanted(s.(enabled := s.enabled + Granted(caps, s.requested),
                         requested := s.requested - caps.Keys));
  }

  lemma {:induction false} CAPKeepsWanted(s: Neg, params: seq<string>)
    requires OnlyWanted(s)
    ensures OnlyWanted(OnCAP(s, params)) && OnCAP(s, params).wanted == s.wanted
  {
    if |params| >= 3 {
      var caps := ParsedCaps(params[|params| - 1]);
      match params[1]
      case "LS" => LSKeepsWanted(s, caps, |params| == 3);
      case "ACK" => AnswerKeepsWanted(s, caps);
      case "NAK" => AnswerKeepsWanted(s, caps);
      case "NEW" => NEWKeepsWanted(s, caps);
      case _ =>
    }
  }

  lemma {:induction false} StepKeepsWanted(s: Neg, e: Event)
    requires OnlyWanted(s)
    ensures OnlyWanted(Step(s, e)) && Step(s, e).wanted == s.wanted
  {
    if e.Cap? {
      CAPKeepsWanted(s, e.params);
    } else if e.Authenticate? && e.step.Some? {
      ChunksRequestNothing(e.step.value);
    }
  }

  /** Requested and enabled capabilities stay within the wanted ones, in every run. */
  lemma {:induction false} RunKeepsWanted(s: Neg, es: seq<Event>)
    requires OnlyWanted(s)
    ensures OnlyWanted(Run(s, es)) && Run(s, es).wanted == s.wanted
  {
    if es != [] {
      RunKeepsWanted(s, es[..|es| - 1]);
      StepKeepsWanted(Run(s, es[..|es| - 1]), es[|es| - 1]);
    }
  }

  // ---------------------------------------------------------------- splitting the LS list

  /** The events of an LS list that is spread over several lines: all but the last carry a "*". */
  function LSEvents(nick: string, lines: seq<string>): seq<Event>
    requires lines != []
  {
    Continued(nick, lines[..|lines| - 1]) + [Cap([nick, "LS", lines[|lines| - 1]])]
  }

  function Continued(nick: string, lines: seq<string>): seq<Event> {
    if lines == [] then []
    else Continued(nick, lines[..|lines| - 1]) + [Cap([nick, "LS", "*", lines[|lines| - 1]])]
  }

  lemma RunSnoc(s: Neg, es: seq<Event>, e: Event)
    ensures Run(s, es + [e]) == Step(Run(s, es), e)
  {
    assert (es + [e])[..|es + [e]| - 1] == es;
  }

  lemma {:induction false} JoinSnoc(lines: seq<string>, x: string)
    requires lines != []
    ensures Text.Join(lines + [x], ' ') == Text.Join(lines, ' ') + " " + x
  {
    var all := lines + [x];
    if |lines| == 1 {
      assert all[1..] == [x];
    } else {
      assert all[1..] == lines[1..] + [x];
      JoinSnoc(lines[1..], x);
      assert lines[0] + [' '] + (Text.Join(lines[1..], ' ') + " " + x)
          == (lines[0] + [' '] + Text.Join(lines[1..], ' ')) + " " + x;
    }
  }

  lemma {:induction false} LSStep(s: Neg, nick: string, line: string)
    ensures Step(s, Cap([nick, "LS", "*", line])) == OnLS(s, ParsedCaps(line), false)
    ensures Step(s, Cap([nick, "LS", line])) == OnLS(s, ParsedCaps(line), true)
  {
  }

  /** Two lists one after the other are remembered like one list with both. */
  lemma {:induction false} LSTwice(s: Neg, a: Caps, b: Caps, final: bool)
    ensures OnLS(OnLS(s, a, false), b, final) == OnLS(s, a + b, final)
  {
    assert Wanted(a + b, s.wanted) == Wanted(a, s.wanted) + Wanted(b, s.wanted);
    assert (s.requested + Wanted(a, s.wanted)) + Wanted(b, s.wanted) == s.requested + Wanted(a + b, s.wanted);
  }

  /** Continuation lines write nothing, and remember what one line with all of them would. */
  lemma {:induction false} ContinuedAccumulates(s: Neg, nick: string, lines: seq<string>)
    requires lines != []
    ensures Run(s, Continued(nick, lines)) == OnLS(s, ParsedCaps(Text.Join(lines, ' ')), false)
  {
    var front, last := lines[..|lines| - 1], lines[|lines| - 1];
    RunSnoc(s, Continued(nick, front), Cap([nick, "LS", "*", last]));
    LSStep(Run(s, Continued(nick, front)), nick, last);
    if front == [] {
      assert lines == [last];
    } else {
      ContinuedAccumulates(s, nick, front);
      assert lines == front + [last];
      JoinSnoc(front, last);
      ParsedCapsConcat(Text.Join(front, ' '), last);
      LSTwice(s, ParsedCaps(Text.Join(front, ' ')), ParsedCaps(last), false);
    }
  }

  /** However the advertised list is cut into lines, the outcome is that of one unsplit line: the same
      remembered values, and one REQ for the same names, sent after the last line. */
  lemma {:induction false} SplitDoesNotMatter(s: Neg, nick: string, lines: seq<string>)
    requires lines != []
    ensures Run(s, LSEvents(nick, lines)) == Step(s, Cap([nick, "LS", Text.Join(lines, ' ')]))
    ensures Run(s, Continued(nick, lines[..|lines| - 1])).out == s.out
  {
    var front, last := lines[..|lines| - 1], lines[|lines| - 1];
    RunSnoc(s, Continued(nick, front), Cap([nick, "LS", last]));
    LSStep(Run(s, Continued(nick, front)), nick, last);
    LSStep(s, nick, Text.Join(lines, ' '));
    if front == [] {
      assert lines == [last];
    } else {
      ContinuedAccumulates(s, nick, front);
      assert lines == front + [last];
      JoinSnoc(front, last);
      ParsedCapsConcat(Text.Join(front, ' '), last);
      LSTwice(s, ParsedCaps(Text.Join(front, ' ')), ParsedCaps(last), true);
    }
  }

  // ---------------------------------------------------------------- mechanisms are tried in order, once

  function Attempts(out: seq<Out>): seq<string> {
    if out == [] then []
    else
      var front := Attempts(out[..|out| - 1]);
      if out[|out| - 1].Attempt? then front + [out[|out| - 1].mech] else front
  }

  /** `a` is `b` with some positions left out; `at` names the positions kept. */
  ghost predicate Picks(a: seq<string>, b: seq<string>, at: seq<nat>) {
    && |at| == |a|
    && (forall i :: 0 <= i < |a| ==> at[i] < |b| && a[i] == b[at[i]])
    && (forall i, j :: 0 <= i < j < |a| ==> at[i] < at[j])
  }

  ghost predicate Subsequence(a: seq<string>, b: seq<string>) { exists at: seq<nat> :: Picks(a, b, at) }

  lemma SubsequenceTrans(a: seq<string>, b: seq<string>, c: seq<string>)
    requires Subsequence(a, b) && Subsequence(b, c)
    ensures Subsequence(a, c)
  {
    var f: seq<nat> :| Picks(a, b, f);
    var g: seq<nat> :| Picks(b, c, g);
    var h := seq(|a|, i requires 0 <= i < |a| => assert f[i] < |b|; g[f[i]]);
    assert Picks(a, c, h);
  }

  lemma SubsequenceSelf(a: seq<string>)
    ensures Subsequence(a, a)
  {
    var at := seq(|a|, i requires 0 <= i < |a| => i);
    assert Picks(a, a, at);
  }

  lemma SubsequenceSnoc(a: seq<string>, b: seq<string>, x: string)
    requires Subsequence(a, b)
    ensures Subsequence(a + [x], b + [x]) && Subsequence(a, b + [x])
  {
    var at: seq<nat> :| Picks(a, b, at);
    assert Picks(a + [x], b + [x], at + [|b|]);
    assert Picks(a, b + [x], at);
  }

  lemma {:induction false} FilterIsSubsequence(pre: seq<string>, mechs: seq<string>, supported: seq<string>)
    ensures Subsequence(pre + Filter(mechs, supported), pre + mechs)
  {
    if mechs == [] {
      SubsequenceSelf(pre + mechs);
    } else {
      var front, last := mechs[..|mechs| - 1], mechs[|mechs| - 1];
      FilterIsSubsequence(pre, front, supported);
      SubsequenceSnoc(pre + Filter(front, supported), pre + front, last);
      assert pre + front + [last] == pre + mechs;
      assert pre + Filter(front, supported) + [last] == pre + (Filter(front, supported) + [last]);
    }
  }

  /** Every supported mechanism is kept as often as it was there, and no other. */
  lemma {:induction false} FilterKeepsSupported(mechs: seq<string>, supported: seq<string>, m: string)
    ensures multiset(Filter(mechs, supported))[m] == if m in supported then multiset(mechs)[m] else 0
  {
    if mechs != [] {
      var front, last := mechs[..|mechs| - 1], mechs[|mechs| - 1];
      FilterKeepsSupported(front, supported, m);
      assert mechs == front + [last];
    }
  }

  /** What was attempted, followed by what is still to be tried. */
  function Queue(s: Neg): seq<string> { Attempts(s.out) + s.mechs }

  lemma {:induction false} AttemptsSnoc(out: seq<Out>, o: Out)
    ensures Attempts(out + [o]) == if o.Attempt? then Attempts(out) + [o.mech] else Attempts(out)
  {
    assert (out + [o])[..|out + [o]| - 1] == out;
  }

  lemma {:induction false} AttemptsChunks(out: seq<Out>, auth: string)
    ensures Attempts(out + Chunks(auth)) == Attempts(out)
    decreases |auth|
  {
    if |auth| >= 400 {
      AttemptsSnoc(out, Response(auth));
      AttemptsChunks(out + [Response(auth)], auth[400..]);
      assert out + [Response(auth)] + Chunks(auth[400..]) == out + Chunks(auth);
    } else {
      AttemptsSnoc(out, Chunks(auth)[0]);
      assert out + Chunks(auth) == out + [Chunks(auth)[0]];
    }
  }

  lemma {:induction false} TryNextKeepsQueue(s: Neg)
    ensures Queue(TryNextSASL(s)) == Queue(s)
  {
    if s.mechs != [] {
      AttemptsSnoc(s.out, Attempt(s.mechs[0]));
      assert Attempts(s.out) + [s.mechs[0]] + s.mechs[1..] == Attempts(s.out) + s.mechs;
    } else {
      AttemptsSnoc(s.out, End(Finished));
    }
  }

  lemma {:induction false} FinishKeepsQueue(s: Neg)
    ensures Queue(FinishCAP(s)) == Queue(s)
  {
    AttemptsSnoc(s.out, End(Finished));
  }

  lemma {:induction false} SettleNarrows(s: Neg)
    ensures Subsequence(Queue(Settle(s)), Queue(s))
  {
    SubsequenceSelf(Queue(s));
    if s.requested == map[] {
      if BeginsSASL(s) {
        var t := s.(mechs := Usable(s));
        TryNextKeepsQueue(t);
        if s.enabled["sasl"].Some? { FilterIsSubsequence(Attempts(s.out), s.mechs, s.enabled["sasl"].value); }
      } else {
        FinishKeepsQueue(s);
      }
    }
  }

  lemma {:induction false} OffersKeepQueue(s: Neg, caps: Caps, final: bool)
    ensures Queue(OnLS(s, caps, final)) == Queue(s) && Queue(OnNEW(s, caps)) == Queue(s)
  {
    AttemptsSnoc(s.out, End(NothingWanted));
    AttemptsSnoc(s.out, Req((s.requested + Wanted(caps, s.wanted)).Keys));
    var offered := Offered(caps, s.wanted, s.enabled);
    AttemptsSnoc(s.out, Req(offered.Keys));
    assert s.out + [] == s.out;
  }

  lemma {:induction false} AnswersNarrow(s: Neg, caps: Caps)
    ensures Subsequence(Queue(OnACK(s, caps)), Queue(s)) && Subsequence(Queue(OnNAK(s, caps)), Queue(s))
  {
    SettleNarrows(s.(enabled := s.enabled + Granted(caps, s.requested),
                     requested := s.requested - caps.Keys));
    SettleNarrows(s.(requested := s.requested - caps.Keys));
  }

  lemma {:induction false} CAPNarrows(s: Neg, params: seq<string>)
    ensures Subsequence(Queue(OnCAP(s, params)), Queue(s))
  {
    SubsequenceSelf(Queue(s));
    if |params| < 3 {
      AttemptsSnoc(s.out, End(Malformed));
    } else {
      var caps := ParsedCaps(params[|params| - 1]);
      match params[1]
      case "LS" => OffersKeepQueue(s, caps, |params| == 3);
      case "ACK" => AnswersNarrow(s, caps);
      case "NAK" => AnswersNarrow(s, caps);
      case "NEW" => OffersKeepQueue(s, caps, false);
      case _ =>
    }
  }

  lemma {:induction false} StepNarrows(s: Neg, e: Event)
    ensures Subsequence(Queue(Step(s, e)), Queue(s))
  {
    SubsequenceSelf(Queue(s));
    match e
    case Cap(params) => CAPNarrows(s, params);
    case Authenticate(step) =>
      if step.Some? { AttemptsChunks(s.out, step.value); }
      TryNextKeepsQueue(s);
    case Fail => TryNextKeepsQueue(s);
    case Mechs(supported) =>
      var t := if supported.Some? then s.(mechs := Filter(s.mechs, supported.value)) else s;
      if supported.Some? { FilterIsSubsequence(Attempts(s.out), s.mechs, supported.value); }
      FinishKeepsQueue(t);
    case Success => FinishKeepsQueue(s);
    case Welcome =>
  }

  lemma {:induction false} RunNarrows(s: Neg, es: seq<Event>)
    ensures Subsequence(Queue(Run(s, es)), Queue(s))
  {
    SubsequenceSelf(Queue(s));
    if es != [] {
      var t := Run(s, es[..|es| - 1]);
      RunNarrows(s, es[..|es| - 1]);
      StepNarrows(t, es[|es| - 1]);
      SubsequenceTrans(Queue(Step(t, es[|es| - 1])), Queue(t), Queue(s));
    }
  }

  /** In every run, the mechanisms attempted form a subsequence of the configured ones: tried in order,
      and none of them twice. */
  lemma {:induction false} AttemptsFollowConfiguration(s: Neg, es: seq<Event>)
    requires Attempts(s.out) == []
    ensures Subsequence(Attempts(Run(s, es).out), s.mechs)
  {
    RunNarrows(s, es);
    var t := Run(s, es);
    var at: seq<nat> :| Picks(Queue(t), Queue(s), at);
    assert Queue(s) == s.mechs;
    var n := |Attempts(t.out)|;
    assert forall i :: 0 <= i < n ==> Queue(t)[i] == Attempts(t.out)[i];
    assert Picks(Attempts(t.out), s.mechs, at[..n]);
  }

  // ---------------------------------------------------------------- the negotiation is closed once

  /** How many CAP END lines `finishCAP` wrote. */
  function Finishes(out: seq<Out>): nat {
    if out == [] then 0
    else Finishes(out[..|out| - 1]) + if out[|out| - 1] == End(Finished) then 1 else 0
  }

  lemma {:induction false} FinishesSnoc(out: seq<Out>, o: Out)
    ensures Finishes(out + [o]) == Finishes(out) + if o == End(Finished) then 1 else 0
  {
    assert (out + [o])[..|out + [o]| - 1] == out;
  }

  lemma {:induction false} FinishesChunks(out: seq<Out>, auth: string)
    ensures Finishes(out + Chunks(auth)) == Finishes(out)
    decreases |auth|
  {
    if |auth| >= 400 {
      FinishesSnoc(out, Response(auth));
      FinishesChunks(out + [Response(auth)], auth[400..]);
      assert out + [Response(auth)] + Chunks(auth[400..]) == out + Chunks(auth);
    } else {
      FinishesSnoc(out, Chunks(auth)[0]);
      assert out + Chunks(auth) == out + [Chunks(auth)[0]];
    }
  }

  predicate IsLS(e: Event) { e.Cap? && |e.params| >= 3 && e.params[1] == "LS" }
  predicate IsFailure(e: Event) { e.Fail? || (e.Authenticate? && e.step.None?) }

  /** From `s` to `t` the negotiation may close but not reopen; closing it writes one CAP END, and no
      mechanism is added. */
  ghost predicate Closing(s: Neg, t: Neg) {
    && (t.negotiating ==> s.negotiating)
    && Finishes(t.out) == Finishes(s.out) + (if s.negotiating && !t.negotiating then 1 else 0)
    && |t.mechs| <= |s.mechs| && (s.current.Some? ==> t.current.Some?)
  }

  lemma {:induction false} FinishCloses(s: Neg)
    ensures Closing(s, FinishCAP(s)) && !FinishCAP(s).negotiating
  {
    FinishesSnoc(s.out, End(Finished));
  }

  lemma {:induction false} TryNextCloses(s: Neg)
    ensures Closing(s, TryNextSASL(s))
    ensures TryNextSASL(s).negotiating ==> |TryNextSASL(s).mechs| < |s.mechs| && TryNextSASL(s).current.Some?
  {
    if s.mechs != [] { FinishesSnoc(s.out, Attempt(s.mechs[0])); } else { FinishCloses(s); }
  }

  lemma {:induction false} FilterNoLonger(mechs: seq<string>, supported: seq<string>)
    ensures |Filter(mechs, supported)| <= |mechs|
  {
    if mechs != [] { FilterNoLonger(mechs[..|mechs| - 1], supported); }
  }

  lemma {:induction false} SettleCloses(s: Neg)
    ensures Closing(s, Settle(s))
  {
    if s.requested == map[] {
      if BeginsSASL(s) {
        if s.enabled["sasl"].Some? { FilterNoLonger(s.mechs, s.enabled["sasl"].value); }
        TryNextCloses(s.(mechs := Usable(s)));
      } else {
        FinishCloses(s);
      }
    }
  }

  lemma {:induction false} AnswersClose(s: Neg, caps: Caps)
    ensures Closing(s, OnACK(s, caps)) && Closing(s, OnNAK(s, caps))
  {
    SettleCloses(s.(enabled := s.enabled + Granted(caps, s.requested),
                    requested := s.requested - caps.Keys));
    SettleCloses(s.(requested := s.requested - caps.Keys));
  }

  lemma {:induction false} NEWCloses(s: Neg, caps: Caps)
    ensures Closing(s, OnNEW(s, caps))
  {
    var offered := Offered(caps, s.wanted, s.enabled);
    FinishesSnoc(s.out, Req(offered.Keys));
    assert s.out + [] == s.out;
  }

  lemma {:induction false} CAPCloses(s: Neg, params: seq<string>)
    requires !IsLS(Cap(params))
    ensures Closing(s, OnCAP(s, params))
  {
    if |params| < 3 {
      FinishesSnoc(s.out, End(Malformed));
    } else {
      var caps := ParsedCaps(params[|params| - 1]);
      match params[1]
      case "ACK" => AnswersClose(s, caps);
      case "NAK" => AnswersClose(s, caps);
      case "NEW" => NEWCloses(s, caps);
      case _ =>
    }
  }

  lemma {:induction false} StepCloses(s: Neg, e: Event)
    requires !IsLS(e) && !e.Welcome?
    ensures Closing(s, Step(s, e))
    ensures e.Success? ==> !Step(s, e).negotiating
    ensures IsFailure(e) && s.current.Some? && Step(s, e).negotiating ==> |Step(s, e).mechs| < |s.mechs|
  {
    match e
    case Cap(params) => CAPCloses(s, params);
    case Authenticate(step) =>
      TryNextCloses(s);
      if step.Some? { FinishesChunks(s.out, step.value); }
    case Fail => TryNextCloses(s);
    case Mechs(supported) =>
      if supported.Some? {
        FilterNoLonger(s.mechs, supported.value);
        FinishCloses(s.(mechs := Filter(s.mechs, supported.value)));
      } else {
        FinishCloses(s);
      }
    case Success => FinishCloses(s);
  }

  function Failures(es: seq<Event>): nat {
    if es == [] then 0 else Failures(es[..|es| - 1]) + if IsFailure(es[|es| - 1]) then 1 else 0
  }

  ghost predicate Undisturbed(es: seq<Event>) { forall e :: e in es ==> !IsLS(e) && !e.Welcome? }

  lemma {:induction false} RunCloses(s: Neg, es: seq<Event>)
    requires Undisturbed(es)
    ensures Closing(s, Run(s, es))
    ensures s.current.Some? && Run(s, es).negotiating ==>
              |Run(s, es).mechs| + Failures(es) <= |s.mechs| && Success !in es
  {
    if es != [] {
      var front, e := es[..|es| - 1], es[|es| - 1];
      assert es == front + [e];
      RunCloses(s, front);
      StepCloses(Run(s, front), e);
    }
  }

  /** Once SASL starts with `m` usable mechanisms, `m` failures or one success close the negotiation, with
      exactly one CAP END from `finishCAP`, whatever else the server sends short of LS and 001. */
  lemma {:induction false} SASLCloses(s: Neg, es: seq<Event>)
    requires BeginsSASL(s) && Undisturbed(es)
    requires Failures(es) >= |Usable(s)| || Success in es
    ensures var t := Run(BeginSASL(s), es); !t.negotiating && Finishes(t.out) == Finishes(s.out) + 1
  {
    TryNextCloses(s.(mechs := Usable(s)));
    RunCloses(BeginSASL(s), es);
  }
}
