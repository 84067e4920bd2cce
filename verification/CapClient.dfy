/** The client object that negotiates: its methods change their fields in loops over maps, in any
    iteration order, and take the steps of the `Negotiation` state machine. */
module CapClient {
  import opened Wrappers
  import opened Negotiation

  // ---------------------------------------------------------------- loops over capability maps

  /** The entries of `m` whose name is among `ks` and passes the test. */
  ghost function Pick(m: Caps, ks: set<string>, test: string -> bool): Caps {
    map c | c in m && c in ks && test(c) :: m[c]
  }

  lemma PickMore(base: Caps, m: Caps, ks: set<string>, test: string -> bool, c: string)
    requires c !in ks
    ensures base + Pick(m, ks + {c}, test)
         == if c in m && test(c) then (base + Pick(m, ks, test))[c := m[c]] else base + Pick(m, ks, test)
  {
    assert Pick(m, ks + {c}, test) == if c in m && test(c) then Pick(m, ks, test)[c := m[c]] else Pick(m, ks, test);
  }

  /** Enter every capability of `caps` that passes the test, and collect their names. */
  method Remember(base: Caps, caps: Caps, test: string -> bool) returns (r: Caps, names: set<string>)
    ensures r == base + Pick(caps, caps.Keys, test) && names == Pick(caps, caps.Keys, test).Keys
  {
    r, names := base, {};
    var left := caps.Keys;
    ghost var done: set<string> := {};
    assert base + Pick(caps, {}, test) == base;
    while left != {}
      invariant left + done == caps.Keys && left !! done
      invariant r == base + Pick(caps, done, test) && names == Pick(caps, done, test).Keys
    {
      var cap :| cap in left;
      PickMore(base, caps, done, test, cap);
      if test(cap) {
        r := r[cap := caps[cap]];
        names := names + {cap};
      }
      left, done := left - {cap}, done + {cap};
    }
    assert done == caps.Keys;
  }

  method RememberWanted(base: Caps, caps: Caps, wanted: seq<string>) returns (r: Caps)
    ensures r == base + Wanted(caps, wanted)
  {
    var test := c => c in wanted;
    var names;
    r, names := Remember(base, caps, test);
    assert Pick(caps, caps.Keys, test) == Wanted(caps, wanted);
  }

  method RememberOffered(base: Caps, caps: Caps, wanted: seq<string>, enabled: Caps)
    returns (r: Caps, names: set<string>)
    ensures r == base + Offered(caps, wanted, enabled) && names == Offered(caps, wanted, enabled).Keys
  {
    var test := c => c in wanted && c !in enabled;
    r, names := Remember(base, caps, test);
    assert Pick(caps, caps.Keys, test) == Offered(caps, wanted, enabled);
  }

  /** Move the acknowledged capabilities from `requested` to `enabled`. */
  method Accept(requested: Caps, enabled: Caps, caps: Caps) returns (r: Caps, e: Caps)
    ensures r == requested - caps.Keys
    ensures e == enabled + Granted(caps, requested)
  {
    r, e := requested, enabled;
    var left := caps.Keys;
    ghost var done: set<string> := {};
    ghost var any := (c: string) => true;
    assert enabled + Pick(requested, {}, any) == enabled;
    while left != {}
      invariant left + done == caps.Keys && left !! done
      invariant r == requested - done && e == enabled + Pick(requested, done, any)
    {
      var cap :| cap in left;
      PickMore(enabled, requested, done, any, cap);
      assert requested - (done + {cap}) == (requested - done) - {cap};
      if cap in r {
        e := e[cap := r[cap]];
        r := r - {cap};
      }
      left, done := left - {cap}, done + {cap};
    }
    assert done == caps.Keys;
    assert Pick(requested, caps.Keys, any) == Granted(caps, requested);
  }

  /** A mechanism needs a certificate, or an account with its password; others are unknown. */
  predicate Possible(mech: string, certificate: bool, login: bool) {
    if mech == "EXTERNAL" then certificate else login && (mech == "PLAIN" || "SCRAM-" <= mech)
  }

  function Choose(configured: seq<string>, certificate: bool, login: bool): seq<string> {
    if configured == [] then []
    else
      var last := configured[|configured| - 1];
      Choose(configured[..|configured| - 1], certificate, login) + if Possible(last, certificate, login) then [last] else []
  }

  /** The loop of `initSASL`. */
  method ChooseMechanisms(configured: seq<string>, certificate: bool, login: bool) returns (mechs: seq<string>)
    ensures mechs == Choose(configured, certificate, login) && Subsequence(mechs, configured)
    ensures forall m :: m in mechs <==>
              m in configured && if m == "EXTERNAL" then certificate else login && (m == "PLAIN" || "SCRAM-" <= m)
  {
    mechs := [];
    SubsequenceSelf(mechs);
    assert configured[..0] == [];
    for i := 0 to |configured|
      invariant mechs == Choose(configured[..i], certificate, login) && Subsequence(mechs, configured[..i])
      invariant forall m :: m in mechs <==> m in configured[..i] && Possible(m, certificate, login)
    {
      assert configured[..i + 1] == configured[..i] + [configured[i]];
      var mech := configured[i];
      SubsequenceSnoc(mechs, configured[..i], mech);
      if mech == "EXTERNAL" {
        if certificate { mechs := mechs + [mech]; }
      } else if login {
        if mech == "PLAIN" || "SCRAM-" <= mech { mechs := mechs + [mech]; }
      }
    }
    assert configured[..|configured|] == configured;
  }

  class Client {
    const wanted: seq<string>
    var requested: Caps
    var enabled: Caps
    var negotiating: bool
    var mechs: seq<string>
    var current: Option<string>
    var out: seq<Out>

    /** `initSASL`: ask for "sasl" only with mechanisms to offer. */
    constructor (configured: seq<string>, certificate: bool, login: bool)
      ensures mechs == Choose(configured, certificate, login) && Subsequence(mechs, configured)
      ensures State() == Neg(["cap-notify"] + if mechs == [] then [] else ["sasl"], map[], map[], false, mechs, None, [])
      ensures OnlyWanted(State()) && Attempts(out) == []
    {
      var chosen := ChooseMechanisms(configured, certificate, login);
      wanted := ["cap-notify"] + if chosen == [] then [] else ["sasl"];
      requested, enabled, negotiating, mechs, current, out := map[], map[], false, chosen, None, [];
    }

    function State(): Neg
      reads this
    {
      Neg(wanted, requested, enabled, negotiating, mechs, current, out)
    }

    method DoFinishCAP()
      modifies this
      ensures State() == FinishCAP(old(State()))
    {
      if negotiating {
        negotiating := false;
        out := out + [End(Finished)];
      }
    }

    method DoTryNextSASL()
      modifies this
      ensures State() == TryNextSASL(old(State()))
    {
      if |mechs| > 0 {
        current, mechs := Some(mechs[0]), mechs[1..];
        out := out + [Attempt(current.value)];
      } else {
        DoFinishCAP();
      }
    }

    method FilterSASLMechanisms(supportedMechs: seq<string>)
      modifies this
      ensures State() == old(State()).(mechs := Filter(old(mechs), supportedMechs))
    {
      var kept := [];
      for i := 0 to |mechs|
        invariant State() == old(State())
        invariant kept == Filter(mechs[..i], supportedMechs)
      {
        assert mechs[..i + 1][..i] == mechs[..i];
        var found := false;
        for j := 0 to |supportedMechs|
          invariant found <==> mechs[i] in supportedMechs[..j]
        {
          if mechs[i] == supportedMechs[j] { found := true; }
        }
        assert supportedMechs[..|supportedMechs|] == supportedMechs;
        if found { kept := kept + [mechs[i]]; }
      }
      assert mechs[..|mechs|] == mechs;
      mechs := kept;
    }

    method DoBeginSASL() returns (began: bool)
      modifies this
      ensures began <==> BeginsSASL(old(State()))
      ensures State() == if began then BeginSASL(old(State())) else old(State())
    {
      began := false;
      if negotiating {
        if "sasl" in enabled {
          if enabled["sasl"].Some? { FilterSASLMechanisms(enabled["sasl"].value); }
          DoTryNextSASL();
          began := true;
        }
      }
    }

    method DoSettle()
      modifies this
      ensures State() == Settle(old(State()))
    {
      if requested == map[] {
        var began := DoBeginSASL();
        if !began { DoFinishCAP(); }
      }
    }

    method HandleLS(caps: Caps, final: bool)
      modifies this
      ensures State() == OnLS(old(State()), caps, final)
    {
      requested := RememberWanted(requested, caps, wanted);
      if final {
        if requested == map[] {
          out := out + [End(NothingWanted)];
        } else {
          negotiating := true;
          out := out + [Req(requested.Keys)];
        }
      }
    }

    method HandleACK(caps: Caps)
      modifies this
      ensures State() == OnACK(old(State()), caps)
    {
      requested, enabled := Accept(requested, enabled, caps);
      DoSettle();
    }

    method HandleNAK(caps: Caps)
      modifies this
      ensures State() == OnNAK(old(State()), caps)
    {
      var left := caps.Keys;
      while left != {}
        invariant left <= caps.Keys
        invariant State() == old(State()).(requested := requested)
        invariant requested == old(requested) - (caps.Keys - left)
      {
        var cap :| cap in left;
        requested := requested - {cap};
        left := left - {cap};
      }
      assert caps.Keys - {} == caps.Keys;
      DoSettle();
    }

    method HandleNEW(caps: Caps)
      modifies this
      ensures State() == OnNEW(old(State()), caps)
    {
      var reqCaps;
      requested, reqCaps := RememberOffered(requested, caps, wanted, enabled);
      assert out + [] == out;
      if reqCaps != {} { out := out + [Req(reqCaps)]; }
    }

    method HandleCAP(params: seq<string>)
      modifies this
      ensures State() == OnCAP(old(State()), params)
    {
      if |params| < 3 {
        out := out + [End(Malformed)];
        return;
      }
      var caps := ParseCaps(params[|params| - 1]);
      match params[1]
      case "LS" => HandleLS(caps, |params| == 3);
      case "ACK" => HandleACK(caps);
      case "NAK" => HandleNAK(caps);
      case "NEW" => HandleNEW(caps);
      case "DEL" => enabled := enabled - caps.Keys;
      case _ =>
    }

    /** One message from the server; `step` is what the current mechanism answers to it. */
    method Handle(e: Event)
      modifies this
      ensures State() == Step(old(State()), e)
    {
      match e
      case Cap(params) => HandleCAP(params);
      case Authenticate(step) =>
        if current.None? { return; }
        if step.None? {
          DoTryNextSASL();
          return;
        }
        SendChunks(step.value);
      case Fail => DoTryNextSASL();
      case Mechs(supported) =>
        if supported.Some? { FilterSASLMechanisms(supported.value); }
        if |mechs| == 0 { DoFinishCAP(); }
      case Success => DoFinishCAP();
      case Welcome => negotiating := false;
    }

    method SendChunks(text: string)
      modifies this
      ensures State() == old(State()).(out := old(out) + Chunks(text))
    {
      var auth := text;
      while |auth| >= 400
        invariant State() == old(State()).(out := out)
        invariant out + Chunks(auth) == old(out) + Chunks(text)
      {
        assert out + ([Response(auth)] + Chunks(auth[400..])) == (out + [Response(auth)]) + Chunks(auth[400..]);
        out := out + [Response(auth)];
        auth := auth[400..];
      }
      if |auth| > 0 {
        out := out + [Response(auth)];
      } else {
        out := out + [Response("+")];
      }
    }
  }
}
