/** What a MODE line means, and exactly when the tracker, which gives every letter to the first parameter,
    makes that of it. */
module ModeLines {
  import opened Wrappers
  import opened ChannelUsers
  import opened Tracker

  /** Does a letter take a parameter?  The user modes always do; for the others the server announces it. */
  predicate Takes(takes: (char, bool) -> bool, c: char, plus: bool) { c in MODES || takes(c, plus) }

  /** How many parameters the first `n` characters of a mode string take. */
  function Used(takes: (char, bool) -> bool, mode: string, n: nat): nat
    requires n <= |mode|
  {
    if n == 0 then 0
    else
      var before := Used(takes, mode, n - 1);
      if IsLetter(mode[n - 1]) && Takes(takes, mode[n - 1], PlusAt(mode, n - 1)) then before + 1 else before
  }

  /** The character at `i` gives the mode `c` to, or takes it from, the user `nick`. */
  predicate Names(takes: (char, bool) -> bool, mode: string, params: seq<string>, i: nat, nick: string, c: char)
    requires i < |mode|
  {
    mode[i] == c && c in MODES && Used(takes, mode, i) < |params| && params[Used(takes, mode, i)] == nick
  }

  /** The meaning of a MODE line for a channel: letter after letter, each with its own parameter. */
  function Meant(takes: (char, bool) -> bool, r: Roster, mode: string, params: seq<string>, n: nat): (r': Roster)
    requires n <= |mode|
    ensures r'.Keys == r.Keys
  {
    if n == 0 then r
    else
      var before := Meant(takes, r, mode, params, n - 1);
      var c, k := mode[n - 1], Used(takes, mode, n - 1);
      if c !in MODES || k >= |params| || params[k] !in before then before
      else before[params[k] := if PlusAt(mode, n - 1) then before[params[k]] + {c} else before[params[k]] - {c}]
  }

  /** The sign of the last change of a user's mode among the first `n` characters. */
  function LastSign(takes: (char, bool) -> bool, mode: string, params: seq<string>, n: nat, nick: string, c: char)
    : Option<bool>
    requires n <= |mode|
  {
    if n == 0 then None
    else if Names(takes, mode, params, n - 1, nick, c) then Some(PlusAt(mode, n - 1))
    else LastSign(takes, mode, params, n - 1, nick, c)
  }

  predicate Becomes(sign: Option<bool>, had: bool) { if sign.None? then had else sign.value }

  lemma {:induction false} LastSignDecides(takes: (char, bool) -> bool, r: Roster, mode: string,
                                           params: seq<string>, n: nat, nick: string, c: char)
    requires n <= |mode| && nick in r
    ensures c in Meant(takes, r, mode, params, n)[nick]
       <==> Becomes(LastSign(takes, mode, params, n, nick, c), c in r[nick])
  {
    if n > 0 { LastSignDecides(takes, r, mode, params, n - 1, nick, c); }
  }

  /** What the tracker does with a letter: a single minus decides. */
  function TrackedSign(mode: string, c: char): Option<bool> {
    if c in Under(mode, |mode|, false) then Some(false)
    else if c in Under(mode, |mode|, true) then Some(true)
    else None
  }

  lemma {:induction false} TrackedSignDecides(r: Roster, mode: string, nick: string, c: char)
    requires nick in r
    ensures c in ModedIn(r, nick, mode)[nick] <==> Becomes(TrackedSign(mode, c), c in r[nick])
  {
    assert c in Letters(Under(mode, |mode|, true)) <==> c in Under(mode, |mode|, true);
    assert c in Letters(Under(mode, |mode|, false)) <==> c in Under(mode, |mode|, false);
  }

  // ---------------------------------------------------------------- the condition

  /** Nobody in the channel is named but the first parameter. */
  ghost predicate OnlyFirst(takes: (char, bool) -> bool, mode: string, params: seq<string>, here: set<string>)
    requires params != []
  {
    forall i, nick, c :: 0 <= i < |mode| && nick in here && Names(takes, mode, params, i, nick, c) ==> nick == params[0]
  }

  /** Every letter is, somewhere, a change of the first parameter's user. */
  ghost predicate AllForFirst(takes: (char, bool) -> bool, mode: string, params: seq<string>)
    requires params != []
  {
    forall i :: 0 <= i < |mode| && IsLetter(mode[i]) ==>
      exists j :: 0 <= j < |mode| && Names(takes, mode, params, j, params[0], mode[i])
  }

  /** A letter that stands under a minus is given to the user in the end. */
  ghost predicate GivenBack(takes: (char, bool) -> bool, mode: string, params: seq<string>, c: char)
    requires params != []
  {
    && c in Under(mode, |mode|, false)
    && exists j :: 0 <= j < |mode| && LastGrant(takes, mode, params, j, c)
  }

  ghost predicate LastGrant(takes: (char, bool) -> bool, mode: string, params: seq<string>, j: nat, c: char)
    requires j < |mode| && params != []
  {
    && Names(takes, mode, params, j, params[0], c) && PlusAt(mode, j)
    && forall k :: j < k < |mode| && Names(takes, mode, params, k, params[0], c) ==> PlusAt(mode, k)
  }

  ghost predicate Tractable(takes: (char, bool) -> bool, mode: string, params: seq<string>, here: set<string>)
    requires params != []
  {
    && OnlyFirst(takes, mode, params, here)
    && (params[0] in here ==>
          AllForFirst(takes, mode, params) && forall c :: !GivenBack(takes, mode, params, c))
  }

  lemma {:induction false} LastSignIs(takes: (char, bool) -> bool, mode: string, params: seq<string>, n: nat,
                                      nick: string, c: char)
    requires n <= |mode|
    ensures match LastSign(takes, mode, params, n, nick, c)
            case None => forall i :: 0 <= i < n ==> !Names(takes, mode, params, i, nick, c)
            case Some(plus) =>
              exists j :: 0 <= j < n && Names(takes, mode, params, j, nick, c) && PlusAt(mode, j) == plus
                          && forall k :: j < k < n && Names(takes, mode, params, k, nick, c) ==> PlusAt(mode, k) == plus
  {
    if n > 0 { LastSignIs(takes, mode, params, n - 1, nick, c); }
  }

  /** The two signs agree for all letters of the first parameter's user exactly under the condition. */
  lemma {:induction false} SignsAgree(takes: (char, bool) -> bool, mode: string, params: seq<string>, c: char)
    requires params != []
    ensures AllForFirst(takes, mode, params) && !GivenBack(takes, mode, params, c) ==>
              LastSign(takes, mode, params, |mode|, params[0], c) == TrackedSign(mode, c)
    ensures GivenBack(takes, mode, params, c) ==>
              LastSign(takes, mode, params, |mode|, params[0], c) != TrackedSign(mode, c)
  {
    var n := |mode|;
    LastSignIs(takes, mode, params, n, params[0], c);
    UnderHas(mode, n, true, c);
    UnderHas(mode, n, false, c);
    if LastSign(takes, mode, params, n, params[0], c) == Some(true) {
      var j :| 0 <= j < n && Names(takes, mode, params, j, params[0], c) && PlusAt(mode, j)
               && forall k :: j < k < n && Names(takes, mode, params, k, params[0], c) ==> PlusAt(mode, k);
      assert LastGrant(takes, mode, params, j, c);
    }
  }

  lemma {:induction false} LostLetter(takes: (char, bool) -> bool, mode: string, params: seq<string>, i: nat)
    requires params != [] && i < |mode| && IsLetter(mode[i])
    requires forall j :: 0 <= j < |mode| ==> !Names(takes, mode, params, j, params[0], mode[i])
    ensures LastSign(takes, mode, params, |mode|, params[0], mode[i]) != TrackedSign(mode, mode[i])
  {
    LastSignIs(takes, mode, params, |mode|, params[0], mode[i]);
    UnderHas(mode, |mode|, true, mode[i]);
    UnderHas(mode, |mode|, false, mode[i]);
  }

  // ---------------------------------------------------------------- the tracker against the meaning

  /** The sign that the tracker applies to a user's mode. */
  function SignFor(mode: string, params: seq<string>, nick: string, c: char): Option<bool>
    requires params != []
  {
    if nick == params[0] then TrackedSign(mode, c) else None
  }

  ghost predicate SameSigns(takes: (char, bool) -> bool, mode: string, params: seq<string>, here: set<string>)
    requires params != []
  {
    forall nick, c :: nick in here ==> LastSign(takes, mode, params, |mode|, nick, c) == SignFor(mode, params, nick, c)
  }

  lemma {:induction false} SignDecides(r: Roster, mode: string, params: seq<string>, nick: string, c: char)
    requires params != [] && nick in r
    ensures c in ModedIn(r, params[0], mode)[nick] <==> Becomes(SignFor(mode, params, nick, c), c in r[nick])
  {
    if nick == params[0] { TrackedSignDecides(r, mode, nick, c); }
  }

  lemma {:induction false} SameSignsSame(takes: (char, bool) -> bool, mode: string, params: seq<string>, r: Roster)
    requires params != [] && SameSigns(takes, mode, params, r.Keys)
    ensures ModedIn(r, params[0], mode) == Meant(takes, r, mode, params, |mode|)
  {
    var a, b := ModedIn(r, params[0], mode), Meant(takes, r, mode, params, |mode|);
    forall nick | nick in r ensures a[nick] == b[nick] {
      forall c ensures c in a[nick] <==> c in b[nick] {
        SignDecides(r, mode, params, nick, c);
        LastSignDecides(takes, r, mode, params, |mode|, nick, c);
      }
    }
  }

  /** Users for whom two signs make a difference. */
  lemma {:induction false} OtherSignsDiffer(takes: (char, bool) -> bool, mode: string, params: seq<string>,
                                            here: set<string>, nick: string, c: char)
    returns (r: Roster)
    requires params != [] && nick in here
    requires LastSign(takes, mode, params, |mode|, nick, c) != SignFor(mode, params, nick, c)
    ensures r.Keys == here && ModedIn(r, params[0], mode) != Meant(takes, r, mode, params, |mode|)
  {
    var meant, tracked := LastSign(takes, mode, params, |mode|, nick, c), SignFor(mode, params, nick, c);
    var had := if meant.Some? then !meant.value else !tracked.value;
    r := map q | q in here :: if had then {c} else {};
    SignDecides(r, mode, params, nick, c);
    LastSignDecides(takes, r, mode, params, |mode|, nick, c);
  }

  lemma {:induction false} TractableIsSameSigns(takes: (char, bool) -> bool, mode: string, params: seq<string>,
                                                here: set<string>)
    requires params != []
    ensures Tractable(takes, mode, params, here) <==> SameSigns(takes, mode, params, here)
  {
    forall nick, c ensures Tractable(takes, mode, params, here) && nick in here ==>
                             LastSign(takes, mode, params, |mode|, nick, c) == SignFor(mode, params, nick, c)
    {
      LastSignIs(takes, mode, params, |mode|, nick, c);
      SignsAgree(takes, mode, params, c);
    }
    if SameSigns(takes, mode, params, here) {
      forall i, nick, c | 0 <= i < |mode| && nick in here && Names(takes, mode, params, i, nick, c)
        ensures nick == params[0]
      {
        LastSignIs(takes, mode, params, |mode|, nick, c);
      }
      if params[0] in here { SameSignsForFirst(takes, mode, params, here); }
    }
  }

  lemma {:induction false} SameSignsForFirst(takes: (char, bool) -> bool, mode: string, params: seq<string>,
                                             here: set<string>)
    requires params != [] && params[0] in here && SameSigns(takes, mode, params, here)
    ensures AllForFirst(takes, mode, params) && forall c :: !GivenBack(takes, mode, params, c)
  {
    forall c ensures !GivenBack(takes, mode, params, c) { SignsAgree(takes, mode, params, c); }
    forall i | 0 <= i < |mode| && IsLetter(mode[i])
      ensures exists j :: 0 <= j < |mode| && Names(takes, mode, params, j, params[0], mode[i])
    {
      if forall j :: 0 <= j < |mode| ==> !Names(takes, mode, params, j, params[0], mode[i]) {
        LostLetter(takes, mode, params, i);
        assert false;
      }
    }
  }

  /** With `here` in the channel, the tracker makes of a MODE line what it means, whatever modes they have,
      exactly if nobody here but its first parameter is named by it, and, if that one is here, every letter
      is for that one and none is given back after standing under a minus. */
  lemma {:induction false} ModeIsAsMeant(takes: (char, bool) -> bool, mode: string, params: seq<string>,
                                         ch: string, here: set<string>)
    requires params != []
    ensures (forall r: Rosters :: ch in r && r[ch].Keys == here ==>
               Moded(r, ch, params[0], mode) == r[ch := Meant(takes, r[ch], mode, params, |mode|)])
       <==> Tractable(takes, mode, params, here)
  {
    TractableIsSameSigns(takes, mode, params, here);
    if SameSigns(takes, mode, params, here) {
      forall r: Rosters | ch in r && r[ch].Keys == here
        ensures Moded(r, ch, params[0], mode) == r[ch := Meant(takes, r[ch], mode, params, |mode|)]
      {
        SameSignsSame(takes, mode, params, r[ch]);
      }
    } else {
      var nick, c :| nick in here
                     && LastSign(takes, mode, params, |mode|, nick, c) != SignFor(mode, params, nick, c);
      var r := OtherSignsDiffer(takes, mode, params, here, nick, c);
      var rs: Rosters := map[ch := r];
      assert Moded(rs, ch, params[0], mode)[ch] != Meant(takes, rs[ch], mode, params, |mode|);
    }
  }

  /** One user mode with its parameter is always tracked as meant. */
  lemma {:induction false} OneModeIsAsMeant(takes: (char, bool) -> bool, plus: bool, c: char, nick: string,
                                            here: set<string>)
    requires c in MODES
    ensures Tractable(takes, [if plus then '+' else '-', c], [nick], here)
  {
    var mode := [if plus then '+' else '-', c];
    assert mode[0] == (if plus then '+' else '-') && mode[1] == c;
    assert Used(takes, mode, 0) == 0 && PlusAt(mode, 0) == false;
    assert Used(takes, mode, 1) == 0;
    assert PlusAt(mode, 1) == plus;
    assert Names(takes, mode, [nick], 1, nick, c);
    UnderHas(mode, 2, false, c);
    forall d ensures !GivenBack(takes, mode, [nick], d) {
      UnderHas(mode, 2, false, d);
    }
  }

  /** Two users in one line are not. */
  lemma {:induction false} TwoUsersAreNot(takes: (char, bool) -> bool, a: string, b: string, here: set<string>)
    requires a != b && b in here
    ensures !Tractable(takes, "+ov", [a, b], here)
  {
    var mode := "+ov";
    assert Used(takes, mode, 1) == 0;
    assert Used(takes, mode, 2) == 1;
    assert Names(takes, mode, [a, b], 2, b, 'v');
  }
}
