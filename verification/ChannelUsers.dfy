/** The users of one channel: modes, prefixes, and the list operations of the state tracker. */
module ChannelUsers {
  import opened Text

  /** In order of rank. */
  const PREFIXES := "~&@%+"
  const MODES := "qaohv"

  datatype User = User(nick: string, modes: string, prefix: string)

  // ---------------------------------------------------------------- modes and prefix

  function Letters(s: string): set<char> { set c | c in s }

  ghost predicate NoRepeat(s: string) { forall i, j :: 0 <= i < j < |s| ==> s[i] != s[j] }

  lemma LettersConcat(s: string, t: string)
    ensures Letters(s + t) == Letters(s) + Letters(t)
  {
  }

  lemma LettersOne(c: char)
    ensures Letters([c]) == {c}
  {
  }

  lemma NoRepeatCons(c: char, s: string)
    ensures NoRepeat([c] + s) <==> c !in s && NoRepeat(s)
  {
    var t := [c] + s;
    assert forall i :: 0 <= i < |s| ==> t[i + 1] == s[i];
    if NoRepeat(t) {
      forall i | 0 <= i < |s| ensures s[i] != c { assert t[0] != t[i + 1]; }
      forall i, j | 0 <= i < j < |s| ensures s[i] != s[j] { assert t[i + 1] != t[j + 1]; }
    }
  }

  /** The prefix of the highest-ranked mode among those from rank `i` on. */
  function PrefixFrom(modes: set<char>, i: nat): string
    requires i <= 5
    decreases 5 - i
  {
    if i == 5 then "" else if MODES[i] in modes then [PREFIXES[i]] else PrefixFrom(modes, i + 1)
  }

  ghost predicate Ranked(u: User) { NoRepeat(u.modes) && u.prefix == PrefixFrom(Letters(u.modes), 0) }

  /** `prefix` shows the highest-ranked mode: no mode in front of it is set. */
  lemma PrefixIsHighest(modes: set<char>, i: nat)
    requires i < 5
    ensures PrefixFrom(modes, 0) == [PREFIXES[i]] <==> MODES[i] in modes && forall j :: 0 <= j < i ==> MODES[j] !in modes
    ensures PrefixFrom(modes, 0) == "" <==> forall j :: 0 <= j < 5 ==> MODES[j] !in modes
  {
    assert PREFIXES[0] == '~' && PREFIXES[1] == '&' && PREFIXES[2] == '@' && PREFIXES[3] == '%' && PREFIXES[4] == '+';
    assert PrefixFrom(modes, 0) == if MODES[0] in modes then "~" else PrefixFrom(modes, 1);
    assert PrefixFrom(modes, 1) == if MODES[1] in modes then "&" else PrefixFrom(modes, 2);
    assert PrefixFrom(modes, 2) == if MODES[2] in modes then "@" else PrefixFrom(modes, 3);
    assert PrefixFrom(modes, 3) == if MODES[3] in modes then "%" else PrefixFrom(modes, 4);
    assert PrefixFrom(modes, 4) == if MODES[4] in modes then "+" else "";
  }

  method UpdatePrefix(u: User) returns (r: User)
    ensures r == u.(prefix := PrefixFrom(Letters(u.modes), 0))
  {
    for i := 0 to 5
      invariant PrefixFrom(Letters(u.modes), 0) == PrefixFrom(Letters(u.modes), i)
    {
      if MODES[i] in u.modes { return u.(prefix := [PREFIXES[i]]); }
    }
    r := u.(prefix := "");
  }

  method AddModes(u: User, modes: string) returns (r: User)
    requires NoRepeat(u.modes)
    ensures Ranked(r) && r.nick == u.nick && Letters(r.modes) == Letters(u.modes) + Letters(modes)
  {
    r := u;
    for i := 0 to |modes|
      invariant r.nick == u.nick && NoRepeat(r.modes)
      invariant Letters(r.modes) == Letters(u.modes) + Letters(modes[..i])
    {
      assert modes[..i + 1] == modes[..i] + [modes[i]];
      LettersConcat(modes[..i], [modes[i]]);
      LettersOne(modes[i]);
      LettersConcat(r.modes, [modes[i]]);
      if modes[i] in r.modes { continue; }
      r := r.(modes := r.modes + [modes[i]]);
    }
    assert modes[..|modes|] == modes;
    r := UpdatePrefix(r);
  }

  /** `strings.Replace(s, c, "", 1)`. */
  function DropFirst(s: string, c: char): string {
    if s == "" then "" else if s[0] == c then s[1..] else [s[0]] + DropFirst(s[1..], c)
  }

  lemma {:induction false} DropFirstRemoves(s: string, c: char)
    requires NoRepeat(s)
    ensures NoRepeat(DropFirst(s, c)) && Letters(DropFirst(s, c)) == Letters(s) - {c}
  {
    if s != "" {
      var x, t, d := s[0], s[1..], DropFirst(s[1..], c);
      assert s == [x] + t;
      NoRepeatCons(x, t);
      DropFirstRemoves(t, c);
      LettersConcat([x], t);
      LettersConcat([x], d);
      LettersOne(x);
      assert x in d ==> x in Letters(d);
      NoRepeatCons(x, d);
    }
  }

  method RemoveModes(u: User, modes: string) returns (r: User)
    requires NoRepeat(u.modes)
    ensures Ranked(r) && r.nick == u.nick && Letters(r.modes) == Letters(u.modes) - Letters(modes)
  {
    r := u;
    for i := 0 to |modes|
      invariant r.nick == u.nick && NoRepeat(r.modes)
      invariant Letters(r.modes) == Letters(u.modes) - Letters(modes[..i])
    {
      assert modes[..i + 1] == modes[..i] + [modes[i]];
      LettersConcat(modes[..i], [modes[i]]);
      LettersOne(modes[i]);
      DropFirstRemoves(r.modes, modes[i]);
      r := r.(modes := DropFirst(r.modes, modes[i]));
    }
    assert modes[..|modes|] == modes;
    r := UpdatePrefix(r);
  }

  predicate Prefixed(nick: string) { nick != "" && nick[0] in PREFIXES }

  function NickOf(name: string): string { if Prefixed(name) then name[1..] else name }

  function ModesOf(name: string): set<char> {
    if Prefixed(name) then {MODES[Index(PREFIXES, name[0]).value]} else {}
  }

  method NewUser(name: string) returns (u: User)
    ensures Ranked(u) && u.nick == NickOf(name) && Letters(u.modes) == ModesOf(name)
  {
    u := User(name, "", "");
    assert Letters("") == {};
    PrefixIsHighest({}, 0);
    if Prefixed(name) {
      var i := Index(PREFIXES, name[0]);
      u := User(name[1..], [MODES[i.value]], "");
      u := UpdatePrefix(u);
    }
  }

  // ---------------------------------------------------------------- mode strings

  /** The sign in force at position `i`: none counts as minus. */
  function PlusAt(mode: string, i: nat): bool
    requires i <= |mode|
  {
    if i == 0 then false
    else if mode[i - 1] == '+' then true
    else if mode[i - 1] == '-' then false
    else PlusAt(mode, i - 1)
  }

  predicate IsLetter(c: char) { c != '+' && c != '-' }

  /** The letters among the first `n` characters that stand under a given sign. */
  function Under(mode: string, n: nat, plus: bool): string
    requires n <= |mode|
  {
    if n == 0 then ""
    else
      var front := Under(mode, n - 1, plus);
      if IsLetter(mode[n - 1]) && PlusAt(mode, n - 1) == plus then front + [mode[n - 1]] else front
  }

  method ParseMode(mode: string) returns (added: string, removed: string)
    ensures added == Under(mode, |mode|, true) && removed == Under(mode, |mode|, false)
  {
    added, removed := "", "";
    var add := false;
    for i := 0 to |mode|
      invariant add == PlusAt(mode, i)
      invariant added == Under(mode, i, true) && removed == Under(mode, i, false)
    {
      if mode[i] == '+' {
        add := true;
      } else if mode[i] == '-' {
        add := false;
      } else if add {
        added := added + [mode[i]];
      } else {
        removed := removed + [mode[i]];
      }
    }
  }

  /** What the tracker makes of a mode string: all additions, then all removals. */
  function Applied(modes: set<char>, mode: string): set<char> {
    modes + Letters(Under(mode, |mode|, true)) - Letters(Under(mode, |mode|, false))
  }

  lemma {:induction false} UnderHas(mode: string, n: nat, plus: bool, c: char)
    requires n <= |mode|
    ensures c in Under(mode, n, plus) <==>
              exists i :: 0 <= i < n && mode[i] == c && IsLetter(c) && PlusAt(mode, i) == plus
  {
    if n > 0 { UnderHas(mode, n - 1, plus, c); }
  }
}
