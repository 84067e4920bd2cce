/** The IRC line parser and the escaping of tag values. */
module IrcMessage {
  import opened Wrappers
  import opened Text

  // ---------------------------------------------------------------- tag values

  /** What the replacer of `unescapeTag` puts for a backslash followed by `c`. */
  function Unescaped(c: char): Option<char> {
    match c
    case ':' => Some(';')
    case 's' => Some(' ')
    case '\\' => Some('\\')
    case 'r' => Some('\r')
    case 'n' => Some('\n')
    case _ => None
  }

  /** Left to right, without overlap; anything else is kept, stray backslashes included. */
  function Unescape(s: string): string {
    if s == "" then ""
    else if s[0] == '\\' && |s| > 1 && Unescaped(s[1]).Some? then [Unescaped(s[1]).value] + Unescape(s[2..])
    else [s[0]] + Unescape(s[1..])
  }

  /** The value escaping of IRCv3 Message Tags. */
  function EscapeChar(c: char): string {
    match c
    case ';' => "\\:"
    case ' ' => "\\s"
    case '\\' => "\\\\"
    case '\r' => "\\r"
    case '\n' => "\\n"
    case _ => [c]
  }

  function Escape(v: string): string { if v == "" then "" else EscapeChar(v[0]) + Escape(v[1..]) }

  /** Unescaping undoes escaping for every value. */
  lemma {:induction false} UnescapeEscape(v: string)
    ensures Unescape(Escape(v)) == v
  {
    if v != "" {
      var e, rest := EscapeChar(v[0]), Escape(v[1..]);
      UnescapeEscape(v[1..]);
      assert (e + rest)[|e|..] == rest;
      assert v == [v[0]] + v[1..];
    }
  }

  lemma {:induction false} EscapedIsClean(v: string)
    ensures forall c :: c in Escape(v) ==> c != ';' && c != ' '
  {
    if v != "" { EscapedIsClean(v[1..]); }
  }

  /** The decoding IRCv3 Message Tags asks for drops a stray backslash. */
  function StandardUnescape(s: string): string {
    if s == "" then ""
    else if s[0] != '\\' then [s[0]] + StandardUnescape(s[1..])
    else if |s| == 1 then ""
    else [if Unescaped(s[1]).Some? then Unescaped(s[1]).value else s[1]] + StandardUnescape(s[2..])
  }

  /** Backslashes that start no escape sequence. */
  function Strays(s: string): nat {
    if s == "" then 0
    else if s[0] != '\\' then Strays(s[1..])
    else if |s| == 1 then 1
    else (if Unescaped(s[1]).Some? then 0 else 1) + Strays(s[2..])
  }

  lemma {:induction false} StrayBackslashes(s: string)
    ensures |Unescape(s)| == |StandardUnescape(s)| + Strays(s)
    ensures Strays(s) == 0 ==> Unescape(s) == StandardUnescape(s)
  {
    if s == "" {
    } else if s[0] != '\\' {
      StrayBackslashes(s[1..]);
    } else if |s| > 1 {
      StrayBackslashes(s[2..]);
      if Unescaped(s[1]).None? { assert Unescape(s[1..]) == [s[1]] + Unescape(s[1..][1..]) && s[1..][1..] == s[2..]; }
    } else {
      assert s[1..] == "";
    }
  }

  /** The code decodes as the standard does exactly when there is no stray backslash. */
  lemma UnescapeIsStandard(s: string)
    ensures Unescape(s) == StandardUnescape(s) <==> Strays(s) == 0
  {
    StrayBackslashes(s);
  }

  // ---------------------------------------------------------------- parsing

  type Tags = map<string, string>

  datatype Message = Message(tags: Option<Tags>, sender: string, ident: string, host: string, command: string,
                             params: seq<string>)

  /** A panic, `nil`, or a message. */
  datatype Parsed = Panic | Nil | Parsed(msg: Message)

  function LastParam(params: seq<string>): string { if params == [] then "" else params[|params| - 1] }

  function SplitParam(p: string): (string, string) {
    match Index(p, '=')
    case None => (p, "")
    case Some(i) => (p[..i], p[i + 1..])
  }

  function WithTag(m: Tags, tag: string): Tags {
    var (key, val) := SplitParam(tag);
    if key == "" then m else m[key := Unescape(val)]
  }

  /** A tag without an equals sign has the empty value, and one without a key is ignored. */
  lemma {:induction false} TagMeans(m: Tags, key: string, val: string)
    requires '=' !in key
    ensures WithTag(m, key) == if key == "" then m else m[key := ""]
    ensures WithTag(m, key + "=" + val) == if key == "" then m else m[key := Unescape(val)]
  {
    IndexIs(key, '=', val);
    assert (key + "=" + val)[..|key|] == key && (key + "=" + val)[|key| + 1..] == val;
  }

  function TagMap(tags: seq<string>): Tags {
    if tags == [] then map[] else WithTag(TagMap(tags[..|tags| - 1]), tags[|tags| - 1])
  }

  /** What follows a run of spaces; `None` is the index panic when nothing does. */
  function SkipSpaces(s: string): Option<string> {
    if s == "" then None else if s[0] == ' ' then SkipSpaces(s[1..]) else Some(s)
  }

  datatype Source = Source(sender: string, ident: string, host: string)

  function ParseSource(prefix: string): Source {
    var bang, at := Index(prefix, '!'), Index(prefix, '@');
    if bang.Some? && bang.value > 0 then
      var rest := prefix[bang.value + 1..];
      var i := Index(rest, '@');
      if i.Some? && i.value > 0 then Source(prefix[..bang.value], rest[..i.value], rest[i.value + 1..])
      else Source(prefix[..bang.value], rest, "")
    else if at.Some? && at.value > 0 then Source(prefix[..at.value], "", prefix[at.value + 1..])
    else Source(prefix, "", "")
  }

  lemma {:induction false} SourceSplit(sender: string, rest: string)
    requires sender != "" && '!' !in sender
    ensures var i := Index(rest, '@');
            ParseSource(sender + "!" + rest) == if i.Some? && i.value > 0
                                                then Source(sender, rest[..i.value], rest[i.value + 1..])
                                                else Source(sender, rest, "")
  {
    var s := sender + "!" + rest;
    IndexIs(sender, '!', rest);
    assert s == sender + ['!'] + rest && s[..|sender|] == sender && s[|sender| + 1..] == rest;
  }

  /** A sender may be followed by an ident, and that by a host. */
  lemma {:induction false} SourceWithHost(sender: string, ident: string, host: string)
    requires sender != "" && '!' !in sender && ident != "" && '@' !in ident
    ensures ParseSource(sender + "!" + (ident + "@" + host)) == Source(sender, ident, host)
  {
    HostFound(ident, host);
    SourceSplit(sender, ident + "@" + host);
  }

  lemma {:induction false} HostFound(ident: string, host: string)
    requires '@' !in ident
    ensures var rest := ident + "@" + host;
            Index(rest, '@') == Some(|ident|) && rest[..|ident|] == ident && rest[|ident| + 1..] == host
  {
    IndexIs(ident, '@', host);
    assert ident + "@" + host == ident + ['@'] + host;
  }

  /** What follows the sign is the ident if it has no host, or starts with one. */
  lemma {:induction false} SourceWithIdent(sender: string, ident: string)
    requires sender != "" && '!' !in sender && ('@' !in ident || ident[0] == '@')
    ensures ParseSource(sender + "!" + ident) == Source(sender, ident, "")
  {
    SourceSplit(sender, ident);
  }

  /** Without an ident there may be a host. */
  lemma {:induction false} SourceWithoutIdent(sender: string, host: string)
    requires '!' !in sender + "@" + host || (sender + "@" + host)[0] == '!'
    requires sender != "" && '@' !in sender
    ensures ParseSource(sender + "@" + host) == Source(sender, "", host)
  {
    var s := sender + "@" + host;
    IndexIs(sender, '@', host);
    assert s == sender + ['@'] + host && s[..|sender|] == sender && s[|sender| + 1..] == host;
  }

  lemma {:induction false} SourceAlone(sender: string)
    requires '!' !in sender || sender[0] == '!'
    requires '@' !in sender || sender[0] == '@'
    ensures ParseSource(sender) == Source(sender, "", "")
  {
  }

  /** `strings.Index(s, " :")`. */
  function IndexTrailing(s: string): (r: Option<nat>)
    ensures r.Some? ==> r.value + 2 <= |s|
  {
    if |s| < 2 then None
    else if s[0] == ' ' && s[1] == ':' then Some(0)
    else match IndexTrailing(s[1..]) case None => None case Some(i) => Some(i + 1)
  }

  function ParseCommand(line: string, tags: Option<Tags>, from: Source): Parsed {
    var i := IndexTrailing(line);
    var cmd := Fields(if i.Some? then line[..i.value] else line);
    var trailing := if i.Some? then [line[i.value + 2..]] else [];
    if cmd == [] then Nil
    else Parsed(Message(tags, from.sender, from.ident, from.host, cmd[0], cmd[1..] + trailing))
  }

  function ParseRest(line: string, tags: Option<Tags>): Parsed {
    if line != "" && line[0] == ':' then
      match Index(line, ' ')
      case None => Nil
      case Some(next) =>
        assert next > 0;
        ParseCommand(line[next + 1..], tags, ParseSource(line[1..next]))
    else ParseCommand(line, tags, Source("", "", ""))
  }

  function Parse(line: string): Parsed {
    if line != "" && line[0] == '@' then
      match Index(line, ' ')
      case None => Nil
      case Some(next) =>
        assert next > 0;
        var tags := TagMap(Split(line[1..next], ';'));
        match SkipSpaces(line[next + 1..])
        case None => Panic
        case Some(rest) => ParseRest(rest, Some(tags))
    else ParseRest(line, None)
  }

  method ParseTags(tags: seq<string>) returns (m: Tags)
    ensures m == TagMap(tags)
  {
    m := map[];
    for i := 0 to |tags|
      invariant m == TagMap(tags[..i])
    {
      assert tags[..i + 1][..i] == tags[..i];
      var (key, val) := SplitParam(tags[i]);
      if key == "" { continue; }
      if val != "" {
        m := m[key := Unescape(val)];
      } else {
        m := m[key := ""];
      }
    }
    assert tags[..|tags|] == tags;
  }

  method ParseMessage(text: string) returns (r: Parsed)
    ensures r == Parse(text)
  {
    var line, tags := text, None;
    if line != "" && line[0] == '@' {
      var at := Index(line, ' ');
      if at.None? { return Nil; }
      var next := at.value;
      assert next > 0;
      var m := ParseTags(Split(line[1..next], ';'));
      tags := Some(m);
      while next + 1 < |line| && line[next + 1] == ' '
        invariant at.value <= next < |line|
        invariant SkipSpaces(line[at.value + 1..]) == SkipSpaces(line[next + 1..])
      {
        assert line[next + 1..][1..] == line[next + 2..];
        next := next + 1;
      }
      if next + 1 >= |line| { return Panic; }
      line := line[next + 1..];
    }
    r := ParseRest(line, tags);
  }

  // ---------------------------------------------------------------- safety

  predicate OnlySpaces(s: string, from: nat) { forall i :: from <= i < |s| ==> s[i] == ' ' }

  lemma {:induction false} SkipSpacesPanics(s: string)
    ensures SkipSpaces(s).None? <==> OnlySpaces(s, 0)
  {
    if s != "" {
      SkipSpacesPanics(s[1..]);
      assert forall i :: 1 <= i < |s| ==> s[i] == s[1..][i - 1];
    }
  }

  /** The parser indexes out of range exactly on tagged lines with nothing but spaces after the tags. */
  lemma {:induction false} PanicsExactly(line: string)
    ensures Parse(line).Panic? <==>
              line != "" && line[0] == '@' && ' ' in line && OnlySpaces(line, Index(line, ' ').value)
  {
    if line != "" && line[0] == '@' && ' ' in line {
      var next := Index(line, ' ').value;
      var rest := line[next + 1..];
      SkipSpacesPanics(rest);
      if OnlySpaces(rest, 0) {
        forall i | next <= i < |line| ensures line[i] == ' ' {
          if i > next { assert line[i] == rest[i - next - 1]; }
        }
      }
      if OnlySpaces(line, next) {
        forall i | 0 <= i < |rest| ensures rest[i] == ' ' { assert rest[i] == line[next + 1 + i]; }
      }
    }
  }

  /** There is nothing but white space before the trailing parameter. */
  predicate NoCommand(body: string) {
    var i := IndexTrailing(body);
    forall j :: 0 <= j < (if i.Some? then i.value else |body|) ==> IsSpace(body[j])
  }

  lemma {:induction false} FieldsEmpty(s: string)
    ensures Fields(s) == [] <==> forall j :: 0 <= j < |s| ==> IsSpace(s[j])
  {
    if s != "" {
      FieldsEmpty(s[1..]);
      assert forall j :: 1 <= j < |s| ==> s[j] == s[1..][j - 1];
    }
  }

  lemma {:induction false} BodyIsNil(body: string, tags: Option<Tags>, from: Source)
    ensures ParseCommand(body, tags, from).Nil? <==> NoCommand(body)
  {
    var i := IndexTrailing(body);
    FieldsEmpty(if i.Some? then body[..i.value] else body);
  }

  /** A line without tags has no meaning exactly if it is a source without a blank behind it, or has no command. */
  lemma {:induction false} NilExactly(line: string)
    requires line == "" || line[0] != '@'
    ensures Parse(line).Nil? <==>
              if line != "" && line[0] == ':' then ' ' !in line || NoCommand(line[Index(line, ' ').value + 1..])
              else NoCommand(line)
  {
    if line != "" && line[0] == ':' {
      if ' ' in line {
        var next := Index(line, ' ').value;
        BodyIsNil(line[next + 1..], None, ParseSource(line[1..next]));
      }
    } else {
      BodyIsNil(line, None, Source("", "", ""));
    }
  }

  /** Tags are taken off the front of a line with all blanks behind them; without a blank there is no line. */
  lemma {:induction false} TagsTakenOff(tags: string, blanks: string, rest: string)
    requires ' ' !in tags && OnlySpaces(blanks, 0) && blanks != "" && rest != "" && rest[0] != ' '
    ensures Parse("@" + tags).Nil?
    ensures Parse("@" + tags + blanks + rest) == ParseRest(rest, Some(TagMap(Split(tags, ';'))))
  {
    var line := "@" + tags + blanks + rest;
    var after := blanks[1..] + rest;
    assert line == ("@" + tags) + [' '] + after;
    IndexIs("@" + tags, ' ', after);
    assert line[1..|tags| + 1] == tags && line[|tags| + 2..] == after;
    assert OnlySpaces(blanks[1..], 0);
    SkipsBlanks(blanks[1..], rest);
  }

  lemma {:induction false} SkipsBlanks(blanks: string, rest: string)
    requires OnlySpaces(blanks, 0) && rest != "" && rest[0] != ' '
    ensures SkipSpaces(blanks + rest) == Some(rest)
  {
    if blanks == "" {
      assert blanks + rest == rest;
    } else {
      assert (blanks + rest)[1..] == blanks[1..] + rest;
      assert OnlySpaces(blanks[1..], 0);
      SkipsBlanks(blanks[1..], rest);
    }
  }

  /** `recv` trims spaces off both ends before parsing, and no trimmed line makes the parser panic. */
  lemma {:induction false} TrimmedIsSafe(line: string)
    requires line == "" || line[|line| - 1] != ' '
    ensures !Parse(line).Panic?
  {
    PanicsExactly(line);
  }
}
