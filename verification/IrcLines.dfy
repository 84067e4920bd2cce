/** Outgoing IRC lines: printing them, parsing them back, and what arrives of them at the other end. */
module IrcLines {
  import opened Wrappers
  import opened Text
  import opened IrcMessage

  /** A line before it is printed; an absent part of the source is empty. */
  datatype Line = Line(tags: seq<(string, string)>, source: Option<Source>, command: string,
                       middles: seq<string>, trailing: Option<string>)

  predicate TagOk(t: (string, string)) { t.0 != "" && '=' !in t.0 && ';' !in t.0 && ' ' !in t.0 }

  predicate SourceOk(s: Source) {
    && s.sender != "" && '!' !in s.sender && '@' !in s.sender && ' ' !in s.sender
    && '@' !in s.ident && ' ' !in s.ident && ' ' !in s.host
    && (s.ident == "" ==> '!' !in s.host)
  }

  /** A middle parameter in section 2.3.1 of RFC 2812, which moreover excludes NUL, CR and LF. */
  predicate Middle(s: string) { s != "" && ' ' !in s && s[0] != ':' }

  /** The grammar of that section, as far as the parser depends on it. */
  predicate LineOk(l: Line) {
    && (forall t :: t in l.tags ==> TagOk(t))
    && (l.source.Some? ==> SourceOk(l.source.value))
    && Middle(l.command) && l.command[0] != '@'
    && (forall m :: m in l.middles ==> Middle(m))
  }

  /** No part of the line has white space in it. */
  ghost predicate AllWords(l: Line) { Word(l.command) && forall m :: m in l.middles ==> Word(m) }

  function TagText(t: (string, string)): string { t.0 + "=" + Escape(t.1) }

  function TagTexts(ts: seq<(string, string)>): seq<string> {
    if ts == [] then [] else TagTexts(ts[..|ts| - 1]) + [TagText(ts[|ts| - 1])]
  }

  function PrintSource(s: Source): string {
    s.sender + (if s.ident == "" then "" else "!" + s.ident) + if s.host == "" then "" else "@" + s.host
  }

  function Tail(trailing: Option<string>): string {
    if trailing.None? then "" else " :" + trailing.value
  }

  function PrintBody(l: Line): string { Text.Join([l.command] + l.middles, ' ') + Tail(l.trailing) }

  function PrintUntagged(l: Line): string {
    (if l.source.None? then "" else ":" + PrintSource(l.source.value) + " ") + PrintBody(l)
  }

  function Print(l: Line): string {
    (if l.tags == [] then "" else "@" + Text.Join(TagTexts(l.tags), ';') + " ") + PrintUntagged(l)
  }

  /** What parsing should give back: the last value wins for a repeated tag. */
  function TagsOf(ts: seq<(string, string)>): Tags {
    if ts == [] then map[] else TagsOf(ts[..|ts| - 1])[ts[|ts| - 1].0 := ts[|ts| - 1].1]
  }

  function Meaning(l: Line): Message {
    var s := if l.source.Some? then l.source.value else Source("", "", "");
    Message(if l.tags == [] then None else Some(TagsOf(l.tags)), s.sender, s.ident, s.host, l.command,
            l.middles + if l.trailing.Some? then [l.trailing.value] else [])
  }

  // ---------------------------------------------------------------- command and parameters

  function Shift(n: nat, r: Option<nat>): Option<nat> { if r.None? then None else Some(n + r.value) }

  lemma {:induction false} NoTrailingInWord(w: string, s: string)
    requires ' ' !in w
    ensures IndexTrailing(w + s) == Shift(|w|, IndexTrailing(s))
  {
    if w == "" {
      assert w + s == s;
    } else {
      assert w[0] in w;
      assert (w + s)[1..] == w[1..] + s;
      NoTrailingInWord(w[1..], s);
    }
  }

  /** The first " :" of a printed line is the one in front of the trailing parameter. */
  lemma {:induction false} TrailingFound(words: seq<string>, trailing: Option<string>)
    requires words != [] && forall w :: w in words ==> ' ' !in w
    requires forall i :: 0 < i < |words| ==> words[i] != "" && words[i][0] != ':'
    ensures IndexTrailing(Text.Join(words, ' ') + Tail(trailing))
         == if trailing.None? then None else Some(|Text.Join(words, ' ')|)
  {
    var w, tail := words[0], Tail(trailing);
    if |words| == 1 {
      NoTrailingInWord(w, tail);
    } else {
      var rest := Text.Join(words[1..], ' ');
      assert words[1..][0] == words[1] && forall i :: 0 < i < |words[1..]| ==> words[1..][i] == words[i + 1];
      TrailingFound(words[1..], trailing);
      assert w + " " + rest + tail == w + (" " + (rest + tail));
      NoTrailingInWord(w, " " + (rest + tail));
      JoinStarts(words[1..]);
      assert (" " + (rest + tail))[1..] == rest + tail;
    }
  }

  lemma JoinStarts(words: seq<string>)
    requires words != [] && words[0] != ""
    ensures Text.Join(words, ' ') != "" && Text.Join(words, ' ')[0] == words[0][0]
  {
  }

  lemma {:induction false} BodyFields(l: Line, tags: Option<Tags>, from: Source)
    requires LineOk(l)
    ensures var cmd := Fields(Text.Join([l.command] + l.middles, ' '));
            ParseCommand(PrintBody(l), tags, from)
            == if cmd == [] then Nil
               else Parsed(Message(tags, from.sender, from.ident, from.host, cmd[0],
                                   cmd[1..] + if l.trailing.Some? then [l.trailing.value] else []))
  {
    var words := [l.command] + l.middles;
    var head, s := Text.Join(words, ' '), PrintBody(l);
    assert forall i :: 0 < i < |words| ==> words[i] == l.middles[i - 1] && words[i] in l.middles;
    TrailingFound(words, l.trailing);
    if l.trailing.Some? {
      assert s[..|head|] == head && s[|head| + 2..] == l.trailing.value;
    } else {
      assert s == head;
    }
  }

  /** Command and parameters come back exactly if they are words. */
  lemma {:induction false} BodyParses(l: Line, tags: Option<Tags>, from: Source)
    requires LineOk(l)
    ensures ParseCommand(PrintBody(l), tags, from)
         == Parsed(Message(tags, from.sender, from.ident, from.host, l.command,
                           l.middles + if l.trailing.Some? then [l.trailing.value] else []))
       <==> AllWords(l)
  {
    var words := [l.command] + l.middles;
    var cmd := Fields(Text.Join(words, ' '));
    var rest := if l.trailing.Some? then [l.trailing.value] else [];
    BodyFields(l, tags, from);
    FieldsJoinExactly(words);
    assert words[0] == l.command && words[1..] == l.middles;
    assert AllWords(l) <==> forall w :: w in words ==> Word(w);
    if cmd != [] && cmd[0] == l.command && cmd[1..] + rest == l.middles + rest {
      assert (cmd[1..] + rest)[..|cmd| - 1] == cmd[1..] && (l.middles + rest)[..|l.middles|] == l.middles;
      assert cmd == [cmd[0]] + cmd[1..];
    }
  }

  // ---------------------------------------------------------------- source

  /** Cutting a string at the first occurrence of a character. */
  lemma {:induction false} CutAt(a: string, c: char, b: string, s: string)
    requires c !in a && s == a + [c] + b
    ensures Index(s, c) == Some(|a|) && s[..|a|] == a && s[|a| + 1..] == b
  {
    IndexIs(a, c, b);
  }

  lemma {:induction false} IndexAbsent(s: string, c: char)
    requires c !in s
    ensures Index(s, c) == None
  {
  }

  lemma {:induction false} NickIdentHost(s: Source)
    requires SourceOk(s) && s.ident != ""
    ensures ParseSource(PrintSource(s)) == s
  {
    var rest := s.ident + if s.host == "" then "" else "@" + s.host;
    assert PrintSource(s) == s.sender + "!" + rest;
    CutAt(s.sender, '!', rest, PrintSource(s));
    if s.host == "" {
      assert rest == s.ident;
      IndexAbsent(rest, '@');
    } else {
      assert rest == s.ident + "@" + s.host;
      CutAt(s.ident, '@', s.host, rest);
    }
  }

  lemma {:induction false} NickHost(s: Source)
    requires SourceOk(s) && s.ident == ""
    ensures ParseSource(PrintSource(s)) == s
  {
    IndexAbsent(PrintSource(s), '!');
    if s.host == "" {
      assert PrintSource(s) == s.sender;
      IndexAbsent(s.sender, '@');
    } else {
      assert PrintSource(s) == s.sender + "@" + s.host;
      CutAt(s.sender, '@', s.host, PrintSource(s));
    }
  }

  lemma SourceParses(s: Source)
    requires SourceOk(s)
    ensures ParseSource(PrintSource(s)) == s
  {
    if s.ident == "" { NickHost(s); } else { NickIdentHost(s); }
  }

  lemma {:induction false} UntaggedParses(l: Line, tags: Option<Tags>)
    requires LineOk(l)
    ensures ParseRest(PrintUntagged(l), tags) == Parsed(Meaning(l).(tags := tags)) <==> AllWords(l)
  {
    var body := PrintBody(l);
    if l.source.Some? {
      var p := PrintSource(l.source.value);
      SourceParses(l.source.value);
      ColonParses(p, body, tags);
      BodyParses(l, tags, l.source.value);
    } else {
      JoinStarts([l.command] + l.middles);
      assert PrintUntagged(l) == body && body[0] == l.command[0];
      BodyParses(l, tags, Source("", "", ""));
    }
  }

  lemma {:induction false} ColonParses(p: string, body: string, tags: Option<Tags>)
    requires ' ' !in p
    ensures ParseRest(":" + p + " " + body, tags) == ParseCommand(body, tags, ParseSource(p))
  {
    var line := ":" + p + " " + body;
    CutAt(":" + p, ' ', body, line);
    assert line[1..|p| + 1] == p;
  }

  // ---------------------------------------------------------------- tags

  lemma {:induction false} TagParses(t: (string, string))
    requires TagOk(t)
    ensures SplitParam(TagText(t)) == (t.0, Escape(t.1))
    ensures ';' !in TagText(t) && ' ' !in TagText(t)
  {
    CutAt(t.0, '=', Escape(t.1), TagText(t));
    EscapedIsClean(t.1);
  }

  lemma {:induction false} TagsParse(ts: seq<(string, string)>)
    requires forall t :: t in ts ==> TagOk(t)
    ensures TagMap(TagTexts(ts)) == TagsOf(ts) && |TagTexts(ts)| == |ts|
    ensures forall x :: x in TagTexts(ts) ==> ';' !in x && ' ' !in x
  {
    if ts != [] {
      var front, last := ts[..|ts| - 1], ts[|ts| - 1];
      TagsParse(front);
      TagParses(last);
      UnescapeEscape(last.1);
      assert TagTexts(ts)[..|ts| - 1] == TagTexts(front);
    }
  }

  lemma {:induction false} JoinKeepsOut(parts: seq<string>, sep: char, c: char)
    requires c != sep && forall p :: p in parts ==> c !in p
    ensures c !in Text.Join(parts, sep)
  {
    if |parts| > 1 { JoinKeepsOut(parts[1..], sep, c); }
  }

  lemma {:induction false} TagPartParses(joined: string, rest: string)
    requires ' ' !in joined && rest != "" && rest[0] != ' '
    ensures Parse("@" + joined + " " + rest) == ParseRest(rest, Some(TagMap(Split(joined, ';'))))
  {
    var line := "@" + joined + " " + rest;
    CutAt("@" + joined, ' ', rest, line);
    assert line[1..|joined| + 1] == joined;
  }

  lemma {:induction false} UntaggedStarts(l: Line)
    requires LineOk(l)
    ensures var s := PrintUntagged(l); s != "" && s[0] != ' ' && s[0] != '@'
  {
    JoinStarts([l.command] + l.middles);
    assert l.command[0] in l.command;
    assert l.source.None? ==> PrintUntagged(l) == PrintBody(l) && PrintBody(l)[0] == l.command[0];
  }

  /** Parsing recovers tags, source, command and parameters from a well-formed printed line exactly if the
      command and the middle parameters have no white space, of which the grammar forbids only some. */
  lemma {:induction false} ParseInvertsPrint(l: Line)
    requires LineOk(l)
    ensures Parse(Print(l)) == Parsed(Meaning(l)) <==> AllWords(l)
  {
    var rest := PrintUntagged(l);
    UntaggedStarts(l);
    if l.tags == [] {
      assert Print(l) == rest;
      UntaggedParses(l, None);
    } else {
      TagsParse(l.tags);
      var joined := Text.Join(TagTexts(l.tags), ';');
      JoinKeepsOut(TagTexts(l.tags), ';', ' ');
      SplitJoin(TagTexts(l.tags), ';');
      TagPartParses(joined, rest);
      UntaggedParses(l, Some(TagsOf(l.tags)));
    }
  }

  /** A parameter with other white space than a blank in it, such as a no-break space, is well-formed and is
      taken apart. */
  lemma {:induction false} TakenApart(command: string, a: string, c: char, b: string)
    requires Middle(command) && command[0] != '@' && Middle(a) && ' ' !in b && IsSpace(c) && c != ' '
    ensures var l := Line([], None, command, [a + [c] + b], None);
            LineOk(l) && Parse(Print(l)) != Parsed(Meaning(l))
  {
    var m := a + [c] + b;
    var l := Line([], None, command, [m], None);
    assert m[|a|] == c && m in l.middles;
    ParseInvertsPrint(l);
  }

  // ---------------------------------------------------------------- outgoing lines

  function Privmsg(target: string, msg: string): string { "PRIVMSG " + target + " :" + msg }
  function Notice(target: string, msg: string): string { "NOTICE " + target + " :" + msg }

  function Topic(channel: string, topic: Option<string>): string {
    "TOPIC " + channel + if topic.Some? then " :" + topic.value else ""
  }

  function Plain(command: string, params: seq<string>): Parsed {
    Parsed(Message(None, "", "", "", command, params))
  }

  /** A parameter that the parser finds again in the middle of a line. */
  predicate Plainly(s: string) { Word(s) && s[0] != ':' }

  lemma {:induction false} PlainlyIsMiddle(s: string)
    requires Plainly(s)
    ensures Middle(s)
  {
    assert IsSpace(' ');
  }

  /** A command of ours. */
  predicate Command(c: string) { Plainly(c) && c[0] != '@' }

  lemma {:induction false} CommandWord(c: string)
    requires c in {"PRIVMSG", "NOTICE", "TOPIC"}
    ensures Command(c)
  {
  }

  lemma {:induction false} OneMiddleParses(command: string, m: string, trailing: Option<string>)
    requires Command(command) && Plainly(m)
    ensures Parse(command + " " + m + Tail(trailing))
         == Plain(command, [m] + if trailing.Some? then [trailing.value] else [])
  {
    var l := Line([], None, command, [m], trailing);
    PlainlyIsMiddle(command);
    PlainlyIsMiddle(m);
    assert [command, m][1..] == [m];
    assert Text.Join([command, m], ' ') == command + " " + m;
    assert [command] + [m] == [command, m];
    assert Print(l) == command + " " + m + Tail(trailing);
    ParseInvertsPrint(l);
  }

  lemma {:induction false} OnlyTrailingParses(command: string, text: string)
    requires Command(command)
    ensures Parse(command + " :" + text) == Plain(command, [text])
  {
    var l := Line([], None, command, [], Some(text));
    PlainlyIsMiddle(command);
    assert [command] + [] == [command];
    assert Print(l) == command + " :" + text;
    ParseInvertsPrint(l);
    assert [] + [text] == [text];
  }

  /** Whatever is parsed, all parameters but the last are words, and so is the last one if it is not a
      trailing one. */
  lemma {:induction false} ParamsAreWords(line: string)
    requires Parse(line).Parsed?
    ensures var ps := Parse(line).msg.params; forall i :: 0 <= i < |ps| - 1 ==> Word(ps[i])
    ensures line != "" && line[0] != '@' && line[0] != ':' && Parse(line).msg.params != [] ==>
              var ps, i := Parse(line).msg.params, IndexTrailing(line);
              if i.None? then Word(ps[|ps| - 1]) else ps[|ps| - 1] == line[i.value + 2..]
  {
    var rest := Untagged(line);
    var body := Bodied(rest);
    var i := IndexTrailing(body);
    FieldsAreWords(if i.Some? then body[..i.value] else body);
  }

  /** What `Parse` hands to `ParseRest`, and that to `ParseCommand`. */
  ghost function Untagged(line: string): string {
    if line != "" && line[0] == '@' && ' ' in line then
      var s := SkipSpaces(line[Index(line, ' ').value + 1..]);
      if s.Some? then s.value else ""
    else line
  }

  ghost function Bodied(rest: string): string {
    if rest != "" && rest[0] == ':' && ' ' in rest then rest[Index(rest, ' ').value + 1..] else rest
  }

  function Head(command: string, target: string): string { command + " " + target + " :" }

  /** A target is parsed back exactly if it is a word that does not start with a colon. */
  lemma {:induction false} TextParses(command: string, target: string, text: string)
    requires Command(command)
    ensures Parse(Head(command, target) + text) == Plain(command, [target, text]) <==> Plainly(target)
  {
    var line := Head(command, target) + text;
    assert [target, text][0] == target;
    if Plainly(target) {
      OneMiddleParses(command, target, Some(text));
      assert line == command + " " + target + Tail(Some(text));
    } else if target != "" && target[0] == ':' {
      OnlyTrailingParses(command, target[1..] + " :" + text);
      assert target == ":" + target[1..];
      assert line == command + " :" + (target[1..] + " :" + text);
    } else if Parse(line) == Plain(command, [target, text]) {
      ParamsAreWords(line);
    }
  }

  lemma {:induction false} PrivmsgParses(target: string, msg: string)
    ensures Parse(Privmsg(target, msg)) == Plain("PRIVMSG", [target, msg]) <==> Plainly(target)
  {
    CommandWord("PRIVMSG");
    TextParses("PRIVMSG", target, msg);
    assert Privmsg(target, msg) == Head("PRIVMSG", target) + msg;
  }

  lemma {:induction false} NoticeParses(target: string, msg: string)
    ensures Parse(Notice(target, msg)) == Plain("NOTICE", [target, msg]) <==> Plainly(target)
  {
    CommandWord("NOTICE");
    TextParses("NOTICE", target, msg);
    assert Notice(target, msg) == Head("NOTICE", target) + msg;
  }

  lemma {:induction false} TopicParses(channel: string, topic: Option<string>)
    ensures Parse(Topic(channel, topic)) == Plain("TOPIC", [channel] + if topic.Some? then [topic.value] else [])
       <==> Plainly(channel)
  {
    CommandWord("TOPIC");
    if topic.Some? {
      TextParses("TOPIC", channel, topic.value);
      assert Topic(channel, topic) == Head("TOPIC", channel) + topic.value;
    } else {
      TopicRequestParses(channel);
      assert Topic(channel, topic) == "TOPIC " + channel && [channel] + [] == [channel];
    }
  }

  lemma {:induction false} TopicRequestParses(channel: string)
    ensures Parse("TOPIC " + channel) == Plain("TOPIC", [channel]) <==> Plainly(channel)
  {
    var line := "TOPIC " + channel;
    assert line[4] == 'C';
    CommandWord("TOPIC");
    if Plainly(channel) {
      OneMiddleParses("TOPIC", channel, None);
      assert line == "TOPIC" + " " + channel + Tail(None);
    } else if channel != "" && channel[0] == ':' {
      OnlyTrailingParses("TOPIC", channel[1..]);
      assert channel == ":" + channel[1..];
      assert line == "TOPIC" + " :" + channel[1..];
      assert [channel[1..]][0] != channel;
    } else if Parse(line) == Plain("TOPIC", [channel]) {
      ParamsAreWords(line);
      TrailingIs(line);
    }
  }

  lemma {:induction false} TrailingIs(s: string)
    ensures IndexTrailing(s).Some? ==> s[IndexTrailing(s).value] == ' ' && s[IndexTrailing(s).value + 1] == ':'
  {
    if |s| >= 2 && !(s[0] == ' ' && s[1] == ':') { TrailingIs(s[1..]); }
  }

  // ---------------------------------------------------------------- receipt

  function TrimRight(s: string, c: char): string {
    if s != "" && s[|s| - 1] == c then TrimRight(s[..|s| - 1], c) else s
  }

  function TrimLeft(s: string, c: char): string { if s != "" && s[0] == c then TrimLeft(s[1..], c) else s }

  /** `bytes.Trim` and `strings.Trim` with a single character. */
  function Trim(s: string, c: char): string { TrimLeft(TrimRight(s, c), c) }

  /** Trimming stops at the last other character. */
  lemma {:induction false} TrimRightKeeps(a: string, b: string, c: char)
    requires a != "" && a[|a| - 1] != c
    ensures TrimRight(a + b, c) == a + TrimRight(b, c)
  {
    if b == "" {
      assert a + b == a;
    } else {
      var s := a + b;
      assert s[..|s| - 1] == a + b[..|b| - 1];
      if b[|b| - 1] == c { TrimRightKeeps(a, b[..|b| - 1], c); }
    }
  }

  lemma {:induction false} TrimRightLast(s: string, c: char)
    ensures TrimRight(s, c) == s <==> s == "" || s[|s| - 1] != c
    ensures TrimRight(s, c) == "" || TrimRight(s, c)[|TrimRight(s, c)| - 1] != c
    ensures |TrimRight(s, c)| <= |s|
  {
    if s != "" && s[|s| - 1] == c { TrimRightLast(s[..|s| - 1], c); }
  }

  lemma {:induction false} TrimLeftLast(s: string, c: char)
    ensures TrimLeft(s, c) == "" || (s != "" && TrimLeft(s, c)[|TrimLeft(s, c)| - 1] == s[|s| - 1])
  {
    if s != "" && s[0] == c { TrimLeftLast(s[1..], c); }
  }

  /** No line that `recv` hands to the parser makes it read past the end. */
  lemma {:induction false} ReceivedIsSafe(line: string)
    ensures !Parse(Trim(line, ' ')).Panic?
  {
    TrimRightLast(line, ' ');
    TrimLeftLast(TrimRight(line, ' '), ' ');
    TrimmedIsSafe(Trim(line, ' '));
  }

  function DropCR(s: string): string { if s != "" && s[|s| - 1] == '\r' then s[..|s| - 1] else s }

  /** The lines a `bufio.Scanner` finds in a stream. */
  function Lines(s: string): seq<string>
    decreases |s|
  {
    if s == "" then []
    else
      match Index(s, '\n')
      case None => [DropCR(s)]
      case Some(i) => [DropCR(s[..i])] + Lines(s[i + 1..])
  }

  /** `recv`: lines are trimmed, blank ones are skipped, and a line without meaning ends the connection. */
  function Recv(lines: seq<string>): seq<Parsed> {
    if lines == [] then []
    else
      var line := Trim(lines[0], ' ');
      if line == "" then Recv(lines[1..])
      else if Parse(line).Parsed? then [Parse(line)] + Recv(lines[1..])
      else []
  }

  /** A line that is blank, or that the parser makes a message of. */
  predicate Acceptable(line: string) { Trim(line, ' ') == "" || Parse(Trim(line, ' ')).Parsed? }

  /** What an acceptable line gives. */
  function Received(line: string): seq<Parsed> { if Trim(line, ' ') == "" then [] else [Parse(Trim(line, ' '))] }

  function UpTo<X>(ok: string -> bool, f: string -> seq<X>, lines: seq<string>): seq<X> {
    if lines == [] || !ok(lines[0]) then [] else f(lines[0]) + UpTo(ok, f, lines[1..])
  }

  lemma {:induction false} UpToConcat<X>(ok: string -> bool, f: string -> seq<X>, a: seq<string>, b: seq<string>)
    requires forall i :: 0 <= i < |a| ==> ok(a[i])
    ensures UpTo(ok, f, a + b) == UpTo(ok, f, a) + UpTo(ok, f, b)
  {
    if a == [] {
      assert a + b == b;
    } else {
      UpToConcat(ok, f, a[1..], b);
      assert (a + b)[1..] == a[1..] + b;
    }
  }

  lemma {:induction false} RecvIs(lines: seq<string>)
    ensures Recv(lines) == UpTo(Acceptable, Received, lines)
  {
    if lines != [] { RecvIs(lines[1..]); }
  }

  /** Acceptable lines are received one after the other, and nothing from the first other line on. */
  lemma {:induction false} RecvInOrder(before: seq<string>, after: seq<string>)
    requires forall i :: 0 <= i < |before| ==> Acceptable(before[i])
    ensures Recv(before + after) == Recv(before) + Recv(after)
    ensures after != [] && !Acceptable(after[0]) ==> Recv(after) == []
  {
    UpToConcat(Acceptable, Received, before, after);
    RecvIs(before);
    RecvIs(before + after);
    RecvIs(after);
  }

  /** What arrives of a text written as one line. */
  function Arrives(text: string): seq<Parsed> { Recv(Lines(text + "\r\n")) }

  /** As much of a text as its first line holds. */
  function FirstLine(text: string): string {
    match Index(text, '\n') case None => text case Some(i) => DropCR(text[..i])
  }

  lemma {:induction false} FirstLineShorter(text: string)
    ensures '\n' in text ==> |FirstLine(text)| < |text|
    ensures '\n' !in text ==> FirstLine(text) == text
  {
  }

  lemma {:induction false} LinesCut(a: string, b: string)
    requires '\n' !in a
    ensures Lines(a + "\n" + b) == [DropCR(a)] + Lines(b)
  {
    CutAt(a, '\n', b, a + "\n" + b);
  }

  lemma {:induction false} DropCRBehind(head: string, text: string)
    requires head != "" && head[|head| - 1] != '\r'
    ensures DropCR(head + text) == head + DropCR(text)
  {
    if text == "" { assert head + text == head; }
  }

  lemma {:induction false} LinesOf(head: string, text: string)
    requires '\n' !in head && head != "" && head[|head| - 1] != '\r'
    ensures var ls := Lines(head + text + "\r\n");
            ls != [] && ls[0] == head + FirstLine(text) && ('\n' !in text ==> ls == [head + text])
  {
    if '\n' in text {
      var i := Index(text, '\n').value;
      var a, b := text[..i], text[i + 1..] + "\r\n";
      assert text == a + "\n" + text[i + 1..];
      assert head + text + "\r\n" == (head + a) + "\n" + b;
      LinesCut(head + a, b);
      DropCRBehind(head, a);
    } else {
      var line := head + text + "\r";
      assert head + text + "\r\n" == line + "\n" + "";
      LinesCut(line, "");
      assert line[..|line| - 1] == head + text;
    }
  }

  lemma {:induction false} HeadKeepsOut(command: string, target: string)
    requires Command(command) && Word(target)
    ensures '\n' !in Head(command, target) && Head(command, target)[0] == command[0] != ' '
  {
    assert command[0] in command;
  }

  /** The line that arrives first. */
  lemma {:induction false} FirstArrives(command: string, target: string, text: string)
    requires Command(command) && Word(target)
    ensures var line := Head(command, target) + TrimRight(FirstLine(text), ' ');
            Parse(line).Parsed? ==>
              Arrives(Head(command, target) + text)
              == [Parse(line)] + Recv(Lines(Head(command, target) + text + "\r\n")[1..])
  {
    var head, first := Head(command, target), FirstLine(text);
    HeadKeepsOut(command, target);
    LinesOf(head, text);
    TrimRightKeeps(head, first, ' ');
    assert (head + TrimRight(first, ' '))[0] == head[0];
  }

  /** Only what a parsed line means arrives. */
  lemma {:induction false} ArrivesParsed(lines: seq<string>)
    requires Recv(lines) != []
    ensures exists line :: Parse(line).Parsed? && Recv(lines)[0] == Parse(line)
  {
    if Trim(lines[0], ' ') == "" { ArrivesParsed(lines[1..]); }
  }

  /** Of a text to a plain target its first line arrives without its trailing blanks. */
  lemma {:induction false} FirstLineArrives(command: string, target: string, text: string)
    requires Command(command) && Plainly(target)
    ensures var got := Arrives(Head(command, target) + text);
            && got != [] && got[0] == Plain(command, [target, TrimRight(FirstLine(text), ' ')])
            && ('\n' !in text ==> |got| == 1)
  {
    FirstArrives(command, target, text);
    TextParses(command, target, TrimRight(FirstLine(text), ' '));
    HeadKeepsOut(command, target);
    LinesOf(Head(command, target), text);
    var ls := Lines(Head(command, target) + text + "\r\n");
    if '\n' !in text { assert ls[1..] == []; }
  }

  lemma {:induction false} ColonTargetArrives(command: string, target: string, text: string)
    requires Command(command) && Word(target) && target[0] == ':'
    ensures var got := Arrives(Head(command, target) + text);
            got != [] && got[0].Parsed? && |got[0].msg.params| == 1
  {
    var t := TrimRight(FirstLine(text), ' ');
    var rest := target[1..] + " :" + t;
    OnlyTrailingParses(command, rest);
    assert target == ":" + target[1..];
    assert Head(command, target) + t == command + " :" + rest;
    FirstArrives(command, target, text);
  }

  /** A text arrives as it was sent, and nothing else does, exactly if its target is a word that does not start
      with a colon and it is one line that does not end in a blank. */
  lemma {:induction false} TextArrives(command: string, target: string, text: string)
    requires Command(command)
    ensures Arrives(Head(command, target) + text) == [Plain(command, [target, text])]
       <==> Plainly(target) && '\n' !in text && (text == "" || text[|text| - 1] != ' ')
  {
    var got := Arrives(Head(command, target) + text);
    assert [target, text][0] == target && [target, text][1] == text;
    if Plainly(target) {
      var first := FirstLine(text);
      FirstLineArrives(command, target, text);
      TrimRightLast(first, ' ');
      FirstLineShorter(text);
      assert [target, TrimRight(first, ' ')][1] == TrimRight(first, ' ');
    } else if Word(target) {
      ColonTargetArrives(command, target, text);
    } else if got == [Plain(command, [target, text])] {
      ArrivesParsed(Lines(Head(command, target) + text + "\r\n"));
      var line :| Parse(line).Parsed? && got[0] == Parse(line);
      ParamsAreWords(line);
    }
  }

  lemma {:induction false} PrivmsgReceived(target: string, msg: string)
    ensures Arrives(Privmsg(target, msg)) == [Plain("PRIVMSG", [target, msg])]
       <==> Plainly(target) && '\n' !in msg && (msg == "" || msg[|msg| - 1] != ' ')
  {
    CommandWord("PRIVMSG");
    assert Privmsg(target, msg) == Head("PRIVMSG", target) + msg;
    TextArrives("PRIVMSG", target, msg);
  }
}
