/** CTCP requests: encoding, decoding, and the trip through a NOTICE line. */
module Ctcp {
  import opened Wrappers
  import opened Text
  import opened IrcMessage
  import opened IrcLines

  datatype CTCP = CTCP(command: string, params: string)

  const SOH: char := '\U{01}'

  function EncodeCTCP(c: CTCP): string {
    if c.command == "" then "" else [SOH] + c.command + " " + c.params + [SOH]
  }

  /** The text between the markers, cut at its first space. */
  function Cut(t: string): Option<CTCP> {
    match Index(t, ' ')
    case None => if t == "" then None else Some(CTCP(t, ""))
    case Some(i) => if i == 0 then None else Some(CTCP(t[..i], t[i + 1..]))
  }

  function DecodeCTCP(s: string): Option<CTCP> {
    if |s| > 1 && s[0] == SOH then Cut(Trim(s, SOH)) else None
  }

  /** What is sent, with the delimiters of CTCP. */
  lemma {:induction false} EncodedText(command: string, params: string)
    requires command != ""
    ensures EncodeCTCP(CTCP(command, params)) == "\U{01}" + command + " " + params + "\U{01}"
  {
  }

  lemma {:induction false} TrimLeftStarts(s: string)
    ensures TrimLeft(s, SOH) == "" || TrimLeft(s, SOH)[0] != SOH
  {
    if s != "" && s[0] == SOH { TrimLeftStarts(s[1..]); }
  }

  /** A decoded command is not empty, has no space, and does not start with a marker. */
  lemma {:induction false} DecodedCommand(s: string)
    requires DecodeCTCP(s).Some?
    ensures var c := DecodeCTCP(s).value.command; c != "" && ' ' !in c && c[0] != SOH
  {
    TrimLeftStarts(TrimRight(s, SOH));
  }

  lemma {:induction false} TrimEncoded(c: CTCP)
    requires c.command != "" && c.command[0] != SOH
    ensures Trim(EncodeCTCP(c), SOH) == c.command + " " + TrimRight(c.params, SOH)
  {
    var inner := c.command + " " + TrimRight(c.params, SOH);
    var head, tail := [SOH] + c.command + " ", c.params + [SOH];
    assert EncodeCTCP(c) == head + tail;
    TrimRightKeeps(head, tail, SOH);
    assert tail[..|tail| - 1] == c.params;
    assert TrimRight(tail, SOH) == TrimRight(c.params, SOH);
    assert head + TrimRight(c.params, SOH) == [SOH] + inner;
    assert inner[0] == c.command[0];
    TrimLeftOnce(inner);
  }

  lemma {:induction false} TrimLeftOnce(s: string)
    requires s != "" && s[0] != SOH
    ensures TrimLeft([SOH] + s, SOH) == s
  {
    assert ([SOH] + s)[1..] == s;
    assert TrimLeft(s, SOH) == s;
  }

  /** Exactly which requests survive encoding and decoding. */
  lemma {:induction false} DecodeInvertsEncode(c: CTCP)
    ensures DecodeCTCP(EncodeCTCP(c)) == Some(c) <==>
              && c.command != "" && ' ' !in c.command && c.command[0] != SOH
              && (c.params == "" || c.params[|c.params| - 1] != SOH)
  {
    if c.command != "" && ' ' !in c.command && c.command[0] != SOH {
      TrimEncoded(c);
      CutAt(c.command, ' ', TrimRight(c.params, SOH), c.command + " " + TrimRight(c.params, SOH));
      TrimRightLast(c.params, SOH);
    } else if DecodeCTCP(EncodeCTCP(c)).Some? {
      DecodedCommand(EncodeCTCP(c));
    }
  }

  /** A request without parameters has no blank behind its command, and may lack the closing delimiter. */
  lemma {:induction false} BareRequest(command: string)
    requires command != "" && ' ' !in command && command[0] != SOH && command[|command| - 1] != SOH
    ensures DecodeCTCP("\U{01}" + command) == Some(CTCP(command, ""))
    ensures DecodeCTCP("\U{01}" + command + "\U{01}") == Some(CTCP(command, ""))
  {
    var open := "\U{01}" + command;
    TrimRightLast(open, SOH);
    TrimLeftOnce(command);
    assert (open + "\U{01}")[..|open|] == open;
  }

  function ReplyCTCP(target: string, c: CTCP): string { Notice(target, EncodeCTCP(c)) }

  /** Exactly which replies, printed, sent, received and decoded, give back the same command and parameters. */
  lemma {:induction false} ReplyArrives(target: string, c: CTCP)
    ensures Arrives(ReplyCTCP(target, c)) == [Plain("NOTICE", [target, EncodeCTCP(c)])]
            && DecodeCTCP(EncodeCTCP(c)) == Some(c)
       <==> && Plainly(target) && c.command != "" && ' ' !in c.command && '\n' !in c.command && c.command[0] != SOH
            && '\n' !in c.params && (c.params == "" || c.params[|c.params| - 1] != SOH)
  {
    var text := EncodeCTCP(c);
    CommandWord("NOTICE");
    assert ReplyCTCP(target, c) == Head("NOTICE", target) + text;
    TextArrives("NOTICE", target, text);
    DecodeInvertsEncode(c);
    if c.command != "" {
      assert text[|text| - 1] == SOH;
      assert '\n' in text <==> '\n' in c.command || '\n' in c.params;
    }
  }
}
