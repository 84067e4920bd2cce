/** The client's message lists: messages are appended one at a time, collapsing events as the server does,
    or prepended a page at a time, with a date separator wherever the day changes. */
module MessageList {
  import opened Wrappers
  import opened Wire
  import opened Records
  import opened Grouping
  import opened UserLog

  /** A message with the calendar day it is shown under. */
  datatype Dated = Dated(m: Message, day: int)

  datatype Entry = Real(msg: Dated) | Separator(day: int)

  // ---------------------------------------------------------------- separators

  function Break(day: int, next: int): seq<Entry> { if day == next then [] else [Separator(next)] }

  /** The list that shows the given messages. */
  function Shown(ms: seq<Dated>): seq<Entry> {
    if ms == [] then []
    else if |ms| == 1 then [Real(ms[0])]
    else Shown(Front(ms)) + Break(Last(Front(ms)).day, Last(ms).day) + [Real(Last(ms))]
  }

  function Reals(es: seq<Entry>): seq<Dated> {
    if es == [] then [] else Reals(Front(es)) + if Last(es).Real? then [Last(es).msg] else []
  }

  lemma {:induction false} RealsConcat(a: seq<Entry>, b: seq<Entry>)
    ensures Reals(a + b) == Reals(a) + Reals(b)
  {
    if b == [] {
      assert a + b == a;
    } else {
      assert Front(a + b) == a + Front(b);
      RealsConcat(a, Front(b));
    }
  }

  lemma {:induction false} RealsOfBreak(day: int, next: int, m: Dated)
    ensures Reals(Break(day, next) + [Real(m)]) == [m] && Reals([Real(m)]) == [m]
  {
    RealsConcat(Break(day, next), [Real(m)]);
    assert Front([Real(m)]) == [];
    if day != next { assert Front([Separator(next)]) == []; }
  }

  lemma {:induction false} RealsOfShown(ms: seq<Dated>)
    ensures Reals(Shown(ms)) == ms
  {
    if |ms| == 1 {
      RealsOfBreak(0, 0, ms[0]);
    } else if |ms| > 1 {
      var f, m := Front(ms), Last(ms);
      RealsOfShown(f);
      var es, more := Shown(f), Break(Last(f).day, m.day) + [Real(m)];
      RealsConcat(es, more);
      RealsOfBreak(Last(f).day, m.day, m);
      assert es + Break(Last(f).day, m.day) + [Real(m)] == es + more;
      assert f + [m] == ms;
    }
  }

  lemma {:induction false} ShownSnoc(ms: seq<Dated>, m: Dated)
    requires ms != []
    ensures Shown(ms + [m]) == Shown(ms) + Break(Last(ms).day, m.day) + [Real(m)]
  {
    assert Front(ms + [m]) == ms;
  }

  /** Two lists put together need one separator at the seam, if any. */
  lemma {:induction false} ShownConcat(a: seq<Dated>, b: seq<Dated>)
    requires a != [] && b != []
    ensures Shown(a + b) == Shown(a) + Break(Last(a).day, b[0].day) + Shown(b)
    decreases |b|
  {
    if |b| == 1 {
      assert b == [b[0]];
      ShownSnoc(a, b[0]);
    } else {
      var f, m := Front(b), Last(b);
      assert a + b == a + f + [m];
      ShownConcat(a, f);
      ShownSnoc(a + f, m);
      assert Last(a + f) == Last(f);
      Regroup(Shown(a), Break(Last(a).day, f[0].day), Shown(f), Break(Last(f).day, m.day), [Real(m)]);
    }
  }

  lemma {:induction false} Regroup(a: seq<Entry>, b: seq<Entry>, c: seq<Entry>, d: seq<Entry>, e: seq<Entry>)
    ensures a + b + c + d + e == a + b + (c + d + e)
  {
  }

  /** What a list of entries must look like, place by place. */
  ghost predicate WellSeparated(es: seq<Entry>) {
    && (es != [] ==> es[0].Real? && Last(es).Real?)
    && (forall i :: 0 < i < |es| ==> Fitting(es[i - 1], es[i]))
    && (forall i :: 1 < i < |es| && es[i - 1].Separator? ==> DayOf(es[i - 2]) != DayOf(es[i]))
  }

  function DayOf(e: Entry): int { if e.Real? then e.msg.day else e.day }

  /** A separator follows a message and carries the day of the message after it; messages side by side are
      of the same day. */
  predicate Fitting(e: Entry, next: Entry) {
    if next.Separator? then e.Real? else DayOf(e) == DayOf(next)
  }

  /** The place-by-place description holds of exactly the lists that show their messages. */
  lemma {:induction false} WellSeparatedIsShown(es: seq<Entry>)
    ensures WellSeparated(es) <==> es == Shown(Reals(es))
  {
    if WellSeparated(es) { SeparatedIsShown(es); }
    if es == Shown(Reals(es)) { ShownIsSeparated(Reals(es)); }
  }

  lemma {:induction false} ShownIsSeparated(ms: seq<Dated>)
    ensures WellSeparated(Shown(ms)) && (ms != [] ==> Shown(ms) != [] && Last(Shown(ms)) == Real(Last(ms)))
  {
    if |ms| > 1 {
      ShownIsSeparated(Front(ms));
    }
  }

  /** Taking the last message, and the separator before it, away. */
  lemma {:induction false} SeparatedFront(es: seq<Entry>) returns (n: nat)
    requires WellSeparated(es) && |es| > 1
    ensures 0 < n < |es| && WellSeparated(es[..n])
    ensures es == es[..n] + (Break(DayOf(es[n - 1]), DayOf(Last(es))) + [Last(es)])
  {
    n := |es| - 1;
    assert Fitting(es[n - 1], es[n]);
    if es[n - 1].Separator? {
      n := n - 1;
      assert Fitting(es[n - 1], es[n]);
    }
  }

  lemma {:induction false} SeparatedIsShown(es: seq<Entry>)
    requires WellSeparated(es)
    ensures es == Shown(Reals(es)) && (es != [] ==> Reals(es) != [] && Last(es) == Real(Last(Reals(es))))
    decreases |es|
  {
    if |es| == 1 {
      RealsOfBreak(0, 0, es[0].msg);
      assert es == [es[0]];
    } else if |es| > 1 {
      var m := Last(es).msg;
      var n := SeparatedFront(es);
      var ms := Reals(es[..n]);
      SeparatedIsShown(es[..n]);
      ShownThen(ms, m, es);
    }
  }

  lemma {:induction false} ShownThen(ms: seq<Dated>, m: Dated, es: seq<Entry>)
    requires ms != [] && es == Shown(ms) + (Break(Last(ms).day, m.day) + [Real(m)])
    ensures Reals(es) == ms + [m] && es == Shown(ms + [m])
  {
    RealsOfShown(ms);
    RealsConcat(Shown(ms), Break(Last(ms).day, m.day) + [Real(m)]);
    RealsOfBreak(Last(ms).day, m.day, m);
    ShownSnoc(ms, m);
  }

  // ---------------------------------------------------------------- adding messages

  predicate ShouldCollapse(last: Message, m: Message) { m.events != [] && Collapses(last, m.events[0]) }

  /** Appending a message: its first event joins the last message if both are collapsible. */
  function Append(ms: seq<Dated>, m: Dated): seq<Dated> {
    if ms != [] && ShouldCollapse(Last(ms).m, m.m)
    then Front(ms) + [WithEvent(Last(ms), m.m.events[0])]
    else ms + [m]
  }

  function WithEvent(d: Dated, e: Event): Dated { d.(m := d.m.(events := d.m.events + [e])) }

  /** A message whose first event, like that of the last message, is a join, part, quit or nick change leaves only
      that event, at the end of the last message's; any other message is added as it is. */
  lemma {:induction false} AppendMeans(ms: seq<Dated>, m: Dated)
    ensures var types := {Ascii("join"), Ascii("part"), Ascii("quit"), Ascii("nick")};
            var now := Append(ms, m);
            if ms != [] && m.m.events != [] && Last(ms).m.events != []
               && m.m.events[0].typ in types && Last(ms).m.events[0].typ in types
            then now == Front(ms) + [Dated(Message(Last(ms).m.id, Last(ms).m.from, Last(ms).m.content, Last(ms).m.time,
                                                   Last(ms).m.events + [m.m.events[0]]), Last(ms).day)]
            else now == ms + [m]
  {
    if m.m.events != [] { CollapsibleTypes(m.m.events[0]); }
    if ms != [] && Last(ms).m.events != [] { CollapsibleTypes(Last(ms).m.events[0]); }
  }

  function AppendAll(ms: seq<Dated>, more: seq<Dated>): seq<Dated> {
    if more == [] then ms else Append(AppendAll(ms, Front(more)), Last(more))
  }

  function Events(ms: seq<Dated>): seq<Event> {
    if ms == [] then [] else Events(Front(ms)) + Last(ms).m.events
  }

  lemma {:induction false} EventsSnoc(ms: seq<Dated>, m: Dated)
    ensures Events(ms + [m]) == Events(ms) + m.m.events
  {
    assert Front(ms + [m]) == ms;
  }

  /** Appending keeps every event exactly unless a message with several events is collapsed. */
  lemma {:induction false} AppendConserves(ms: seq<Dated>, m: Dated)
    ensures Events(Append(ms, m)) == Events(ms) + m.m.events
       <==> !(ms != [] && ShouldCollapse(Last(ms).m, m.m) && |m.m.events| > 1)
  {
    EventsSnoc(ms, m);
    if ms != [] && ShouldCollapse(Last(ms).m, m.m) {
      var e := m.m.events[0];
      EventsSnoc(Front(ms), WithEvent(Last(ms), e));
      assert Events(Append(ms, m)) == Events(ms) + [e];
      if |m.m.events| == 1 { assert m.m.events == [e]; }
      assert |Events(ms) + [e]| == |Events(ms)| + 1;
    }
  }

  function Plain(ms: seq<Dated>): seq<Message> { if ms == [] then [] else Plain(Front(ms)) + [Last(ms).m] }

  lemma {:induction false} PlainSnoc(ms: seq<Dated>, m: Dated)
    ensures Plain(ms + [m]) == Plain(ms) + [m.m]
  {
    assert Front(ms + [m]) == ms;
  }

  /** The item a live message stands for. */
  function ItemOf(m: Message): LogItem { if m.events == [] then Text(m) else Happened(m.events[0]) }

  function Items(ms: seq<Dated>): seq<LogItem> {
    if ms == [] then [] else Items(Front(ms)) + [ItemOf(Last(ms).m)]
  }

  /** Whatever arrives live, at most one event a message, the client ends up with the groups that the
      server's log has for the same stream. */
  lemma {:induction false} ClientGroupsAsServer(live: seq<Dated>)
    requires forall i :: 0 <= i < |live| ==> |live[i].m.events| <= 1
    ensures Groups(Plain(AppendAll([], live))) == Group(Collapsible, Items(live))
    ensures Events(AppendAll([], live)) == Events(live)
  {
    if live != [] {
      var ms, m := AppendAll([], Front(live)), Last(live);
      ClientGroupsAsServer(Front(live));
      AppendExtendsGroup(ms, Items(Front(live)), m);
      AppendConserves(ms, m);
    }
  }

  lemma {:induction false} AppendExtendsGroup(ms: seq<Dated>, stream: seq<LogItem>, m: Dated)
    requires Groups(Plain(ms)) == Group(Collapsible, stream) && |m.m.events| <= 1
    ensures Groups(Plain(Append(ms, m))) == Group(Collapsible, stream + [ItemOf(m.m)])
  {
    if ms != [] && ShouldCollapse(Last(ms).m, m.m) {
      CollapseExtendsGroup(Plain(ms), stream, m.m.events[0]);
      PlainSnoc(Front(ms), WithEvent(Last(ms), m.m.events[0]));
    } else {
      if m.m.events != [] { assert m.m.events == [m.m.events[0]]; }
      assert GroupOf(m.m) == [ItemOf(m.m)];
      AppendStartsGroup(Plain(ms), stream, m.m, ItemOf(m.m));
      PlainSnoc(ms, m);
    }
  }

  ghost predicate Settled(page: seq<Dated>) {
    forall i, j :: 0 <= i < j < |page| && j == i + 1 ==> !ShouldCollapse(page[i].m, page[j].m)
  }

  /** A page of the server's log, whose entries no longer collapse, is shown as it was sent. */
  lemma {:induction false} PageIsKept(page: seq<Dated>, n: nat)
    requires Settled(page) && n <= |page|
    ensures AppendAll([], page[..n]) == page[..n]
  {
    if n > 0 {
      var front := page[..n - 1];
      PageIsKept(page, n - 1);
      assert Front(page[..n]) == front && Last(page[..n]) == page[n - 1] && page[..n] == front + [page[n - 1]];
      if n > 1 { assert Last(front) == page[n - 2] && !ShouldCollapse(page[n - 2].m, page[n - 1].m); }
    }
  }

  /** No two neighbouring entries of a maximal grouping collapse, so every page of the server's log is kept. */
  lemma {:induction false} ServerPageIsKept(log: seq<Dated>, stream: seq<LogItem>, from: nat, to: nat)
    requires Groups(Plain(log)) == Group(Collapsible, stream) && from <= to <= |log|
    ensures AppendAll([], log[from..to]) == log[from..to]
  {
    GroupIsMaximal(Collapsible, stream);
    var gs := Groups(Plain(log));
    forall i, j | 0 <= i < j < |log| && j == i + 1 ensures !ShouldCollapse(log[i].m, log[j].m) {
      GroupAt(log, i);
      GroupAt(log, j);
      assert !Joins(Collapsible, Last(gs[j - 1]), gs[j][0]);
      assert IsRun(Collapsible, gs[i]);
      assert Last(gs[i]) in gs[i];
    }
    var page := log[from..to];
    PageIsKept(page, |page|);
    assert page[..|page|] == page;
  }

  lemma {:induction false} GroupAt(log: seq<Dated>, i: nat)
    requires i < |log|
    ensures |Groups(Plain(log))| == |log| && Groups(Plain(log))[i] == GroupOf(log[i].m)
  {
    PlainAt(log);
    GroupsAt(Plain(log), i);
  }

  lemma {:induction false} PlainAt(ms: seq<Dated>)
    ensures |Plain(ms)| == |ms| && forall i :: 0 <= i < |ms| ==> Plain(ms)[i] == ms[i].m
  {
    if ms != [] { PlainAt(Front(ms)); }
  }

  // ---------------------------------------------------------------- the reducers

  /** `initMessage` and `reducerAddMessage`. */
  method AddTo(es: seq<Entry>, m: Dated) returns (es': seq<Entry>)
    requires es == Shown(Reals(es))
    ensures es' == Shown(Append(Reals(es), m))
  {
    ghost var ms := Reals(es);
    ShownIsSeparated(ms);
    if |es| > 0 {
      var last := Last(es);
      if last.Real? && ShouldCollapse(last.msg.m, m.m) {
        ShownLast(ms, WithEvent(last.msg, m.m.events[0]));
        return es[|es| - 1 := Real(WithEvent(last.msg, m.m.events[0]))];
      }
    }
    es' := es;
    if |es| > 0 {
      ShownSnoc(ms, m);
      var last := Last(es);
      if last.Real? && last.msg.day != m.day {
        es' := es' + [Separator(m.day)];
      }
    }
    es' := es' + [Real(m)];
  }

  lemma {:induction false} ShownLast(ms: seq<Dated>, m: Dated)
    requires ms != [] && m.day == Last(ms).day && Shown(ms) != []
    ensures Shown(Front(ms) + [m]) == Shown(ms)[|Shown(ms)| - 1 := Real(m)]
  {
    if |ms| > 1 {
      ShownSnoc(Front(ms), m);
    }
  }

  /** `reducerPrependMessages`; it fails on an empty page when there are messages already. */
  method PrependTo(es: seq<Entry>, page: seq<Dated>) returns (ok: bool, es': seq<Entry>)
    requires es == Shown(Reals(es))
    ensures ok <==> page != [] || es == []
    ensures ok ==> es' == Shown(page + Reals(es))
  {
    ghost var ms := Reals(es);
    ShownIsSeparated(ms);
    ShownIsSeparated(page);
    var msgs := ShowPage(page);
    ok, es' := true, msgs;
    if |es| > 0 {
      if msgs == [] { return false, es; }
      es' := PutBefore(msgs, es, page, ms);
    } else {
      assert page + ms == page;
    }
  }

  method PutBefore(msgs: seq<Entry>, es: seq<Entry>, ghost page: seq<Dated>, ghost ms: seq<Dated>)
    returns (es': seq<Entry>)
    requires page != [] && ms != [] && msgs == Shown(page) != [] && es == Shown(ms) != []
    ensures es' == Shown(page + ms)
  {
    Seam(page, ms);
    var last, first := Last(msgs), es[0];
    es' := msgs;
    if first.Real? && last.Real? && first.msg.day != last.msg.day {
      es' := es' + [Separator(first.msg.day)];
    }
    es' := es' + es;
  }

  lemma {:induction false} Seam(page: seq<Dated>, ms: seq<Dated>)
    requires page != [] && ms != []
    ensures var a, b := Shown(page), Shown(ms);
            && a != [] && Last(a).Real? && b != [] && b[0].Real?
            && Shown(page + ms) == a + Break(Last(a).msg.day, b[0].msg.day) + b
  {
    ShownIsSeparated(page);
    ShownFirst(ms);
    ShownConcat(page, ms);
  }

  method ShowPage(page: seq<Dated>) returns (msgs: seq<Entry>)
    ensures msgs == Shown(page)
  {
    msgs := [];
    for i := 0 to |page|
      invariant msgs == Shown(page[..i])
    {
      assert page[..i + 1] == page[..i] + [page[i]];
      if i > 0 {
        ShownSnoc(page[..i], page[i]);
        if page[i - 1].day != page[i].day {
          msgs := msgs + [Separator(page[i].day)];
        }
      }
      msgs := msgs + [Real(page[i])];
    }
    assert page[..|page|] == page;
  }

  lemma {:induction false} ShownFirst(ms: seq<Dated>)
    requires ms != []
    ensures Shown(ms) != [] && Shown(ms)[0] == Real(ms[0])
  {
    if |ms| > 1 { ShownFirst(Front(ms)); }
  }

  // ---------------------------------------------------------------- all tabs of a network

  /** A message and the tab it names, if any. */
  datatype Sent = Sent(tab: string, msg: Dated)

  type Tabs = map<string, seq<Dated>>

  function At<X>(tabs: map<string, seq<X>>, tab: string): seq<X> { if tab in tabs then tabs[tab] else [] }

  /** Several messages in turn; one that names no tab needs the given tab to be there. */
  function AddAll(tabs: Tabs, tab: string, sent: seq<Sent>): Option<Tabs> {
    if sent == [] then Some(tabs)
    else match AddAll(tabs, tab, Front(sent))
      case None => None
      case Some(before) =>
        var s := Last(sent);
        if s.tab != "" then Some(before[s.tab := Append(At(before, s.tab), s.msg)])
        else if tab in before then Some(before[tab := Append(before[tab], s.msg)])
        else None
  }

  /** The tab a message goes to: the one it names, or the given one. */
  function Target(s: Sent, tab: string): string { if s.tab == "" then tab else s.tab }

  /** The messages for one tab, in order. */
  function For(sent: seq<Sent>, tab: string, t: string): seq<Dated> {
    if sent == [] then []
    else For(Front(sent), tab, t) + if Target(Last(sent), tab) == t then [Last(sent).msg] else []
  }

  /** Every tab has its own messages appended, in order, and tabs that none is for are as they were. */
  lemma {:induction false} EachToItsTab(tabs: Tabs, tab: string, sent: seq<Sent>, t: string)
    requires AddAll(tabs, tab, sent).Some?
    ensures var now := AddAll(tabs, tab, sent).value;
            && (t in now <==> t in tabs || For(sent, tab, t) != [])
            && At(now, t) == AppendAll(At(tabs, t), For(sent, tab, t))
  {
    if sent != [] {
      EachToItsTab(tabs, tab, Front(sent), t);
      var before, s := For(Front(sent), tab, t), Last(sent);
      if Target(s, tab) == t {
        assert Front(before + [s.msg]) == before;
      } else {
        assert before + [] == before;
      }
    }
  }

  lemma {:induction false} ForHas(sent: seq<Sent>, tab: string, t: string, m: Dated)
    ensures m in For(sent, tab, t) <==> exists i :: 0 <= i < |sent| && Target(sent[i], tab) == t && sent[i].msg == m
  {
    if sent != [] {
      ForHas(Front(sent), tab, t, m);
      assert forall i :: 0 <= i < |sent| - 1 ==> Front(sent)[i] == sent[i];
      if Target(Last(sent), tab) == t && Last(sent).msg == m { assert sent[|sent| - 1].msg == m; }
    }
  }

  /** The message names no tab, and none before it is for the given one. */
  predicate Stranded(sent: seq<Sent>, tab: string, i: nat)
    requires i < |sent|
  {
    sent[i].tab == "" && For(sent[..i], tab, tab) == []
  }

  ghost predicate SomeStranded(sent: seq<Sent>, tab: string) { exists i :: 0 <= i < |sent| && Stranded(sent, tab, i) }

  lemma {:induction false} LastStranded(sent: seq<Sent>, tab: string)
    requires sent != []
    ensures SomeStranded(sent, tab)
       <==> SomeStranded(Front(sent), tab) || (Last(sent).tab == "" && For(Front(sent), tab, tab) == [])
  {
    var n, front := |sent| - 1, Front(sent);
    forall i | 0 <= i < n ensures Stranded(front, tab, i) <==> Stranded(sent, tab, i) {
      assert front[..i] == sent[..i];
    }
    assert sent[..n] == front;
    assert Stranded(sent, tab, n) <==> Last(sent).tab == "" && For(front, tab, tab) == [];
    if SomeStranded(front, tab) {
      var i :| 0 <= i < n && Stranded(front, tab, i);
      assert Stranded(sent, tab, i);
    }
  }

  /** Adding fails exactly on a message that names no tab while the given one is not there. */
  lemma {:induction false} FailsExactly(tabs: Tabs, tab: string, sent: seq<Sent>)
    ensures AddAll(tabs, tab, sent).None? <==> tab !in tabs && SomeStranded(sent, tab)
  {
    if sent != [] {
      FailsExactly(tabs, tab, Front(sent));
      LastStranded(sent, tab);
      if AddAll(tabs, tab, Front(sent)).Some? { EachToItsTab(tabs, tab, Front(sent), tab); }
    }
  }

  function Initialised<X>(tabs: map<string, seq<X>>, tab: string): map<string, seq<X>> {
    tabs[tab := At(tabs, tab)]
  }

  ghost function Plainly(tabs: map<string, seq<Entry>>): Tabs { map t | t in tabs :: Reals(tabs[t]) }

  ghost predicate AllShown(tabs: map<string, seq<Entry>>) {
    forall t :: t in tabs ==> tabs[t] == Shown(Reals(tabs[t]))
  }

  lemma {:induction false} Replaced(tabs: map<string, seq<Entry>>, tab: string, ms: seq<Dated>)
    requires AllShown(tabs)
    ensures AllShown(tabs[tab := Shown(ms)]) && Plainly(tabs[tab := Shown(ms)]) == Plainly(tabs)[tab := ms]
  {
    RealsOfShown(ms);
  }

  lemma {:induction false} InitThen(tabs: Tabs, tab: string, ms: seq<Dated>)
    ensures Initialised(tabs, tab)[tab := ms] == tabs[tab := ms] && Initialised(tabs, tab)[tab] == At(tabs, tab)
  {
  }

  method AddIn(tabs: map<string, seq<Entry>>, tab: string, m: Dated) returns (r: map<string, seq<Entry>>)
    requires AllShown(tabs) && tab in tabs
    ensures AllShown(r) && Plainly(r) == Plainly(tabs)[tab := Append(Plainly(tabs)[tab], m)]
  {
    ghost var ms := Plainly(tabs)[tab];
    var es := AddTo(tabs[tab], m);
    Replaced(tabs, tab, Append(ms, m));
    r := tabs[tab := es];
  }

  method PrependIn(tabs: map<string, seq<Entry>>, tab: string, page: seq<Dated>)
    returns (ok: bool, r: map<string, seq<Entry>>)
    requires AllShown(tabs) && tab in tabs
    ensures ok <==> page != [] || Plainly(tabs)[tab] == []
    ensures ok ==> AllShown(r) && Plainly(r) == Plainly(tabs)[tab := page + Plainly(tabs)[tab]]
  {
    ghost var ms := Plainly(tabs)[tab];
    ShownIsSeparated(ms);
    var es;
    ok, es := PrependTo(tabs[tab], page);
    r := tabs;
    if ok {
      Replaced(tabs, tab, page + ms);
      r := tabs[tab := es];
    }
  }

  class Messages {
    var tabs: map<string, seq<Entry>>

    /** Every tab shows its messages with exactly the separators they need. */
    ghost predicate Valid()
      reads this
    {
      AllShown(tabs)
    }

    ghost function Abstract(): Tabs
      reads this
    {
      Plainly(tabs)
    }

    constructor ()
      ensures Valid() && Abstract() == map[]
    {
      tabs := map[];
    }

    method Init(tab: string)
      requires Valid()
      modifies this
      ensures Valid() && Abstract() == Initialised(old(Abstract()), tab)
      ensures tabs == Initialised(old(tabs), tab)
    {
      if tab !in tabs {
        Replaced(tabs, tab, []);
        tabs := tabs[tab := []];
      } else {
        assert Abstract() == Initialised(Abstract(), tab) && tabs == Initialised(tabs, tab);
      }
    }

    method AddMessage(tab: string, m: Dated)
      requires Valid()
      modifies this
      ensures Valid() && Abstract() == old(Abstract())[tab := Append(At(old(Abstract()), tab), m)]
    {
      ghost var was := Abstract();
      Init(tab);
      InitThen(was, tab, Append(At(was, tab), m));
      tabs := AddIn(tabs, tab, m);
    }

    /** ADD_MESSAGES with `prepend`; a failing reducer leaves the lists as they were. */
    method PrependMessages(tab: string, page: seq<Dated>) returns (ok: bool)
      requires Valid()
      modifies this
      ensures Valid() && (ok <==> page != [] || At(old(Abstract()), tab) == [])
      ensures Abstract() == if ok then old(Abstract())[tab := page + At(old(Abstract()), tab)] else old(Abstract())
    {
      var before := tabs;
      ghost var was := Abstract();
      Init(tab);
      InitThen(was, tab, page + At(was, tab));
      ok, tabs := PrependIn(tabs, tab, page);
      if !ok {
        tabs := before;
      }
    }

    /** ADD_MESSAGES without `prepend`. */
    method AddMessages(tab: string, sent: seq<Sent>) returns (ok: bool)
      requires Valid()
      modifies this
      ensures Valid()
      ensures var m := old(Abstract());
              var r := if sent == [] then None
                       else AddAll(if sent[0].tab == "" then Initialised(m, tab) else m, tab, sent);
              ok == r.Some? && Abstract() == if ok then r.value else m
    {
      var before := tabs;
      if sent == [] { return false; }
      if sent[0].tab == "" { Init(tab); }
      ghost var start := Abstract();
      for i := 0 to |sent|
        invariant Valid() && AddAll(start, tab, sent[..i]) == Some(Abstract())
      {
        assert Front(sent[..i + 1]) == sent[..i];
        if sent[i].tab == "" && tab !in tabs {
          AddAllFails(start, tab, sent, i + 1);
          tabs := before;
          return false;
        }
        AddMessage(if sent[i].tab == "" then tab else sent[i].tab, sent[i].msg);
      }
      assert sent[..|sent|] == sent;
      ok := true;
    }
  }

  lemma {:induction false} AddAllFails(tabs: Tabs, tab: string, sent: seq<Sent>, n: nat)
    requires n <= |sent| && AddAll(tabs, tab, sent[..n]).None?
    ensures AddAll(tabs, tab, sent).None?
    decreases |sent|
  {
    if n < |sent| {
      assert Front(sent)[..n] == sent[..n];
      AddAllFails(tabs, tab, Front(sent), n);
    } else {
      assert sent[..n] == sent;
    }
  }
}
