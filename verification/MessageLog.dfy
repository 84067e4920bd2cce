/** Backwards paging through a channel's stored message log. */
module MessageLog {
  import opened Wrappers
  import opened Wire
  import opened Records
  import opened Bolt
  import Unmarshal

  /** Bucket `b` has one entry for each message of `log`, under the message's own ID. */
  ghost predicate Keyed(b: Bucket, log: seq<Message>) {
    && Sorted(b) && |b| == |log|
    && forall i :: 0 <= i < |log| ==> b[i].key == log[i].id && log[i].id != []
  }

  ghost predicate Holds(b: Bucket, log: seq<Message>) {
    && Keyed(b, log)
    && forall i {:trigger Stores(b[i].value, log[i])} :: 0 <= i < |log| ==> Stores(b[i].value, log[i])
  }

  ghost predicate Stores(v: Bytes, m: Message) { v == MessageBytes(m) }

  ghost predicate AllFit(log: seq<Message>) { forall m :: m in log ==> MessageFits(m) }

  /** How many entries lie before the point a request starts from: all of them without an ID. */
  function PageEnd(b: Bucket, fromID: Bytes): (n: nat)
    ensures n <= |b|
  {
    if fromID == [] then |b| else LowerBound(b, fromID)
  }

  function PageStart(b: Bucket, fromID: Bytes, count: nat): (lo: nat)
    ensures lo <= PageEnd(b, fromID)
  {
    var n := PageEnd(b, fromID);
    if count < n then n - count else 0
  }

  /** What a page of at most `count` messages is, whatever the bucket: messages of the log below `fromID` in
      ascending order of their IDs, none of those left out newer than one of them, and as many as were asked for
      while `hasMore` says that some were left out. */
  ghost predicate IsPage(log: seq<Message>, count: nat, fromID: Bytes, ms: seq<Message>, hasMore: bool) {
    && (forall m :: m in ms ==> m in log && Below(m.id, fromID))
    && IdsAscend(ms)
    && (forall m :: m in log && Below(m.id, fromID) && m !in ms ==> OlderThanAll(m, ms))
    && (hasMore <==> exists m :: m in log && Below(m.id, fromID) && m !in ms)
    && |ms| <= count && (hasMore ==> |ms| == count)
  }

  predicate Below(id: Bytes, fromID: Bytes) { fromID == [] || Less(id, fromID) }

  ghost predicate OlderThanAll(m: Message, ms: seq<Message>) { forall x :: x in ms ==> Less(m.id, x.id) }

  ghost predicate IdsAscend(ms: seq<Message>) { forall i, j :: 0 <= i < j < |ms| ==> Less(ms[i].id, ms[j].id) }

  /** Places follow the order of IDs. */
  lemma {:induction false} IdOrder(log: seq<Message>, i: nat, j: nat)
    requires IdsAscend(log) && i < |log| && j < |log|
    ensures Less(log[i].id, log[j].id) <==> i < j
    ensures log[i] == log[j] ==> i == j
  {
    LessTotal(log[i].id, log[j].id);
  }

  /** The log from its start to `n` are its messages below `fromID`. */
  ghost predicate CutAt(log: seq<Message>, fromID: Bytes, n: nat) {
    n <= |log| && IdsAscend(log) && forall i :: 0 <= i < |log| ==> (Below(log[i].id, fromID) <==> i < n)
  }

  lemma {:induction false} CutAtEnd(b: Bucket, log: seq<Message>, fromID: Bytes)
    requires Keyed(b, log)
    ensures CutAt(log, fromID, PageEnd(b, fromID))
  {
    forall i, j | 0 <= i < j < |log| ensures Less(log[i].id, log[j].id) { assert Less(b[i].key, b[j].key); }
    forall i | 0 <= i < |log| ensures Below(log[i].id, fromID) <==> i < PageEnd(b, fromID) {
      if fromID != [] && PageEnd(b, fromID) <= i { AboveLowerBound(b, fromID, i); }
    }
  }

  lemma {:induction false} OlderAt(log: seq<Message>, i: nat, lo: nat, n: nat)
    requires IdsAscend(log) && i < n <= |log| && lo <= n
    ensures i < lo ==> OlderThanAll(log[i], log[lo..n])
    ensures log[i] in log[lo..n] <==> lo <= i
  {
    if lo <= i { assert log[lo..n][i - lo] == log[i]; }
    if log[i] in log[lo..n] {
      var j :| lo <= j < n && log[j] == log[i];
      IdOrder(log, i, j);
    }
  }

  /** The last messages below `fromID` are a page. */
  lemma {:induction false} StretchIsPage(log: seq<Message>, count: nat, fromID: Bytes, lo: nat, n: nat)
    requires CutAt(log, fromID, n) && count > 0 && lo == if count < n then n - count else 0
    ensures IsPage(log, count, fromID, log[lo..n], lo > 0)
  {
    var ms := log[lo..n];
    forall i | 0 <= i < n ensures (i < lo ==> OlderThanAll(log[i], ms)) && (log[i] in ms <==> lo <= i) {
      OlderAt(log, i, lo, n);
    }
    if lo > 0 { assert log[0] in log && log[0] !in ms; }
  }

  /** The messages of a page from `j` on are the last ones of the log below `fromID`. */
  ghost predicate EndsLog(log: seq<Message>, n: nat, ms: seq<Message>, j: nat) {
    && j <= |ms| && |ms| - j <= n <= |log|
    && forall t {:trigger ms[t]} :: j <= t < |ms| ==> ms[t] == log[n - |ms| + t]
  }

  lemma {:induction false} NotBehind(log: seq<Message>, ms: seq<Message>, n: nat, j: nat, p: nat)
    requires IdsAscend(log) && IdsAscend(ms) && EndsLog(log, n, ms, j + 1) && p < n && log[p] == ms[j]
    ensures p <= n - |ms| + j
  {
    if j + 1 < |ms| {
      assert ms[j + 1] == log[n - |ms| + j + 1];
      IdOrder(ms, j, j + 1);
      IdOrder(log, p, n - |ms| + j + 1);
    }
  }

  lemma {:induction false} NotTwice(log: seq<Message>, ms: seq<Message>, n: nat, j: nat, p: nat, q: nat)
    requires IdsAscend(log) && IdsAscend(ms) && EndsLog(log, n, ms, j + 1)
    requires p <= q == n - |ms| + j && log[p] == ms[j] && log[q] in ms
    ensures p == q
  {
    var t :| 0 <= t < |ms| && ms[t] == log[q];
    IdOrder(ms, j, t);
    IdOrder(log, p, q);
    IdOrder(ms, t, j);
    if j < t { IdOrder(log, q, n - |ms| + t); }
  }

  /** The message before them is the one before them in the log: `p` is its place there. */
  lemma {:induction false} EndsLogMore(log: seq<Message>, ms: seq<Message>, n: nat, j: nat, p: nat)
    requires IdsAscend(log) && IdsAscend(ms) && EndsLog(log, n, ms, j + 1) && p < n && log[p] == ms[j]
    requires forall i :: 0 <= i < n && log[i] !in ms ==> OlderThanAll(log[i], ms)
    ensures EndsLog(log, n, ms, j)
  {
    var q := n - |ms| + j;
    NotBehind(log, ms, n, j, p);
    if log[q] in ms {
      NotTwice(log, ms, n, j, p, q);
    } else {
      assert ms[j] in ms;
      IdOrder(log, q, p);
    }
  }

  lemma {:induction false} PageEndsLog(log: seq<Message>, count: nat, fromID: Bytes, ms: seq<Message>, hasMore: bool,
                                       n: nat, j: nat)
    requires CutAt(log, fromID, n) && IsPage(log, count, fromID, ms, hasMore) && j <= |ms|
    ensures EndsLog(log, n, ms, j)
    decreases |ms| - j
  {
    if j < |ms| {
      PageEndsLog(log, count, fromID, ms, hasMore, n, j + 1);
      assert ms[j] in ms;
      var p :| 0 <= p < |log| && log[p] == ms[j];
      EndsLogMore(log, ms, n, j, p);
    }
  }

  /** There is no other page. */
  lemma {:induction false} OnlyPage(log: seq<Message>, count: nat, fromID: Bytes, ms: seq<Message>, hasMore: bool,
                                    lo: nat, n: nat)
    requires CutAt(log, fromID, n) && IsPage(log, count, fromID, ms, hasMore)
    requires lo == if count < n then n - count else 0
    ensures ms == log[lo..n] && hasMore == (lo > 0)
  {
    PageEndsLog(log, count, fromID, ms, hasMore, n, 0);
    var k := n - |ms|;
    assert ms == log[k..n];
    forall i | 0 <= i < n ensures log[i] in ms <==> k <= i { OlderAt(log, i, k, n); }
    if k > 0 { assert log[0] in log; }
  }

  lemma {:induction false} PageIsStretch(b: Bucket, log: seq<Message>, count: nat, fromID: Bytes, ms: seq<Message>,
                                         hasMore: bool)
    requires Keyed(b, log) && count > 0
    ensures IsPage(log, count, fromID, ms, hasMore)
       <==> ms == log[PageStart(b, fromID, count)..PageEnd(b, fromID)] && hasMore == (PageStart(b, fromID, count) > 0)
  {
    var lo, n := PageStart(b, fromID, count), PageEnd(b, fromID);
    CutAtEnd(b, log, fromID);
    StretchIsPage(log, count, fromID, lo, n);
    if IsPage(log, count, fromID, ms, hasMore) { OnlyPage(log, count, fromID, ms, hasMore, lo, n); }
  }

  method ReadBack(v: Bytes, ghost m: Message) returns (d: Message)
    requires Stores(v, m) && MessageFits(m)
    ensures d == m
  {
    MessageRoundTrip(m, []);
    assert v + [] == v;
    var t := new Unmarshal.MessageTarget();
    var _, _ := t.Unmarshal(v);
    d := t.View();
  }

  /** The paging loop: the array is filled from its end while the cursor moves back, and the cursor
      ends one entry before the oldest one taken. */
  method FillBackwards(c: Cursor, first: Option<Entry>, messages: array<Message>, ghost log: seq<Message>,
                       ghost n: nat)
    returns (left: nat)
    requires c.Valid() && Holds(c.bucket, log) && AllFit(log) && n <= |log|
    requires c.pos == n - 1 && first == c.Current()
    modifies messages, c`pos
    ensures left == (if messages.Length < n then 0 else messages.Length - n)
    ensures c.Valid() && c.pos == n - (messages.Length - left) - 1
    ensures forall k :: left <= k < messages.Length ==> messages[k] == log[n - messages.Length + k]
  {
    left := messages.Length;
    var e := first;
    while left > 0 && e.Some?
      invariant left <= messages.Length && messages.Length - left <= n
      invariant c.Valid() && c.pos == n - (messages.Length - left) - 1 && e == c.Current()
      invariant forall k :: left <= k < messages.Length ==> messages[k] == log[n - messages.Length + k]
      decreases left
    {
      left := left - 1;
      assert Stores(c.bucket[c.pos].value, log[c.pos]);
      var m := ReadBack(e.value.value, log[c.pos]);
      messages[left] := m;
      e := c.Prev();
    }
  }

  /** The probe after the loop: stepping forth and back finds the entry the cursor stands on, except
      at the last entry, where only the step back is taken. */
  method StillThere(c: Cursor) returns (found: bool)
    requires c.Valid() && c.pos < |c.bucket|
    modifies c`pos
    ensures found <==> old(c.pos) >= if old(c.pos) == |c.bucket| - 1 then 1 else 0
  {
    var _ := c.Next();
    var e := c.Prev();
    found := e.Some?;
  }

  /** Where the walk back starts: at the last entry below `fromID`. */
  method Position(b: Bucket, fromID: Bytes) returns (c: Cursor, e: Option<Entry>)
    ensures fresh(c) && c.bucket == b && c.Valid()
    ensures c.pos == PageEnd(b, fromID) - 1 && e == c.Current()
  {
    c := new Cursor(b);
    if fromID != [] {
      e := c.Seek(fromID);
      e := c.Prev();
    } else {
      e := c.Last();
    }
  }

  method ReadPage(b: Bucket, count: nat, fromID: Bytes, ghost log: seq<Message>)
    returns (ms: seq<Message>, hasMore: bool)
    requires Holds(b, log) && AllFit(log)
    ensures ms == log[PageStart(b, fromID, count)..PageEnd(b, fromID)]
    ensures count > 0 ==> (hasMore <==> PageStart(b, fromID, count) > 0)
    ensures count == 0 ==>
              (hasMore <==> PageEnd(b, fromID) >= if PageEnd(b, fromID) == |log| then 2 else 1)
    ensures (hasMore <==> PageStart(b, fromID, count) > 0) <==> count > 0 || !(PageEnd(b, fromID) == |log| == 1)
  {
    var messages := new Message[count](_ => Message([], [], [], 0, []));
    var c, e := Position(b, fromID);
    ghost var n := PageEnd(b, fromID);
    var left := FillBackwards(c, e, messages, log, n);
    hasMore := StillThere(c);
    if left == 0 || left < count {
      ms := messages[left..];
    } else {
      ms, hasMore := [], false;
    }
    assert PageStart(b, fromID, count) == n - |ms|;
  }

  /** `Messages`: the last `count` entries below `fromID` in ascending order, and whether older ones
      remain. */
  method Messages(b: Bucket, count: nat, fromID: Bytes, ghost log: seq<Message>)
    returns (ms: seq<Message>, hasMore: bool)
    requires Holds(b, log) && AllFit(log)
    ensures count > 0 ==> IsPage(log, count, fromID, ms, hasMore)
    ensures ms == log[PageStart(b, fromID, count)..PageEnd(b, fromID)]
    ensures count == 0 ==>
              (hasMore <==> PageEnd(b, fromID) >= if PageEnd(b, fromID) == |log| then 2 else 1)
    ensures (hasMore <==> PageStart(b, fromID, count) > 0) <==> count > 0 || !(PageEnd(b, fromID) == |log| == 1)
  {
    ms, hasMore := ReadPage(b, count, fromID, log);
    if count > 0 { PageIsStretch(b, log, count, fromID, ms, hasMore); }
  }

  /** A channel nothing was ever logged to has no bucket. */
  method MessagesOf(bucket: Option<Bucket>, count: nat, fromID: Bytes, ghost log: seq<Message>)
    returns (ms: seq<Message>, hasMore: bool)
    requires match bucket case None => log == [] case Some(b) => Holds(b, log) && AllFit(log)
    ensures bucket.None? ==> ms == [] && !hasMore
    ensures bucket.Some? ==> ms == log[PageStart(bucket.value, fromID, count)..PageEnd(bucket.value, fromID)]
    ensures bucket.Some? && count > 0 ==> (hasMore <==> PageStart(bucket.value, fromID, count) > 0)
    ensures count > 0 ==> IsPage(log, count, fromID, ms, hasMore)
    ensures count > 0 && fromID == [] ==> ms == log[if count < |log| then |log| - count else 0..]
    ensures count > 0 && fromID == [] ==> (hasMore <==> count < |log|)
  {
    if bucket.None? {
      ms, hasMore := [], false;
    } else {
      ms, hasMore := Messages(bucket.value, count, fromID, log);
    }
  }

  // ---------------------------------------------------------------- following the paging token

  /** What the server answers: a page and, while older messages remain, the ID to continue from. */
  datatype Reply = Reply(messages: seq<Message>, next: Option<Bytes>)

  ghost function Serve(b: Bucket, log: seq<Message>, count: nat, fromID: Bytes): Reply
    requires Keyed(b, log)
  {
    var n, lo := PageEnd(b, fromID), PageStart(b, fromID, count);
    Reply(log[lo..n], if lo > 0 && lo < n then Some(log[lo].id) else None)
  }

  /** `sendMessages` and `sendLastMessages`: nothing is sent for an empty page. */
  method Send(b: Bucket, count: nat, fromID: Bytes, ghost log: seq<Message>) returns (res: Option<Reply>)
    requires Holds(b, log) && AllFit(log)
    ensures res == if Serve(b, log, count, fromID).messages == [] then None
                   else Some(Serve(b, log, count, fromID))
    ensures count > 0 && res.None? ==> IsPage(log, count, fromID, [], false)
    ensures count > 0 && res.Some? ==>
              && IsPage(log, count, fromID, res.value.messages, res.value.next.Some?) && res.value.messages != []
              && (res.value.next.Some? ==> res.value.next.value == res.value.messages[0].id)
  {
    var messages, hasMore := Messages(b, count, fromID, log);
    res := None;
    if |messages| > 0 {
      res := Some(Reply(messages, if hasMore then Some(messages[0].id) else None));
    }
  }

  /** The token of a page leads to the page that ends exactly where this one starts. */
  lemma TokenContinues(b: Bucket, log: seq<Message>, count: nat, fromID: Bytes)
    requires Keyed(b, log) && count > 0 && Serve(b, log, count, fromID).next.Some?
    ensures var next := Serve(b, log, count, fromID).next.value;
            && PageEnd(b, next) == PageStart(b, fromID, count)
            && PageEnd(b, next) < PageEnd(b, fromID)
  {
    FoundAt(b, PageStart(b, fromID, count));
  }

  /** Everything a client gathers by following tokens, older pages in front, with page sizes that
      may differ from request to request. */
  ghost function Gather(b: Bucket, log: seq<Message>, counts: nat -> nat, step: nat, fromID: Bytes): seq<Message>
    requires Keyed(b, log) && forall i :: counts(i) > 0
    decreases PageEnd(b, fromID)
  {
    var r := Serve(b, log, counts(step), fromID);
    if r.next.None? then r.messages
    else
      TokenContinues(b, log, counts(step), fromID);
      Gather(b, log, counts, step + 1, r.next.value) + r.messages
  }

  /** The pages join up to the whole log below the starting point: no gap, no overlap. */
  lemma {:induction false} GatherBelow(b: Bucket, log: seq<Message>, counts: nat -> nat, step: nat,
                                       fromID: Bytes)
    requires Keyed(b, log) && forall i :: counts(i) > 0
    ensures Gather(b, log, counts, step, fromID) == log[..PageEnd(b, fromID)]
    decreases PageEnd(b, fromID)
  {
    var r := Serve(b, log, counts(step), fromID);
    var n, lo := PageEnd(b, fromID), PageStart(b, fromID, counts(step));
    if r.next.Some? {
      TokenContinues(b, log, counts(step), fromID);
      GatherBelow(b, log, counts, step + 1, r.next.value);
      assert log[..lo] + log[lo..n] == log[..n];
    } else {
      assert lo == 0;
      assert log[0..n] == log[..n];
    }
  }

  lemma GatherIsWholeLog(b: Bucket, log: seq<Message>, counts: nat -> nat)
    requires Keyed(b, log) && forall i :: counts(i) > 0
    ensures Gather(b, log, counts, 0, []) == log
  {
    GatherBelow(b, log, counts, 0, []);
    assert log[..|log|] == log;
  }
}
