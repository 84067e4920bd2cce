/** The rendered height of a message in the client: break points of its text, and greedy wrapping.
    Widths are real numbers. */
module WrapHeight {
  import opened Wrappers

  const LINE_HEIGHT := 24
  const USER_LIST_WIDTH := 200.0
  const SMALL_SCREEN := 600.0

  /** A place to wrap: the line ends before `end`, and the next one starts at `next`. */
  datatype Break = Break(end: nat, next: nat)

  // ---------------------------------------------------------------- break points

  /** The break points among the first `n` characters of a block that starts at `offset`: spaces, and
      the places after a dash or question mark that is not the block's last character. */
  function TextBreaks(text: string, offset: nat, n: nat): seq<Break>
    requires n <= |text|
  {
    if n == 0 then []
    else
      var front, i := TextBreaks(text, offset, n - 1), n - 1;
      if text[i] == ' ' then front + [Break(offset + i, offset + i + 1)]
      else if i != |text| - 1 && (text[i] == '-' || text[i] == '?') then
        front + [Break(offset + i + 1, offset + i + 1)]
      else front
  }

  function Length(blocks: seq<string>): nat {
    if blocks == [] then 0 else Length(blocks[..|blocks| - 1]) + |blocks[|blocks| - 1]|
  }

  function Breaks(blocks: seq<string>): seq<Break> {
    if blocks == [] then []
    else
      var front, last := blocks[..|blocks| - 1], blocks[|blocks| - 1];
      Breaks(front) + TextBreaks(last, Length(front), |last|)
  }

  method FindBreakpoints(blocks: seq<string>) returns (breakpoints: seq<Break>, length: nat)
    ensures breakpoints == Breaks(blocks) && length == |Whole(blocks)|
    ensures InOrder(breakpoints, length) && NextsRise(breakpoints)
    ensures forall b :: b in breakpoints <==> WrapsAt(blocks, b)
  {
    breakpoints, length := [], 0;
    for j := 0 to |blocks|
      invariant breakpoints == Breaks(blocks[..j]) && length == Length(blocks[..j])
    {
      var text := blocks[j];
      assert blocks[..j + 1][..j] == blocks[..j];
      ghost var before := breakpoints;
      for i := 0 to |text|
        invariant breakpoints == before + TextBreaks(text, length, i)
      {
        var c := text[i];
        if c == ' ' {
          breakpoints := breakpoints + [Break(length + i, length + i + 1)];
        } else if i != |text| - 1 && (c == '-' || c == '?') {
          breakpoints := breakpoints + [Break(length + i + 1, length + i + 1)];
        }
      }
      length := length + |text|;
    }
    assert blocks[..|blocks|] == blocks;
    BreaksInOrder(blocks);
    AllNextsRise(blocks);
    WholeLength(blocks);
    forall b ensures b in breakpoints <==> WrapsAt(blocks, b) { BreaksAreExactly(blocks, b); }
  }

  /** The text that the blocks make up. */
  function Whole(blocks: seq<string>): string {
    if blocks == [] then "" else Whole(blocks[..|blocks| - 1]) + blocks[|blocks| - 1]
  }

  /** A block ends before place `p` of the whole text. */
  ghost predicate EndsBlock(blocks: seq<string>, p: nat) {
    exists k :: 0 <= k <= |blocks| && |Whole(blocks[..k])| == p
  }

  lemma {:induction false} TextBreaksAre(text: string, offset: nat, n: nat, b: Break)
    requires n <= |text|
    ensures b in TextBreaks(text, offset, n) <==> exists i :: 0 <= i < n && BreakAt(text, offset, i, b)
  {
    if n > 0 {
      TextBreaksAre(text, offset, n - 1, b);
      assert BreakAt(text, offset, n - 1, b) ==> b in TextBreaks(text, offset, n);
    }
  }

  /** Character `i` of a block makes a break point: a blank is left out of both lines, and a dash or question mark,
      unless it is the last of its block, ends a line. */
  predicate BreakAt(text: string, offset: nat, i: nat, b: Break)
    requires i < |text|
  {
    if text[i] == ' ' then b == Break(offset + i, offset + i + 1)
    else (text[i] == '-' || text[i] == '?') && i + 1 < |text| && b == Break(offset + i + 1, offset + i + 1)
  }

  lemma {:induction false} WholeLength(blocks: seq<string>)
    ensures |Whole(blocks)| == Length(blocks)
  {
    if blocks != [] { WholeLength(blocks[..|blocks| - 1]); }
  }

  /** Where a text can be wrapped: exactly at its blanks, and behind dashes and question marks within a block. */
  ghost predicate WrapsAt(blocks: seq<string>, b: Break) {
    var text := Whole(blocks);
    || (b.next == b.end + 1 && b.end < |text| && text[b.end] == ' ')
    || (b.next == b.end && 0 < b.end < |text| && text[b.end - 1] in {'-', '?'} && !EndsBlock(blocks, b.end))
  }

  lemma {:induction false} EndsBlockMore(blocks: seq<string>, p: nat)
    requires blocks != []
    ensures EndsBlock(blocks, p) <==> EndsBlock(blocks[..|blocks| - 1], p) || p == |Whole(blocks)|
  {
    var front := blocks[..|blocks| - 1];
    assert forall k :: 0 <= k <= |front| ==> front[..k] == blocks[..k];
    assert blocks[..|blocks|] == blocks;
    if EndsBlock(front, p) {
      var k :| 0 <= k <= |front| && |Whole(front[..k])| == p;
      assert |Whole(blocks[..k])| == p;
    }
  }

  lemma {:induction false} EndsWithin(blocks: seq<string>, p: nat)
    requires EndsBlock(blocks, p)
    ensures p <= |Whole(blocks)|
  {
    if blocks != [] {
      EndsBlockMore(blocks, p);
      if EndsBlock(blocks[..|blocks| - 1], p) { EndsWithin(blocks[..|blocks| - 1], p); }
    }
  }

  lemma {:induction false} BreaksAreExactly(blocks: seq<string>, b: Break)
    ensures b in Breaks(blocks) <==> WrapsAt(blocks, b)
  {
    if blocks != [] {
      var front, last := blocks[..|blocks| - 1], blocks[|blocks| - 1];
      BreaksAreExactly(front, b);
      TextBreaksAre(last, Length(front), |last|, b);
      WholeLength(front);
      EndsBlockMore(blocks, b.end);
      EndsWithinOrNot(front, b.end);
      LastBlock(blocks, b);
    }
  }

  lemma {:induction false} EndsWithinOrNot(blocks: seq<string>, p: nat)
    ensures EndsBlock(blocks, p) ==> p <= |Whole(blocks)|
    ensures EndsBlock(blocks, |Whole(blocks)|)
  {
    if EndsBlock(blocks, p) { EndsWithin(blocks, p); }
    assert blocks[..|blocks|] == blocks;
  }

  /** What the last block adds. */
  lemma {:induction false} LastBlock(blocks: seq<string>, b: Break)
    requires blocks != []
    ensures var front, last := blocks[..|blocks| - 1], blocks[|blocks| - 1];
            WrapsAt(blocks, b) <==>
              WrapsAt(front, b) || exists i :: 0 <= i < |last| && BreakAt(last, |Whole(front)|, i, b)
  {
    var front, last := blocks[..|blocks| - 1], blocks[|blocks| - 1];
    var n, text := |Whole(front)|, Whole(blocks);
    EndsBlockMore(blocks, b.end);
    EndsWithinOrNot(front, b.end);
    assert forall i :: 0 <= i < n ==> text[i] == Whole(front)[i];
    assert forall i :: 0 <= i < |last| ==> text[n + i] == last[i];
    if WrapsAt(blocks, b) {
      if b.next == b.end + 1 && n <= b.end { assert BreakAt(last, n, b.end - n, b); }
      if b.next == b.end && n < b.end { assert BreakAt(last, n, b.end - 1 - n, b); }
    }
  }

  /** Break points come in order, do not overlap, and lie within the text. */
  ghost predicate InOrder(bs: seq<Break>, length: nat) {
    && (forall i :: 0 <= i < |bs| ==> bs[i].end <= bs[i].next <= length)
    && (forall i, j :: 0 <= i < j < |bs| ==> bs[i].next <= bs[j].end)
  }

  /** No break point is listed twice. */
  ghost predicate NextsRise(bs: seq<Break>) { forall i, j :: 0 <= i < j < |bs| ==> bs[i].next < bs[j].next }

  lemma {:induction false} TextNextsRise(text: string, offset: nat, n: nat)
    requires n <= |text|
    ensures NextsRise(TextBreaks(text, offset, n))
    ensures forall b :: b in TextBreaks(text, offset, n) ==> offset < b.next <= offset + n
  {
    if n > 0 { TextNextsRise(text, offset, n - 1); }
  }

  lemma {:induction false} AllNextsRise(blocks: seq<string>)
    ensures NextsRise(Breaks(blocks)) && forall b :: b in Breaks(blocks) ==> b.next <= Length(blocks)
  {
    if blocks != [] {
      var front, last := blocks[..|blocks| - 1], blocks[|blocks| - 1];
      AllNextsRise(front);
      TextNextsRise(last, Length(front), |last|);
    }
  }

  lemma {:induction false} TextBreaksInOrder(text: string, offset: nat, n: nat)
    requires n <= |text|
    ensures InOrder(TextBreaks(text, offset, n), offset + n)
    ensures forall b :: b in TextBreaks(text, offset, n) ==> offset <= b.end
  {
    if n > 0 { TextBreaksInOrder(text, offset, n - 1); }
  }

  lemma {:induction false} BreaksInOrder(blocks: seq<string>)
    ensures InOrder(Breaks(blocks), Length(blocks))
  {
    if blocks != [] {
      var front, last := blocks[..|blocks| - 1], blocks[|blocks| - 1];
      BreaksInOrder(front);
      TextBreaksInOrder(last, Length(front), |last|);
    }
  }

  // ---------------------------------------------------------------- wrapping

  /** A message as far as layout is concerned. */
  datatype Shape = Shape(breaks: seq<Break>, length: nat, pad: real, indent: real, charWidth: real) {
    ghost predicate Valid() { charWidth >= 0.0 && InOrder(breaks, length) }
  }

  /** `n` characters after some padding reach the wrap width. */
  predicate Reaches(pad: real, n: int, charWidth: real, width: real) {
    pad + Width(n, charWidth) >= width
  }

  function Width(n: int, charWidth: real): real { n as real * charWidth }

  lemma FewerReachLess(pad: real, n: int, n': int, charWidth: real, width: real, width': real)
    requires charWidth >= 0.0 && n' <= n && width <= width'
    ensures Reaches(pad, n', charWidth, width') ==> Reaches(pad, n, charWidth, width)
  {
    WidthMonotone(n', n, charWidth);
  }

  lemma WidthMonotone(n': int, n: int, c: real)
    requires n' <= n && c >= 0.0
    ensures Width(n', c) <= Width(n, c)
  {
    MulMonotone(n' as real, n as real, c);
  }

  lemma MulMonotone(x: real, y: real, c: real)
    requires x <= y && c >= 0.0
    ensures x * c <= y * c
  {
    NonNegative(y - x, c);
    assert (y - x) * c == y * c - x * c;
  }

  lemma NonNegative(d: real, c: real)
    requires d >= 0.0 && c >= 0.0
    ensures d * c >= 0.0
  {
  }

  /** Characters `start` up to `end` do not fit on a line that follows `extra` line breaks. */
  predicate Overflows(m: Shape, extra: nat, start: int, end: int, width: real) {
    Reaches(if extra == 0 then m.pad else m.indent, end - start, m.charWidth, width)
  }

  lemma FurtherRightFits(m: Shape, extra: nat, start: int, end: int, start': int, end': int, width: real, width': real)
    requires m.charWidth >= 0.0 && start <= start' && end' <= end && width <= width'
    ensures Overflows(m, extra, start', end', width') ==> Overflows(m, extra, start, end, width)
  {
    FewerReachLess(if extra == 0 then m.pad else m.indent, end - start, end' - start', m.charWidth, width, width');
  }

  /** The greedy layout after some break points: line breaks taken, where the current line starts, and
      where the next one would. */
  datatype Line = Line(extra: nat, start: nat, pos: nat)

  function After(m: Shape, i: nat, width: real): (s: Line)
    requires i <= |m.breaks|
    ensures s.pos == if i == 0 then 0 else m.breaks[i - 1].next
  {
    if i == 0 then Line(0, 0, 0)
    else
      var s, b := After(m, i - 1, width), m.breaks[i - 1];
      if Overflows(m, s.extra, s.start, b.end, width) then Line(s.extra + 1, s.pos, b.next)
      else s.(pos := b.next)
  }

  /** Line breaks in the whole message. */
  function Extra(m: Shape, width: real): nat {
    var s := After(m, |m.breaks|, width);
    s.extra + if Overflows(m, s.extra, s.start, m.length, width) then 1 else 0
  }

  function Height(m: Shape, width: real): nat { LINE_HEIGHT + 8 + LINE_HEIGHT * Extra(m, width) }

  /** `messageHeight`, with the early return for messages that fit on one line. */
  method MessageHeight(from: Option<string>, channel: bool, breaks: seq<Break>, length: nat, wrapWidth: real,
                       charWidth: real, indent: real, windowWidth: real)
    returns (height: nat)
    requires charWidth >= 0.0 && InOrder(breaks, length)
    ensures var prefix := 6 + if from.Some? && from.value != "" then |from.value| + 1 else 0;
            var m := Shape(breaks, length, prefix as real * charWidth, indent, charWidth);
            var width := wrapWidth - if channel && windowWidth > 600.0 then 200.0 else 0.0;
            height == Height(m, width) == 32 + 24 * Extra(m, width)
  {
    var pad := Pad(from, charWidth);
    ghost var m := Shape(breaks, length, pad, indent, charWidth);
    height := LINE_HEIGHT + 8;
    var width := wrapWidth;
    if channel && windowWidth > SMALL_SCREEN { width := width - USER_LIST_WIDTH; }

    if !Reaches(pad, length, charWidth, width) {
      FitsOnOneLine(m, width);
      return;
    }

    var prevBreak, prevPos := 0, 0;
    ghost var extra: nat := 0;
    for i := 0 to |breaks|
      invariant After(m, i, width) == Line(extra, prevBreak, prevPos)
      invariant pad == if extra == 0 then m.pad else indent
      invariant height == LINE_HEIGHT + 8 + LINE_HEIGHT * extra
    {
      if Reaches(pad, breaks[i].end - prevBreak, charWidth, width) {
        prevBreak := prevPos;
        pad := indent;
        height := height + LINE_HEIGHT;
        extra := extra + 1;
      }
      prevPos := breaks[i].next;
    }
    if Reaches(pad, length - prevBreak, charWidth, width) {
      height := height + LINE_HEIGHT;
    }
  }

  /** The time stamp and, for a named sender, the name and a space. */
  function Pad(from: Option<string>, charWidth: real): real {
    (6 + if from.Some? && from.value != "" then |from.value| + 1 else 0) as real * charWidth
  }

  /** The early return agrees with the loop. */
  lemma {:induction false} NoBreakYet(m: Shape, i: nat, width: real)
    requires m.Valid() && i <= |m.breaks| && !Reaches(m.pad, m.length, m.charWidth, width)
    ensures After(m, i, width).extra == 0 && After(m, i, width).start == 0
  {
    if i > 0 {
      NoBreakYet(m, i - 1, width);
      FurtherRightFits(m, 0, 0, m.length, 0, m.breaks[i - 1].end, width, width);
    }
  }

  lemma FitsOnOneLine(m: Shape, width: real)
    requires m.Valid() && !Reaches(m.pad, m.length, m.charWidth, width)
    ensures Extra(m, width) == 0
  {
    NoBreakYet(m, |m.breaks|, width);
  }

  lemma {:induction false} StartNotPastPos(m: Shape, i: nat, width: real)
    requires m.Valid() && i <= |m.breaks|
    ensures After(m, i, width).start <= After(m, i, width).pos
  {
    if i > 0 {
      StartNotPastPos(m, i - 1, width);
      assert i > 1 ==> m.breaks[i - 2].next <= m.breaks[i - 1].end;
    }
  }

  /** The wider layout has taken fewer line breaks, or as many and starts its line further right. */
  lemma {:induction false} WiderIsAhead(m: Shape, i: nat, narrow: real, wide: real)
    requires m.Valid() && i <= |m.breaks| && narrow <= wide
    ensures var s, t := After(m, i, narrow), After(m, i, wide);
            t.extra < s.extra || (t.extra == s.extra && s.start <= t.start)
  {
    if i > 0 {
      WiderIsAhead(m, i - 1, narrow, wide);
      StartNotPastPos(m, i - 1, narrow);
      var s, t := After(m, i - 1, narrow), After(m, i - 1, wide);
      if s.extra == t.extra {
        FurtherRightFits(m, s.extra, s.start, m.breaks[i - 1].end, t.start, m.breaks[i - 1].end, narrow, wide);
      }
    }
  }

  /** A larger wrap width never gives a larger height. */
  lemma HeightIsMonotone(m: Shape, narrow: real, wide: real)
    requires m.Valid() && narrow <= wide
    ensures Height(m, wide) <= Height(m, narrow)
  {
    WiderIsAhead(m, |m.breaks|, narrow, wide);
    var s, t := After(m, |m.breaks|, narrow), After(m, |m.breaks|, wide);
    if s.extra == t.extra {
      FurtherRightFits(m, s.extra, s.start, m.length, t.start, m.length, narrow, wide);
    }
  }

  // ---------------------------------------------------------------- greedy wrapping is optimal

  /** Any choice of break points, by index. */
  ghost predicate IsLayout(m: Shape, cuts: seq<nat>) {
    && (forall k :: 0 <= k < |cuts| ==> cuts[k] < |m.breaks|)
    && (forall k, l :: 0 <= k < l < |cuts| ==> cuts[k] < cuts[l])
  }

  ghost function CutStart(m: Shape, cuts: seq<nat>, k: nat): nat
    requires IsLayout(m, cuts) && k <= |cuts|
  {
    if k == 0 then 0 else m.breaks[cuts[k - 1]].next
  }

  ghost function CutEnd(m: Shape, cuts: seq<nat>, k: nat): nat
    requires IsLayout(m, cuts) && k <= |cuts|
  {
    if k == |cuts| then m.length else m.breaks[cuts[k]].end
  }

  /** Every line of the layout is narrower than the wrap width. */
  ghost predicate Fits(m: Shape, cuts: seq<nat>, width: real)
    requires IsLayout(m, cuts)
  {
    forall k :: 0 <= k <= |cuts| ==> !Overflows(m, k, CutStart(m, cuts, k), CutEnd(m, cuts, k), width)
  }

  /** A layout fits if every line, behind the pad of the first or the indent of the others, stays below the width. */
  lemma {:induction false} FitsMeans(m: Shape, cuts: seq<nat>, width: real)
    requires IsLayout(m, cuts)
    ensures Fits(m, cuts, width) <==>
              forall k :: 0 <= k <= |cuts| ==>
                (if k == 0 then m.pad else m.indent) +
                (CutEnd(m, cuts, k) - CutStart(m, cuts, k)) as real * m.charWidth < width
  {
    forall k | 0 <= k <= |cuts|
      ensures !Overflows(m, k, CutStart(m, cuts, k), CutEnd(m, cuts, k), width) <==>
                (if k == 0 then m.pad else m.indent) +
                (CutEnd(m, cuts, k) - CutStart(m, cuts, k)) as real * m.charWidth < width
    {
    }
  }

  /** With `k` cuts of a fitting layout before break point `i`, the greedy layout is not behind. */
  lemma {:induction false} GreedyIsAhead(m: Shape, cuts: seq<nat>, width: real, i: nat, k: nat)
    requires m.Valid() && IsLayout(m, cuts) && Fits(m, cuts, width)
    requires i <= |m.breaks| && k <= |cuts|
    requires (k > 0 ==> cuts[k - 1] < i) && (k < |cuts| ==> i <= cuts[k])
    ensures var s := After(m, i, width);
            s.extra < k || (s.extra == k && CutStart(m, cuts, k) <= s.start)
    decreases i
  {
    if i > 0 {
      var b := m.breaks[i - 1];
      var j := if k > 0 && cuts[k - 1] == i - 1 then k - 1 else k;
      GreedyIsAhead(m, cuts, width, i - 1, j);
      var s := After(m, i - 1, width);
      if s.extra == j {
        assert b.end <= CutEnd(m, cuts, j);
        FurtherRightFits(m, j, CutStart(m, cuts, j), CutEnd(m, cuts, j), s.start, b.end, width, width);
      }
      assert j > 0 ==> CutStart(m, cuts, j) <= s.pos;
    }
  }

  /** No layout that fits has fewer lines than the computed height allows for. */
  lemma GreedyIsOptimal(m: Shape, cuts: seq<nat>, width: real)
    requires m.Valid() && IsLayout(m, cuts) && Fits(m, cuts, width)
    ensures Extra(m, width) <= |cuts|
  {
    var s := After(m, |m.breaks|, width);
    GreedyIsAhead(m, cuts, width, |m.breaks|, |cuts|);
    if s.extra == |cuts| {
      FurtherRightFits(m, |cuts|, CutStart(m, cuts, |cuts|), m.length, s.start, m.length, width, width);
    }
  }

  /** Where break point `i` ends a line; the end of the text counts as one. */
  function EndOf(m: Shape, i: nat): nat { if i < |m.breaks| then m.breaks[i].end else m.length }

  /** How many cuts come before break point `i`. */
  ghost function CutsBefore(m: Shape, cuts: seq<nat>, i: nat, n: nat): (k: nat)
    requires IsLayout(m, cuts) && n <= |cuts| && (n < |cuts| ==> i <= cuts[n])
    ensures k <= n && (k > 0 ==> cuts[k - 1] < i) && (k < |cuts| ==> i <= cuts[k])
  {
    if n > 0 && i <= cuts[n - 1] then CutsBefore(m, cuts, i, n - 1) else n
  }

  /** If a layout fits, whatever overflows a line of the greedy layout fits on the next one. */
  lemma {:induction false} NextLineFits(m: Shape, cuts: seq<nat>, width: real, i: nat)
    requires m.Valid() && IsLayout(m, cuts) && Fits(m, cuts, width) && i <= |m.breaks|
    requires var s := After(m, i, width); Overflows(m, s.extra, s.start, EndOf(m, i), width)
    ensures i > 0 && !Overflows(m, 1, After(m, i, width).pos, EndOf(m, i), width)
  {
    var s, k := After(m, i, width), CutsBefore(m, cuts, i, |cuts|);
    GreedyIsAhead(m, cuts, width, i, k);
    assert EndOf(m, i) <= CutEnd(m, cuts, k);
    if s.extra == k {
      FurtherRightFits(m, k, CutStart(m, cuts, k), CutEnd(m, cuts, k), s.start, EndOf(m, i), width, width);
    }
    assert CutStart(m, cuts, k) <= s.pos;
    FurtherRightFits(m, k, CutStart(m, cuts, k), CutEnd(m, cuts, k), s.pos, EndOf(m, i), width, width);
  }

  /** The lines before the last cut fit. */
  ghost predicate Closed(m: Shape, cuts: seq<nat>, width: real) {
    IsLayout(m, cuts) &&
    forall k :: 0 <= k < |cuts| ==> !Overflows(m, k, CutStart(m, cuts, k), m.breaks[cuts[k]].end, width)
  }

  lemma {:induction false} OneMoreCut(m: Shape, g: seq<nat>, c: nat)
    requires IsLayout(m, g) && c < |m.breaks| && (g != [] ==> g[|g| - 1] < c)
    ensures IsLayout(m, g + [c]) && CutStart(m, g + [c], |g| + 1) == m.breaks[c].next
    ensures forall k :: 0 <= k <= |g| ==> CutStart(m, g + [c], k) == CutStart(m, g, k)
  {
  }

  lemma {:induction false} CloseLine(m: Shape, g: seq<nat>, width: real, c: nat)
    requires Closed(m, g, width) && c < |m.breaks| && (g != [] ==> g[|g| - 1] < c)
    requires !Overflows(m, |g|, CutStart(m, g, |g|), m.breaks[c].end, width)
    ensures Closed(m, g + [c], width) && CutStart(m, g + [c], |g| + 1) == m.breaks[c].next
  {
    var h := g + [c];
    OneMoreCut(m, g, c);
    forall k | 0 <= k < |h| ensures !Overflows(m, k, CutStart(m, h, k), m.breaks[h[k]].end, width) {
      assert CutStart(m, h, k) == CutStart(m, g, k);
      if k < |g| { assert h[k] == g[k]; }
    }
  }

  lemma {:induction false} LastLine(m: Shape, g: seq<nat>, width: real)
    requires Closed(m, g, width) && !Overflows(m, |g|, CutStart(m, g, |g|), m.length, width)
    ensures Fits(m, g, width)
  {
    forall k | 0 <= k <= |g| ensures !Overflows(m, k, CutStart(m, g, k), CutEnd(m, g, k), width) {
    }
  }

  /** The cuts of the greedy layout up to break point `i`. */
  lemma {:induction false} GreedySoFar(m: Shape, cuts: seq<nat>, width: real, i: nat) returns (g: seq<nat>)
    requires m.Valid() && IsLayout(m, cuts) && Fits(m, cuts, width) && i <= |m.breaks|
    ensures var s := After(m, i, width);
            && Closed(m, g, width) && |g| == s.extra && s.start == CutStart(m, g, |g|)
            && (g != [] ==> g[|g| - 1] + 1 < i)
            && (i > 0 ==> !Overflows(m, s.extra, s.start, m.breaks[i - 1].end, width))
    decreases i
  {
    g := [];
    if i > 0 {
      g := GreedySoFar(m, cuts, width, i - 1);
      var s := After(m, i - 1, width);
      if Overflows(m, s.extra, s.start, m.breaks[i - 1].end, width) {
        NextLineFits(m, cuts, width, i - 1);
        CloseLine(m, g, width, i - 2);
        g := g + [i - 2];
      }
    }
  }

  /** If some layout fits, there is one with as many line breaks as the computed height allows for. */
  lemma {:induction false} GreedyAttains(m: Shape, cuts: seq<nat>, width: real) returns (g: seq<nat>)
    requires m.Valid() && IsLayout(m, cuts) && Fits(m, cuts, width)
    ensures IsLayout(m, g) && Fits(m, g, width) && |g| == Extra(m, width)
  {
    var n := |m.breaks|;
    var s := After(m, n, width);
    g := GreedySoFar(m, cuts, width, n);
    if Overflows(m, s.extra, s.start, m.length, width) {
      NextLineFits(m, cuts, width, n);
      CloseLine(m, g, width, n - 1);
      g := g + [n - 1];
    }
    LastLine(m, g, width);
  }

  /** Where the message can be laid out at all, the computed height is that of its shortest layout. */
  lemma {:induction false} HeightIsLeast(m: Shape, width: real, n: nat)
    requires m.Valid() && exists cuts :: IsLayout(m, cuts) && Fits(m, cuts, width)
    ensures n == Extra(m, width) <==>
              && (exists cuts :: IsLayout(m, cuts) && Fits(m, cuts, width) && |cuts| == n)
              && (forall cuts :: IsLayout(m, cuts) && Fits(m, cuts, width) ==> n <= |cuts|)
  {
    var some :| IsLayout(m, some) && Fits(m, some, width);
    var g := GreedyAttains(m, some, width);
    forall cuts | IsLayout(m, cuts) && Fits(m, cuts, width) ensures Extra(m, width) <= |cuts| {
      GreedyIsOptimal(m, cuts, width);
    }
  }

  // ---------------------------------------------------------------- messages that do not fit

  /** The message with a break point at its end, so that every piece between break points ends at one. */
  function Ended(m: Shape): Shape { m.(breaks := m.breaks + [Break(m.length, m.length)]) }

  function PieceStart(m: Shape, i: nat): nat
    requires i <= |m.breaks|
  {
    if i == 0 then 0 else m.breaks[i - 1].next
  }

  /** A line number for every piece; the first line may stay empty, but no other. */
  ghost predicate IsWrapping(m: Shape, lines: seq<nat>) {
    && |lines| == |m.breaks| && (lines != [] ==> lines[0] <= 1)
    && forall i, j :: 0 <= i < j < |lines| && j == i + 1 ==> lines[i] <= lines[j] <= lines[i] + 1
  }

  /** Every line fits, or is a single piece that already has a line of its own. */
  ghost predicate WrapsWell(m: Shape, lines: seq<nat>, width: real)
    requires |lines| == |m.breaks|
  {
    forall i, j :: 0 <= i <= j < |lines| && lines[i] == lines[j] && (i < j || lines[i] == 0) ==>
      !Overflows(m, lines[i], PieceStart(m, i), m.breaks[j].end, width)
  }

  /** The line that the loop has put piece `i` on. */
  ghost function GreedyLines(m: Shape, width: real, n: nat): (lines: seq<nat>)
    requires n <= |m.breaks|
    ensures |lines| == n && forall i :: 0 <= i < n ==> lines[i] == After(m, i + 1, width).extra
  {
    seq(n, i requires 0 <= i < n => After(m, i + 1, width).extra)
  }

  /** While the line number stays the same, so does the start of the line, and what was put on it fits. */
  lemma {:induction false} SameLine(m: Shape, width: real, i: nat, j: nat)
    requires m.Valid() && i < j < |m.breaks| && After(m, i + 1, width).extra == After(m, j + 1, width).extra
    ensures After(m, i + 1, width).start == After(m, j + 1, width).start
    ensures After(m, j, width).extra == After(m, j + 1, width).extra
    ensures !Overflows(m, After(m, j, width).extra, After(m, j, width).start, m.breaks[j].end, width)
    decreases j
  {
    ExtraGrows(m, width, i + 1, j);
    if i + 1 < j { SameLine(m, width, i, j - 1); }
  }

  lemma {:induction false} ExtraGrows(m: Shape, width: real, i: nat, j: nat)
    requires i <= j <= |m.breaks|
    ensures After(m, i, width).extra <= After(m, j, width).extra
    decreases j
  {
    if i < j { ExtraGrows(m, width, i, j - 1); }
  }

  /** A line starts no later than the pieces on it. */
  lemma {:induction false} StartNotPastPiece(m: Shape, width: real, i: nat)
    requires m.Valid() && i < |m.breaks|
    ensures After(m, i + 1, width).start <= PieceStart(m, i)
  {
    StartNotPastPos(m, i, width);
  }

  lemma {:induction false} FirstLineFits(m: Shape, width: real, i: nat)
    requires m.Valid() && i < |m.breaks| && After(m, i + 1, width).extra == 0
    ensures !Overflows(m, 0, 0, m.breaks[i].end, width) && After(m, i, width).start == 0
  {
    ExtraGrows(m, width, i, i + 1);
    if i > 0 { FirstLineFits(m, width, i - 1); }
  }

  lemma {:induction false} GreedyWrapsWell(m: Shape, width: real)
    requires m.Valid()
    ensures var lines := GreedyLines(m, width, |m.breaks|); IsWrapping(m, lines) && WrapsWell(m, lines, width)
  {
    var lines := GreedyLines(m, width, |m.breaks|);
    assert After(m, 0, width) == Line(0, 0, 0);
    forall i, j | 0 <= i <= j < |lines| && lines[i] == lines[j] && (i < j || lines[i] == 0)
      ensures !Overflows(m, lines[i], PieceStart(m, i), m.breaks[j].end, width)
    {
      StartNotPastPiece(m, width, i);
      if i < j {
        SameLine(m, width, i, j);
        FurtherRightFits(m, lines[i], After(m, j, width).start, m.breaks[j].end, PieceStart(m, i), m.breaks[j].end,
                         width, width);
      } else {
        FirstLineFits(m, width, i);
        FurtherRightFits(m, 0, 0, m.breaks[i].end, PieceStart(m, i), m.breaks[i].end, width, width);
      }
    }
  }

  /** The loop is not behind any wrapping: its line has a lower number, or starts no earlier. */
  lemma {:induction false} NotBehind(m: Shape, lines: seq<nat>, width: real, i: nat, first: nat)
    requires m.Valid() && IsWrapping(m, lines) && WrapsWell(m, lines, width)
    requires first <= i < |lines| && lines[first] == lines[i] && (first == 0 || lines[first - 1] < lines[first])
    ensures var s := After(m, i + 1, width);
            s.extra < lines[i] || (s.extra == lines[i] && PieceStart(m, first) <= s.start)
    decreases i
  {
    var b := m.breaks[i];
    if i > 0 {
      var s := After(m, i, width);
      if first == i {
        var f := FirstOnLine(m, lines, i - 1);
        NotBehind(m, lines, width, i - 1, f);
      } else {
        BetweenSame(m, lines, first, i);
        NotBehind(m, lines, width, i - 1, first);
        StartsRise(m, first, i);
        if s.extra == lines[i] {
          FurtherRightFits(m, lines[i], PieceStart(m, first), b.end, s.start, b.end, width, width);
        }
      }
    }
  }

  lemma {:induction false} StartsRise(m: Shape, i: nat, j: nat)
    requires m.Valid() && i <= j <= |m.breaks|
    ensures PieceStart(m, i) <= PieceStart(m, j)
  {
    if 0 < i < j { assert m.breaks[i - 1].next <= m.breaks[j - 1].end; }
  }

  lemma {:induction false} BetweenSame(m: Shape, lines: seq<nat>, i: nat, j: nat)
    requires IsWrapping(m, lines) && i < j < |lines| && lines[i] == lines[j]
    ensures lines[j - 1] == lines[j]
  {
    LinesRise(m, lines, i, j - 1);
    assert lines[j - 1] <= lines[j];
  }

  lemma {:induction false} LinesRise(m: Shape, lines: seq<nat>, i: nat, j: nat)
    requires IsWrapping(m, lines) && i <= j < |lines|
    ensures lines[i] <= lines[j]
  {
    if i < j {
      LinesRise(m, lines, i, j - 1);
      assert lines[j - 1] <= lines[j];
    }
  }

  lemma {:induction false} FirstOnLine(m: Shape, lines: seq<nat>, i: nat) returns (first: nat)
    requires IsWrapping(m, lines) && i < |lines|
    ensures first <= i && lines[first] == lines[i] && (first == 0 || lines[first - 1] < lines[first])
  {
    first := i;
    if i > 0 && lines[i - 1] == lines[i] {
      first := FirstOnLine(m, lines, i - 1);
    } else if i > 0 {
      assert lines[i - 1] <= lines[i];
    }
  }

  lemma {:induction false} EndedIs(m: Shape, width: real, i: nat)
    requires m.Valid() && i <= |m.breaks|
    ensures Ended(m).Valid() && After(Ended(m), i, width) == After(m, i, width)
  {
    if i > 0 { EndedIs(m, width, i - 1); }
  }

  lemma {:induction false} ExtraIs(m: Shape, width: real)
    requires m.Valid()
    ensures Ended(m).Valid() && After(Ended(m), |m.breaks| + 1, width).extra == Extra(m, width)
  {
    EndedIs(m, width, |m.breaks|);
  }

  /** Of every message, fitting or not, the loop counts the fewest line breaks with which each line fits or is a
      single piece that has a line of its own. */
  lemma {:induction false} HeightIsLeastAlways(m: Shape, width: real)
    requires m.Valid()
    ensures exists lines :: IsWrapping(Ended(m), lines) && WrapsWell(Ended(m), lines, width)
                            && lines[|m.breaks|] == Extra(m, width)
    ensures forall lines :: IsWrapping(Ended(m), lines) && WrapsWell(Ended(m), lines, width) ==>
              Extra(m, width) <= lines[|m.breaks|]
  {
    var e, n := Ended(m), |m.breaks|;
    ExtraIs(m, width);
    GreedyWrapsWell(e, width);
    assert GreedyLines(e, width, n + 1)[n] == Extra(m, width);
    forall lines | IsWrapping(e, lines) && WrapsWell(e, lines, width) ensures Extra(m, width) <= lines[n] {
      var first := FirstOnLine(e, lines, n);
      NotBehind(e, lines, width, n, first);
    }
  }
}
