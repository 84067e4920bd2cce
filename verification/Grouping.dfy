/** Collapsing runs of events: the one specification shared by the server's message log and the
    client's message list. */
module Grouping {

  /** One element of a channel's input: a text message, or an event such as a join. */
  datatype Item<T, E> = Text(text: T) | Happened(event: E)

  predicate Joins<T, E>(collapsible: E -> bool, a: Item<T, E>, b: Item<T, E>) {
    a.Happened? && b.Happened? && collapsible(a.event) && collapsible(b.event)
  }

  function Last<X>(s: seq<X>): X
    requires s != []
  {
    s[|s| - 1]
  }

  function Front<X>(s: seq<X>): seq<X>
    requires s != []
  {
    s[..|s| - 1]
  }

  /** Adding one item: it joins the newest group if that starts with a collapsible event too. */
  function Add<T, E>(collapsible: E -> bool, gs: seq<seq<Item<T, E>>>, x: Item<T, E>): seq<seq<Item<T, E>>> {
    if gs != [] && Last(gs) != [] && Joins(collapsible, Last(gs)[0], x)
    then Front(gs) + [Last(gs) + [x]]
    else gs + [[x]]
  }

  function Group<T, E>(collapsible: E -> bool, stream: seq<Item<T, E>>): seq<seq<Item<T, E>>> {
    if stream == [] then [] else Add(collapsible, Group(collapsible, Front(stream)), Last(stream))
  }

  function Flatten<X>(gs: seq<seq<X>>): seq<X> {
    if gs == [] then [] else Flatten(Front(gs)) + Last(gs)
  }

  /** A maximal-run grouping: it flattens to the stream, only collapsible events share a group, and
      no two neighbouring groups could still be merged. */
  ghost predicate IsMaximal<T(!new), E(!new)>(collapsible: E -> bool, stream: seq<Item<T, E>>,
                                              gs: seq<seq<Item<T, E>>>)
  {
    && Flatten(gs) == stream
    && (forall i :: 0 <= i < |gs| ==> IsRun(collapsible, gs[i]))
    && (forall i, j :: 0 <= i < j < |gs| && j == i + 1 ==> !Joins(collapsible, Last(gs[i]), gs[j][0]))
  }

  ghost predicate IsRun<T(!new), E(!new)>(collapsible: E -> bool, g: seq<Item<T, E>>) {
    g != [] && (|g| > 1 ==> forall x :: x in g ==> Joins(collapsible, x, x))
  }

  lemma GroupSnoc<T, E>(collapsible: E -> bool, stream: seq<Item<T, E>>, x: Item<T, E>)
    ensures Group(collapsible, stream + [x]) == Add(collapsible, Group(collapsible, stream), x)
  {
    assert Front(stream + [x]) == stream;
  }

  lemma FlattenSnoc<X>(gs: seq<seq<X>>, g: seq<X>)
    ensures Flatten(gs + [g]) == Flatten(gs) + g
  {
    assert Front(gs + [g]) == gs;
  }

  lemma {:induction false} ExtendLast<T(!new), E(!new)>(collapsible: E -> bool, stream: seq<Item<T, E>>,
                                                        gs: seq<seq<Item<T, E>>>, x: Item<T, E>)
    requires IsMaximal(collapsible, stream, gs) && gs != [] && Last(gs) != [] && Joins(collapsible, Last(gs)[0], x)
    ensures IsMaximal(collapsible, stream + [x], Front(gs) + [Last(gs) + [x]])
  {
    var g, hs := Last(gs), Front(gs) + [Last(gs) + [x]];
    assert IsRun(collapsible, gs[|gs| - 1]) && g[0] in g;
    assert IsRun(collapsible, g + [x]);
    FlattenSnoc(Front(gs), g + [x]);
    assert Flatten(Front(gs)) + (g + [x]) == stream + [x];
    forall i | 0 <= i < |hs| ensures IsRun(collapsible, hs[i]) {
      if i < |gs| - 1 { assert hs[i] == gs[i]; }
    }
    forall i, j | 0 <= i < j < |hs| && j == i + 1 ensures !Joins(collapsible, Last(hs[i]), hs[j][0]) {
      assert hs[i] == gs[i] && hs[j][0] == gs[j][0];
    }
  }

  lemma {:induction false} StartNew<T(!new), E(!new)>(collapsible: E -> bool, stream: seq<Item<T, E>>,
                                                      gs: seq<seq<Item<T, E>>>, x: Item<T, E>)
    requires IsMaximal(collapsible, stream, gs) && (gs != [] ==> Last(gs) != [] && !Joins(collapsible, Last(gs)[0], x))
    ensures IsMaximal(collapsible, stream + [x], gs + [[x]])
  {
    var hs := gs + [[x]];
    FlattenSnoc(gs, [x]);
    forall i | 0 <= i < |hs| ensures IsRun(collapsible, hs[i]) {
      if i < |gs| { assert hs[i] == gs[i]; }
    }
    forall i, j | 0 <= i < j < |hs| && j == i + 1 ensures !Joins(collapsible, Last(hs[i]), hs[j][0]) {
      assert hs[i] == gs[i] && IsRun(collapsible, gs[i]);
      assert Last(gs[i]) in gs[i] && gs[i][0] in gs[i];
      if j < |gs| { assert hs[j] == gs[j]; }
    }
  }

  lemma {:induction false} AddKeepsMaximal<T(!new), E(!new)>(collapsible: E -> bool, stream: seq<Item<T, E>>,
                                                             gs: seq<seq<Item<T, E>>>, x: Item<T, E>)
    requires IsMaximal(collapsible, stream, gs)
    ensures IsMaximal(collapsible, stream + [x], Add(collapsible, gs, x))
  {
    if gs != [] { assert IsRun(collapsible, gs[|gs| - 1]); }
    if gs != [] && Joins(collapsible, Last(gs)[0], x) {
      ExtendLast(collapsible, stream, gs, x);
    } else {
      StartNew(collapsible, stream, gs, x);
    }
  }

  /** The incremental grouping is a maximal-run grouping of every stream. */
  lemma {:induction false} GroupIsMaximal<T(!new), E(!new)>(collapsible: E -> bool, stream: seq<Item<T, E>>)
    ensures IsMaximal(collapsible, stream, Group(collapsible, stream))
  {
    if stream != [] {
      var front, x := Front(stream), Last(stream);
      assert front + [x] == stream;
      GroupIsMaximal(collapsible, front);
      AddKeepsMaximal(collapsible, front, Group(collapsible, front), x);
    }
  }

  /** Taking the last item of the stream away from a maximal grouping, when it is alone in its group
      and when it shares it. */
  lemma DropSingle<T(!new), E(!new)>(collapsible: E -> bool, stream: seq<Item<T, E>>, gs: seq<seq<Item<T, E>>>)
    requires stream != [] && gs != [] && |Last(gs)| == 1 && IsMaximal(collapsible, stream, gs)
    ensures IsMaximal(collapsible, Front(stream), Front(gs))
    ensures Add(collapsible, Front(gs), Last(stream)) == gs
  {
    var hs, x := Front(gs), Last(gs)[0];
    assert Last(gs) == [x];
    assert Flatten(hs) + [x] == stream;
    assert gs == hs + [[x]];
    if hs != [] {
      var h := Last(hs);
      assert IsRun(collapsible, gs[|gs| - 2]);
      assert h[0] in h && Last(h) in h;
      assert !Joins(collapsible, Last(gs[|gs| - 2]), gs[|gs| - 1][0]);
    }
  }

  lemma DropShared<T(!new), E(!new)>(collapsible: E -> bool, stream: seq<Item<T, E>>, gs: seq<seq<Item<T, E>>>)
    requires stream != [] && gs != [] && |Last(gs)| > 1 && IsMaximal(collapsible, stream, gs)
    ensures IsMaximal(collapsible, Front(stream), Front(gs) + [Front(Last(gs))])
    ensures Add(collapsible, Front(gs) + [Front(Last(gs))], Last(stream)) == gs
  {
    var g, hs := Last(gs), Front(gs) + [Front(Last(gs))];
    assert IsRun(collapsible, gs[|gs| - 1]);
    assert forall y :: y in Front(g) ==> y in g;
    FlattenSnoc(Front(gs), Front(g));
    assert Flatten(Front(gs)) + g == stream;
    assert Flatten(hs) == Front(stream);
    assert g[0] in g && Last(g) in g;
    assert Front(hs) == Front(gs) && Front(g) + [Last(g)] == g;
  }

  /** Being a maximal-run grouping determines the groups. */
  lemma {:induction false} MaximalIsUnique<T(!new), E(!new)>(collapsible: E -> bool, stream: seq<Item<T, E>>,
                                                             gs: seq<seq<Item<T, E>>>)
    requires IsMaximal(collapsible, stream, gs)
    ensures gs == Group(collapsible, stream)
    decreases |stream|
  {
    if gs == [] {
    } else if |Last(gs)| == 1 {
      DropSingle(collapsible, stream, gs);
      MaximalIsUnique(collapsible, Front(stream), Front(gs));
    } else {
      assert IsRun(collapsible, gs[|gs| - 1]);
      DropShared(collapsible, stream, gs);
      MaximalIsUnique(collapsible, Front(stream), Front(gs) + [Front(Last(gs))]);
    }
  }

  lemma {:induction false} FlattenNoShorter<X>(gs: seq<seq<X>>, i: nat)
    requires i < |gs|
    ensures |gs[i]| <= |Flatten(gs)|
  {
    if i < |gs| - 1 { FlattenNoShorter(Front(gs), i); }
  }
}
