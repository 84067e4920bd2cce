/** The prefix index over a network's channel list. */
module ChannelIndex {
  import opened Wire
  import Bolt

  datatype Item = Item(name: Bytes, userCount: int, topic: Bytes)

  const HASH: byte := 35

  function TrimHashes(s: Bytes): Bytes { if s != [] && s[0] == HASH then TrimHashes(s[1..]) else s }

  /** `chanList.Less`: more users first, then by lower-cased name. */
  predicate Before(lower: Bytes -> Bytes, a: Item, b: Item) {
    a.userCount > b.userCount || (a.userCount == b.userCount && Bolt.Less(lower(a.name), lower(b.name)))
  }

  ghost predicate Ordered(lower: Bytes -> Bytes, items: seq<Item>) {
    forall i, j :: 0 <= i < j < |items| ==> !Before(lower, items[j], items[i])
  }

  /** The comparison is a strict weak order, as `sort.Sort` demands. */
  lemma BeforeIsStrictWeakOrder(lower: Bytes -> Bytes, a: Item, b: Item, c: Item)
    ensures !Before(lower, a, a)
    ensures Before(lower, a, b) && Before(lower, b, c) ==> Before(lower, a, c)
    ensures !Before(lower, a, b) && !Before(lower, b, c) ==> !Before(lower, a, c)
  {
    var x, y, z := lower(a.name), lower(b.name), lower(c.name);
    Bolt.LessTotal(x, x);
    Bolt.LessTotal(x, y);
    Bolt.LessTotal(y, z);
    if Bolt.Less(x, y) && Bolt.Less(y, z) { Bolt.LessTransitive(x, y, z); }
    if Bolt.Less(x, z) && Bolt.Less(y, x) && y != z { Bolt.LessTransitive(y, x, z); }
    if Bolt.Less(x, z) && Bolt.Less(z, y) { Bolt.LessTransitive(x, z, y); }
  }

  /** Along an ordered list the user counts do not increase, and names of equal counts do not decrease. */
  lemma {:induction false} OrderedMeans(lower: Bytes -> Bytes, items: seq<Item>, i: nat, j: nat)
    requires Ordered(lower, items) && i < j < |items|
    ensures items[i].userCount >= items[j].userCount
    ensures items[i].userCount == items[j].userCount ==>
              lower(items[i].name) == lower(items[j].name) || Bolt.Less(lower(items[i].name), lower(items[j].name))
  {
    assert !Before(lower, items[j], items[i]);
    Bolt.LessTotal(lower(items[i].name), lower(items[j].name));
  }

  /** All hashes at the front of a name are taken off, and nothing else. */
  lemma {:induction false} TrimHashesMeans(hashes: Bytes, rest: Bytes)
    requires (forall i :: 0 <= i < |hashes| ==> hashes[i] == '#' as int) && (rest == [] || rest[0] != '#' as int)
    ensures TrimHashes(hashes + rest) == rest
  {
    if hashes == [] {
      assert hashes + rest == rest;
    } else {
      assert (hashes + rest)[1..] == hashes[1..] + rest;
      TrimHashesMeans(hashes[1..], rest);
    }
  }

  /** The items whose lower-cased, '#'-trimmed name starts with a non-empty `q`, in order. */
  function Matching(key: Item -> Bytes, items: seq<Item>, q: Bytes): seq<Item> {
    if items == [] then []
    else
      var front, last := Matching(key, items[..|items| - 1], q), items[|items| - 1];
      if q != [] && q <= key(last) then front + [last] else front
  }

  lemma MatchingSnoc(key: Item -> Bytes, items: seq<Item>, j: nat, q: Bytes)
    requires j < |items|
    ensures Matching(key, items[..j + 1], q)
         == Matching(key, items[..j], q) + if q != [] && q <= key(items[j]) then [items[j]] else []
  {
    assert items[..j + 1][..j] == items[..j];
  }

  type Prefixes = map<Bytes, seq<Item>>

  function Lookup(m: Prefixes, q: Bytes): seq<Item> { if q in m then m[q] else [] }

  /** Enter one item under every non-empty prefix of its key. */
  method Enter(m: Prefixes, key: Bytes, ch: Item) returns (m': Prefixes)
    ensures forall q :: Lookup(m', q) == Lookup(m, q) + if q != [] && q <= key then [ch] else []
  {
    m' := m;
    for i := 1 to |key| + 1
      invariant forall q :: Lookup(m', q) == Lookup(m, q) + if q != [] && |q| < i && q <= key then [ch] else []
    {
      var k := key[..i];
      ghost var was := m';
      if k in m' {
        m' := m'[k := m'[k] + [ch]];
      } else {
        m' := m'[k := [ch]];
      }
      forall q
        ensures Lookup(m', q) == Lookup(m, q) + if q != [] && |q| < i + 1 && q <= key then [ch] else []
      {
        assert Lookup(was, q) == Lookup(m, q) + if q != [] && |q| < i && q <= key then [ch] else [];
        if q == k {
          assert Lookup(m', q) == Lookup(was, q) + [ch];
        } else {
          assert |q| == i ==> !(q <= key);
        }
      }
    }
  }

  class MapChannelListIndex {
    var channels: seq<Item>
    var m: Prefixes
    const lower: Bytes -> Bytes

    constructor (lower: Bytes -> Bytes)
      ensures channels == [] && m == map[] && this.lower == lower
    {
      channels, m, this.lower := [], map[], lower;
    }

    function Key(ch: Item): Bytes { TrimHashes(lower(ch.name)) }

    method Add(item: Item)
      modifies this
      ensures channels == old(channels) + [item] && m == old(m)
    {
      channels := channels + [item];
    }

    /** `sorted` is what `sort.Sort` left in the list.  Every prefix gains exactly the matching
        channels in list order, so a second call would enter all of them again. */
    method Finish(sorted: seq<Item>)
      requires multiset(sorted) == multiset(channels) && Ordered(lower, sorted)
      modifies this
      ensures channels == sorted
      ensures forall q :: Lookup(m, q) == Lookup(old(m), q) + Matching(Key, sorted, q)
      ensures old(m) == map[] ==> forall q :: q != [] ==> Search(q) == Matching(Key, sorted, q)
    {
      channels := sorted;
      for j := 0 to |channels|
        invariant channels == sorted
        invariant forall q :: Lookup(m, q) == Lookup(old(m), q) + Matching(Key, sorted[..j], q)
      {
        ghost var was := m;
        m := Enter(m, Key(channels[j]), channels[j]);
        forall q ensures Lookup(m, q) == Lookup(old(m), q) + Matching(Key, sorted[..j + 1], q) {
          assert Lookup(was, q) == Lookup(old(m), q) + Matching(Key, sorted[..j], q);
          MatchingSnoc(Key, sorted, j, q);
        }
      }
      assert sorted[..|sorted|] == sorted;
    }

    function Search(q: Bytes): seq<Item>
      reads this
    {
      if q == [] then channels else Lookup(m, q)
    }

    /** A page of a search; `nil` past the end. */
    function SearchN(q: Bytes, start: nat, n: nat): (page: seq<Item>)
      reads this
      ensures page == Page(Search(q), start, n)
      ensures |page| == if start >= |Search(q)| then 0 else Min(n, |Search(q)| - start)
      ensures forall i :: 0 <= i < |page| ==> page[i] == Search(q)[start + i]
    {
      var res := if q == [] then channels else Lookup(m, q);
      if start >= |res| then [] else res[start..Min(start + n, |res|)]
    }
  }

  function Min(x: int, y: int): int { if x < y then x else y }

  /** Elements `start` up to `start + n` of a list, as far as it goes. */
  function Page<X>(list: seq<X>, start: nat, n: nat): seq<X> {
    var rest := if start <= |list| then list[start..] else [];
    if n < |rest| then rest[..n] else rest
  }

  /** The pages a client fetches one after the other, with any positive sizes. */
  function Pages<X>(list: seq<X>, sizes: nat -> nat, step: nat, start: nat): seq<X>
    requires forall i :: sizes(i) > 0
    decreases if start < |list| then |list| - start else 0
  {
    if start >= |list| then []
    else Page(list, start, sizes(step)) + Pages(list, sizes, step + 1, start + sizes(step))
  }

  lemma {:induction false} PageIs<X>(list: seq<X>, start: nat, n: nat)
    requires start <= |list|
    ensures Page(list, start, n) == list[start..if start + n < |list| then start + n else |list|]
  {
    if start + n < |list| { assert list[start..][..n] == list[start..start + n]; }
  }

  /** Successive pages concatenate to the whole search result. */
  lemma {:induction false} PagesCoverSearch<X>(list: seq<X>, sizes: nat -> nat, step: nat, start: nat)
    requires start <= |list| && forall i :: sizes(i) > 0
    ensures Pages(list, sizes, step, start) == list[start..]
    decreases |list| - start
  {
    if start < |list| {
      var next := start + sizes(step);
      PageIs(list, start, sizes(step));
      if next < |list| {
        PagesCoverSearch(list, sizes, step + 1, next);
        assert list[start..next] + list[next..] == list[start..];
      } else {
        assert Pages(list, sizes, step + 1, next) == [];
      }
    }
  }
}
