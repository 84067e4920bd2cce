/** The ordered key/value abstraction of a bbolt bucket, its cursor, and prefix scans. */
module Bolt {
  import opened Wrappers
  import opened Wire

  /** Lexicographic byte order. */
  predicate Less(a: Bytes, b: Bytes) {
    if b == [] then false
    else if a == [] then true
    else if a[0] != b[0] then a[0] < b[0]
    else Less(a[1..], b[1..])
  }

  predicate HasPrefix(k: Bytes, p: Bytes) { p <= k }

  datatype Entry = Entry(key: Bytes, value: Bytes)
  type Bucket = seq<Entry>

  ghost predicate Sorted(b: Bucket) {
    forall i, j :: 0 <= i < j < |b| ==> Less(b[i].key, b[j].key)
  }

  lemma {:induction false} LessTransitive(a: Bytes, b: Bytes, c: Bytes)
    requires Less(a, b) && Less(b, c)
    ensures Less(a, c)
  {
    if a != [] && a[0] == b[0] && b[0] == c[0] { LessTransitive(a[1..], b[1..], c[1..]); }
  }

  lemma {:induction false} LessTotal(a: Bytes, b: Bytes)
    ensures a == b || Less(a, b) || Less(b, a)
    ensures !(Less(a, b) && Less(b, a)) && (a == b ==> !Less(a, b))
  {
    if a != [] && b != [] {
      LessTotal(a[1..], b[1..]);
      if a[0] == b[0] && a[1..] == b[1..] { assert a == [a[0]] + a[1..] == b; }
    }
  }

  /** The order of dictionaries: a proper prefix comes first, else the first difference decides. */
  lemma {:induction false} LessMeans(a: Bytes, b: Bytes)
    ensures Less(a, b) <==> a < b || exists i :: 0 <= i < |a| && i < |b| && a[..i] == b[..i] && a[i] < b[i]
  {
    if a != [] && b != [] && a[0] == b[0] {
      var x, y := a[1..], b[1..];
      LessMeans(x, y);
      assert a == [a[0]] + x && b == [b[0]] + y;
      assert x < y <==> a < b;
      forall i | 0 <= i < |x| && i < |y| && x[..i] == y[..i] && x[i] < y[i]
        ensures a[..i + 1] == b[..i + 1] && a[i + 1] < b[i + 1]
      {
        assert a[..i + 1] == [a[0]] + x[..i] && b[..i + 1] == [b[0]] + y[..i];
      }
      forall i | 0 < i < |a| && i < |b| && a[..i] == b[..i] && a[i] < b[i]
        ensures x[..i - 1] == y[..i - 1] && x[i - 1] < y[i - 1]
      {
        assert x[..i - 1] == a[..i][1..] && y[..i - 1] == b[..i][1..];
      }
    } else if a != [] && b != [] {
      assert a[..0] == b[..0];
      assert forall i {:trigger a[..i]} :: 0 < i <= |a| ==> a[..i][0] == a[0];
      assert forall i {:trigger b[..i]} :: 0 < i <= |b| ==> b[..i][0] == b[0];
    }
  }

  lemma HasPrefixStep(k: Bytes, p: Bytes)
    requires k != [] && p != []
    ensures HasPrefix(k, p) <==> k[0] == p[0] && HasPrefix(k[1..], p[1..])
  {
    assert p == [p[0]] + p[1..] && k == [k[0]] + k[1..];
  }

  /** The strings with a given prefix form an interval that starts at the prefix itself. */
  lemma {:induction false} PrefixNotBelow(p: Bytes, x: Bytes)
    requires HasPrefix(x, p)
    ensures !Less(x, p)
  {
    if p != [] {
      HasPrefixStep(x, p);
      PrefixNotBelow(p[1..], x[1..]);
    }
  }

  lemma {:induction false} PrefixIsInterval(p: Bytes, x: Bytes, y: Bytes)
    requires !Less(x, p) && Less(x, y) && HasPrefix(y, p)
    ensures HasPrefix(x, p)
  {
    if p != [] {
      HasPrefixStep(x, p);
      HasPrefixStep(y, p);
      PrefixIsInterval(p[1..], x[1..], y[1..]);
    }
  }

  // ---------------------------------------------------------------- bucket operations

  function SeekFrom(b: Bucket, k: Bytes, i: nat): (r: nat)
    requires i <= |b|
    ensures i <= r <= |b|
    ensures forall j :: i <= j < r ==> Less(b[j].key, k)
    ensures r < |b| ==> !Less(b[r].key, k)
    decreases |b| - i
  {
    if i == |b| || !Less(b[i].key, k) then i else SeekFrom(b, k, i + 1)
  }

  /** Where `Seek(k)` lands: the first entry whose key is not below `k`. */
  function LowerBound(b: Bucket, k: Bytes): (r: nat)
    ensures r <= |b|
    ensures forall i :: 0 <= i < r ==> Less(b[i].key, k)
    ensures r < |b| ==> !Less(b[r].key, k)
  {
    SeekFrom(b, k, 0)
  }

  predicate Found(b: Bucket, k: Bytes) {
    var i := LowerBound(b, k);
    i < |b| && b[i].key == k
  }

  function Get(b: Bucket, k: Bytes): Option<Bytes> {
    if Found(b, k) then Some(b[LowerBound(b, k)].value) else None
  }

  function Put(b: Bucket, k: Bytes, v: Bytes): Bucket {
    var i := LowerBound(b, k);
    b[..i] + [Entry(k, v)] + b[if Found(b, k) then i + 1 else i..]
  }

  function Delete(b: Bucket, k: Bytes): Bucket {
    var i := LowerBound(b, k);
    if Found(b, k) then b[..i] + b[i + 1..] else b
  }

  /** In a sorted bucket a key is found exactly where it is. */
  lemma FoundAt(b: Bucket, i: nat)
    requires Sorted(b) && i < |b|
    ensures LowerBound(b, b[i].key) == i && Found(b, b[i].key)
  {
    var k, r := b[i].key, LowerBound(b, b[i].key);
    LessTotal(k, k);
  }

  lemma AboveLowerBound(b: Bucket, k: Bytes, j: nat)
    requires Sorted(b) && LowerBound(b, k) <= j < |b|
    ensures !Less(b[j].key, k)
    ensures b[j].key == k ==> j == LowerBound(b, k)
    ensures j > LowerBound(b, k) || !Found(b, k) ==> Less(k, b[j].key)
  {
    var r := LowerBound(b, k);
    LessTotal(b[r].key, k);
    LessTotal(b[j].key, k);
    if r < j {
      assert Less(b[r].key, b[j].key);
      if b[r].key != k { LessTransitive(k, b[r].key, b[j].key); }
    }
  }

  lemma GetCharacterised(b: Bucket, k: Bytes, v: Bytes)
    requires Sorted(b)
    ensures Get(b, k) == Some(v) <==> Entry(k, v) in b
  {
    if Entry(k, v) in b {
      var i :| 0 <= i < |b| && b[i] == Entry(k, v);
      FoundAt(b, i);
    }
  }

  lemma SpliceSorted(lo: Bucket, e: Entry, hi: Bucket)
    requires Sorted(lo) && Sorted(hi)
    requires forall x :: x in lo ==> Less(x.key, e.key)
    requires forall x :: x in hi ==> Less(e.key, x.key)
    ensures Sorted(lo + [e] + hi) && Sorted(lo + hi)
    ensures forall x :: x in lo + hi ==> x.key != e.key
  {
    LessTotal(e.key, e.key);
    forall x, y | x in lo && y in hi ensures Less(x.key, y.key) {
      LessTransitive(x.key, e.key, y.key);
    }
  }

  /** A sorted bucket is the entries below a key, at most one entry at it, and those above. */
  lemma SplitAt(b: Bucket, k: Bytes)
    requires Sorted(b)
    ensures var i, j := LowerBound(b, k), LowerBound(b, k) + if Found(b, k) then 1 else 0;
            && (forall x :: x in b[..i] ==> Less(x.key, k))
            && (forall x :: x in b[j..] ==> Less(k, x.key))
            && b == b[..i] + b[i..j] + b[j..]
  {
    var i, j := LowerBound(b, k), LowerBound(b, k) + if Found(b, k) then 1 else 0;
    forall x | x in b[j..] ensures Less(k, x.key) {
      var n :| j <= n < |b| && b[n] == x;
      AboveLowerBound(b, k, n);
    }
  }

  lemma PutSorted(b: Bucket, k: Bytes, v: Bytes)
    requires Sorted(b)
    ensures Sorted(Put(b, k, v))
    ensures forall e :: e in Put(b, k, v) <==> e == Entry(k, v) || (e in b && e.key != k)
  {
    SplitAt(b, k);
    var i := LowerBound(b, k);
    var lo, hi := b[..i], b[if Found(b, k) then i + 1 else i..];
    SpliceSorted(lo, Entry(k, v), hi);
    forall e | e in b ensures e in lo || e in hi || e.key == k { }
  }

  lemma DeleteSorted(b: Bucket, k: Bytes)
    requires Sorted(b)
    ensures Sorted(Delete(b, k))
    ensures forall e :: e in Delete(b, k) <==> e in b && e.key != k
  {
    SplitAt(b, k);
    var i := LowerBound(b, k);
    var lo, hi := b[..i], b[if Found(b, k) then i + 1 else i..];
    SpliceSorted(lo, Entry(k, []), hi);
    assert !Found(b, k) ==> b == lo + hi;
    forall e | e in b ensures e in lo || e in hi || e.key == k { }
  }

  // ---------------------------------------------------------------- cursors

  /** A cursor over the bucket as it stood when the cursor was opened.  Position -1 is the
      exhausted cursor; `Seek` may leave the position one past the last entry. */
  class Cursor {
    const bucket: Bucket
    var pos: int

    ghost predicate Valid()
      reads this
    {
      -1 <= pos <= |bucket|
    }

    constructor (b: Bucket)
      ensures Valid() && bucket == b && pos == -1
    {
      bucket, pos := b, -1;
    }

    function Current(): Option<Entry>
      requires Valid()
      reads this
    {
      if 0 <= pos < |bucket| then Some(bucket[pos]) else None
    }

    method Seek(k: Bytes) returns (e: Option<Entry>)
      modifies this`pos
      ensures Valid() && pos == LowerBound(bucket, k) && e == Current()
    {
      pos := LowerBound(bucket, k);
      e := Current();
    }

    method Last() returns (e: Option<Entry>)
      modifies this`pos
      ensures Valid() && pos == |bucket| - 1 && e == Current()
    {
      pos := |bucket| - 1;
      e := Current();
    }

    /** At the last entry, past it or exhausted, the cursor stays put and yields nothing. */
    method Next() returns (e: Option<Entry>)
      requires Valid()
      modifies this`pos
      ensures Valid()
      ensures if 0 <= old(pos) < |bucket| - 1 then pos == old(pos) + 1 && e == Current()
              else pos == old(pos) && e == None
    {
      if 0 <= pos < |bucket| - 1 {
        pos := pos + 1;
        e := Current();
      } else {
        e := None;
      }
    }

    /** Stepping before the first entry exhausts the cursor for good. */
    method Prev() returns (e: Option<Entry>)
      requires Valid()
      modifies this`pos
      ensures Valid() && e == Current()
      ensures pos == if old(pos) > 0 then old(pos) - 1 else -1
    {
      pos := if pos > 0 then pos - 1 else -1;
      e := Current();
    }
  }

  // ---------------------------------------------------------------- prefix scans

  /** The entries from `i` on whose key starts with `p` (or, with `keep` false, the other ones),
      in order. */
  function SelectFrom(b: Bucket, p: Bytes, keep: bool, i: nat): Bucket
    requires i <= |b|
    decreases |b| - i
  {
    if i == |b| then []
    else
      var rest := SelectFrom(b, p, keep, i + 1);
      if HasPrefix(b[i].key, p) == keep then [b[i]] + rest else rest
  }

  function Select(b: Bucket, p: Bytes, keep: bool): Bucket { SelectFrom(b, p, keep, 0) }

  lemma {:induction false} SelectFromMembers(b: Bucket, p: Bytes, keep: bool, i: nat)
    requires i <= |b|
    ensures forall e :: e in SelectFrom(b, p, keep, i) <==> e in b[i..] && HasPrefix(e.key, p) == keep
    decreases |b| - i
  {
    if i < |b| {
      SelectFromMembers(b, p, keep, i + 1);
      assert b[i..] == [b[i]] + b[i + 1..];
    }
  }

  lemma {:induction false} SelectFromSorted(b: Bucket, p: Bytes, keep: bool, i: nat)
    requires Sorted(b) && i <= |b|
    ensures Sorted(SelectFrom(b, p, keep, i))
    decreases |b| - i
  {
    if i < |b| {
      SelectFromSorted(b, p, keep, i + 1);
      SelectFromMembers(b, p, keep, i + 1);
      var s := SelectFrom(b, p, keep, i + 1);
      forall j | 0 <= j < |s| ensures Less(b[i].key, s[j].key) {
        assert s[j] in b[i + 1..];
      }
    }
  }

  lemma SelectKeeps(b: Bucket, p: Bytes, keep: bool)
    requires Sorted(b)
    ensures Sorted(Select(b, p, keep))
    ensures forall e :: e in Select(b, p, keep) <==> e in b && HasPrefix(e.key, p) == keep
  {
    SelectFromSorted(b, p, keep, 0);
    SelectFromMembers(b, p, keep, 0);
    assert b[0..] == b;
  }

  lemma {:induction false} SelectSkips(b: Bucket, p: Bytes, keep: bool, i: nat, j: nat)
    requires i <= j <= |b|
    requires forall k :: i <= k < j ==> HasPrefix(b[k].key, p) != keep
    ensures SelectFrom(b, p, keep, i) == SelectFrom(b, p, keep, j)
    decreases j - i
  {
    if i < j { SelectSkips(b, p, keep, i + 1, j); }
  }

  lemma {:induction false} SelectTakes(b: Bucket, p: Bytes, keep: bool, i: nat, j: nat)
    requires i <= j <= |b|
    requires forall k :: i <= k < j ==> HasPrefix(b[k].key, p) == keep
    ensures SelectFrom(b, p, keep, i) == b[i..j] + SelectFrom(b, p, keep, j)
    decreases j - i
  {
    var s := SelectFrom(b, p, keep, j);
    if i < j {
      SelectTakes(b, p, keep, i + 1, j);
      assert [b[i]] + (b[i + 1..j] + s) == b[i..j] + s;
    } else {
      assert b[i..j] + s == s;
    }
  }

  lemma {:induction false} OutsideBlock(b: Bucket, p: Bytes, hi: nat)
    requires Sorted(b) && LowerBound(b, p) <= hi <= |b|
    requires hi < |b| ==> !HasPrefix(b[hi].key, p)
    ensures forall i :: 0 <= i < LowerBound(b, p) ==> !HasPrefix(b[i].key, p)
    ensures forall i :: hi <= i < |b| ==> !HasPrefix(b[i].key, p)
  {
    forall i | 0 <= i < LowerBound(b, p) ensures !HasPrefix(b[i].key, p) {
      if HasPrefix(b[i].key, p) { PrefixNotBelow(p, b[i].key); }
    }
    forall i | hi <= i < |b| ensures !HasPrefix(b[i].key, p) {
      if i > hi && HasPrefix(b[i].key, p) {
        AboveLowerBound(b, p, hi);
        PrefixIsInterval(p, b[hi].key, b[i].key);
      }
    }
  }

  /** The keys with prefix `p` are one contiguous block that starts where `Seek(p)` lands. */
  lemma {:induction false} PrefixBlock(b: Bucket, p: Bytes, hi: nat, keep: bool)
    requires Sorted(b) && LowerBound(b, p) <= hi <= |b|
    requires forall i :: LowerBound(b, p) <= i < hi ==> HasPrefix(b[i].key, p)
    requires hi < |b| ==> !HasPrefix(b[hi].key, p)
    ensures Select(b, p, keep)
         == if keep then b[LowerBound(b, p)..hi] else b[..LowerBound(b, p)] + b[hi..]
  {
    var lo := LowerBound(b, p);
    OutsideBlock(b, p, hi);
    if keep {
      SelectSkips(b, p, keep, 0, lo);
      SelectTakes(b, p, keep, lo, hi);
      SelectSkips(b, p, keep, hi, |b|);
    } else {
      SelectTakes(b, p, keep, 0, lo);
      SelectSkips(b, p, keep, lo, hi);
      SelectTakes(b, p, keep, hi, |b|);
    }
  }

  /** A scan for prefix `p` has consumed the block up to `hi` and now sees entry `e`. */
  ghost predicate Scanning(c: Cursor, b: Bucket, p: Bytes, hi: nat, e: Option<Entry>)
    reads c
  {
    && c.Valid() && c.bucket == b && LowerBound(b, p) <= hi <= |b|
    && (if e.Some? then hi < |b| && c.pos == hi && e.value == b[hi] else hi == |b|)
    && forall i :: LowerBound(b, p) <= i < hi ==> HasPrefix(b[i].key, p)
  }

  method Advance(c: Cursor, b: Bucket, p: Bytes, ghost hi: nat, e: Entry) returns (next: Option<Entry>)
    requires Scanning(c, b, p, hi, Some(e)) && HasPrefix(e.key, p)
    modifies c
    ensures Scanning(c, b, p, hi + 1, next)
  {
    next := c.Next();
  }

  /** The listing loop: `Seek` to the prefix, then `Next` while the key still has it. */
  method Scan(b: Bucket, p: Bytes) returns (found: Bucket)
    requires Sorted(b) && p != []
    ensures found == Select(b, p, true)
  {
    found := [];
    var c := new Cursor(b);
    var e := c.Seek(p);
    ghost var lo, hi := LowerBound(b, p), LowerBound(b, p);
    while e.Some? && HasPrefix(e.value.key, p)
      invariant Scanning(c, b, p, hi, e)
      invariant found == b[lo..hi]
      decreases |b| - hi
    {
      found := found + [e.value];
      e := Advance(c, b, p, hi, e.value);
      hi := hi + 1;
    }
    PrefixBlock(b, p, hi, true);
  }

  /** `b` is `start` without its entries from `lo` up to `hi`. */
  ghost predicate Erased(start: Bucket, lo: nat, hi: nat, b: Bucket) {
    lo <= hi <= |start| && b == start[..lo] + start[hi..]
  }

  lemma {:induction false} NothingErased(b: Bucket, lo: nat)
    requires lo <= |b|
    ensures Erased(b, lo, lo, b)
  {
  }

  method DeleteCurrent(ghost start: Bucket, ghost lo: nat, ghost hi: nat, b: Bucket, k: Bytes)
    returns (b': Bucket)
    requires Sorted(start) && hi < |start| && k == start[hi].key && Erased(start, lo, hi, b)
    ensures Erased(start, lo, hi + 1, b')
  {
    assert b[lo] == start[hi] && b[lo + 1..] == start[hi + 1..];
    FoundAt(b, lo);
    b' := Delete(b, k);
  }

  lemma {:induction false} BlockErased(start: Bucket, p: Bytes, hi: nat, b: Bucket)
    requires Sorted(start) && Erased(start, LowerBound(start, p), hi, b)
    requires forall i :: LowerBound(start, p) <= i < hi ==> HasPrefix(start[i].key, p)
    requires hi < |start| ==> !HasPrefix(start[hi].key, p)
    ensures b == Select(start, p, false)
  {
    PrefixBlock(start, p, hi, false);
  }

  /** The deletion loop of `deletePrefix` on one bucket. */
  method DeletePrefix(start: Bucket, p: Bytes) returns (b: Bucket)
    requires Sorted(start) && p != []
    ensures b == Select(start, p, false)
  {
    b := start;
    var c := new Cursor(start);
    var e := c.Seek(p);
    ghost var hi := LowerBound(start, p);
    NothingErased(start, hi);
    while e.Some? && HasPrefix(e.value.key, p)
      invariant Scanning(c, start, p, hi, e) && Erased(start, LowerBound(start, p), hi, b)
      decreases |start| - hi
    {
      b := DeleteCurrent(start, LowerBound(start, p), hi, b, e.value.key);
      e := Advance(c, start, p, hi, e.value);
      hi := hi + 1;
    }
    BlockErased(start, p, hi, b);
  }
}
