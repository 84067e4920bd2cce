/** The per-user relations kept in bbolt: users, networks, channels and open direct messages are
    records under composite byte-string keys, listed and erased by key prefix. */
module Store {
  import opened Wrappers
  import opened Wire
  import opened Records
  import opened Bolt
  import Schema
  import Unmarshal

  // ---------------------------------------------------------------- keys

  function BigEndian(v: nat, n: nat): (r: Bytes)
    ensures |r| == n
  {
    if n == 0 then [] else BigEndian(v / 256, n - 1) + [v % 256]
  }

  /** The highest byte comes first, so that keys sort by their ids. */
  lemma {:induction false} BigEndianMeans(v: nat, n: nat, i: nat)
    requires i < n
    ensures BigEndian(v, n)[n - 1 - i] == Schema.Above(v, i) % 256
  {
    if i > 0 { BigEndianMeans(v / 256, n - 1, i - 1); }
  }

  lemma {:induction false} BigEndianInjective(v: nat, w: nat, n: nat)
    requires v < Pow2(8 * n) && w < Pow2(8 * n)
    requires BigEndian(v, n) == BigEndian(w, n)
    ensures v == w
  {
    if n > 0 {
      OneByteLess(v, n);
      OneByteLess(w, n);
      var a, b := BigEndian(v / 256, n - 1), BigEndian(w / 256, n - 1);
      assert (a + [v % 256])[..n - 1] == a && (b + [w % 256])[..n - 1] == b;
      assert (a + [v % 256])[n - 1] == v % 256 && (b + [w % 256])[n - 1] == w % 256;
      BigEndianInjective(v / 256, w / 256, n - 1);
    }
  }

  function IdBytes(u: uint64): (r: Bytes)
    ensures |r| == 8
  {
    BigEndian(u, 8)
  }

  lemma IdBytesInjective(u: uint64, v: uint64)
    requires IdBytes(u) == IdBytes(v)
    ensures u == v
  {
    Pow2At64();
    BigEndianInjective(u, v, 8);
  }

  /** The eight bytes that start every key of a user, as `idToBytes` computes them. */
  type UserID = id: Bytes | |id| == 8 witness [0, 0, 0, 0, 0, 0, 0, 0]

  /** Every key is the user's id followed by a tail: the address of a network, or the path of a tab. */
  datatype Key = Key(user: UserID, tail: Bytes)

  function Encoded(k: Key): Bytes { k.user + k.tail }
  function Path(network: Bytes, name: Bytes): Bytes { network + [0] + name }
  function Tab(user: UserID, network: Bytes, name: Bytes): Key { Key(user, Path(network, name)) }

  predicate NulFree(s: Bytes) { 0 !in s }

  /** Keys of different users never share the eight id bytes. */
  lemma UserOwnsKey(u: UserID, v: UserID, tail: Bytes)
    ensures HasPrefix(v + tail, u) <==> u == v
  {
    assert (v + tail)[..8] == v;
  }

  /** One key is a prefix of another exactly if the users are the same and the tails are prefixes. */
  lemma {:induction false} KeyPrefix(j: Key, k: Key)
    ensures HasPrefix(Encoded(j), Encoded(k)) <==> j.user == k.user && k.tail <= j.tail
  {
    var a, p := Encoded(j), Encoded(k);
    assert a[..8] == j.user && p[..8] == k.user && a[8..] == j.tail && p[8..] == k.tail;
    if HasPrefix(a, p) {
      assert k.tail == j.tail[..|k.tail|] by { assert a[..|p|][8..] == j.tail[..|k.tail|]; }
    }
  }

  /** The address runs over the NUL behind the network into the name. */
  predicate RunsOver(h: Bytes, network: Bytes, name: Bytes) {
    |network| < |h| && network + [0] <= h && h[|network| + 1..] <= name
  }

  /** A path starts with an address exactly if its network does, or the address runs over into the name, which
      takes a NUL. */
  lemma {:induction false} PathPrefix(h: Bytes, network: Bytes, name: Bytes)
    ensures h <= Path(network, name) <==> h <= network || RunsOver(h, network, name)
    ensures RunsOver(h, network, name) ==> !NulFree(h)
  {
    var s, n := Path(network, name), |network|;
    assert s[..n] == network && s[n] == 0 && s[n + 1..] == name;
    if h <= s {
      assert h == s[..|h|];
      if |h| <= n {
        assert h == network[..|h|];
      } else {
        assert h[n] == 0 && h[..n + 1] == network + [0];
        assert h[n + 1..] == name[..|h| - n - 1];
      }
    }
    if RunsOver(h, network, name) {
      assert h[n] == (network + [0])[n] == 0;
      assert h == (network + [0]) + h[n + 1..];
    }
  }

  /** The place of the first NUL from `i` on. */
  function FirstNul(s: Bytes, i: nat): (r: nat)
    requires i <= |s|
    ensures i <= r <= |s| && NulFree(s[i..r]) && (r < |s| ==> s[r] == 0)
    decreases |s| - i
  {
    if i == |s| || s[i] == 0 then i
    else
      var r := FirstNul(s, i + 1);
      assert s[i..r] == [s[i]] + s[i + 1..r];
      r
  }

  lemma {:induction false} FirstNulIs(s: Bytes, i: nat, m: Bytes)
    requires i + |m| <= |s| && NulFree(m) && m == s[i..i + |m|]
    requires i + |m| < |s| ==> s[i + |m|] == 0
    ensures FirstNul(s, i) == i + |m|
    decreases |m|
  {
    if m != [] {
      assert s[i] == m[0] && m[0] in m;
      FirstNulIs(s, i + 1, m[1..]);
    }
  }

  /** The first two parts of a path split at its NULs; without a NUL there is no second part to take. */
  function Parts(path: Bytes): (Bytes, Bytes)
    requires !NulFree(path)
  {
    var i := FirstNul(path, 0);
    assert path[0..|path|] == path;
    (path[..i], path[i + 1..FirstNul(path, i + 1)])
  }

  /** Splitting a path gives back network and name exactly if neither has a NUL. */
  lemma {:induction false} PartsRestored(network: Bytes, name: Bytes)
    ensures !NulFree(Path(network, name))
    ensures Parts(Path(network, name)) == (network, name) <==> NulFree(network) && NulFree(name)
  {
    var s := Path(network, name);
    assert s[|network|] == 0;
    if NulFree(network) {
      FirstNulIs(s, 0, network);
      assert s[|network| + 1..] == name;
      if NulFree(name) {
        FirstNulIs(s, |network| + 1, name);
      } else {
        assert s[|network| + 1..FirstNul(s, |network| + 1)] != name;
      }
    } else {
      assert s[0..FirstNul(s, 0)] == s[..FirstNul(s, 0)];
    }
  }

  /** Tabs on NUL-free networks never share a path. */
  lemma {:induction false} PathInjective(network: Bytes, name: Bytes, network': Bytes, name': Bytes)
    requires NulFree(network) && NulFree(network') && Path(network, name) == Path(network', name')
    ensures network == network' && name == name'
  {
    var s, s' := Path(network, name), Path(network', name');
    FirstNulIs(s, 0, network);
    FirstNulIs(s', 0, network');
    assert s[|network| + 1..] == name && s'[|network'| + 1..] == name';
  }

  /** A NUL in a network or in a name can be taken for the one between them. */
  lemma {:induction false} PathCollides(network: Bytes, name: Bytes) returns (network': Bytes, name': Bytes)
    requires !NulFree(network) || !NulFree(name)
    ensures network' != network && Path(network', name') == Path(network, name)
  {
    if !NulFree(network) {
      var i :| 0 <= i < |network| && network[i] == 0;
      network', name' := network[..i], network[i + 1..] + [0] + name;
      assert network == network[..i] + [0] + network[i + 1..];
    } else {
      var i :| 0 <= i < |name| && name[i] == 0;
      network', name' := network + [0] + name[..i], name[i + 1..];
      assert name == name[..i] + [0] + name[i + 1..];
    }
    assert Path(network', name') == Path(network, name);
  }

  /** A path with a single NUL can be taken apart in one way only. */
  lemma {:induction false} OneNul(network: Bytes, name: Bytes, network': Bytes, name': Bytes)
    requires NulFree(network) && NulFree(name) && Path(network, name) == Path(network', name')
    ensures network == network' && name == name'
  {
    var s, s' := Path(network, name), Path(network', name');
    forall i | 0 <= i < |s| && i != |network| ensures s[i] != 0 {
      if i < |network| { assert s[i] == network[i]; } else { assert s[i] == name[i - |network| - 1]; }
    }
    assert s'[|network'|] == 0;
    assert s[..|network|] == network && s'[..|network'|] == network';
    assert s[|network| + 1..] == name && s'[|network'| + 1..] == name';
  }

  /** A tab's key is its own exactly if neither its network nor its name has a NUL. */
  lemma {:induction false} KeyIsOwn(user: UserID, network: Bytes, name: Bytes)
    ensures (forall n, m :: Tab(user, n, m) == Tab(user, network, name) ==> n == network && m == name)
       <==> NulFree(network) && NulFree(name)
  {
    if NulFree(network) && NulFree(name) {
      forall n, m | Tab(user, n, m) == Tab(user, network, name) ensures n == network && m == name {
        OneNul(network, name, n, m);
      }
    } else {
      var n, m := PathCollides(network, name);
      assert Tab(user, n, m) == Tab(user, network, name);
    }
  }

  function UserOf(key: Bytes): UserID { if |key| < 8 then [0, 0, 0, 0, 0, 0, 0, 0] else key[..8] }
  function TailOf(key: Bytes): Bytes { if |key| < 8 then [] else key[8..] }
  function KeyOf(key: Bytes): Key { Key(UserOf(key), TailOf(key)) }
  function UserKey(u: UserID): Bytes { u }

  /** A key determines the user and the tail. */
  lemma KeyRestored(k: Key)
    ensures KeyOf(Encoded(k)) == k
  {
    assert Encoded(k)[..8] == k.user && Encoded(k)[8..] == k.tail;
  }

  // ---------------------------------------------------------------- typed tables

  /** Bucket `b` holds exactly the typed map `m`, under the key encoding `enc` (undone by `dec`)
      and the record encoding `val`. */
  ghost predicate Table<K(!new), V(!new)>(enc: K -> Bytes, dec: Bytes -> K, val: V -> Bytes, b: Bucket,
                                          m: map<K, V>)
  {
    && Sorted(b)
    && (forall k :: k in m ==> dec(enc(k)) == k && Entry(enc(k), val(m[k])) in b)
    && (forall e :: e in b ==> dec(e.key) in m && enc(dec(e.key)) == e.key && val(m[dec(e.key)]) == e.value)
  }

  method PutRecord<K(==, !new), V(!new)>(enc: K -> Bytes, ghost dec: Bytes -> K, val: V -> Bytes,
                                         b: Bucket, ghost m: map<K, V>, k: K, v: V)
    returns (b': Bucket)
    requires Table(enc, dec, val, b, m) && dec(enc(k)) == k
    ensures Table(enc, dec, val, b', m[k := v])
  {
    PutSorted(b, enc(k), val(v));
    b' := Put(b, enc(k), val(v));
  }

  method DeleteRecord<K(==, !new), V(!new)>(enc: K -> Bytes, ghost dec: Bytes -> K, ghost val: V -> Bytes,
                                            b: Bucket, ghost m: map<K, V>, k: K)
    returns (b': Bucket)
    requires Table(enc, dec, val, b, m) && dec(enc(k)) == k
    ensures Table(enc, dec, val, b', m - {k})
  {
    DeleteSorted(b, enc(k));
    b' := Delete(b, enc(k));
  }

  method HasRecord<K(==, !new), V(!new)>(enc: K -> Bytes, ghost dec: Bytes -> K, ghost val: V -> Bytes,
                                         b: Bucket, ghost m: map<K, V>, k: K)
    returns (has: bool)
    requires Table(enc, dec, val, b, m) && dec(enc(k)) == k
    ensures has <==> k in m
  {
    has := Get(b, enc(k)).Some?;
    if has {
      GetCharacterised(b, enc(k), Get(b, enc(k)).value);
    } else if k in m {
      GetCharacterised(b, enc(k), val(m[k]));
    }
  }

  /** `deletePrefix` on a typed table. */
  method EraseRecords<K(==, !new), V(!new)>(ghost enc: K -> Bytes, ghost dec: Bytes -> K,
                                            ghost val: V -> Bytes, b: Bucket, ghost m: map<K, V>, p: Bytes)
    returns (b': Bucket)
    requires Table(enc, dec, val, b, m) && p != []
    ensures Table(enc, dec, val, b', map k | k in m && !HasPrefix(enc(k), p) :: m[k])
  {
    SelectKeeps(b, p, false);
    b' := DeletePrefix(b, p);
  }

  /** A prefix scan of a typed table meets every matching record once, in key order. */
  method ScanRecords<K(==, !new), V(!new)>(ghost enc: K -> Bytes, ghost dec: Bytes -> K,
                                           ghost val: V -> Bytes, b: Bucket, ghost m: map<K, V>, p: UserID)
    returns (found: Bucket)
    requires Table(enc, dec, val, b, m)
    ensures Listed(enc, dec, val, m, p, found)
  {
    SelectKeeps(b, p, true);
    found := Scan(b, p);
  }

  function Nothing(u: ()): Bytes { [] }

  /** The keys that `deletePrefix` erases for `k`. */
  predicate Extends(j: Key, k: Key) { j.user == k.user && k.tail <= j.tail }

  // ---------------------------------------------------------------- listings

  lemma {:induction false} LessCancels(p: Bytes, a: Bytes, b: Bytes)
    ensures Less(p + a, p + b) <==> Less(a, b)
  {
    if p == [] {
      assert p + a == a && p + b == b;
    } else {
      assert (p + a)[1..] == p[1..] + a && (p + b)[1..] == p[1..] + b;
      LessCancels(p[1..], a, b);
    }
  }

  /** The outcome of a user's prefix scan over a typed table. */
  ghost predicate Listed<K(!new), V(!new)>(enc: K -> Bytes, dec: Bytes -> K, val: V -> Bytes, m: map<K, V>,
                                           user: UserID, found: Bucket)
  {
    && Sorted(found)
    && (forall k :: k in m && HasPrefix(enc(k), user) ==> Entry(enc(k), val(m[k])) in found)
    && (forall e :: e in found ==> HasPrefix(e.key, user) && dec(e.key) in m)
    && (forall e :: e in found ==> enc(dec(e.key)) == e.key && val(m[dec(e.key)]) == e.value)
  }

  lemma NetworksListed(user: UserID, m: map<Key, Network>, found: Bucket, ns: seq<Network>)
    requires Listed(Encoded, KeyOf, NetworkBytes, m, user, found)
    requires forall k :: k in m ==> m[k].host == k.tail
    requires |ns| == |found| && forall i :: 0 <= i < |ns| ==> ns[i] == m[KeyOf(found[i].key)]
    ensures forall n: Network :: n in ns <==> Key(user, n.host) in m && m[Key(user, n.host)] == n
    ensures forall i, j :: 0 <= i < j < |ns| ==> Less(ns[i].host, ns[j].host)
  {
    forall i | 0 <= i < |ns|
      ensures found[i].key == user + ns[i].host && KeyOf(found[i].key) == Key(user, ns[i].host)
    {
      var k := KeyOf(found[i].key);
      assert found[i] in found;
      UserOwnsKey(user, k.user, k.tail);
    }
    forall i, j | 0 <= i < j < |ns| ensures Less(ns[i].host, ns[j].host) {
      LessCancels(user, ns[i].host, ns[j].host);
    }
    forall n: Network | Key(user, n.host) in m && m[Key(user, n.host)] == n ensures n in ns {
      var k := Key(user, n.host);
      UserOwnsKey(user, user, n.host);
      var i :| 0 <= i < |found| && found[i] == Entry(Encoded(k), NetworkBytes(n));
      assert ns[i] == n;
    }
  }

  function TabOf(user: UserID, c: Channel): Key { Tab(user, c.network, c.name) }

  lemma ChannelsListed(user: UserID, m: map<Key, Channel>, found: Bucket, cs: seq<Channel>)
    requires Listed(Encoded, KeyOf, ChannelBytes, m, user, found)
    requires forall k :: k in m ==> TabOf(k.user, m[k]) == k
    requires |cs| == |found| && forall i :: 0 <= i < |cs| ==> cs[i] == m[KeyOf(found[i].key)]
    ensures forall c: Channel :: c in cs <==> TabOf(user, c) in m && m[TabOf(user, c)] == c
    ensures forall i, j :: 0 <= i < j < |cs| ==> cs[i] != cs[j]
  {
    forall i | 0 <= i < |cs| ensures KeyOf(found[i].key) == TabOf(user, cs[i]) {
      var k := KeyOf(found[i].key);
      assert found[i] in found;
      UserOwnsKey(user, k.user, k.tail);
    }
    forall i, j | 0 <= i < j < |cs| ensures cs[i] != cs[j] {
      LessTotal(found[i].key, found[j].key);
      assert found[i] in found && found[j] in found;
    }
    forall c: Channel | TabOf(user, c) in m && m[TabOf(user, c)] == c ensures c in cs {
      var k := TabOf(user, c);
      UserOwnsKey(user, user, k.tail);
      var i :| 0 <= i < |found| && found[i] == Entry(Encoded(k), ChannelBytes(c));
      KeyRestored(k);
      assert cs[i] == c;
    }
  }

  // ---------------------------------------------------------------- erasing

  ghost function Off<V>(m: map<Key, V>, k: Key): map<Key, V> { map j | j in m && !Extends(j, k) :: m[j] }

  ghost function OffUser<V>(m: map<Key, V>, id: UserID): map<Key, V> { map j | j in m && j.user != id :: m[j] }

  method EraseTabs<V(!new)>(ghost val: V -> Bytes, b: Bucket, ghost m: map<Key, V>, k: Key) returns (b': Bucket)
    requires Table(Encoded, KeyOf, val, b, m)
    ensures Table(Encoded, KeyOf, val, b', Off(m, k))
  {
    b' := EraseRecords(Encoded, KeyOf, val, b, m, Encoded(k));
    SameErased(m, k);
  }

  lemma SameErased<V>(m: map<Key, V>, k: Key)
    ensures (map j | j in m && !HasPrefix(Encoded(j), Encoded(k)) :: m[j]) == Off(m, k)
  {
    forall j ensures HasPrefix(Encoded(j), Encoded(k)) <==> Extends(j, k) { KeyPrefix(j, k); }
  }

  method EraseOwned<V(!new)>(ghost val: V -> Bytes, b: Bucket, ghost m: map<Key, V>, id: UserID) returns (b': Bucket)
    requires Table(Encoded, KeyOf, val, b, m)
    ensures Table(Encoded, KeyOf, val, b', OffUser(m, id))
  {
    b' := EraseRecords(Encoded, KeyOf, val, b, m, id);
    forall j: Key ensures HasPrefix(Encoded(j), id) <==> j.user == id { UserOwnsKey(id, j.user, j.tail); }
    assert (map j | j in m && !HasPrefix(Encoded(j), id) :: m[j]) == OffUser(m, id);
  }

  /** The tabs that removing a network should leave, given what network each is on. */
  ghost function Elsewhere<V>(m: map<Key, V>, user: UserID, address: Bytes, network: Key -> Bytes): map<Key, V> {
    map j | j in m && (j.user != user || network(j) != address) :: m[j]
  }

  /** What `deletePrefix` leaves is that exactly if it drops no tab that is on another network. */
  lemma {:induction false} SameDropped<V>(m: map<Key, V>, user: UserID, address: Bytes, network: Key -> Bytes)
    requires forall j :: j in m ==> network(j) <= j.tail
    ensures Off(m, Key(user, address)) == Elsewhere(m, user, address, network)
       <==> forall j :: j in m && j.user == user && address <= j.tail ==> network(j) == address
  {
    if forall j :: j in m && j.user == user && address <= j.tail ==> network(j) == address {
      assert Off(m, Key(user, address)) == Elsewhere(m, user, address, network);
    } else {
      var j :| j in m && j.user == user && address <= j.tail && network(j) != address;
      assert j in Elsewhere(m, user, address, network) && j !in Off(m, Key(user, address));
    }
  }

  lemma {:induction false} SameReached<V>(m: map<Key, V>, user: UserID, address: Bytes, network: Key -> Bytes)
    requires forall j :: j in m ==> network(j) <= j.tail && (address <= j.tail <==> address <= network(j))
    ensures Off(m, Key(user, address)) == Elsewhere(m, user, address, network)
       <==> forall j :: j in m && j.user == user && address <= network(j) ==> network(j) == address
  {
    SameDropped(m, user, address, network);
  }

  ghost predicate ChannelKeys(m: map<Key, Channel>) { forall j :: j in m ==> TabOf(j.user, m[j]) == j }

  /** No other network of the user reaches into the removed address. */
  ghost predicate NoneExtends(m: map<Key, Channel>, user: UserID, address: Bytes) {
    forall j :: j in m && j.user == user && m[j].network != address ==>
      !(address <= m[j].network) && !RunsOver(address, m[j].network, m[j].name)
  }

  /** Removing a network removes exactly its channels if and only if the user has no channel on a network whose
      name properly extends the address, nor one whose path the address runs over into, which takes a NUL. */
  lemma {:induction false} RemoveNetworkIsExact(m: map<Key, Channel>, user: UserID, address: Bytes)
    requires ChannelKeys(m)
    ensures Off(m, Key(user, address)) == (map j | j in m && (j.user != user || m[j].network != address) :: m[j])
       <==> NoneExtends(m, user, address)
    ensures NulFree(address) ==>
              (NoneExtends(m, user, address) <==>
               forall j :: j in m && j.user == user && address <= m[j].network ==> m[j].network == address)
  {
    var network := j => if j in m then m[j].network else [];
    forall j | j in m ensures network(j) <= j.tail { }
    forall j | j in m
      ensures address <= j.tail <==> address <= m[j].network || RunsOver(address, m[j].network, m[j].name)
      ensures RunsOver(address, m[j].network, m[j].name) ==> !NulFree(address)
    {
      PathPrefix(address, m[j].network, m[j].name);
    }
    SameDropped(m, user, address, network);
    assert (map j | j in m && (j.user != user || m[j].network != address) :: m[j])
        == Elsewhere(m, user, address, network);
  }

  /** The network of an open direct message is the first part of its path. */
  ghost function DMNetwork(j: Key): Bytes { if NulFree(j.tail) then [] else Parts(j.tail).0 }

  lemma {:induction false} DMReaches(address: Bytes, j: Key)
    requires PlainPath(j.tail) && NulFree(address)
    ensures DMNetwork(j) <= j.tail && (address <= j.tail <==> address <= DMNetwork(j))
  {
    var p := Parts(j.tail);
    PathPrefix(address, p.0, p.1);
    assert j.tail[..|p.0|] == p.0;
  }

  /** The same for open direct messages. */
  lemma {:induction false} RemoveNetworkIsExactForDMs(m: map<Key, ()>, user: UserID, address: Bytes)
    requires (forall j :: j in m ==> PlainPath(j.tail)) && NulFree(address)
    ensures Off(m, Key(user, address)) == Elsewhere(m, user, address, DMNetwork)
       <==> forall j :: j in m && j.user == user && address <= DMNetwork(j) ==> DMNetwork(j) == address
  {
    forall j | j in m ensures DMNetwork(j) <= j.tail && (address <= j.tail <==> address <= DMNetwork(j)) {
      DMReaches(address, j);
    }
    SameReached(m, user, address, DMNetwork);
  }

  /** Removing "irc.a" takes a channel on "irc.a.b" along. */
  lemma {:induction false} RemovesAnother(user: UserID, name: Bytes)
    ensures var a: Bytes := [105, 114, 99, 46, 97];
            var c := Channel(a + [46, 98], name);
            var m := map[TabOf(user, c) := c];
            ChannelKeys(m) && c.network != a && Off(m, Key(user, a)) == map[] && !NoneExtends(m, user, a)
  {
    var a: Bytes := [105, 114, 99, 46, 97];
    var c := Channel(a + [46, 98], name);
    PathPrefix(a, c.network, name);
    assert a <= c.network && c.network != a;
  }

  // ---------------------------------------------------------------- listing methods

  method ListNetworks(b: Bucket, ghost m: map<Key, Network>, user: UserID) returns (ns: seq<Network>)
    requires Table(Encoded, KeyOf, NetworkBytes, b, m)
    requires forall k :: k in m ==> m[k].host == k.tail && NetworkFits(m[k])
    ensures forall n: Network :: n in ns <==> Key(user, n.host) in m && m[Key(user, n.host)] == n
    ensures forall i, j :: 0 <= i < j < |ns| ==> Less(ns[i].host, ns[j].host)
  {
    var found := ScanRecords(Encoded, KeyOf, NetworkBytes, b, m, user);
    ns := ReadBackNetworks(found, m);
    NetworksListed(user, m, found, ns);
  }

  method ReadBackNetworks(found: Bucket, ghost m: map<Key, Network>) returns (ns: seq<Network>)
    requires forall e :: e in found ==>
               var k := KeyOf(e.key);
               k in m && e.value == NetworkBytes(m[k]) && NetworkFits(m[k])
    ensures |ns| == |found| && forall j :: 0 <= j < |ns| ==> ns[j] == m[KeyOf(found[j].key)]
  {
    ns := [];
    for i := 0 to |found|
      invariant |ns| == i
      invariant forall j :: 0 <= j < i ==> ns[j] == m[KeyOf(found[j].key)]
    {
      assert found[i] in found;
      var d := ReadBackNetwork(found[i].value, m[KeyOf(found[i].key)]);
      ns := ns + [d];
    }
  }

  method ReadBackNetwork(v: Bytes, ghost n: Network) returns (d: Network)
    requires v == NetworkBytes(n) && NetworkFits(n)
    ensures d == n
  {
    NetworkRoundTrip(n, []);
    assert v + [] == v;
    var _, r, _ := Unmarshal.UnmarshalNetwork(v);
    d := r;
  }

  method ListChannels(b: Bucket, ghost m: map<Key, Channel>, user: UserID) returns (cs: seq<Channel>)
    requires Table(Encoded, KeyOf, ChannelBytes, b, m)
    requires forall k :: k in m ==> TabOf(k.user, m[k]) == k && Fits(m[k].network) && Fits(m[k].name)
    ensures forall c: Channel :: c in cs <==> TabOf(user, c) in m && m[TabOf(user, c)] == c
    ensures forall i, j :: 0 <= i < j < |cs| ==> cs[i] != cs[j]
  {
    var found := ScanRecords(Encoded, KeyOf, ChannelBytes, b, m, user);
    cs := ReadBackChannels(found, m);
    ChannelsListed(user, m, found, cs);
  }

  method ReadBackChannels(found: Bucket, ghost m: map<Key, Channel>) returns (cs: seq<Channel>)
    requires forall e :: e in found ==>
               var k := KeyOf(e.key);
               k in m && e.value == ChannelBytes(m[k]) && Fits(m[k].network) && Fits(m[k].name)
    ensures |cs| == |found| && forall j :: 0 <= j < |cs| ==> cs[j] == m[KeyOf(found[j].key)]
  {
    cs := [];
    for i := 0 to |found|
      invariant |cs| == i
      invariant forall j :: 0 <= j < i ==> cs[j] == m[KeyOf(found[j].key)]
    {
      assert found[i] in found;
      var d := ReadBackChannel(found[i].value, m[KeyOf(found[i].key)]);
      cs := cs + [d];
    }
  }

  method ReadBackChannel(v: Bytes, ghost c: Channel) returns (d: Channel)
    requires v == ChannelBytes(c) && Fits(c.network) && Fits(c.name)
    ensures d == c
  {
    ChannelRoundTrip(c, []);
    assert v + [] == v;
    var _, r, _ := Unmarshal.UnmarshalChannel(v);
    d := r;
  }

  /** The tabs a list of keys stands for: their first two parts. */
  ghost predicate Shows(tabs: seq<(Bytes, Bytes)>, keys: seq<Key>) {
    |tabs| == |keys| && forall i :: 0 <= i < |keys| ==> !NulFree(keys[i].tail) && tabs[i] == Parts(keys[i].tail)
  }

  /** The keys of a user in a table, each once. */
  ghost predicate KeysOf<V>(m: map<Key, V>, user: UserID, keys: seq<Key>) {
    && (forall k :: k in keys <==> k in m && k.user == user)
    && (forall i, j :: 0 <= i < j < |keys| ==> keys[i] != keys[j])
  }

  method ListOpenDMs(b: Bucket, ghost m: map<Key, ()>, user: UserID) returns (tabs: seq<(Bytes, Bytes)>)
    requires Table(Encoded, KeyOf, Nothing, b, m) && forall k :: k in m ==> !NulFree(k.tail)
    ensures exists keys :: KeysOf(m, user, keys) && Shows(tabs, keys)
  {
    var found := ScanRecords(Encoded, KeyOf, Nothing, b, m, user);
    tabs := SplitKeys(found);
    KeysListed(user, m, found, KeysIn(found));
  }

  ghost function KeysIn(found: Bucket): (keys: seq<Key>)
    ensures |keys| == |found| && forall j :: 0 <= j < |keys| ==> keys[j] == KeyOf(found[j].key)
  {
    seq(|found|, i requires 0 <= i < |found| => KeyOf(found[i].key))
  }

  method SplitKeys(found: Bucket) returns (tabs: seq<(Bytes, Bytes)>)
    requires forall e :: e in found ==> !NulFree(KeyOf(e.key).tail)
    ensures Shows(tabs, KeysIn(found))
  {
    tabs := [];
    for i := 0 to |found|
      invariant |tabs| == i
      invariant forall j :: 0 <= j < i ==> !NulFree(KeyOf(found[j].key).tail)
                                           && tabs[j] == Parts(KeyOf(found[j].key).tail)
    {
      assert found[i] in found;
      tabs := tabs + [Parts(TailOf(found[i].key))];
    }
  }

  lemma {:induction false} KeysListed(user: UserID, m: map<Key, ()>, found: Bucket, keys: seq<Key>)
    requires Listed(Encoded, KeyOf, Nothing, m, user, found)
    requires forall k :: k in m ==> KeyOf(Encoded(k)) == k
    requires |keys| == |found| && forall j :: 0 <= j < |keys| ==> keys[j] == KeyOf(found[j].key)
    ensures KeysOf(m, user, keys)
  {
    forall i, j | 0 <= i < j < |keys| ensures keys[i] != keys[j] {
      LessTotal(found[i].key, found[j].key);
      assert found[i] in found && found[j] in found;
    }
    forall k ensures k in keys <==> k in m && k.user == user {
      if k in m && k.user == user {
        UserOwnsKey(user, user, k.tail);
        var i :| 0 <= i < |found| && found[i] == Entry(Encoded(k), []);
        assert keys[i] == k;
      }
      if k in keys {
        var i :| 0 <= i < |keys| && keys[i] == k;
        assert found[i] in found;
        UserOwnsKey(user, k.user, k.tail);
      }
    }
  }

  /** The path of a network and a name without NULs. */
  predicate PlainPath(path: Bytes) {
    !NulFree(path) && var p := Parts(path); path == Path(p.0, p.1) && NulFree(p.0) && NulFree(p.1)
  }

  /** Without NULs in names the listed tabs are exactly the open ones, each once. */
  lemma {:induction false} TabsAreOpen(m: map<Key, ()>, user: UserID, keys: seq<Key>, tabs: seq<(Bytes, Bytes)>)
    requires KeysOf(m, user, keys) && Shows(tabs, keys)
    requires forall k :: k in m ==> PlainPath(k.tail)
    ensures forall network, name :: NulFree(network) && NulFree(name) ==>
              ((network, name) in tabs <==> Tab(user, network, name) in m)
    ensures forall i, j :: 0 <= i < j < |tabs| ==> tabs[i] != tabs[j]
  {
    forall network, name | NulFree(network) && NulFree(name)
      ensures (network, name) in tabs <==> Tab(user, network, name) in m
    {
      PartsRestored(network, name);
      if Tab(user, network, name) in m {
        var i :| 0 <= i < |keys| && keys[i] == Tab(user, network, name);
        assert tabs[i] == (network, name);
      }
      if (network, name) in tabs {
        var i :| 0 <= i < |tabs| && tabs[i] == (network, name);
        assert keys[i] in keys;
      }
    }
    forall i, j | 0 <= i < j < |tabs| ensures tabs[i] != tabs[j] {
      assert keys[i] in keys && keys[j] in keys;
    }
  }

  // ---------------------------------------------------------------- the store

  /** Networks are saved under their own address. */
  ghost predicate NetworksOk(m: map<Key, Network>) {
    forall k :: k in m ==> m[k].host == k.tail && NetworkFits(m[k])
  }

  lemma {:induction false} NetworkSaved(m: map<Key, Network>, k: Key, n: Network)
    requires NetworksOk(m) && n.host == k.tail && NetworkFits(n)
    ensures NetworksOk(m[k := n])
  {
  }

  lemma {:induction false} NetworksKept(m: map<Key, Network>, id: UserID)
    requires NetworksOk(m)
    ensures NetworksOk(OffUser(m, id))
  {
  }

  /** `strconv.FormatUint` to base ten. */
  function Decimal(n: nat): Bytes { (if n < 10 then [] else Decimal(n / 10)) + [48 + n % 10] }

  /** The number that decimal digits stand for. */
  function Value(digits: Bytes): int {
    if digits == [] then 0 else 10 * Value(digits[..|digits| - 1]) + (digits[|digits| - 1] as int - 48)
  }

  /** The name of a user is its id in decimal digits, without leading zeros. */
  lemma {:induction false} DecimalMeans(n: nat)
    ensures var d := Decimal(n);
            Value(d) == n && d != [] && (forall x :: x in d ==> 48 <= x <= 57) && (d[0] == 48 ==> n == 0)
  {
    var front: Bytes := if n < 10 then [] else Decimal(n / 10);
    if n >= 10 { DecimalMeans(n / 10); }
    ValueMore(front, 48 + n % 10);
  }

  lemma {:induction false} ValueMore(front: Bytes, d: byte)
    ensures Value(front + [d]) == 10 * Value(front) + (d - 48)
  {
    assert (front + [d])[..|front|] == front;
  }

  /** The keys of channels and open direct messages, byte by byte. */
  lemma {:induction false} TabLayout(u: uint64, network: Bytes, name: Bytes)
    ensures Encoded(Tab(IdOf(u), network, name)) == BigEndian(u, 8) + network + [0] + name
    ensures Encoded(Key(IdOf(u), network)) == BigEndian(u, 8) + network
  {
    assert BigEndian(u, 8) + (network + [0] + name) == BigEndian(u, 8) + network + [0] + name;
  }

  function IdOf(u: uint64): UserID { IdBytes(u) }

  class BoltStore {
    var usersBucket: Bucket
    var networksBucket: Bucket
    var channelsBucket: Bucket
    var openDMsBucket: Bucket
    var sequence: uint64

    // What has been saved and not removed.
    ghost var users: map<UserID, User>
    ghost var networks: map<Key, Network>
    ghost var channels: map<Key, Channel>
    ghost var openDMs: map<Key, ()>

    ghost predicate Valid()
      reads this
    {
      && Table(UserKey, UserOf, UserBytes, usersBucket, users)
      && Table(Encoded, KeyOf, NetworkBytes, networksBucket, networks)
      && Table(Encoded, KeyOf, ChannelBytes, channelsBucket, channels)
      && Table(Encoded, KeyOf, Nothing, openDMsBucket, openDMs)
      && (forall id :: id in users ==> id == IdOf(users[id].id) && users[id].id <= sequence)
      && NetworksOk(networks)
      && (forall k :: k in channels ==>
            TabOf(k.user, channels[k]) == k && Fits(channels[k].network) && Fits(channels[k].name))
      && (forall k :: k in openDMs ==> !NulFree(k.tail))
    }

    constructor ()
      ensures Valid()
      ensures users == map[] && networks == map[] && channels == map[] && openDMs == map[]
    {
      usersBucket, networksBucket, channelsBucket, openDMsBucket, sequence := [], [], [], [], 0;
      users, networks, channels, openDMs := map[], map[], map[], map[];
    }

    /** A user without an id gets the next one of the sequence, which nobody has; the name is the id. */
    method SaveUser(u: User) returns (saved: User)
      requires Valid() && u.id <= sequence < TWO_64 - 1
      modifies this
      ensures saved == u.(id := saved.id, username := Decimal(saved.id))
      ensures if u.id == 0 then IdOf(saved.id) !in old(users) && saved.id == sequence == old(sequence) + 1
              else saved.id == u.id && sequence == old(sequence)
      ensures Valid() && users == old(users)[IdOf(saved.id) := saved]
      ensures networks == old(networks) && channels == old(channels) && openDMs == old(openDMs)
    {
      saved := u;
      if u.id == 0 {
        sequence := sequence + 1;
        saved := saved.(id := sequence);
        NewId(users, saved.id);
      }
      saved := saved.(username := Decimal(saved.id));
      PutUser(saved);
    }

    method PutUser(u: User)
      requires Valid() && u.id <= sequence
      modifies this`usersBucket, this`users
      ensures Valid() && users == old(users)[IdOf(u.id) := u]
    {
      var id := IdOf(u.id);
      assert UserOf(UserKey(id)) == id;
      usersBucket := PutRecord(UserKey, UserOf, UserBytes, usersBucket, users, id, u);
      users := users[id := u];
    }

    method SaveNetwork(user: UserID, n: Network)
      requires Valid() && NetworkFits(n)
      modifies this`networksBucket, this`networks
      ensures Valid() && networks == old(networks)[Key(user, n.host) := n]
    {
      var k := Key(user, n.host);
      KeyRestored(k);
      NetworkSaved(networks, k, n);
      networksBucket := PutRecord(Encoded, KeyOf, NetworkBytes, networksBucket, networks, k, n);
      networks := networks[k := n];
    }

    method SaveChannel(user: UserID, c: Channel)
      requires Valid() && Fits(c.network) && Fits(c.name)
      modifies this`channelsBucket, this`channels
      ensures Valid() && channels == old(channels)[TabOf(user, c) := c]
    {
      var k := TabOf(user, c);
      KeyRestored(k);
      channelsBucket := PutRecord(Encoded, KeyOf, ChannelBytes, channelsBucket, channels, k, c);
      channels := channels[k := c];
    }

    method RemoveChannel(user: UserID, network: Bytes, name: Bytes)
      requires Valid()
      modifies this`channelsBucket, this`channels
      ensures Valid() && channels == old(channels) - {Tab(user, network, name)}
    {
      var k := Tab(user, network, name);
      KeyRestored(k);
      channelsBucket := DeleteRecord(Encoded, KeyOf, ChannelBytes, channelsBucket, channels, k);
      channels := channels - {k};
    }

    method HasChannel(user: UserID, network: Bytes, name: Bytes) returns (has: bool)
      requires Valid()
      ensures has <==> Tab(user, network, name) in channels
    {
      KeyRestored(Tab(user, network, name));
      has := HasRecord(Encoded, KeyOf, ChannelBytes, channelsBucket, channels, Tab(user, network, name));
    }

    method AddOpenDM(user: UserID, network: Bytes, nick: Bytes)
      requires Valid()
      modifies this`openDMsBucket, this`openDMs
      ensures Valid() && openDMs == old(openDMs)[Tab(user, network, nick) := ()]
    {
      var k := Tab(user, network, nick);
      KeyRestored(k);
      PartsRestored(network, nick);
      openDMsBucket := PutRecord(Encoded, KeyOf, Nothing, openDMsBucket, openDMs, k, ());
      openDMs := openDMs[k := ()];
    }

    method RemoveOpenDM(user: UserID, network: Bytes, nick: Bytes)
      requires Valid()
      modifies this`openDMsBucket, this`openDMs
      ensures Valid() && openDMs == old(openDMs) - {Tab(user, network, nick)}
    {
      var k := Tab(user, network, nick);
      KeyRestored(k);
      openDMsBucket := DeleteRecord(Encoded, KeyOf, Nothing, openDMsBucket, openDMs, k);
      openDMs := openDMs - {k};
    }

    /** Erases the network itself, and every tab whose path starts with its address. */
    method RemoveNetwork(user: UserID, address: Bytes)
      requires Valid()
      modifies this
      ensures Valid() && users == old(users) && networks == old(networks) - {Key(user, address)}
      ensures channels == Off(old(channels), Key(user, address)) && openDMs == Off(old(openDMs), Key(user, address))
    {
      var k := Key(user, address);
      KeyRestored(k);
      networksBucket := DeleteRecord(Encoded, KeyOf, NetworkBytes, networksBucket, networks, k);
      networks := networks - {k};
      RemoveTabs(k);
    }

    method RemoveTabs(k: Key)
      requires Valid()
      modifies this`channelsBucket, this`openDMsBucket, this`channels, this`openDMs
      ensures Valid() && channels == Off(old(channels), k) && openDMs == Off(old(openDMs), k)
    {
      var cb := EraseTabs(ChannelBytes, channelsBucket, channels, k);
      var ob := EraseTabs(Nothing, openDMsBucket, openDMs, k);
      channelsBucket, openDMsBucket := cb, ob;
      channels, openDMs := Off(channels, k), Off(openDMs, k);
    }

    /** Erases the user's entries in all four buckets, and nobody else's. */
    method DeleteUser(id: UserID)
      requires Valid()
      modifies this
      ensures Valid() && users == old(users) - {id} && networks == OffUser(old(networks), id)
      ensures channels == OffUser(old(channels), id) && openDMs == OffUser(old(openDMs), id)
    {
      assert UserOf(UserKey(id)) == id;
      usersBucket := DeleteRecord(UserKey, UserOf, UserBytes, usersBucket, users, id);
      users := users - {id};
      DeleteOwned(id);
    }

    /** `deletePrefix` with the user's id, on the three buckets whose keys start with one. */
    method DeleteOwned(id: UserID)
      requires Valid()
      modifies this
      ensures Valid() && users == old(users) && networks == OffUser(old(networks), id)
      ensures channels == OffUser(old(channels), id) && openDMs == OffUser(old(openDMs), id)
    {
      NetworksKept(networks, id);
      networksBucket := EraseOwned(NetworkBytes, networksBucket, networks, id);
      networks := OffUser(networks, id);
      DeleteOwnedTabs(id);
    }

    method DeleteOwnedTabs(id: UserID)
      requires Valid()
      modifies this`channelsBucket, this`openDMsBucket, this`channels, this`openDMs
      ensures Valid() && channels == OffUser(old(channels), id) && openDMs == OffUser(old(openDMs), id)
    {
      var cb := EraseOwned(ChannelBytes, channelsBucket, channels, id);
      var ob := EraseOwned(Nothing, openDMsBucket, openDMs, id);
      channelsBucket, openDMsBucket := cb, ob;
      channels, openDMs := OffUser(channels, id), OffUser(openDMs, id);
    }

    /** Every network saved for the user and not removed, once, in ascending host order. */
    method Networks(user: UserID) returns (ns: seq<Network>)
      requires Valid()
      ensures forall n: Network :: n in ns <==> Key(user, n.host) in networks && networks[Key(user, n.host)] == n
      ensures forall i, j :: 0 <= i < j < |ns| ==> Less(ns[i].host, ns[j].host)
    {
      ns := ListNetworks(networksBucket, networks, user);
    }

    /** Every channel saved for the user and not removed, once. */
    method Channels(user: UserID) returns (cs: seq<Channel>)
      requires Valid()
      ensures forall c: Channel :: c in cs <==> TabOf(user, c) in channels && channels[TabOf(user, c)] == c
      ensures forall i, j :: 0 <= i < j < |cs| ==> cs[i] != cs[j]
    {
      cs := ListChannels(channelsBucket, channels, user);
    }

    /** One tab for every open direct message of the user, split out of its key. */
    method OpenDMs(user: UserID) returns (tabs: seq<(Bytes, Bytes)>)
      requires Valid()
      ensures exists keys :: KeysOf(openDMs, user, keys) && Shows(tabs, keys)
    {
      tabs := ListOpenDMs(openDMsBucket, openDMs, user);
    }
  }

  /** An id beyond all that are in use is the key of nobody. */
  lemma {:induction false} NewId(users: map<UserID, User>, id: uint64)
    requires forall k :: k in users ==> k == IdOf(users[k].id) && users[k].id < id
    ensures IdOf(id) !in users
  {
    if IdOf(id) in users { IdBytesInjective(id, users[IdOf(id)].id); }
  }
}
