/** IRC case mapping: folding a string to lower case, and comparing two strings up to case, are two
    separate loops over UTF-8 text. */
module CaseMapping {
  import opened Wrappers
  import opened Wire

  // ---------------------------------------------------------------- UTF-8

  const RUNE_ERROR := 0xFFFD

  predicate Cont(x: byte) { 0x80 <= x <= 0xBF }

  predicate Second3(b: byte, x: byte) {
    if b == 0xE0 then 0xA0 <= x <= 0xBF else if b == 0xED then 0x80 <= x <= 0x9F else Cont(x)
  }

  predicate Second4(b: byte, x: byte) {
    if b == 0xF0 then 0x90 <= x <= 0xBF else if b == 0xF4 then 0x80 <= x <= 0x8F else Cont(x)
  }

  /** `utf8.DecodeRuneInString`: the first rune and its width; a byte that starts no valid sequence
      is `RUNE_ERROR` of width one. */
  function Decode(s: Bytes): (r: (nat, nat))
    requires s != []
    ensures 1 <= r.1 <= |s|
  {
    var b: int := s[0];
    var x: int, y: int, z: int := At(s, 1) - 0x80, At(s, 2) - 0x80, At(s, 3) - 0x80;
    if b < 0x80 then (b, 1)
    else if 0xC2 <= b <= 0xDF && |s| >= 2 && Cont(s[1]) then ((b - 0xC0) * 64 + x, 2)
    else if 0xE0 <= b <= 0xEF && |s| >= 3 && Second3(s[0], s[1]) && Cont(s[2]) then
      ((b - 0xE0) * 4096 + x * 64 + y, 3)
    else if 0xF0 <= b <= 0xF4 && |s| >= 4 && Second4(s[0], s[1]) && Cont(s[2]) && Cont(s[3]) then
      ((b - 0xF0) * 262144 + x * 4096 + y * 64 + z, 4)
    else (RUNE_ERROR, 1)
  }

  function At(s: Bytes, i: nat): int { if i < |s| then s[i] else 0 }

  function Encode(r: nat): Bytes
    requires r < 0x110000
  {
    if r < 0x80 then [r]
    else if r < 0x800 then [0xC0 + r / 64, 0x80 + r % 64]
    else if r < 0x10000 then [0xE0 + r / 64 / 64, 0x80 + r / 64 % 64, 0x80 + r % 64]
    else [0xF0 + r / 64 / 64 / 64, 0x80 + r / 64 / 64 % 64, 0x80 + r / 64 % 64, 0x80 + r % 64]
  }

  /** The string starts with a well-formed sequence. */
  predicate Genuine(s: Bytes)
    requires s != []
  {
    Decode(s) != (RUNE_ERROR, 1)
  }

  /** The width and the value of a genuine rune determine its bytes. */
  lemma GenuineIsEncoded(s: Bytes)
    requires s != [] && Genuine(s)
    ensures var (r, n) := Decode(s); r < 0x110000 && s[..n] == Encode(r)
  {
    var (r, n) := Decode(s);
    var x: int, y: int, z: int := At(s, 1) - 0x80, At(s, 2) - 0x80, At(s, 3) - 0x80;
    if n == 3 {
      EncodeThree(s[0] - 0xE0, x, y);
    } else if n == 4 {
      EncodeFour(s[0] - 0xF0, x, y, z);
    }
  }

  lemma EncodeThree(a: nat, x: nat, y: nat)
    requires a < 16 && x < 64 && y < 64 && (a == 0 ==> x >= 32)
    ensures Encode(a * 4096 + x * 64 + y) == [0xE0 + a, 0x80 + x, 0x80 + y]
  {
    LowSixBits(a * 64 + x, y);
    LowSixBits(a, x);
  }

  lemma LowSixBits(q: nat, x: nat)
    requires x < 64
    ensures (q * 64 + x) / 64 == q && (q * 64 + x) % 64 == x
  {
  }

  lemma EncodeFour(a: nat, x: nat, y: nat, z: nat)
    requires a <= 4 && x < 64 && y < 64 && z < 64 && (a == 0 ==> x >= 16) && (a == 4 ==> x < 16)
    ensures a * 262144 + x * 4096 + y * 64 + z < 0x110000
    ensures Encode(a * 262144 + x * 4096 + y * 64 + z) == [0xF0 + a, 0x80 + x, 0x80 + y, 0x80 + z]
  {
    LowSixBits((a * 64 + x) * 64 + y, z);
    LowSixBits(a * 64 + x, y);
    LowSixBits(a, x);
  }

  /** Decoding a genuine rune looks at its own bytes only. */
  lemma GenuineIsLocal(s: Bytes, t: Bytes)
    requires s != [] && Genuine(s) && t != [] && s[..Decode(s).1] <= t
    ensures Decode(t) == Decode(s)
  {
    var n := Decode(s).1;
    assert forall i :: 0 <= i < n ==> t[i] == s[..n][i] == s[i];
  }

  function Runes(s: Bytes): seq<nat> {
    if s == [] then [] else [Decode(s).0] + Runes(s[Decode(s).1..])
  }

  predicate ValidUtf8(s: Bytes) { s == [] || (Genuine(s) && ValidUtf8(s[Decode(s).1..])) }

  lemma {:induction false} RunesInjective(a: Bytes, b: Bytes)
    requires ValidUtf8(a) && ValidUtf8(b) && Runes(a) == Runes(b)
    ensures a == b
  {
    if a != [] && b != [] {
      GenuineIsEncoded(a);
      GenuineIsEncoded(b);
      var m, n := Decode(a).1, Decode(b).1;
      assert Runes(a)[1..] == Runes(a[m..]) && Runes(b)[1..] == Runes(b[n..]);
      RunesInjective(a[m..], b[n..]);
      assert a == a[..m] + a[m..] && b == b[..n] + b[n..];
    }
  }

  lemma {:induction false} NoErrorIsValid(s: Bytes)
    requires RUNE_ERROR !in Runes(s)
    ensures ValidUtf8(s)
  {
    if s != [] { NoErrorIsValid(s[Decode(s).1..]); }
  }

  // ---------------------------------------------------------------- folding

  function LowerByte(c: byte, end: byte): byte
    requires end <= 94
  {
    if 65 <= c <= end then c + 32 else c
  }

  /** Lower case, byte by byte. */
  function Lower(s: Bytes, end: byte): (r: Bytes)
    requires end <= 94
    ensures |r| == |s|
    ensures forall i :: 0 <= i < |s| ==> r[i] == LowerByte(s[i], end)
  {
    seq(|s|, i requires 0 <= i < |s| => LowerByte(s[i], end))
  }

  /** `toLower`: an early exit when nothing is upper case, otherwise a loop that copies multi-byte
      runes whole. */
  method ToLower(s: Bytes, end: byte) returns (r: Bytes)
    requires end <= 94
    ensures r == Lower(s, end)
  {
    var hasUpper := false;
    var j := 0;
    while j < |s| && !hasUpper
      invariant 0 <= j <= |s|
      invariant !hasUpper ==> forall k :: 0 <= k < j ==> LowerByte(s[k], end) == s[k]
    {
      hasUpper := 65 <= s[j] <= end;
      j := j + 1;
    }
    if !hasUpper { return s; }

    var b := new byte[|s|](_ => 0);
    var i := 0;
    while i < |s|
      invariant 0 <= i <= |s|
      invariant forall k :: 0 <= k < i ==> b[k] == LowerByte(s[k], end)
      decreases |s| - i
    {
      var c := s[i];
      if c >= 0x80 {
        var stop := i + Decode(s[i..]).1;
        CopiedBytesHaveNoCase(s[i..]);
        while i < stop
          invariant i <= stop <= |s|
          invariant forall k :: i <= k < stop ==> s[k] >= 0x80
          invariant forall k :: 0 <= k < i ==> b[k] == LowerByte(s[k], end)
        {
          b[i] := s[i];
          i := i + 1;
        }
      } else {
        b[i] := if 65 <= c <= end then c + 32 else c;
        i := i + 1;
      }
    }
    r := b[..];
  }

  lemma CopiedBytesHaveNoCase(s: Bytes)
    requires s != [] && s[0] >= 0x80
    ensures forall k :: 0 <= k < Decode(s).1 ==> s[k] >= 0x80
  {
  }

  function FoldRune(r: nat, end: byte): nat { if 65 <= r <= end then r + 32 else r }

  function FoldAll(rs: seq<nat>, end: byte): seq<nat> {
    if rs == [] then [] else [FoldRune(rs[0], end)] + FoldAll(rs[1..], end)
  }

  /** Lowering bytes lowers runes, on well-formed and malformed strings alike. */
  lemma DecodeLower(s: Bytes, end: byte)
    requires s != [] && end <= 94
    ensures Decode(Lower(s, end)) == (FoldRune(Decode(s).0, end), Decode(s).1)
  {
    var t := Lower(s, end);
    assert forall i :: 0 <= i < |s| && s[i] >= 0x80 ==> t[i] == s[i];
    assert forall i :: 0 <= i < |s| && s[i] < 0x80 ==> t[i] < 0x80;
  }

  lemma {:induction false} LowerRunes(s: Bytes, end: byte)
    requires end <= 94
    ensures Runes(Lower(s, end)) == FoldAll(Runes(s), end)
  {
    if s != [] {
      var n := Decode(s).1;
      DecodeLower(s, end);
      assert Lower(s, end)[n..] == Lower(s[n..], end);
      assert Runes(s)[1..] == Runes(s[n..]);
      LowerRunes(s[n..], end);
    }
  }

  lemma {:induction false} LowerKeepsValid(s: Bytes, end: byte)
    requires end <= 94 && ValidUtf8(s)
    ensures ValidUtf8(Lower(s, end))
  {
    if s != [] {
      var n := Decode(s).1;
      DecodeLower(s, end);
      assert Lower(s, end)[n..] == Lower(s[n..], end);
      LowerKeepsValid(s[n..], end);
    }
  }

  /** `equalFold`: rune by rune, up to the 32 between an upper and a lower case letter. */
  method EqualFoldLoop(a: Bytes, b: Bytes, end: byte) returns (eq: bool)
    requires end <= 94
    ensures eq <==> FoldAll(Runes(a), end) == FoldAll(Runes(b), end)
  {
    var s1, s2 := a, b;
    while s1 != [] && s2 != []
      invariant FoldAll(Runes(a), end) == FoldAll(Runes(b), end)
           <==> FoldAll(Runes(s1), end) == FoldAll(Runes(s2), end)
      decreases |s1|
    {
      var (r1, n1) := Decode(s1);
      var (r2, n2) := Decode(s2);
      FoldStep(s1, end);
      FoldStep(s2, end);
      SameFold(r1, r2, end);
      if !(r1 == r2 || (65 <= r1 <= end && r2 == r1 + 32) || (65 <= r2 <= end && r1 == r2 + 32)) {
        ConsEqual(FoldRune(r1, end), FoldRune(r2, end), FoldAll(Runes(s1[n1..]), end), FoldAll(Runes(s2[n2..]), end));
        return false;
      }
      ConsEqual(FoldRune(r1, end), FoldRune(r2, end), FoldAll(Runes(s1[n1..]), end), FoldAll(Runes(s2[n2..]), end));
      s1, s2 := s1[n1..], s2[n2..];
    }
    eq := s1 == s2;
  }

  /** Swapping the runes into order and testing for a distance of 32 tests whether they fold alike. */
  lemma SameFold(r1: nat, r2: nat, end: byte)
    requires end <= 94
    ensures FoldRune(r1, end) == FoldRune(r2, end)
       <==> r1 == r2 || (65 <= r1 <= end && r2 == r1 + 32) || (65 <= r2 <= end && r1 == r2 + 32)
  {
  }

  lemma ConsEqual<T>(x: T, y: T, s: seq<T>, t: seq<T>)
    ensures [x] + s == [y] + t <==> x == y && s == t
  {
    if [x] + s == [y] + t {
      assert ([x] + s)[0] == x && ([y] + t)[0] == y;
      assert ([x] + s)[1..] == s && ([y] + t)[1..] == t;
    }
  }

  lemma FoldStep(s: Bytes, end: byte)
    requires s != []
    ensures FoldAll(Runes(s), end) == [FoldRune(Decode(s).0, end)] + FoldAll(Runes(s[Decode(s).1..]), end)
  {
    assert Runes(s)[1..] == Runes(s[Decode(s).1..]);
  }

  // ---------------------------------------------------------------- the two entry points

  /** The last letter that has a lower case under a mapping; none for an unknown mapping. */
  function End(mapping: string): (end: Option<byte>)
    ensures end.Some? ==> end.value <= 94
  {
    if mapping == "ascii" then Some(90)
    else if mapping == "rfc1459" then Some(94)
    else if mapping == "strict-rfc1459" then Some(93)
    else None
  }

  function Folded(mapping: string, s: Bytes): Bytes {
    if End(mapping).Some? then Lower(s, End(mapping).value) else s
  }

  predicate Equal(mapping: string, a: Bytes, b: Bytes) {
    if End(mapping).Some?
    then FoldAll(Runes(a), End(mapping).value) == FoldAll(Runes(b), End(mapping).value)
    else a == b
  }

  method Casefold(mapping: string, s: Bytes) returns (r: Bytes)
    ensures r == Folded(mapping, s)
  {
    var end := End(mapping);
    if end.Some? { r := ToLower(s, end.value); } else { r := s; }
  }

  method EqualFold(mapping: string, a: Bytes, b: Bytes) returns (eq: bool)
    ensures eq <==> Equal(mapping, a, b)
  {
    var end := End(mapping);
    if end.Some? { eq := EqualFoldLoop(a, b, end.value); } else { eq := a == b; }
  }

  /** The ASCII letters fold under every mapping; RFC 1459 counts the brackets and the backslash as letters too, and,
      unless it is taken strictly, the caret. */
  predicate IsUpper(mapping: string, c: int) {
    match mapping
    case "ascii" => 'A' as int <= c <= 'Z' as int
    case "rfc1459" => 'A' as int <= c <= 'Z' as int || c in {'[' as int, '\\' as int, ']' as int, '^' as int}
    case "strict-rfc1459" => 'A' as int <= c <= 'Z' as int || c in {'[' as int, '\\' as int, ']' as int}
    case _ => false
  }

  /** Which letters have which lower case under a mapping. */
  lemma {:induction false} LettersFolded(mapping: string, s: Bytes, i: nat)
    requires i < |s|
    ensures |Folded(mapping, s)| == |s| && Folded(mapping, s)[i] == if IsUpper(mapping, s[i]) then s[i] + 32 else s[i]
  {
  }

  /** What `EqualFold` decides, on all strings: whether the folded strings have the same runes. */
  lemma EqualComparesFoldedRunes(mapping: string, a: Bytes, b: Bytes)
    requires End(mapping).Some?
    ensures Equal(mapping, a, b) <==> Runes(Folded(mapping, a)) == Runes(Folded(mapping, b))
  {
    LowerRunes(a, End(mapping).value);
    LowerRunes(b, End(mapping).value);
  }

  /** The two implementations agree on well-formed text, for every mapping value. */
  lemma EqualFoldAgrees(mapping: string, a: Bytes, b: Bytes)
    requires ValidUtf8(a) && ValidUtf8(b)
    ensures Equal(mapping, a, b) <==> Folded(mapping, a) == Folded(mapping, b)
  {
    if End(mapping).Some? {
      var end := End(mapping).value;
      EqualComparesFoldedRunes(mapping, a, b);
      LowerKeepsValid(a, end);
      LowerKeepsValid(b, end);
      if Equal(mapping, a, b) { RunesInjective(Lower(a, end), Lower(b, end)); }
    }
  }

  lemma CasefoldIdempotent(mapping: string, s: Bytes)
    ensures Folded(mapping, Folded(mapping, s)) == Folded(mapping, s)
    ensures |Folded(mapping, s)| == |s|
  {
  }

  lemma {:induction false} FoldKeepsError(rs: seq<nat>, end: byte)
    requires end <= 94
    ensures RUNE_ERROR in FoldAll(rs, end) <==> RUNE_ERROR in rs
  {
    if rs != [] {
      FoldKeepsError(rs[1..], end);
      assert rs == [rs[0]] + rs[1..];
    }
  }

  /** A different string with the same runes: exchange a replacement character for a stray byte, or
      the other way round. */
  function Lookalike(s: Bytes): Bytes
    requires RUNE_ERROR in Runes(s)
  {
    var (r, n) := Decode(s);
    if r == RUNE_ERROR then (if n == 1 then [0xEF, 0xBF, 0xBD] else [0xFF]) + s[n..]
    else
      assert Runes(s)[1..] == Runes(s[n..]);
      s[..n] + Lookalike(s[n..])
  }

  lemma {:induction false} LookalikeSameRunes(s: Bytes)
    requires RUNE_ERROR in Runes(s)
    ensures Runes(Lookalike(s)) == Runes(s) && |Lookalike(s)| != |s|
  {
    var (r, n) := Decode(s);
    var t := Lookalike(s);
    if r == RUNE_ERROR {
      assert n == 1 ==> Decode(t) == (RUNE_ERROR, 3) && t[3..] == s[n..];
      assert n != 1 ==> Decode(t) == (RUNE_ERROR, 1) && t[1..] == s[n..];
      if n != 1 { GenuineIsEncoded(s); }
    } else {
      assert Runes(s)[1..] == Runes(s[n..]);
      LookalikeSameRunes(s[n..]);
      GenuineIsLocal(s, t);
      assert t[n..] == Lookalike(s[n..]);
    }
  }

  /** Exactly when a string is safe to compare with anything: under a known mapping, the two
      implementations agree on `a` against every `b` if and only if decoding `a` yields no
      replacement character. */
  lemma AgreementIsExact(mapping: string, a: Bytes)
    requires End(mapping).Some?
    ensures (forall b :: Equal(mapping, a, b) <==> Folded(mapping, a) == Folded(mapping, b))
       <==> RUNE_ERROR !in Runes(a)
  {
    var end := End(mapping).value;
    if RUNE_ERROR !in Runes(a) {
      forall b ensures Equal(mapping, a, b) <==> Folded(mapping, a) == Folded(mapping, b) {
        EqualComparesFoldedRunes(mapping, a, b);
        NoErrorIsValid(a);
        if Equal(mapping, a, b) {
          FoldKeepsError(Runes(a), end);
          FoldKeepsError(Runes(b), end);
          NoErrorIsValid(b);
          EqualFoldAgrees(mapping, a, b);
        }
      }
    } else {
      LookalikeSameRunes(a);
      var b := Lookalike(a);
      assert Equal(mapping, a, b) && |Folded(mapping, a)| != |Folded(mapping, b)|;
    }
  }
}
