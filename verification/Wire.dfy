/** The primitive wire formats of the generated codec: base-128 length prefixes, fixed 8-byte
    integers and length-prefixed strings, together with their readers.  A Go run-time panic (an
    index or a slice bound out of range) is the value `Panic`.  The 8-byte integers are read through an
    unsafe conversion that checks only that the first byte is there, so reading one at the very end of a
    buffer can run past it: that is the value `Overread`. */
module Wire {

  type byte = x: int | 0 <= x < 256
  type Bytes = seq<byte>

  const TWO_64 := 0x1_0000_0000_0000_0000
  const TWO_63 := 0x8000_0000_0000_0000

  type uint64 = x: int | 0 <= x < 0x1_0000_0000_0000_0000
  type int64 = x: int | -0x8000_0000_0000_0000 <= x < 0x8000_0000_0000_0000

  /** The outcome of reading a value from the front of a buffer. */
  datatype Parsed<+T> = Panic | Overread(missing: nat) | Parsed(value: T, rest: Bytes) {
    predicate IsFailure() { !Parsed? }
    function PropagateFailure<U>(): Parsed<U> { if Overread? then Overread(missing) else Panic }
    function Extract(): (T, Bytes)
      requires Parsed?
    {
      (value, rest)
    }
  }

  /** Reading past the end is only survived at the end: the next read finds its index out of range. */
  function Followed<T>(r: Parsed<T>): Parsed<T> { if r.Overread? then Panic else r }

  function Ending<T>(last: bool, r: Parsed<T>): Parsed<T> { if last then r else Followed(r) }

  /** What `len` can return in Go: lengths are non-negative 64-bit signed integers. */
  predicate Fits<T>(s: seq<T>) { |s| < TWO_63 }

  // ---------------------------------------------------------------- machine arithmetic

  function Pow2(k: nat): nat { if k == 0 then 1 else 2 * Pow2(k - 1) }

  /** Bitwise or of two unsigned integers. */
  function Or(a: nat, b: nat): nat {
    if a == 0 then b
    else if b == 0 then a
    else (if a % 2 == 1 || b % 2 == 1 then 1 else 0) + 2 * Or(a / 2, b / 2)
  }

  /** `uint64(x) << k`: bits shifted past position 63 are lost. */
  function Shl64(x: nat, k: nat): nat {
    if k >= 64 then 0 else (x * Pow2(k)) % TWO_64
  }

  lemma {:induction false} Pow2Add(j: nat, k: nat)
    ensures Pow2(j + k) == Pow2(j) * Pow2(k)
  {
    if j > 0 {
      Pow2Add(j - 1, k);
      assert Pow2(j + k) == 2 * Pow2((j - 1) + k);
    }
  }

  lemma {:induction false} Pow2Monotone(j: nat, k: nat)
    requires j <= k
    ensures 1 <= Pow2(j) <= Pow2(k)
  {
    if j < k { Pow2Monotone(j, k - 1); } else if k > 0 { Pow2Monotone(k - 1, k - 1); }
  }

  lemma Pow2At64()
    ensures Pow2(64) == TWO_64
  {
    Pow2Add(8, 8);
    Pow2Add(16, 16);
    Pow2Add(32, 32);
  }

  /** Or-ing in bits above all bits of `a` adds them. */
  lemma {:induction false} OrAboveIsSum(a: nat, x: nat, k: nat)
    requires a < Pow2(k)
    ensures Or(a, x * Pow2(k)) == a + x * Pow2(k)
  {
    if k > 0 {
      var b := x * Pow2(k - 1);
      assert x * Pow2(k) == 2 * b;
      OrAboveIsSum(a / 2, x, k - 1);
    }
  }

  // ---------------------------------------------------------------- base-128 integers

  /** The bytes the Marshal loop emits for `t`: seven bits a byte, low bits first, and the top
      bit set on all bytes but the last. */
  function Uvarint(t: nat): (r: Bytes)
    ensures |r| >= 1
  {
    if t < 128 then [t] else [t % 128 + 128] + Uvarint(t / 128)
  }

  /** The Unmarshal loop; `b[0]` is the byte whose low bits were last merged into `t`, and the
      shift count is a uint8. */
  function ReadMore(b: Bytes, t: nat, shift: nat): Parsed<nat>
    requires b != []
  {
    if b[0] < 128 then Parsed(t, b[1..])
    else if |b| == 1 then Panic
    else ReadMore(b[1..], Or(t, Shl64(b[1] % 128, shift)), (shift + 7) % 256)
  }

  function ReadUvarint(b: Bytes): Parsed<nat> {
    if b == [] then Panic else ReadMore(b, b[0] % 128, 7)
  }

  /** Length prefixes and strings are read byte by byte and never past the end. */
  lemma {:induction false} ReadMoreStaysInside(b: Bytes, t: nat, shift: nat)
    requires b != []
    ensures !ReadMore(b, t, shift).Overread?
    decreases |b|
  {
    if b[0] >= 128 && |b| > 1 {
      ReadMoreStaysInside(b[1..], Or(t, Shl64(b[1] % 128, shift)), (shift + 7) % 256);
    }
  }

  lemma {:induction false} UvarintStaysInside(b: Bytes)
    ensures !ReadUvarint(b).Overread?
  {
    if b != [] { ReadMoreStaysInside(b, b[0] % 128, 7); }
  }

  lemma {:induction false} MulMonotone(a: nat, b: nat, p: nat)
    requires a <= b
    ensures a * p <= b * p
  {
    assert b * p == a * p + (b - a) * p;
  }

  lemma {:induction false} MulSplit(q: nat, m: nat, p: nat)
    ensures (128 * q + m) * p == m * p + q * (128 * p)
  {
  }

  /** A base-128 integer with bytes still to come at bit 57 or above exceeds 64 bits. */
  lemma {:induction false} TooWide(v: nat, k: nat)
    requires v >= 128 && k >= 57
    ensures v * Pow2(k) >= TWO_64
  {
    Pow2Monotone(57, k);
    Pow2Add(7, 57);
    Pow2At64();
    assert Pow2(7) == 128;
    MulMonotone(128, v, Pow2(k));
  }

  lemma NoOverflow(y: nat)
    requires y < TWO_64
    ensures y % TWO_64 == y
  {
  }

  lemma {:induction false} OrShifted(t: nat, x: nat, k: nat)
    requires k < 64 && t < Pow2(k) && x * Pow2(k) < TWO_64
    ensures Or(t, Shl64(x, k)) == t + x * Pow2(k)
  {
    NoOverflow(x * Pow2(k));
    assert Shl64(x, k) == x * Pow2(k);
    OrAboveIsSum(t, x, k);
  }

  /** Moving the low seven bits `m` of `128 * q + m` below bit `k + 7` keeps the total. */
  lemma {:induction false} PeelSevenBits(low: nat, q: nat, m: nat, k: nat)
    requires low < Pow2(k) && m < 128
    ensures low + m * Pow2(k) < Pow2(k + 7)
    ensures low + m * Pow2(k) + q * Pow2(k + 7) == low + (128 * q + m) * Pow2(k)
    ensures q % 128 * Pow2(k + 7) <= q * Pow2(k + 7)
  {
    var p := Pow2(k);
    assert Pow2(k + 7) == 128 * p by { Pow2Add(7, k); assert Pow2(7) == 128; }
    MulSplit(q, m, p);
    MulMonotone(m, 127, p);
    MulMonotone(q % 128, q, 128 * p);
  }

  lemma {:induction false} UvarintHead(v: nat, rest: Bytes)
    ensures var b := Uvarint(v) + rest;
            && b[0] % 128 == v % 128
            && (b[0] >= 128 <==> v >= 128)
            && b[1..] == if v >= 128 then Uvarint(v / 128) + rest else rest
  {
  }

  lemma {:induction false} ReadMoreStep(b: Bytes, b': Bytes, x: nat, t: nat, shift: nat)
    requires b != [] && b[0] >= 128
    requires b[1..] == b' && b' != [] && b'[0] % 128 == x
    ensures ReadMore(b, t, shift) == ReadMore(b', Or(t, Shl64(x, shift)), (shift + 7) % 256)
  {
    assert b[1] == b'[0];
  }

  lemma {:induction false} SmallShift(j: nat)
    requires j < 64
    ensures (j + 7) % 256 == j + 7
  {
  }

  /** What is left to merge fits above what has been merged. */
  lemma {:induction false} MergeFits(v: nat, low: nat, k: nat, t: nat)
    requires v >= 128 && low < Pow2(k) && low + v * Pow2(k) < TWO_64
    requires t == low + v % 128 * Pow2(k)
    ensures k < 57 && t < Pow2(k + 7) && t + v / 128 * Pow2(k + 7) == low + v * Pow2(k)
    ensures v / 128 % 128 * Pow2(k + 7) < TWO_64
  {
    if k >= 57 { TooWide(v, k); }
    PeelSevenBits(low, v / 128, v % 128, k);
  }

  /** With the low seven bits of `v` merged at bit `k`, reading one more byte merges the next
      seven bits at `k + 7`. */
  lemma {:induction false} ReadMoreMerges(b: Bytes, v: nat, low: nat, k: nat, t: nat, next: nat)
    requires v >= 128 && low < Pow2(k) && low + v * Pow2(k) < TWO_64
    requires t == low + v % 128 * Pow2(k) && next == t + v / 128 % 128 * Pow2(k + 7)
    requires |b| > 1 && b[0] >= 128 && b[1] % 128 == v / 128 % 128
    ensures k < 57 && t < Pow2(k + 7) && t + v / 128 * Pow2(k + 7) == low + v * Pow2(k)
    ensures ReadMore(b, t, k + 7) == ReadMore(b[1..], next, k + 14)
  {
    MergeFits(v, low, k, t);
    OrShifted(t, v / 128 % 128, k + 7);
    SmallShift(k + 7);
    ReadMoreStep(b, b[1..], v / 128 % 128, t, k + 7);
  }

  lemma {:induction false} ReadMoreRestores(v: nat, rest: Bytes, low: nat, k: nat, t: nat)
    requires low < Pow2(k) && low + v * Pow2(k) < TWO_64 && k < 64
    requires t == low + v % 128 * Pow2(k)
    ensures ReadMore(Uvarint(v) + rest, t, k + 7) == Parsed(low + v * Pow2(k), rest)
    decreases v
  {
    UvarintHead(v, rest);
    if v >= 128 {
      UvarintHead(v / 128, rest);
      var next := t + v / 128 % 128 * Pow2(k + 7);
      ReadMoreMerges(Uvarint(v) + rest, v, low, k, t, next);
      ReadMoreRestores(v / 128, rest, t, k + 7, next);
    }
  }

  /** Every unsigned 64-bit integer survives its base-128 encoding, whatever follows it. */
  lemma UvarintRoundTrip(v: uint64, rest: Bytes)
    ensures ReadUvarint(Uvarint(v) + rest) == Parsed(v, rest)
  {
    UvarintHead(v, rest);
    ReadMoreRestores(v, rest, 0, 0, v % 128);
  }

  // ---------------------------------------------------------------- fixed-width integers

  function LittleEndian(v: nat, n: nat): (r: Bytes)
    ensures |r| == n
  {
    if n == 0 then [] else [v % 256] + LittleEndian(v / 256, n - 1)
  }

  function FromLittleEndian(b: Bytes): (r: nat)
    ensures r < Pow2(8 * |b|)
  {
    if b == [] then 0
    else
      Pow2Add(8, 8 * (|b| - 1));
      assert Pow2(8) == 256;
      b[0] + 256 * FromLittleEndian(b[1..])
  }

  lemma {:induction false} OneByteLess(v: nat, n: nat)
    requires n > 0 && v < Pow2(8 * n)
    ensures v / 256 < Pow2(8 * (n - 1))
  {
    var p := Pow2(8 * (n - 1));
    Pow2Add(8, 8 * (n - 1));
    assert Pow2(8) == 256 && 8 + 8 * (n - 1) == 8 * n;
    assert v < 256 * p;
  }

  lemma {:induction false} LittleEndianRestores(v: nat, n: nat)
    requires v < Pow2(8 * n)
    ensures FromLittleEndian(LittleEndian(v, n)) == v
  {
    if n > 0 {
      OneByteLess(v, n);
      LittleEndianRestores(v / 256, n - 1);
      assert LittleEndian(v, n)[1..] == LittleEndian(v / 256, n - 1);
    }
  }

  /** An unaligned 8-byte store on a little-endian machine. */
  function Fixed64(v: uint64): (r: Bytes)
    ensures |r| == 8
  {
    LittleEndian(v, 8)
  }

  function ReadFixed64(b: Bytes): Parsed<uint64> {
    if b == [] then Panic
    else if |b| < 8 then Overread(8 - |b|)
    else
      Pow2At64();
      Parsed(FromLittleEndian(b[..8]), b[8..])
  }

  lemma Fixed64RoundTrip(v: uint64, rest: Bytes)
    ensures ReadFixed64(Fixed64(v) + rest) == Parsed(v, rest)
  {
    Pow2At64();
    LittleEndianRestores(v, 8);
    assert (Fixed64(v) + rest)[..8] == Fixed64(v);
  }

  /** The two's complement bit pattern of a signed integer, and back. */
  function Unsigned(v: int64): uint64 { if v < 0 then v + TWO_64 else v }
  function Signed(v: uint64): int64 { if v < TWO_63 then v else v - TWO_64 }

  function ReadInt64(b: Bytes): Parsed<int64> {
    var (v, rest) :- ReadFixed64(b);
    Parsed(Signed(v), rest)
  }

  lemma Int64RoundTrip(v: int64, rest: Bytes)
    ensures ReadInt64(Fixed64(Unsigned(v)) + rest) == Parsed(v, rest)
  {
    Fixed64RoundTrip(Unsigned(v), rest);
  }

  // ---------------------------------------------------------------- strings and lists

  function Str(s: Bytes): Bytes { Uvarint(|s|) + s }

  function ReadStr(b: Bytes): Parsed<Bytes> {
    var (l, rest) :- ReadUvarint(b);
    if l > |rest| then Panic else Parsed(rest[..l], rest[l..])
  }

  lemma {:induction false} StrStaysInside(b: Bytes)
    ensures !ReadStr(b).Overread?
  {
    UvarintStaysInside(b);
  }

  lemma StrRoundTrip(s: Bytes, rest: Bytes)
    requires Fits(s)
    ensures ReadStr(Str(s) + rest) == Parsed(s, rest)
  {
    assert Str(s) + rest == Uvarint(|s|) + (s + rest);
    UvarintRoundTrip(|s|, s + rest);
  }

  /** The encodings of a list's elements, one after the other. */
  function All<T>(enc: T -> Bytes, xs: seq<T>): Bytes {
    if xs == [] then [] else enc(xs[0]) + All(enc, xs[1..])
  }

  /** Every element but the last is followed by another read. */
  function ReadAll<T>(read: Bytes -> Parsed<T>, n: nat, b: Bytes): Parsed<seq<T>> {
    if n == 0 then Parsed([], b)
    else
      var (x, rest) :- Ending(n == 1, read(b));
      var (xs, rest') :- ReadAll(read, n - 1, rest);
      Parsed([x] + xs, rest')
  }

  lemma {:induction false} ReadAllLength<T>(read: Bytes -> Parsed<T>, n: nat, b: Bytes)
    ensures ReadAll(read, n, b).Parsed? ==> |ReadAll(read, n, b).value| == n
  {
    if n > 0 && read(b).Parsed? { ReadAllLength(read, n - 1, read(b).rest); }
  }

  lemma {:induction false} AllSnoc<T>(enc: T -> Bytes, xs: seq<T>, x: T)
    ensures All(enc, xs + [x]) == All(enc, xs) + enc(x)
  {
    if xs == [] {
      assert [x][1..] == [];
    } else {
      assert (xs + [x])[1..] == xs[1..] + [x];
      AllSnoc(enc, xs[1..], x);
    }
  }

  lemma {:induction false} ReadAllStep<T>(read: Bytes -> Parsed<T>, n: nat, b: Bytes, x: T, xs: seq<T>, rest: Bytes)
    requires n > 0 && read(b).Parsed? && read(b).value == x && ReadAll(read, n - 1, read(b).rest) == Parsed(xs, rest)
    ensures ReadAll(read, n, b) == Parsed([x] + xs, rest)
  {
  }

  lemma {:induction false} AllRoundTrip<T(!new)>(enc: T -> Bytes, read: Bytes -> Parsed<T>,
                                                 xs: seq<T>, rest: Bytes)
    requires forall x, r :: x in xs ==> read(enc(x) + r) == Parsed(x, r)
    ensures ReadAll(read, |xs|, All(enc, xs) + rest) == Parsed(xs, rest)
  {
    if xs != [] {
      var x, tail := xs[0], xs[1..];
      var b := All(enc, tail) + rest;
      assert x in xs && xs == [x] + tail;
      assert All(enc, xs) + rest == enc(x) + b;
      AllRoundTrip(enc, read, tail, rest);
      ReadAllStep(read, |xs|, enc(x) + b, x, tail, rest);
    }
  }

  /** A list is its length followed by its elements. */
  function List<T>(enc: T -> Bytes, xs: seq<T>): Bytes { Uvarint(|xs|) + All(enc, xs) }

  function ReadList<T>(read: Bytes -> Parsed<T>, b: Bytes): Parsed<seq<T>> {
    var (n, rest) :- ReadUvarint(b);
    ReadAll(read, n, rest)
  }

  lemma ListRoundTrip<T(!new)>(enc: T -> Bytes, read: Bytes -> Parsed<T>, xs: seq<T>, rest: Bytes)
    requires Fits(xs)
    requires forall x, r :: x in xs ==> read(enc(x) + r) == Parsed(x, r)
    ensures ReadList(read, List(enc, xs) + rest) == Parsed(xs, rest)
  {
    assert List(enc, xs) + rest == Uvarint(|xs|) + (All(enc, xs) + rest);
    UvarintRoundTrip(|xs|, All(enc, xs) + rest);
    AllRoundTrip(enc, read, xs, rest);
  }
}
