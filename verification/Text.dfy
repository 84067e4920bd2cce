/** The string functions the IRC code relies on. */
module Text {
  import opened Wrappers

  /** `strings.Index` of a single character. */
  function Index(s: string, c: char): (r: Option<nat>)
    ensures r.Some? ==> r.value < |s| && s[r.value] == c && c !in s[..r.value]
    ensures r.None? <==> c !in s
  {
    if s == "" then None
    else if s[0] == c then Some(0)
    else match Index(s[1..], c)
      case None => assert s == [s[0]] + s[1..]; None
      case Some(i) => assert s[..i + 1] == [s[0]] + s[1..][..i]; Some(i + 1)
  }

  lemma {:induction false} IndexIs(a: string, c: char, b: string)
    requires c !in a
    ensures Index(a + [c] + b, c) == Some(|a|)
  {
    if a != "" {
      assert a[0] in a;
      assert (a + [c] + b)[1..] == a[1..] + [c] + b;
      IndexIs(a[1..], c, b);
    }
  }

  /** `strings.Split` at a single character. */
  function Split(s: string, sep: char): (r: seq<string>)
    ensures |r| >= 1
  {
    if s == "" then [""]
    else
      var r := Split(s[1..], sep);
      if s[0] == sep then [""] + r else Longer(s[0], r)
  }

  /** Put a character in front of the first part. */
  function Longer(c: char, parts: seq<string>): (r: seq<string>)
    requires parts != []
    ensures |r| == |parts|
  {
    [[c] + parts[0]] + parts[1..]
  }

  lemma LongerConcat(c: char, p: seq<string>, q: seq<string>)
    requires p != []
    ensures Longer(c, p + q) == Longer(c, p) + q
  {
    assert (p + q)[1..] == p[1..] + q;
  }

  lemma {:induction false} SplitConcat(a: string, b: string, sep: char)
    ensures Split(a + [sep] + b, sep) == Split(a, sep) + Split(b, sep)
  {
    var s := a + [sep] + b;
    if a == "" {
      assert s == [sep] + b && s[1..] == b;
    } else {
      assert s[1..] == a[1..] + [sep] + b;
      SplitConcat(a[1..], b, sep);
      var p, q := Split(a[1..], sep), Split(b, sep);
      if a[0] == sep {
        assert [""] + (p + q) == ([""] + p) + q;
      } else {
        LongerConcat(a[0], p, q);
      }
    }
  }

  lemma {:induction false} SplitWhole(s: string, sep: char)
    requires sep !in s
    ensures Split(s, sep) == [s]
  {
    if s != "" {
      assert s == [s[0]] + s[1..];
      SplitWhole(s[1..], sep);
    }
  }

  /** `strings.Join` with a single character. */
  function Join(parts: seq<string>, sep: char): string {
    if parts == [] then ""
    else if |parts| == 1 then parts[0]
    else parts[0] + [sep] + Join(parts[1..], sep)
  }

  lemma {:induction false} SplitJoin(parts: seq<string>, sep: char)
    requires parts != [] && forall p :: p in parts ==> sep !in p
    ensures Split(Join(parts, sep), sep) == parts
  {
    SplitWhole(parts[0], sep);
    if |parts| > 1 {
      SplitConcat(parts[0], Join(parts[1..], sep), sep);
      SplitJoin(parts[1..], sep);
      assert parts == [parts[0]] + parts[1..];
    }
  }

  /** `unicode.IsSpace`. */
  predicate IsSpace(c: char) {
    c in {'\t', '\n', '\U{0B}', '\U{0C}', '\r', ' ', '\U{85}', '\U{A0}', '\U{1680}', '\U{2028}', '\U{2029}',
          '\U{202F}', '\U{205F}', '\U{3000}'}
    || '\U{2000}' <= c <= '\U{200A}'
  }

  /** A non-empty string without white space. */
  predicate Word(s: string) { s != "" && forall c :: c in s ==> !IsSpace(c) }

  function WordEnd(s: string): (n: nat)
    ensures n <= |s| && (forall c :: c in s[..n] ==> !IsSpace(c)) && (n < |s| ==> IsSpace(s[n]))
  {
    if s == "" || IsSpace(s[0]) then 0
    else
      var n := WordEnd(s[1..]);
      assert s[..n + 1] == [s[0]] + s[1..][..n];
      n + 1
  }

  /** `strings.Fields`: the maximal runs of characters that are not white space. */
  function Fields(s: string): seq<string>
    decreases |s|
  {
    if s == "" then []
    else if IsSpace(s[0]) then Fields(s[1..])
    else [s[..WordEnd(s)]] + Fields(s[WordEnd(s)..])
  }

  lemma {:induction false} WordEndIs(w: string, rest: string)
    requires (forall c :: c in w ==> !IsSpace(c)) && (rest == "" || IsSpace(rest[0]))
    ensures WordEnd(w + rest) == |w|
  {
    if w == "" {
      assert w + rest == rest;
    } else {
      assert w[0] in w;
      assert (w + rest)[1..] == w[1..] + rest;
      WordEndIs(w[1..], rest);
    }
  }

  /** Words with single spaces between them. */
  lemma {:induction false} FieldsJoin(words: seq<string>)
    requires forall w :: w in words ==> Word(w)
    ensures Fields(Join(words, ' ')) == words
  {
    if words != [] {
      var w, rest := words[0], if |words| == 1 then "" else " " + Join(words[1..], ' ');
      var s := Join(words, ' ');
      assert w in words;
      assert s == w + rest by { if |words| > 1 { assert w + " " + Join(words[1..], ' ') == w + rest; } }
      WordEndIs(w, rest);
      assert !IsSpace(s[0]) by { assert s[0] == w[0] && w[0] in w; }
      assert s[..|w|] == w && s[|w|..] == rest;
      if |words| > 1 {
        assert rest[1..] == Join(words[1..], ' ');
        FieldsJoin(words[1..]);
        assert words == [w] + words[1..];
      }
    }
  }

  lemma {:induction false} FieldsAreWords(s: string)
    ensures forall w :: w in Fields(s) ==> Word(w)
    decreases |s|
  {
    if s != "" {
      if IsSpace(s[0]) {
        FieldsAreWords(s[1..]);
      } else {
        FieldsAreWords(s[WordEnd(s)..]);
      }
    }
  }

  /** Only words come back from being joined and split. */
  lemma {:induction false} FieldsJoinExactly(words: seq<string>)
    ensures Fields(Join(words, ' ')) == words <==> forall w :: w in words ==> Word(w)
  {
    FieldsAreWords(Join(words, ' '));
    if forall w :: w in words ==> Word(w) { FieldsJoin(words); }
  }
}
