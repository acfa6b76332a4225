/** Datatypes, UTF-8, text order and text search shared by the other modules. */
module Prelude {

  datatype Option<+T> = None | Some(value: T)

  datatype Result<+T, +E> = Ok(value: T) | Err(error: E)

  type Byte = b: int | 0 <= b < 256

  const U64_LIMIT: int := 0x1_0000_0000_0000_0000

  type U64 = n: int | 0 <= n < U64_LIMIT

  /** Where a provider keeps a secret, coordinate by coordinate. */
  datatype NativeAddress<+S> = NativeAddress(
    item: S, field: Option<S>, vault: Option<S>, section: Option<S>, version: Option<S>)

  // ---------------------------------------------------------------- UTF-8

  /** The bytes of one scalar value. */
  function EncodeChar(ch: char): seq<Byte> {
    var c := ch as int;
    if c < 0x80 then [c]
    else if c < 0x800 then [0xC0 + c / 64, 0x80 + c % 64]
    else if c < 0x1_0000 then [0xE0 + c / 64 / 64, 0x80 + c / 64 % 64, 0x80 + c % 64]
    else [0xF0 + c / 64 / 64 / 64, 0x80 + c / 64 / 64 % 64, 0x80 + c / 64 % 64, 0x80 + c % 64]
  }

  /** A text encoded character by character. */
  function EncodeEach(f: char -> seq<Byte>, s: string): seq<Byte> {
    if s == "" then [] else f(s[0]) + EncodeEach(f, s[1..])
  }

  function Utf8(s: string): seq<Byte> {
    EncodeEach(EncodeChar, s)
  }

  /** The length Rust's `str::len` reports. */
  function Utf8Size(s: string): nat {
    |Utf8(s)|
  }

  lemma {:induction false} EncodeEachConcat(f: char -> seq<Byte>, s: string, t: string)
    ensures EncodeEach(f, s + t) == EncodeEach(f, s) + EncodeEach(f, t)
  {
    if s == "" {
      assert s + t == t;
    } else {
      EncodeEachConcat(f, s[1..], t);
      var x, y := EncodeEach(f, s[1..]), EncodeEach(f, t);
      assert (s + t)[1..] == s[1..] + t && (s + t)[0] == s[0];
      assert f(s[0]) + (x + y) == f(s[0]) + x + y;
    }
  }

  lemma Utf8Concat(s: string, t: string)
    ensures Utf8(s + t) == Utf8(s) + Utf8(t)
  {
    EncodeEachConcat(EncodeChar, s, t);
  }

  lemma LeadByteFixesLength(a: char, b: char)
    requires EncodeChar(a)[0] == EncodeChar(b)[0]
    ensures |EncodeChar(a)| == |EncodeChar(b)|
  {
  }

  /** The scalar value a byte group stands for. */
  function DecodePoint(p: seq<int>): int {
    if |p| == 1 then p[0]
    else if |p| == 2 then 64 * (p[0] - 0xC0) + (p[1] - 0x80)
    else if |p| == 3 then 64 * (64 * (p[0] - 0xE0) + (p[1] - 0x80)) + (p[2] - 0x80)
    else if |p| == 4 then 64 * (64 * (64 * (p[0] - 0xF0) + (p[1] - 0x80)) + (p[2] - 0x80)) + (p[3] - 0x80)
    else -1
  }

  lemma DecodesPoint(ch: char)
    ensures DecodePoint(EncodeChar(ch)) == ch as int
  {
  }

  lemma EncodeCharInjective(a: char, b: char)
    requires EncodeChar(a) == EncodeChar(b)
    ensures a == b
  {
    DecodesPoint(a);
    DecodesPoint(b);
  }

  lemma EncodeCharPrefixFree(a: char, b: char, x: seq<Byte>, y: seq<Byte>)
    requires EncodeChar(a) + x == EncodeChar(b) + y
    ensures a == b && x == y
  {
    var p, q := EncodeChar(a), EncodeChar(b);
    assert p[0] == (p + x)[0] == (q + y)[0] == q[0];
    LeadByteFixesLength(a, b);
    assert p == (p + x)[..|p|] == (q + y)[..|q|] == q;
    EncodeCharInjective(a, b);
    assert x == (p + x)[|p|..] == (q + y)[|q|..] == y;
  }

  /** No character's bytes begin another's, and none is empty. */
  ghost predicate PrefixFree(f: char -> seq<Byte>) {
    && (forall a :: f(a) != [])
    && (forall a, b, x, y {:trigger f(a) + x, f(b) + y} :: f(a) + x == f(b) + y ==> a == b && x == y)
  }

  lemma {:induction false} EncodeEachInjective(f: char -> seq<Byte>, s: string, t: string)
    requires PrefixFree(f) && EncodeEach(f, s) == EncodeEach(f, t)
    ensures s == t
  {
    if s != "" && t != "" {
      assert f(s[0]) + EncodeEach(f, s[1..]) == f(t[0]) + EncodeEach(f, t[1..]);
      EncodeEachInjective(f, s[1..], t[1..]);
      assert s == [s[0]] + s[1..] && t == [t[0]] + t[1..];
    }
  }

  lemma Utf8Injective(s: string, t: string)
    requires Utf8(s) == Utf8(t)
    ensures s == t
  {
    forall a, b, x, y | EncodeChar(a) + x == EncodeChar(b) + y
      ensures a == b && x == y
    {
      EncodeCharPrefixFree(a, b, x, y);
    }
    EncodeEachInjective(EncodeChar, s, t);
  }

  // ---------------------------------------------------------------- text order

  /** Code-point order, which is also the byte order of the UTF-8 forms. */
  predicate Less(a: string, b: string) {
    b != "" && (a == "" || a[0] < b[0] || (a[0] == b[0] && Less(a[1..], b[1..])))
  }

  lemma {:induction false} LessTotal(a: string, b: string)
    ensures Less(a, b) || a == b || Less(b, a)
    ensures !(Less(a, b) && Less(b, a))
    ensures !Less(a, a)
  {
    if a != "" {
      LessTotal(a[1..], if b == "" then "" else b[1..]);
    }
  }

  lemma {:induction false} LessTransitive(a: string, b: string, c: string)
    requires Less(a, b) && Less(b, c)
    ensures Less(a, c)
  {
    if a != "" && a[0] == b[0] == c[0] {
      LessTransitive(a[1..], b[1..], c[1..]);
    }
  }

  predicate Ascending(s: seq<string>) {
    forall i, j | 0 <= i < j < |s| :: Less(s[i], s[j])
  }

  lemma FirstIsLeast(s: seq<string>, x: string)
    requires Ascending(s) && x in s
    ensures x == s[0] || Less(s[0], x)
    ensures !Less(x, s[0])
  {
    var i :| 0 <= i < |s| && s[i] == x;
    LessTotal(x, s[0]);
  }

  /** Two ascending listings of the same names are the same listing. */
  lemma {:induction false} AscendingUnique(s: seq<string>, t: seq<string>)
    requires Ascending(s) && Ascending(t) && forall x :: x in s <==> x in t
    ensures s == t
    decreases |s|
  {
    assert s != [] ==> s[0] in t;
    assert t != [] ==> t[0] in s;
    if s != [] {
      FirstIsLeast(s, t[0]);
      FirstIsLeast(t, s[0]);
      LessTotal(s[0], s[0]);
      forall x
        ensures x in s[1..] <==> x in t[1..]
      {
        assert x in s <==> x == s[0] || x in s[1..];
        assert x in t <==> x == t[0] || x in t[1..];
      }
      AscendingUnique(s[1..], t[1..]);
    }
  }

  /** Insertion into an ordered set kept as an ascending list. */
  function InsertName(s: seq<string>, x: string): seq<string> {
    if s == [] then [x]
    else if s[0] == x then s
    else if Less(x, s[0]) then [x] + s
    else [s[0]] + InsertName(s[1..], x)
  }

  lemma {:induction false} InsertNameAscending(s: seq<string>, x: string)
    requires Ascending(s)
    ensures Ascending(InsertName(s, x))
    ensures forall y :: y in InsertName(s, x) <==> y == x || y in s
  {
    if s != [] && s[0] != x {
      var t := InsertName(s, x);
      if Less(x, s[0]) {
        forall j | 1 <= j < |t|
          ensures Less(t[0], t[j])
        {
          if 1 < j {
            LessTransitive(x, s[0], s[j - 1]);
          }
        }
      } else {
        LessTotal(x, s[0]);
        InsertNameAscending(s[1..], x);
        assert forall j | 1 <= j < |t| :: t[j] in InsertName(s[1..], x);
      }
      assert forall y :: y in s <==> y == s[0] || y in s[1..];
    }
  }

  // ---------------------------------------------------------------- searching and trimming

  function Find(s: string, c: char): (r: Option<nat>)
    ensures r.None? <==> c !in s
    ensures r.Some? ==> r.value < |s| && s[r.value] == c && c !in s[..r.value]
  {
    if s == "" then None
    else if s[0] == c then Some(0)
    else
      var rest := Find(s[1..], c);
      if rest.None? then None
      else
        assert s[..rest.value + 1] == [s[0]] + s[1..][..rest.value];
        Some(rest.value + 1)
  }

  lemma {:induction false} FindsFirst(a: string, c: char, b: string)
    requires c !in a
    ensures Find(a + [c] + b, c) == Some(|a|)
  {
    var s := a + [c] + b;
    if a != "" {
      assert s[1..] == a[1..] + [c] + b;
      FindsFirst(a[1..], c, b);
    }
  }

  /** Unicode white space, which Rust's `str::trim` strips. */
  predicate IsSpace(c: char) {
    || '\U{9}' <= c <= '\U{D}' || c == ' ' || c == '\U{85}' || c == '\U{A0}' || c == '\U{1680}'
    || '\U{2000}' <= c <= '\U{200A}' || c == '\U{2028}' || c == '\U{2029}' || c == '\U{202F}'
    || c == '\U{205F}' || c == '\U{3000}'
  }

  function Trim(s: string): string
    decreases |s|
  {
    if s != "" && IsSpace(s[0]) then Trim(s[1..])
    else if s != "" && IsSpace(s[|s| - 1]) then Trim(s[..|s| - 1])
    else s
  }

  predicate AllSpace(s: string) {
    forall i | 0 <= i < |s| :: IsSpace(s[i])
  }

  /** Text that neither begins nor ends with white space. */
  predicate Tight(s: string) {
    s != "" ==> !IsSpace(s[0]) && !IsSpace(s[|s| - 1])
  }

  /** Trimming strips exactly the white space around a text. */
  lemma {:induction false} TrimStrips(a: string, s: string, b: string)
    requires AllSpace(a) && Tight(s) && AllSpace(b)
    ensures Trim(a + s + b) == s
    decreases |a| + |b|
  {
    var all := a + s + b;
    if a != "" {
      assert all[0] == a[0] && all[1..] == a[1..] + s + b;
      TrimStrips(a[1..], s, b);
    } else if b != "" {
      var n := |b| - 1;
      if s == "" {
        assert all == b + s + "";
        assert all[0] == b[0] && all[1..] == "" + s + b[1..];
        TrimStrips("", s, b[1..]);
      } else {
        assert all[0] == s[0] && all[|all| - 1] == b[n] && all[..|all| - 1] == a + s + b[..n];
        TrimStrips(a, s, b[..n]);
      }
    } else {
      assert all == s;
    }
  }

  lemma {:induction false} BlankExactly(s: string)
    ensures Trim(s) == "" <==> AllSpace(s)
    decreases |s|
  {
    if s != "" && IsSpace(s[0]) {
      BlankExactly(s[1..]);
      assert s == [s[0]] + s[1..];
    } else if s != "" && IsSpace(s[|s| - 1]) {
      BlankExactly(s[..|s| - 1]);
    }
  }
}
