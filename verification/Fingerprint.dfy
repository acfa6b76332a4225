/**
 * Cache fingerprints: a hash over length-delimited parts, so that no two
 * different descriptions of a secret's source feed the hash the same bytes.
 */
module Fingerprint {
  import opened Prelude

  /** A text short enough that its byte length fits a 64-bit `usize`. */
  type Text = s: string | 4 * |s| < U64_LIMIT witness ""

  /** Sixteen hexadecimal digits. */
  type Digits = s: string | |s| == 16 witness "0000000000000000"

  lemma {:induction false} EncodeEachBound(f: char -> seq<Byte>, s: string)
    requires forall c :: |f(c)| <= 4
    ensures |EncodeEach(f, s)| <= 4 * |s|
  {
    if s != "" {
      EncodeEachBound(f, s[1..]);
    }
  }

  lemma Utf8SizeBound(s: string)
    ensures Utf8Size(s) <= 4 * |s|
  {
    assert forall c :: |EncodeChar(c)| <= 4;
    EncodeEachBound(EncodeChar, s);
  }

  // ---------------------------------------------------------------- the byte stream

  function LittleEndian(n: nat, width: nat): (r: seq<Byte>)
    ensures |r| == width
  {
    if width == 0 then [] else [n % 256] + LittleEndian(n / 256, width - 1)
  }

  function Pow256(k: nat): nat {
    if k == 0 then 1 else 256 * Pow256(k - 1)
  }

  lemma {:induction false} LittleEndianInjective(n: nat, m: nat, width: nat)
    requires n < Pow256(width) && m < Pow256(width)
    requires LittleEndian(n, width) == LittleEndian(m, width)
    ensures n == m
    decreases width
  {
    if width > 0 {
      var x, y := LittleEndian(n, width), LittleEndian(m, width);
      assert x[0] == n % 256 && y[0] == m % 256;
      assert x[1..] == LittleEndian(n / 256, width - 1) && y[1..] == LittleEndian(m / 256, width - 1);
      LittleEndianInjective(n / 256, m / 256, width - 1);
    }
  }

  /** The number a byte string stands for, least significant byte first. */
  function ValueOf(bytes: seq<Byte>): nat {
    if bytes == [] then 0 else bytes[0] + 256 * ValueOf(bytes[1..])
  }

  lemma {:induction false} LittleEndianValue(n: nat, width: nat)
    requires n < Pow256(width)
    ensures ValueOf(LittleEndian(n, width)) == n
    decreases width
  {
    if width > 0 {
      LittleEndianValue(n / 256, width - 1);
      assert LittleEndian(n, width)[1..] == LittleEndian(n / 256, width - 1);
    }
  }

  function PartBytes(part: Text): seq<Byte> {
    LittleEndian(Utf8Size(part), 8) + Utf8(part)
  }

  /** Eight bytes that spell the part's byte length, then its bytes. */
  lemma PartLayout(part: Text)
    ensures |PartBytes(part)| == 8 + Utf8Size(part)
    ensures ValueOf(PartBytes(part)[..8]) == Utf8Size(part) && PartBytes(part)[8..] == Utf8(part)
  {
    Pow256Of8();
    Utf8SizeBound(part);
    LittleEndianValue(Utf8Size(part), 8);
    assert PartBytes(part)[..8] == LittleEndian(Utf8Size(part), 8);
  }

  /** What the hash is fed for a list of parts. */
  function Stream(parts: seq<Text>): seq<Byte> {
    if parts == [] then [] else PartBytes(parts[0]) + Stream(parts[1..])
  }

  lemma Pow256Of8()
    ensures Pow256(8) == U64_LIMIT
  {
    assert Pow256(4) == 0x1_0000_0000;
  }

  lemma PartPrefixFree(a: Text, x: seq<Byte>, b: Text, y: seq<Byte>)
    requires PartBytes(a) + x == PartBytes(b) + y
    ensures a == b && x == y
  {
    var s, t := PartBytes(a) + x, PartBytes(b) + y;
    assert s[..8] == LittleEndian(Utf8Size(a), 8) && t[..8] == LittleEndian(Utf8Size(b), 8);
    Pow256Of8();
    Utf8SizeBound(a);
    Utf8SizeBound(b);
    LittleEndianInjective(Utf8Size(a), Utf8Size(b), 8);
    var n := 8 + Utf8Size(a);
    assert s[8..n] == Utf8(a) && t[8..n] == Utf8(b);
    Utf8Injective(a, b);
    assert s[n..] == x && t[n..] == y;
  }

  /** The stream determines the parts: their number, and each one. */
  lemma {:induction false} StreamInjective(p: seq<Text>, q: seq<Text>)
    requires Stream(p) == Stream(q)
    ensures p == q
    decreases |p|
  {
    if p != [] && q != [] {
      PartPrefixFree(p[0], Stream(p[1..]), q[0], Stream(q[1..]));
      StreamInjective(p[1..], q[1..]);
      assert p == [p[0]] + p[1..] && q == [q[0]] + q[1..];
    }
  }

  // ---------------------------------------------------------------- the hash loop

  const FNV_OFFSET: bv64 := 0xcbf2_9ce4_8422_2325

  function FnvStep(hash: bv64, b: Byte): bv64 {
    (hash ^ (b as bv64)) * 0x0100_0000_01b3
  }

  type Mix = (bv64, Byte) -> bv64

  /** A byte-at-a-time hash. */
  function Absorb(mix: Mix, seed: bv64, bytes: seq<Byte>): bv64 {
    if bytes == [] then seed else mix(Absorb(mix, seed, bytes[..|bytes| - 1]), bytes[|bytes| - 1])
  }

  lemma {:induction false} AbsorbConcat(mix: Mix, seed: bv64, a: seq<Byte>, b: seq<Byte>)
    ensures Absorb(mix, seed, a + b) == Absorb(mix, Absorb(mix, seed, a), b)
    decreases |b|
  {
    if b == [] {
      assert a + b == a;
    } else {
      AbsorbConcat(mix, seed, a, b[..|b| - 1]);
      assert (a + b)[..|a + b| - 1] == a + b[..|b| - 1];
    }
  }

  /** The published 64-bit FNV-1a value of the one-byte text "a". */
  lemma FnvOfA()
    ensures Absorb(FnvStep, FNV_OFFSET, [0x61]) == 0xaf63_dc4c_8601_ec8c
  {
    assert [0x61][..0] == [];
    assert (0xcbf2_9ce4_8422_2325 as bv64 ^ 0x61 as bv64) * 0x0100_0000_01b3 == 0xaf63_dc4c_8601_ec8c;
  }

  method AbsorbBytes(mix: Mix, hash: bv64, bytes: seq<Byte>) returns (more: bv64)
    ensures more == Absorb(mix, hash, bytes)
  {
    more := hash;
    for j := 0 to |bytes|
      invariant more == Absorb(mix, hash, bytes[..j])
    {
      more := mix(more, bytes[j]);
      assert bytes[..j + 1][..j] == bytes[..j];
    }
    assert bytes[..|bytes|] == bytes;
  }

  /** The nested loop over parts and their bytes hashes exactly the stream; FNV-1a is the case `mix == FnvStep`. */
  method HashParts(mix: Mix, parts: seq<Text>) returns (hash: bv64)
    ensures hash == Absorb(mix, FNV_OFFSET, Stream(parts))
  {
    hash := FNV_OFFSET;
    for i := 0 to |parts|
      invariant hash == Absorb(mix, FNV_OFFSET, Stream(parts[..i]))
    {
      StreamSnoc(parts[..i], parts[i]);
      assert parts[..i + 1] == parts[..i] + [parts[i]];
      AbsorbConcat(mix, FNV_OFFSET, Stream(parts[..i]), PartBytes(parts[i]));
      hash := AbsorbBytes(mix, hash, PartBytes(parts[i]));
    }
    assert parts[..|parts|] == parts;
  }

  lemma {:induction false} StreamSnoc(parts: seq<Text>, last: Text)
    ensures Stream(parts + [last]) == Stream(parts) + PartBytes(last)
    decreases |parts|
  {
    if parts == [] {
      assert (parts + [last])[1..] == [];
    } else {
      assert (parts + [last])[1..] == parts[1..] + [last];
      StreamSnoc(parts[1..], last);
    }
  }
}
