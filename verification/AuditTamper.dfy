/**
 * What the checker accepts and what it catches. `Chain` is the shape a
 * well-behaved writer leaves behind; the checker accepts exactly that shape,
 * and the lemmas below say what it reports once the shape has been edited,
 * cut or spliced.
 */
module AuditTamper {
  import opened Prelude
  import opened AuditChain

  /** `k` digest-free lines, then entries each naming the digest of the one before. */
  predicate Chain(c: Codec, lines: seq<string>, k: nat) {
    && k <= |lines|
    && (forall i | 0 <= i < k :: Read(c, lines[i]).Bare?)
    && (forall i | k <= i < |lines| :: Linked(c, lines, k, i))
  }

  predicate Linked(c: Codec, lines: seq<string>, k: nat, i: nat)
    requires k <= i < |lines|
  {
    Read(c, lines[i]).Sealed? && Read(c, lines[i]).prev == Tip(c, lines[..i], k)
  }

  /** The digest the next entry has to name after `lines`. */
  function Tip(c: Codec, lines: seq<string>, k: nat): Option<string>
    requires k <= |lines|
  {
    if |lines| == k then None
    else
      var last := Read(c, lines[|lines| - 1]);
      if last.Sealed? then Some(last.sha) else None
  }

  // ---------------------------------------------------------------- what is accepted

  lemma {:induction false} ChainTip(c: Codec, lines: seq<string>, k: nat)
    requires Chain(c, lines, k)
    ensures LastSeal(c, lines) == Tip(c, lines, k)
    ensures ChainBegun(c, lines) <==> k < |lines|
  {
    if k < |lines| {
      assert Linked(c, lines, k, |lines| - 1);
      assert ClaimsDigest(c, lines[|lines| - 1]);
    } else if lines != [] {
      var n := |lines| - 1;
      assert lines[..n] == lines[..n];
      ChainTip(c, lines[..n], n);
    }
  }

  lemma ChainPrefix(c: Codec, lines: seq<string>, k: nat, m: nat)
    requires Chain(c, lines, k) && m <= |lines|
    ensures Chain(c, lines[..m], if k <= m then k else m)
  {
    var k' := if k <= m then k else m;
    forall i | k' <= i < m
      ensures Linked(c, lines[..m], k', i)
    {
      assert Linked(c, lines, k, i);
      assert lines[..m][..i] == lines[..i];
    }
  }

  /** Every log of the chain shape passes, with one start unless nothing is chained. */
  lemma {:induction false} ChainIsAccepted(c: Codec, lines: seq<string>, k: nat)
    requires Chain(c, lines, k)
    ensures Breaks(c, lines) == []
    ensures ChainStarts(c, lines) == if k < |lines| then 1 else 0
    ensures Seals(c, lines) == |lines| - k && Legacy(c, lines) == k
    decreases |lines|
  {
    if lines != [] {
      var n := |lines| - 1;
      var k' := if k <= n then k else n;
      ChainPrefix(c, lines, k, n);
      ChainIsAccepted(c, lines[..n], k');
      ChainTip(c, lines[..n], k');
      if k <= n {
        assert Linked(c, lines, k, n);
      }
    }
  }

  /** Cutting off the tail is invisible: every prefix passes too. */
  lemma PrefixIsAccepted(c: Codec, lines: seq<string>, k: nat, m: nat)
    requires Chain(c, lines, k) && m <= |lines|
    ensures Breaks(c, lines[..m]) == []
  {
    ChainPrefix(c, lines, k, m);
    ChainIsAccepted(c, lines[..m], if k <= m then k else m);
  }

  /** Conversely, a log with no break and at most one start has the chain shape. */
  lemma {:induction false} AcceptedIsChain(c: Codec, lines: seq<string>) returns (k: nat)
    requires Breaks(c, lines) == [] && ChainStarts(c, lines) <= 1
    ensures Chain(c, lines, k)
    ensures ChainStarts(c, lines) == if k < |lines| then 1 else 0
    decreases |lines|
  {
    if lines == [] {
      k := 0;
    } else {
      var n := |lines| - 1;
      assert Verdict(c, lines[..n], lines[n]).None?;
      k := AcceptedIsChain(c, lines[..n]);
      ChainTip(c, lines[..n], k);
      if Read(c, lines[n]).Bare? {
        k := n + 1;
      } else {
        assert Linked(c, lines, k, n);
        forall i | k <= i < n
          ensures Linked(c, lines, k, i)
        {
          assert Linked(c, lines[..n], k, i);
          assert lines[..n][..i] == lines[..i];
        }
      }
    }
  }

  lemma AcceptedIffChain(c: Codec, lines: seq<string>)
    ensures (Breaks(c, lines) == [] && ChainStarts(c, lines) <= 1) <==> (exists k: nat :: Chain(c, lines, k))
  {
    if Breaks(c, lines) == [] && ChainStarts(c, lines) <= 1 {
      var k := AcceptedIsChain(c, lines);
    }
    forall k: nat | Chain(c, lines, k)
      ensures Breaks(c, lines) == [] && ChainStarts(c, lines) <= 1
    {
      ChainIsAccepted(c, lines, k);
    }
  }

  /** Digest-free lines, then entries that each begin a chain or continue the one before: chains end to end. */
  predicate Chains(c: Codec, lines: seq<string>, k: nat) {
    && k <= |lines|
    && (forall i | 0 <= i < k :: Read(c, lines[i]).Bare?)
    && (forall i | k <= i < |lines| :: BeginsOrContinues(c, lines, k, i))
  }

  predicate BeginsOrContinues(c: Codec, lines: seq<string>, k: nat, i: nat)
    requires k <= i < |lines|
  {
    Read(c, lines[i]).Sealed? && (Read(c, lines[i]).prev.None? || Read(c, lines[i]).prev == Tip(c, lines[..i], k))
  }

  lemma {:induction false} ChainsTip(c: Codec, lines: seq<string>, k: nat)
    requires Chains(c, lines, k)
    ensures LastSeal(c, lines) == Tip(c, lines, k)
    ensures ChainBegun(c, lines) <==> k < |lines|
  {
    if k < |lines| {
      assert BeginsOrContinues(c, lines, k, |lines| - 1);
      assert ClaimsDigest(c, lines[|lines| - 1]);
    } else {
      ChainTip(c, lines, k);
    }
  }

  lemma ChainsPrefix(c: Codec, lines: seq<string>, k: nat, m: nat)
    requires Chains(c, lines, k) && m <= |lines|
    ensures Chains(c, lines[..m], if k <= m then k else m)
  {
    var k' := if k <= m then k else m;
    forall i | k' <= i < m
      ensures BeginsOrContinues(c, lines[..m], k', i)
    {
      assert BeginsOrContinues(c, lines, k, i);
      assert lines[..m][..i] == lines[..i];
    }
  }

  lemma {:induction false} ChainsUnbroken(c: Codec, lines: seq<string>, k: nat)
    requires Chains(c, lines, k)
    ensures Breaks(c, lines) == []
    decreases |lines|
  {
    if lines != [] {
      var n := |lines| - 1;
      var k' := if k <= n then k else n;
      ChainsPrefix(c, lines, k, n);
      ChainsUnbroken(c, lines[..n], k');
      ChainsTip(c, lines[..n], k');
      if k <= n {
        assert BeginsOrContinues(c, lines, k, n);
      }
    }
  }

  lemma OneMoreContinues(c: Codec, lines: seq<string>, k: nat)
    requires lines != [] && Chains(c, lines[..|lines| - 1], k) && Verdict(c, lines[..|lines| - 1], lines[|lines| - 1]).None?
    ensures Chains(c, lines, if Read(c, lines[|lines| - 1]).Bare? then |lines| else k)
  {
    var n := |lines| - 1;
    ChainsTip(c, lines[..n], k);
    if !Read(c, lines[n]).Bare? {
      assert BeginsOrContinues(c, lines, k, n);
      forall i | k <= i < n
        ensures BeginsOrContinues(c, lines, k, i)
      {
        assert BeginsOrContinues(c, lines[..n], k, i);
        assert lines[..n][..i] == lines[..i];
      }
    }
  }

  lemma {:induction false} UnbrokenIsChains(c: Codec, lines: seq<string>) returns (k: nat)
    requires Breaks(c, lines) == []
    ensures Chains(c, lines, k)
    decreases |lines|
  {
    k := 0;
    if lines != [] {
      var n := |lines| - 1;
      assert Verdict(c, lines[..n], lines[n]).None?;
      k := UnbrokenIsChains(c, lines[..n]);
      OneMoreContinues(c, lines, k);
      k := if Read(c, lines[n]).Bare? then |lines| else k;
    }
  }

  /**
   * What no break at all means, whatever the number of starts: chains end to
   * end. Each start but the first is a place where the checker cannot tell a
   * restart from entries cut out or put in.
   */
  lemma UnbrokenExactly(c: Codec, lines: seq<string>)
    ensures Breaks(c, lines) == [] <==> exists k: nat :: Chains(c, lines, k)
  {
    if Breaks(c, lines) == [] {
      var k := UnbrokenIsChains(c, lines);
    }
    forall k: nat | Chains(c, lines, k)
      ensures Breaks(c, lines) == []
    {
      ChainsUnbroken(c, lines, k);
    }
  }

  // ---------------------------------------------------------------- digests

  lemma LaterNewline(x: string, a: string, y: string, b: string)
    requires x + "\n" + a == y + "\n" + b && |y| < |x|
    ensures '\n' in b
  {
    assert b[|x| - |y| - 1] == (y + "\n" + b)[|x|] == (x + "\n" + a)[|x|];
  }

  /** What stands for an entry's predecessor in the hashed text. */
  function Predecessor(prev: Option<string>): string {
    match prev
    case None => "genesis"
    case Some(digest) => digest
  }

  /** The hashed text determines the predecessor's text and the newline-free part after its last newline. */
  lemma HashedTextInjective(p: Option<string>, a: string, q: Option<string>, b: string)
    requires '\n' !in a && '\n' !in b
    requires HashedText(p, a) == HashedText(q, b)
    ensures a == b && Predecessor(p) == Predecessor(q)
  {
    var x := if p.Some? then p.value else "genesis";
    var y := if q.Some? then q.value else "genesis";
    if |y| < |x| {
      LaterNewline(x, a, y, b);
    } else if |x| < |y| {
      LaterNewline(y, b, x, a);
    }
    assert (x + "\n" + a)[|x| + 1..] == a && (y + "\n" + b)[|y| + 1..] == b;
    assert (x + "\n" + a)[..|x|] == x && (y + "\n" + b)[..|y|] == y;
  }

  /**
   * Two entries whose covered texts do not collide have equal digests only if
   * they have equal content and equal predecessors, where no predecessor
   * counts as the text "genesis". The digest of a first entry and of an entry whose
   * `prev` is the text "genesis" hash the same prefix; the `prev` field inside
   * the content is what keeps them apart.
   */
  lemma DigestInjective(c: Codec, p: Option<string>, v: Json, q: Option<string>, w: Json)
    requires c.Lawful()
    requires c.ChainDigest(p, v) == c.ChainDigest(q, w) ==> HashedText(p, c.render(v)) == HashedText(q, c.render(w))
    ensures c.ChainDigest(p, v) == c.ChainDigest(q, w) ==> v == w && Predecessor(p) == Predecessor(q)
  {
    if c.ChainDigest(p, v) == c.ChainDigest(q, w) {
      HashedTextInjective(p, c.render(v), q, c.render(w));
      assert c.parse(c.render(v)) == Some(v) && c.parse(c.render(w)) == Some(w);
    }
  }

  lemma SealedBySameDigest(c: Codec, a: string, b: string)
    requires c.Lawful() && !Collide(c, a, b)
    requires Read(c, a).Sealed? && Read(c, b).Sealed? && Read(c, a).sha == Read(c, b).sha
    ensures c.parse(a) == c.parse(b)
  {
    var v, w := c.parse(a).value, c.parse(b).value;
    DigestInjective(c, StringField(v, "prev"), Strip(v), StringField(w, "prev"), Strip(w));
    assert v.fields == Strip(v).fields["sha" := v.fields["sha"]];
    assert w.fields == Strip(w).fields["sha" := w.fields["sha"]];
  }

  /** What a chained line names: nothing for the first, the digest before it for the others. */
  lemma LinkNames(c: Codec, lines: seq<string>, k: nat, i: nat)
    requires Chain(c, lines, k) && k <= i < |lines|
    ensures Read(c, lines[i]).Sealed?
    ensures i == k ==> Read(c, lines[i]).prev == None
    ensures k < i ==> Read(c, lines[i - 1]).Sealed? && Read(c, lines[i]).prev == Some(Read(c, lines[i - 1]).sha)
  {
    assert Linked(c, lines, k, i);
    if k < i {
      assert Linked(c, lines, k, i - 1);
    }
  }

  /** No digest repeats along a chain: a repeat would run back to a second first entry. */
  lemma {:induction false} DigestsDistinct(c: Codec, lines: seq<string>, k: nat, i: nat, j: nat)
    requires c.Lawful() && NoCollision(c, lines, lines) && Chain(c, lines, k)
    requires k <= i < j < |lines|
    ensures Read(c, lines[i]).Sealed? && Read(c, lines[j]).Sealed?
    ensures Read(c, lines[i]).sha != Read(c, lines[j]).sha
    decreases i
  {
    LinkNames(c, lines, k, i);
    LinkNames(c, lines, k, j);
    if k < i {
      DigestsDistinct(c, lines, k, i - 1, j - 1);
    }
    if Read(c, lines[i]).sha == Read(c, lines[j]).sha {
      SealedBySameDigest(c, lines[i], lines[j]);
    }
  }

  lemma ChainedTip(c: Codec, lines: seq<string>)
    requires Chain(c, lines, 0)
    ensures LastSeal(c, lines) == Tip(c, lines, 0)
    ensures LastSeal(c, lines) == None <==> lines == []
  {
    ChainTip(c, lines, 0);
    assert lines != [] ==> Linked(c, lines, 0, |lines| - 1);
  }

  /** Equal last digests: the last entries are equal, and so are the digests they name. */
  lemma SameHeadStep(c: Codec, a: seq<string>, b: seq<string>)
    requires c.Lawful() && NoCollision(c, a, b)
    requires a != [] && b != [] && Chain(c, a, 0) && Chain(c, b, 0) && LastSeal(c, a) == LastSeal(c, b)
    ensures c.parse(a[|a| - 1]) == c.parse(b[|b| - 1])
    ensures Tip(c, a[..|a| - 1], 0) == Tip(c, b[..|b| - 1], 0)
  {
    ChainedTip(c, a);
    ChainedTip(c, b);
    assert Linked(c, a, 0, |a| - 1) && Linked(c, b, 0, |b| - 1);
    SealedBySameDigest(c, a[|a| - 1], b[|b| - 1]);
  }

  /** Two accepted all-chained logs that end in the same digest hold the same entries throughout. */
  lemma {:induction false} SameHeadSameLog(c: Codec, a: seq<string>, b: seq<string>)
    requires c.Lawful() && NoCollision(c, a, b)
    requires a != [] && b != [] && Chain(c, a, 0) && Chain(c, b, 0)
    requires LastSeal(c, a) == LastSeal(c, b)
    ensures |a| == |b|
    ensures forall i | 0 <= i < |a| :: c.parse(a[i]) == c.parse(b[i])
    decreases |a|
  {
    SameHeadStep(c, a, b);
    var a', b' := a[..|a| - 1], b[..|b| - 1];
    ChainPrefix(c, a, 0, |a'|);
    ChainPrefix(c, b, 0, |b'|);
    ChainedTip(c, a');
    ChainedTip(c, b');
    if a' != [] {
      SameHeadSameLog(c, a', b');
    }
    forall i | 0 <= i < |a|
      ensures c.parse(a[i]) == c.parse(b[i])
    {
      if i < |a'| {
        assert c.parse(a'[i]) == c.parse(b'[i]);
      }
    }
  }

  /** The same statement in the checker's terms. */
  lemma EqualHeadsFixTheLog(c: Codec, a: seq<string>, b: seq<string>)
    requires c.Lawful() && NoCollision(c, a, b) && a != [] && b != []
    requires Breaks(c, a) == [] && ChainStarts(c, a) == 1 && Legacy(c, a) == 0
    requires Breaks(c, b) == [] && ChainStarts(c, b) == 1 && Legacy(c, b) == 0
    requires LastSeal(c, a) == LastSeal(c, b)
    ensures |a| == |b| && forall i | 0 <= i < |a| :: c.parse(a[i]) == c.parse(b[i])
  {
    var k := AcceptedIsChain(c, a);
    ChainIsAccepted(c, a, k);
    var l := AcceptedIsChain(c, b);
    ChainIsAccepted(c, b, l);
    SameHeadSameLog(c, a, b);
  }

  // ---------------------------------------------------------------- tampering

  /** Nothing is wrong with line `j` where it stands. */
  predicate Quiet(c: Codec, lines: seq<string>, j: nat) {
    j < |lines| && Verdict(c, lines[..j], lines[j]).None?
  }

  lemma {:induction false} QuietFrom(c: Codec, lines: seq<string>, m: nat)
    requires m <= |lines| && forall j | m <= j < |lines| :: Quiet(c, lines, j)
    ensures Breaks(c, lines) == Breaks(c, lines[..m])
    decreases |lines|
  {
    if m == |lines| {
      assert lines[..m] == lines;
    } else {
      var n := |lines| - 1;
      var rest := lines[..n];
      assert Quiet(c, lines, n);
      forall j | m <= j < n
        ensures Quiet(c, rest, j)
      {
        assert Quiet(c, lines, j);
        assert rest[..j] == lines[..j];
      }
      QuietFrom(c, rest, m);
      assert rest[..m] == lines[..m];
    }
  }

  /** A chain suffix grafted behind `before` is quiet after its first line. */
  lemma GraftQuiet(c: Codec, lines: seq<string>, k: nat, before: seq<string>, b: nat, j: nat)
    requires Chain(c, lines, k) && k <= b && b < j < |lines|
    ensures Verdict(c, before + lines[b..j], lines[j]).None?
  {
    assert Linked(c, lines, k, j) && Linked(c, lines, k, j - 1);
    var head := before + lines[b..j];
    assert head[|head| - 1] == lines[j - 1];
  }

  lemma GraftBreaks(c: Codec, lines: seq<string>, k: nat, before: seq<string>, b: nat)
    requires Chain(c, lines, k) && k <= b < |lines|
    ensures Breaks(c, before + lines[b..]) == Breaks(c, before + [lines[b]])
  {
    var grafted := before + lines[b..];
    var m := |before| + 1;
    forall j | m <= j < |grafted|
      ensures Quiet(c, grafted, j)
    {
      var j' := b + (j - |before|);
      GraftQuiet(c, lines, k, before, b, j');
      assert grafted[..j] == before + lines[b..j'];
    }
    QuietFrom(c, grafted, m);
    assert grafted[..m] == before + [lines[b]];
  }

  /** The digest a line claims, whether or not it is right. */
  function RecordedDigest(c: Codec, line: string): Option<string> {
    var v := c.parse(line);
    if v.Some? then StringField(v.value, "sha") else None
  }

  lemma EditBreaksHere(c: Codec, lines: seq<string>, k: nat, i: nat, line: string)
    requires c.Lawful() && NoCollision(c, [line], lines) && Chain(c, lines, k) && k <= i < |lines|
    requires RecordedDigest(c, line) == RecordedDigest(c, lines[i]) && c.parse(line) != c.parse(lines[i])
    ensures Read(c, line).Forged?
    ensures Breaks(c, lines[..i] + [line]) == [ChainBreak(i + 1, DigestMismatch)]
  {
    assert Linked(c, lines, k, i);
    if Read(c, line).Sealed? {
      SealedBySameDigest(c, line, lines[i]);
    }
    PrefixIsAccepted(c, lines, k, i);
    assert (lines[..i] + [line])[..i] == lines[..i];
  }

  lemma ForgeryBreaksNextLink(c: Codec, lines: seq<string>, k: nat, i: nat, line: string)
    requires c.Lawful() && NoCollision(c, lines, lines) && Chain(c, lines, k) && k <= i < |lines| - 1
    requires Read(c, line).Forged?
    ensures Verdict(c, lines[..i] + [line], lines[i + 1]) == Some(BrokenLink)
  {
    GapBreaksLink(c, lines, k, i, i + 1);
    assert (lines[..i] + [line])[..i] == lines[..i];
    assert LastSeal(c, lines[..i] + [line]) == LastSeal(c, lines[..i]);
  }

  /**
   * Rewriting an entry but keeping its digest is reported there as a
   * mismatch, and on the next line, if there is one, as a broken link; no
   * other line is reported.
   */
  lemma EditIsCaught(c: Codec, lines: seq<string>, k: nat, i: nat, line: string)
    requires c.Lawful() && NoCollision(c, [line] + lines, lines) && Chain(c, lines, k) && k <= i < |lines|
    requires RecordedDigest(c, line) == RecordedDigest(c, lines[i]) && c.parse(line) != c.parse(lines[i])
    ensures Breaks(c, lines[i := line]) ==
            [ChainBreak(i + 1, DigestMismatch)] +
            (if i + 1 < |lines| then [ChainBreak(i + 2, BrokenLink)] else [])
  {
    EditBreaksHere(c, lines, k, i, line);
    var before := lines[..i] + [line];
    if i + 1 < |lines| {
      assert lines[i := line] == before + lines[i + 1..];
      GraftBreaks(c, lines, k, before, i + 1);
      ForgeryBreaksNextLink(c, lines, k, i, line);
      assert (before + [lines[i + 1]])[..i + 1] == before;
    } else {
      assert lines[i := line] == before;
    }
  }

  /** Dropping leading digest-free lines leaves a chain. */
  lemma BareDropped(c: Codec, lines: seq<string>, k: nat, m: nat)
    requires Chain(c, lines, k) && m <= k
    ensures Chain(c, lines[m..], k - m)
  {
    var rest, k' := lines[m..], k - m;
    forall i | k' <= i < |rest|
      ensures Linked(c, rest, k', i)
    {
      LinkNames(c, lines, k, m + i);
    }
  }

  /** So does putting digest-free lines in front. */
  lemma BareInFront(c: Codec, bare: seq<string>, lines: seq<string>, k: nat)
    requires Chain(c, bare, |bare|) && Chain(c, lines, k)
    ensures Chain(c, bare + lines, |bare| + k)
  {
    var all, k' := bare + lines, |bare| + k;
    forall i | k' <= i < |all|
      ensures Linked(c, all, k', i)
    {
      LinkNames(c, lines, k, i - |bare|);
    }
  }

  lemma SealBefore(c: Codec, lines: seq<string>, k: nat, a: nat)
    requires Chain(c, lines, k) && a <= |lines|
    ensures k < a ==> Read(c, lines[a - 1]).Sealed? && LastSeal(c, lines[..a]) == Some(Read(c, lines[a - 1]).sha)
    ensures a <= k ==> LastSeal(c, lines[..a]) == None
  {
    var k' := if k <= a then k else a;
    ChainPrefix(c, lines, k, a);
    ChainTip(c, lines[..a], k');
    if k < a {
      LinkNames(c, lines, k, a - 1);
    }
  }

  lemma GapBreaksLink(c: Codec, lines: seq<string>, k: nat, a: nat, b: nat)
    requires c.Lawful() && NoCollision(c, lines, lines) && Chain(c, lines, k) && a < b < |lines| && k < b
    ensures Verdict(c, lines[..a], lines[b]) == Some(BrokenLink)
  {
    SealBefore(c, lines, k, a);
    LinkNames(c, lines, k, b);
    if k < a {
      DigestsDistinct(c, lines, k, a - 1, b - 1);
    }
  }

  /**
   * Deleting the block [a, b) from a chain is reported exactly when it takes
   * a chained entry and leaves something after it, and then as one broken
   * link at the first survivor.
   */
  lemma DeletionIsCaught(c: Codec, lines: seq<string>, k: nat, a: nat, b: nat)
    requires c.Lawful() && NoCollision(c, lines, lines) && Chain(c, lines, k) && a < b <= |lines|
    ensures Breaks(c, lines[..a] + lines[b..]) ==
            if k < b < |lines| then [ChainBreak(a + 1, BrokenLink)] else []
  {
    PrefixIsAccepted(c, lines, k, a);
    if b == |lines| {
      assert lines[..a] + lines[b..] == lines[..a];
    } else if k < b {
      GraftBreaks(c, lines, k, lines[..a], b);
      GapBreaksLink(c, lines, k, a, b);
      assert (lines[..a] + [lines[b]])[..a] == lines[..a];
    } else {
      BareDropped(c, lines, k, b);
      ChainPrefix(c, lines, k, a);
      BareInFront(c, lines[..a], lines[b..], k - b);
      ChainIsAccepted(c, lines[..a] + lines[b..], a + (k - b));
    }
  }

  // ---------------------------------------------------------------- splices

  /** Two runs of lines hold the same entries. */
  predicate SameEntries(c: Codec, a: seq<string>, b: seq<string>) {
    |a| == |b| && forall m | 0 <= m < |a| :: c.parse(a[m]) == c.parse(b[m])
  }

  /** The chained lines of a chain are a chain, ending in the same digest. */
  lemma ChainedPart(c: Codec, lines: seq<string>, k: nat)
    requires Chain(c, lines, k)
    ensures Chain(c, lines[k..], 0) && LastSeal(c, lines[k..]) == LastSeal(c, lines)
  {
    var tail := lines[k..];
    forall i | 0 <= i < |tail|
      ensures Linked(c, tail, 0, i)
    {
      LinkNames(c, lines, k, k + i);
    }
    ChainTip(c, lines, k);
    ChainTip(c, tail, 0);
  }

  /** The digest behind a link is the grafted line's own predecessor exactly when both pasts are the same. */
  lemma LinkFixesPast(c: Codec, a: seq<string>, k: nat, b: seq<string>, l: nat)
    requires c.Lawful() && NoCollision(c, a, b) && Chain(c, a, k) && Chain(c, b, l) && l < |b|
    ensures LastSeal(c, a) == LastSeal(c, b) <==> SameEntries(c, a[k..], b[l..])
  {
    var x, y := a[k..], b[l..];
    ChainedPart(c, a, k);
    ChainedPart(c, b, l);
    ChainedTip(c, x);
    ChainedTip(c, y);
    if x != [] && LastSeal(c, x) == LastSeal(c, y) {
      SameHeadSameLog(c, x, y);
    }
  }

  /** A prefix of one chain, then a later entry of another: broken unless both have the same past. */
  lemma GraftedVerdict(c: Codec, a: seq<string>, k: nat, b: seq<string>, l: nat, j: nat)
    requires c.Lawful() && NoCollision(c, a, b) && Chain(c, a, k) && Chain(c, b, l) && l < j < |b|
    ensures Verdict(c, a, b[j]) == if SameEntries(c, a[k..], b[l..j]) then None else Some(BrokenLink)
  {
    ChainPrefix(c, b, l, j);
    LinkFixesPast(c, a, k, b[..j], l);
    assert b[..j][l..] == b[l..j];
    LinkNames(c, b, l, j);
    SealBefore(c, b, l, j);
  }

  /** One report for each of `n` digest-free lines after line `i`. */
  function Displaced(i: nat, n: nat): seq<ChainBreak> {
    if n == 0 then [] else Displaced(i, n - 1) + [ChainBreak(i + n, UnchainedAfterChained)]
  }

  lemma StaysBegun(c: Codec, before: seq<string>, more: seq<string>)
    requires ChainBegun(c, before)
    ensures ChainBegun(c, before + more)
  {
    var i :| 0 <= i < |before| && ClaimsDigest(c, before[i]);
    assert ClaimsDigest(c, (before + more)[i]);
  }

  lemma BareIsReported(c: Codec, before: seq<string>, line: string)
    requires ChainBegun(c, before) && Read(c, line).Bare?
    ensures Breaks(c, before + [line]) == Breaks(c, before) + [ChainBreak(|before| + 1, UnchainedAfterChained)]
  {
    assert (before + [line])[..|before|] == before;
  }

  /** Digest-free lines behind a digest are each reported. */
  lemma {:induction false} BareBehindDigest(c: Codec, before: seq<string>, bare: seq<string>)
    requires ChainBegun(c, before) && forall line | line in bare :: Read(c, line).Bare?
    ensures Breaks(c, before + bare) == Breaks(c, before) + Displaced(|before|, |bare|)
    decreases |bare|
  {
    if bare == [] {
      assert before + bare == before;
    } else {
      var rest, last := bare[..|bare| - 1], bare[|bare| - 1];
      var d, b := Displaced(|before|, |rest|), ChainBreak(|before| + |bare|, UnchainedAfterChained);
      calc {
        Breaks(c, before + bare);
        { assert before + bare == before + rest + [last]; }
        Breaks(c, before + rest + [last]);
        { StaysBegun(c, before, rest); BareIsReported(c, before + rest, last); }
        Breaks(c, before + rest) + [b];
        { BareBehindDigest(c, before, rest); }
        Breaks(c, before) + d + [b];
        Breaks(c, before) + (d + [b]);
      }
    }
  }

  /** The entries of a chain, put behind anything, add no report: the first names no predecessor. */
  lemma EntriesAddNothing(c: Codec, before: seq<string>, entries: seq<string>)
    requires Chain(c, entries, 0)
    ensures Breaks(c, before + entries) == Breaks(c, before)
  {
    if entries == [] {
      assert before + entries == before;
    } else {
      GraftBreaks(c, entries, 0, before, 0);
      LinkNames(c, entries, 0, 0);
      assert (before + [entries[0]])[..|before|] == before;
      assert entries[0..] == entries;
    }
  }

  lemma Regroup(a: seq<string>, b: seq<string>, l: nat)
    requires l <= |b|
    ensures a + b == a + b[..l] + b[l..]
  {
  }

  /** Digest-free lines and then entries, behind a digest: only the digest-free lines are reported. */
  lemma BehindDigest(c: Codec, before: seq<string>, bare: seq<string>, entries: seq<string>)
    requires ChainBegun(c, before) && Breaks(c, before) == []
    requires (forall line | line in bare :: Read(c, line).Bare?) && Chain(c, entries, 0)
    ensures Breaks(c, before + bare + entries) == Displaced(|before|, |bare|)
  {
    BareBehindDigest(c, before, bare);
    EntriesAddNothing(c, before + bare, entries);
  }

  lemma ComesApart(c: Codec, b: seq<string>, l: nat)
    requires Chain(c, b, l)
    ensures (forall line | line in b[..l] :: Read(c, line).Bare?) && Chain(c, b[l..], 0)
  {
    ChainedPart(c, b, l);
  }

  lemma ChainReady(c: Codec, a: seq<string>, k: nat)
    requires Chain(c, a, k) && k < |a|
    ensures ChainBegun(c, a) && Breaks(c, a) == []
  {
    ChainTip(c, a, k);
    ChainIsAccepted(c, a, k);
  }

  /** A chain behind chained lines: only its digest-free lines are reported. */
  lemma ChainBehindChain(c: Codec, a: seq<string>, k: nat, b: seq<string>, l: nat)
    requires Chain(c, a, k) && k < |a| && Chain(c, b, l)
    ensures Breaks(c, a + b) == Displaced(|a|, l)
  {
    ChainReady(c, a, k);
    ComesApart(c, b, l);
    BehindDigest(c, a, b[..l], b[l..]);
    Regroup(a, b, l);
  }

  lemma {:induction false} CountSplits(p: string -> bool, a: seq<string>, b: seq<string>)
    ensures Count(p, a + b) == Count(p, a) + Count(p, b)
    decreases |b|
  {
    if b == [] {
      assert a + b == a;
    } else {
      CountSplits(p, a, b[..|b| - 1]);
      assert (a + b)[..|a + b| - 1] == a + b[..|b| - 1];
    }
  }

  /** Whether a chain's first entry is among the lines before `m`. */
  lemma PrefixStarts(c: Codec, lines: seq<string>, k: nat, m: nat)
    requires Chain(c, lines, k) && m <= |lines|
    ensures ChainStarts(c, lines[..m]) == if k < m then 1 else 0
    ensures ChainStarts(c, lines[m..]) == if m <= k < |lines| then 1 else 0
  {
    ChainPrefix(c, lines, k, m);
    ChainIsAccepted(c, lines[..m], if k <= m then k else m);
    ChainIsAccepted(c, lines, k);
    CountSplits(line => Read(c, line).Sealed? && Read(c, line).prev.None?, lines[..m], lines[m..]);
    assert lines[..m] + lines[m..] == lines;
  }

  /** Starts add up: the first chain's if its first entry was kept, the second's likewise. */
  lemma SpliceStarts(c: Codec, a: seq<string>, k: nat, i: nat, b: seq<string>, l: nat, j: nat)
    requires Chain(c, a, k) && Chain(c, b, l) && i <= |a| && j <= |b|
    ensures ChainStarts(c, a[..i] + b[j..]) == (if k < i then 1 else 0) + (if j <= l < |b| then 1 else 0)
  {
    CountSplits(line => Read(c, line).Sealed? && Read(c, line).prev.None?, a[..i], b[j..]);
    PrefixStarts(c, a, k, i);
    PrefixStarts(c, b, l, j);
  }

  lemma SpliceInsideChain(c: Codec, a: seq<string>, k: nat, b: seq<string>, l: nat, j: nat)
    requires c.Lawful() && NoCollision(c, a, b) && Chain(c, a, k) && Chain(c, b, l) && l < j < |b|
    ensures Breaks(c, a + b[j..]) ==
            if SameEntries(c, a[k..], b[l..j]) then [] else [ChainBreak(|a| + 1, BrokenLink)]
  {
    GraftBreaks(c, b, l, a, j);
    GraftedVerdict(c, a, k, b, l, j);
    ChainIsAccepted(c, a, k);
    assert (a + [b[j]])[..|a|] == a;
  }

  lemma SpliceBeforeChain(c: Codec, a: seq<string>, k: nat, b: seq<string>, l: nat)
    requires Chain(c, a, k) && Chain(c, b, l)
    ensures Breaks(c, a + b) == if k < |a| then Displaced(|a|, l) else []
  {
    if k < |a| {
      ChainBehindChain(c, a, k, b, l);
    } else {
      BareInFront(c, a, b, l);
      ChainIsAccepted(c, a + b, |a| + l);
    }
  }

  /**
   * The first `i` lines of one chain followed by another chain from line `j`
   * on, for any cut points. A graft from inside the other chain's entries is
   * one broken link at the joint, unless the entries cut off equal the entries
   * kept. A graft that starts at or before the other chain's first entry has
   * no link to break: only its digest-free lines are reported, and only behind
   * a chained entry, so with none of those the checker sees just a second start.
   */
  lemma SpliceIsCaught(c: Codec, a: seq<string>, k: nat, i: nat, b: seq<string>, l: nat, j: nat)
    requires c.Lawful() && NoCollision(c, a, b) && Chain(c, a, k) && Chain(c, b, l) && i <= |a| && j <= |b|
    ensures Breaks(c, a[..i] + b[j..]) ==
            if l < j < |b| then
              (if k <= i && SameEntries(c, a[k..i], b[l..j]) then [] else [ChainBreak(i + 1, BrokenLink)])
            else if j <= l && k < i then Displaced(i, l - j)
            else []
    ensures ChainStarts(c, a[..i] + b[j..]) == (if k < i then 1 else 0) + (if j <= l < |b| then 1 else 0)
  {
    SpliceStarts(c, a, k, i, b, l, j);
    var head, k' := a[..i], if k <= i then k else i;
    ChainPrefix(c, a, k, i);
    if j <= l {
      BareDropped(c, b, l, j);
      SpliceBeforeChain(c, head, k', b[j..], l - j);
    } else if j < |b| {
      SpliceInsideChain(c, head, k', b, l, j);
      assert k <= i ==> head[k'..] == a[k..i];
    } else {
      PrefixIsAccepted(c, a, k, i);
      assert head + b[j..] == head;
    }
  }

  /** The splice nothing reports: a whole second chain behind entries of a first passes with two starts. */
  lemma WholeChainSpliceUnseen(c: Codec, a: seq<string>, k: nat, i: nat, b: seq<string>)
    requires Chain(c, a, k) && Chain(c, b, 0) && k < i <= |a| && b != []
    ensures Breaks(c, a[..i] + b) == [] && ChainStarts(c, a[..i] + b) == 2
  {
    SpliceStarts(c, a, k, i, b, 0, 0);
    ChainPrefix(c, a, k, i);
    SpliceBeforeChain(c, a[..i], k, b, 0);
    assert b[0..] == b;
  }

  // ---------------------------------------------------------------- reordering

  lemma SamePlace(c: Codec, a: seq<string>, k: nat, i: nat, j: nat)
    requires c.Lawful() && NoCollision(c, a, a) && Chain(c, a, k) && k <= i < |a| && k <= j < |a|
    requires Read(c, a[i]).Sealed? && Read(c, a[j]).Sealed? && Read(c, a[i]).sha == Read(c, a[j]).sha
    ensures i == j
  {
    if i < j {
      DigestsDistinct(c, a, k, i, j);
    } else if j < i {
      DigestsDistinct(c, a, k, j, i);
    }
  }

  /** The entries of a chain made of another chain's lines are the other's entries, in its order. */
  lemma {:induction false} FollowsTheChain(c: Codec, a: seq<string>, k: nat, b: seq<string>, l: nat, m: nat)
    requires c.Lawful() && NoCollision(c, a, a) && Chain(c, a, k) && Chain(c, b, l) && l + m < |b|
    requires forall line | line in b :: line in a
    ensures k + m < |a| && b[l + m] == a[k + m]
    decreases m
  {
    LinkNames(c, b, l, l + m);
    var line := b[l + m];
    assert line in b;
    var at :| 0 <= at < |a| && a[at] == line;
    assert k <= at;
    LinkNames(c, a, k, at);
    if m > 0 {
      FollowsTheChain(c, a, k, b, l, m - 1);
      LinkNames(c, a, k, k + m - 1);
      SamePlace(c, a, k, at - 1, k + m - 1);
    }
  }

  lemma FollowsThroughout(c: Codec, a: seq<string>, k: nat, b: seq<string>, l: nat)
    requires c.Lawful() && NoCollision(c, a, a) && Chain(c, a, k) && Chain(c, b, l)
    requires forall line | line in b :: line in a
    ensures b[l..] <= a[k..]
  {
    var x, y := b[l..], a[k..];
    forall m | 0 <= m < |x|
      ensures m < |y| && x[m] == y[m]
    {
      FollowsTheChain(c, a, k, b, l, m);
    }
    if x != [] {
      FollowsTheChain(c, a, k, b, l, |x| - 1);
    }
  }

  lemma PrefixBehindBare(c: Codec, a: seq<string>, k: nat, b: seq<string>, l: nat)
    requires Chain(c, a, k) && l <= |b| && Chain(c, b[..l], l) && b[l..] <= a[k..]
    ensures Chain(c, b, l)
  {
    ChainedPart(c, a, k);
    ChainPrefix(c, a[k..], 0, |b| - l);
    assert b[l..] == a[k..][..|b| - l];
    BareInFront(c, b[..l], b[l..], 0);
    assert b == b[..l] + b[l..];
  }

  /**
   * Reordering, repeating and deleting at once: a log made only of lines of a
   * chain passes with at most one start exactly when it is digest-free lines
   * followed by the chain's entries from the first on, in order, up to some point.
   */
  lemma ReorderingIsCaught(c: Codec, a: seq<string>, k: nat, b: seq<string>)
    requires c.Lawful() && NoCollision(c, a, a) && Chain(c, a, k)
    requires forall line | line in b :: line in a
    ensures (Breaks(c, b) == [] && ChainStarts(c, b) <= 1) <==>
            (exists l: nat :: l <= |b| && Chain(c, b[..l], l) && b[l..] <= a[k..])
  {
    if Breaks(c, b) == [] && ChainStarts(c, b) <= 1 {
      var l := AcceptedIsChain(c, b);
      FollowsThroughout(c, a, k, b, l);
      ChainPrefix(c, b, l, l);
    }
    forall l: nat | l <= |b| && Chain(c, b[..l], l) && b[l..] <= a[k..]
      ensures Breaks(c, b) == [] && ChainStarts(c, b) <= 1
    {
      PrefixBehindBare(c, a, k, b, l);
      ChainIsAccepted(c, b, l);
    }
  }
}
