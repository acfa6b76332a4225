/**
 * The tamper-evidence chain of the audit log: what one line says, what the
 * one-pass checker reports, and which logs it accepts.
 */
module AuditChain {
  import opened Prelude

  /** A parsed JSON value. Arrays, numbers and booleans are opaque to the chain. */
  datatype Json = Null | Str(text: string) | Object(fields: map<string, Json>) | Other(literal: string)

  /** The JSON serialiser and the hash the log is written with. */
  datatype Codec = Codec(render: Json -> string, parse: string -> Option<Json>, sha: string -> string) {

    /** Compact JSON reads back as itself and never holds a raw newline; the empty text is not JSON. */
    ghost predicate Lawful() {
      && (forall v {:trigger render(v)} :: parse(render(v)) == Some(v) && '\n' !in render(v))
      && parse("") == None
    }

    /** The digest of one chained entry, over its predecessor's digest and its own content. */
    function ChainDigest(prev: Option<string>, entry: Json): string {
      sha(HashedText(prev, render(entry)))
    }
  }

  function HashedText(prev: Option<string>, core: string): string {
    (if prev.Some? then prev.value else "genesis") + "\n" + core
  }

  function StringField(v: Json, key: string): Option<string> {
    if v.Object? && key in v.fields && v.fields[key].Str? then Some(v.fields[key].text) else None
  }

  /** An entry without its own `sha` field: what the digest covers. */
  function Strip(v: Json): Json {
    if v.Object? then Object(v.fields - {"sha"}) else v
  }

  /** The text the digest of a line is taken over. */
  function Covered(c: Codec, line: string): Option<string> {
    var v := c.parse(line);
    if v.Some? then Some(HashedText(StringField(v.value, "prev"), c.render(Strip(v.value)))) else None
  }

  /** The hash maps two different covered texts to one digest. */
  predicate Collide(c: Codec, x: string, y: string) {
    var s, t := Covered(c, x), Covered(c, y);
    s.Some? && t.Some? && s != t && c.sha(s.value) == c.sha(t.value)
  }

  /** No line of one log collides with a line of another. */
  predicate NoCollision(c: Codec, a: seq<string>, b: seq<string>) {
    forall x, y | x in a && y in b :: !Collide(c, x, y)
  }

  /** What one line amounts to on its own. */
  datatype Reading =
    | Garbage
    | Bare
    | Forged
    | Sealed(prev: Option<string>, sha: string)

  function Read(c: Codec, line: string): Reading {
    match c.parse(line)
    case None => Garbage
    case Some(v) =>
      match StringField(v, "sha")
      case None => Bare
      case Some(sha) =>
        var prev := StringField(v, "prev");
        if c.ChainDigest(prev, Strip(v)) == sha then Sealed(prev, sha) else Forged
  }

  datatype BreakKind = DigestMismatch | BrokenLink | UnchainedAfterChained | Unparseable

  datatype ChainBreak = ChainBreak(line: nat, kind: BreakKind)

  datatype ChainReport = ChainReport(
    entries: nat, chained: nat, legacy: nat, chainStarts: nat, breaks: seq<ChainBreak>)

  // ---------------------------------------------------------------- specification

  predicate ClaimsDigest(c: Codec, line: string) {
    Read(c, line).Forged? || Read(c, line).Sealed?
  }

  predicate ChainBegun(c: Codec, lines: seq<string>) {
    exists i | 0 <= i < |lines| :: ClaimsDigest(c, lines[i])
  }

  /** The digest of the last line whose content matches its digest. */
  function LastSeal(c: Codec, lines: seq<string>): Option<string> {
    if lines == [] then None
    else
      var last := Read(c, lines[|lines| - 1]);
      if last.Sealed? then Some(last.sha) else LastSeal(c, lines[..|lines| - 1])
  }

  /** What is wrong with a line that follows `before`, if anything is. */
  function Verdict(c: Codec, before: seq<string>, line: string): Option<BreakKind> {
    match Read(c, line)
    case Garbage => Some(Unparseable)
    case Bare => if ChainBegun(c, before) then Some(UnchainedAfterChained) else None
    case Forged => Some(DigestMismatch)
    case Sealed(prev, _) => if prev.Some? && LastSeal(c, before) != prev then Some(BrokenLink) else None
  }

  /** All verdicts against a log, in line order, numbered from one. */
  function Breaks(c: Codec, lines: seq<string>): seq<ChainBreak> {
    if lines == [] then []
    else
      var n := |lines| - 1;
      var v := Verdict(c, lines[..n], lines[n]);
      Breaks(c, lines[..n]) + if v.Some? then [ChainBreak(n + 1, v.value)] else []
  }

  function Count(p: string -> bool, lines: seq<string>): nat {
    if lines == [] then 0
    else Count(p, lines[..|lines| - 1]) + if p(lines[|lines| - 1]) then 1 else 0
  }

  function Seals(c: Codec, lines: seq<string>): nat {
    Count(line => Read(c, line).Sealed?, lines)
  }

  function ChainStarts(c: Codec, lines: seq<string>): nat {
    Count(line => Read(c, line).Sealed? && Read(c, line).prev.None?, lines)
  }

  /** Lines written before the chain existed: digest-free with no digest before them. */
  function Legacy(c: Codec, lines: seq<string>): nat {
    if lines == [] then 0
    else
      var n := |lines| - 1;
      Legacy(c, lines[..n]) + if Read(c, lines[n]).Bare? && !ChainBegun(c, lines[..n]) then 1 else 0
  }

  function NonLinkBreaks(breaks: seq<ChainBreak>): nat {
    if breaks == [] then 0
    else NonLinkBreaks(breaks[..|breaks| - 1]) + if breaks[|breaks| - 1].kind.BrokenLink? then 0 else 1
  }

  // ---------------------------------------------------------------- the checker

  /** How everything the checker tracks grows by one line. */
  lemma OneMoreLine(c: Codec, lines: seq<string>, index: nat)
    requires index < |lines|
    ensures var before, after, line := lines[..index], lines[..index + 1], lines[index];
            var r, v := Read(c, line), Verdict(c, before, line);
            && Breaks(c, after) == Breaks(c, before) + (if v.Some? then [ChainBreak(index + 1, v.value)] else [])
            && Seals(c, after) == Seals(c, before) + (if r.Sealed? then 1 else 0)
            && ChainStarts(c, after) == ChainStarts(c, before) + (if r.Sealed? && r.prev.None? then 1 else 0)
            && Legacy(c, after) == Legacy(c, before) + (if r.Bare? && !ChainBegun(c, before) then 1 else 0)
            && LastSeal(c, after) == (if r.Sealed? then Some(r.sha) else LastSeal(c, before))
            && ChainBegun(c, after) == (ChainBegun(c, before) || ClaimsDigest(c, line))
  {
    var before, after := lines[..index], lines[..index + 1];
    assert after[..index] == before && after[index] == lines[index];
    forall i | 0 <= i < index
      ensures before[i] == after[i]
    {
    }
  }

  lemma OneMoreBreak(breaks: seq<ChainBreak>, b: ChainBreak)
    ensures NonLinkBreaks(breaks + [b]) == NonLinkBreaks(breaks) + if b.kind.BrokenLink? then 0 else 1
  {
    assert (breaks + [b])[..|breaks|] == breaks;
  }

  /** The checker walks the log once, carrying the last good digest and whether a digest was seen. */
  method VerifyChain(c: Codec, lines: seq<string>) returns (report: ChainReport)
    ensures report.breaks == Breaks(c, lines)
    ensures report.chained == Seals(c, lines)
    ensures report.legacy == Legacy(c, lines)
    ensures report.chainStarts == ChainStarts(c, lines)
    ensures report.entries == |lines|
    ensures report.entries == report.chained + report.legacy + NonLinkBreaks(report.breaks)
  {
    var breaks: seq<ChainBreak> := [];
    var chained, legacy, starts := 0, 0, 0;
    var prev: Option<string> := None;
    var chainedSeen := false;
    for index := 0 to |lines|
      invariant breaks == Breaks(c, lines[..index])
      invariant chained == Seals(c, lines[..index])
      invariant legacy == Legacy(c, lines[..index])
      invariant starts == ChainStarts(c, lines[..index])
      invariant prev == LastSeal(c, lines[..index])
      invariant chainedSeen == ChainBegun(c, lines[..index])
      invariant index == chained + legacy + NonLinkBreaks(breaks)
    {
      var line := lines[index];
      OneMoreLine(c, lines, index);
      ghost var verdict := Verdict(c, lines[..index], line);
      if verdict.Some? {
        OneMoreBreak(breaks, ChainBreak(index + 1, verdict.value));
      }
      var parsed := c.parse(line);
      if parsed.None? {
        breaks := breaks + [ChainBreak(index + 1, Unparseable)];
        continue;
      }
      var value := parsed.value;
      var recorded := StringField(value, "sha");
      if recorded.None? {
        if chainedSeen {
          breaks := breaks + [ChainBreak(index + 1, UnchainedAfterChained)];
        } else {
          legacy := legacy + 1;
        }
        continue;
      }
      chainedSeen := true;
      var entryPrev := StringField(value, "prev");
      if c.ChainDigest(entryPrev, Strip(value)) != recorded.value {
        breaks := breaks + [ChainBreak(index + 1, DigestMismatch)];
        continue;
      }
      match entryPrev {
        case None => starts := starts + 1;
        case Some(linked) =>
          if prev != Some(linked) {
            breaks := breaks + [ChainBreak(index + 1, BrokenLink)];
          }
      }
      prev := recorded;
      chained := chained + 1;
    }
    assert lines[..|lines|] == lines;
    report := ChainReport(|lines|, chained, legacy, starts, breaks);
  }
}
