/**
 * The writer's side of the audit log: a size-capped file, a logger that chains
 * each entry to the last digest it knows, and whole runs of both.
 */
module AuditLog {
  import opened Prelude
  import opened AuditChain
  import opened AuditTamper

  const DEFAULT_MAX_SIZE_BYTES: nat := 1_048_576

  /** Which file-system calls succeed during one write. A failed write leaves nothing behind. */
  datatype Io = Io(statOk: bool, truncateOk: bool, writeOk: bool)

  datatype AuditWrite = Written | Restarted(digest: string) | Failed(restarted: bool)

  /** The caller's part of an event; the logger adds `seq`, `prev` and `sha`. */
  type EventFields = m: map<string, Json> | m.Keys !! {"seq", "prev", "sha"}

  function FileSize(lines: seq<string>): nat {
    if lines == [] then 0
    else FileSize(lines[..|lines| - 1]) + Utf8Size(lines[|lines| - 1]) + 1
  }

  function JsonOfDigest(prev: Option<string>): Json {
    if prev.Some? then Str(prev.value) else Null
  }

  /** An entry sealed with its own digest, rendered as a line. */
  function SealedLine(c: Codec, prev: Option<string>, entry: map<string, Json>): (line: string) {
    c.render(Object(entry["sha" := Str(c.ChainDigest(prev, Object(entry)))]))
  }

  /** Re-anchor a chained line as the first entry of a new chain; lines without a digest have no such form. */
  function RestartChainedLine(c: Codec, line: string): Option<(string, string)> {
    match c.parse(line)
    case None => None
    case Some(v) =>
      if v.Object? && "sha" in v.fields then
        var entry := (v.fields - {"sha"})["prev" := Null];
        Some((SealedLine(c, None, entry), c.ChainDigest(None, Object(entry))))
      else None
  }

  /** The last non-empty line's recorded digest, which a new process resumes from. */
  function LastLineSha(c: Codec, lines: seq<string>): Option<string> {
    if lines == [] then None
    else
      var last := lines[|lines| - 1];
      if last == "" then LastLineSha(c, lines[..|lines| - 1]) else RecordedDigest(c, last)
  }

  // ---------------------------------------------------------------- steps as functions

  predicate MustTruncate(cap: nat, lines: seq<string>, line: string) {
    0 < FileSize(lines) && cap < FileSize(lines) + Utf8Size(line) + 1
  }

  function WriteStep(c: Codec, cap: nat, lines: seq<string>, line: string, io: Io): (seq<string>, AuditWrite) {
    var restarted := io.statOk && MustTruncate(cap, lines, line) && io.truncateOk;
    var kept := if restarted then [] else lines;
    var reset := if restarted then RestartChainedLine(c, line) else None;
    if !io.writeOk then (kept, Failed(restarted))
    else if reset.Some? then (kept + [reset.value.0], Restarted(reset.value.1))
    else (kept + [line], Written)
  }

  datatype LogState = LogState(lines: seq<string>, lastHash: Option<string>, seqNo: nat)

  function Entry(fields: EventFields, seqNo: nat, prev: Option<string>, number: nat -> Json): map<string, Json> {
    fields["seq" := number(seqNo)]["prev" := JsonOfDigest(prev)]
  }

  function RecordStep(c: Codec, number: nat -> Json, cap: nat, s: LogState, fields: EventFields, io: Io): LogState {
    var entry := Entry(fields, s.seqNo, s.lastHash, number);
    var digest := c.ChainDigest(s.lastHash, Object(entry));
    var (lines, written) := WriteStep(c, cap, s.lines, SealedLine(c, s.lastHash, entry), io);
    var lastHash := match written {
      case Written => Some(digest)
      case Restarted(actual) => Some(actual)
      case Failed(restarted) => if restarted then None else s.lastHash
    };
    LogState(lines, lastHash, s.seqNo + 1)
  }

  datatype Op = Record(fields: EventFields, io: Io) | Reopen

  function Step(c: Codec, number: nat -> Json, cap: nat, s: LogState, op: Op): LogState {
    match op
    case Record(fields, io) => RecordStep(c, number, cap, s, fields, io)
    case Reopen => LogState(s.lines, LastLineSha(c, s.lines), 0)
  }

  function Run(c: Codec, number: nat -> Json, cap: nat, s: LogState, ops: seq<Op>): LogState {
    if ops == [] then s
    else Step(c, number, cap, Run(c, number, cap, s, ops[..|ops| - 1]), ops[|ops| - 1])
  }

  // ---------------------------------------------------------------- the file and the logger

  class JsonlSink {
    const codec: Codec
    const maxSizeBytes: nat
    var lines: seq<string>

    /** A cap of zero would truncate on every write, so it falls back to the default. */
    constructor (codec: Codec, maxSizeBytes: nat, existing: seq<string>)
      ensures this.codec == codec && lines == existing
      ensures this.maxSizeBytes == if maxSizeBytes == 0 then DEFAULT_MAX_SIZE_BYTES else maxSizeBytes
    {
      this.codec := codec;
      this.maxSizeBytes := if maxSizeBytes == 0 then DEFAULT_MAX_SIZE_BYTES else maxSizeBytes;
      lines := existing;
    }

    method WriteLine(line: string, io: Io) returns (written: AuditWrite)
      modifies this
      ensures (lines, written) == WriteStep(codec, maxSizeBytes, old(lines), line, io)
    {
      var projected := Utf8Size(line) + 1;
      var restarted := false;
      if io.statOk {
        var size := FileSize(lines);
        if size > 0 && size + projected > maxSizeBytes {
          if io.truncateOk {
            lines := [];
            restarted := true;
          }
        }
      }
      var reset: Option<(string, string)> := None;
      if restarted {
        reset := RestartChainedLine(codec, line);
      }
      var emitted := if reset.Some? then reset.value.0 else line;
      if !io.writeOk {
        return Failed(restarted);
      }
      lines := lines + [emitted];
      written := if reset.Some? then Restarted(reset.value.1) else Written;
    }
  }

  class AuditLogger {
    const sink: JsonlSink
    const number: nat -> Json
    var seqNo: nat
    var lastHash: Option<string>

    ghost function State(): LogState
      reads this, sink
    {
      LogState(sink.lines, lastHash, seqNo)
    }

    /** Opening a log resumes the chain its last line ends. */
    constructor (sink: JsonlSink, number: nat -> Json)
      ensures this.sink == sink && this.number == number
      ensures State() == LogState(sink.lines, LastLineSha(sink.codec, sink.lines), 0)
    {
      this.sink, this.number := sink, number;
      seqNo := 0;
      lastHash := LastLineSha(sink.codec, sink.lines);
    }

    method RecordEvent(fields: EventFields, io: Io)
      modifies this, sink
      ensures State() == RecordStep(sink.codec, number, sink.maxSizeBytes, old(State()), fields, io)
    {
      var prev := lastHash;
      var entry := Entry(fields, seqNo, prev, number);
      seqNo := seqNo + 1;
      var digest := sink.codec.ChainDigest(prev, Object(entry));
      var line := sink.codec.render(Object(entry["sha" := Str(digest)]));
      var written := sink.WriteLine(line, io);
      match written {
        case Written => lastHash := Some(digest);
        case Restarted(actual) => lastHash := Some(actual);
        case Failed(restarted) =>
          if restarted {
            lastHash := None;
          }
      }
    }
  }

  // ---------------------------------------------------------------- runs

  /** The file has the chain shape and the logger knows the digest its next entry must name. */
  ghost predicate InStep(c: Codec, s: LogState) {
    exists k: nat :: k <= |s.lines| && Chain(c, s.lines, k) && s.lastHash == Tip(c, s.lines, k)
  }

  lemma SealedLineReads(c: Codec, prev: Option<string>, entry: map<string, Json>)
    requires c.Lawful() && "sha" !in entry && "prev" in entry && entry["prev"] == JsonOfDigest(prev)
    ensures Read(c, SealedLine(c, prev, entry)) == Sealed(prev, c.ChainDigest(prev, Object(entry)))
    ensures c.parse(SealedLine(c, prev, entry)) ==
            Some(Object(entry["sha" := Str(c.ChainDigest(prev, Object(entry)))]))
  {
    var v := Object(entry["sha" := Str(c.ChainDigest(prev, Object(entry)))]);
    assert c.parse(c.render(v)) == Some(v);
    assert v.fields - {"sha"} == entry;
  }

  lemma ChainExtends(c: Codec, lines: seq<string>, k: nat, line: string)
    requires k <= |lines| && Chain(c, lines, k)
    requires Read(c, line).Sealed? && Read(c, line).prev == Tip(c, lines, k)
    ensures Chain(c, lines + [line], k) && Tip(c, lines + [line], k) == Some(Read(c, line).sha)
  {
    var more := lines + [line];
    forall i | k <= i < |more|
      ensures Linked(c, more, k, i)
    {
      if i < |lines| {
        assert Linked(c, lines, k, i);
        assert more[..i] == lines[..i];
      } else {
        assert more[..i] == lines;
      }
    }
  }

  lemma RecordKeepsInStep(c: Codec, number: nat -> Json, cap: nat, s: LogState, fields: EventFields, io: Io)
    requires c.Lawful() && InStep(c, s)
    ensures InStep(c, RecordStep(c, number, cap, s, fields, io))
  {
    var k: nat :| k <= |s.lines| && Chain(c, s.lines, k) && s.lastHash == Tip(c, s.lines, k);
    var entry := Entry(fields, s.seqNo, s.lastHash, number);
    var line := SealedLine(c, s.lastHash, entry);
    SealedLineReads(c, s.lastHash, entry);
    var s' := RecordStep(c, number, cap, s, fields, io);
    var restarted := io.statOk && MustTruncate(cap, s.lines, line) && io.truncateOk;
    if restarted {
      var genesis := (c.parse(line).value.fields - {"sha"})["prev" := Null];
      SealedLineReads(c, None, genesis);
      assert Chain(c, [], 0) && Tip(c, [], 0) == None;
      ChainExtends(c, [], 0, SealedLine(c, None, genesis));
      assert s'.lines == [] || s'.lines == [] + [SealedLine(c, None, genesis)];
      assert Chain(c, s'.lines, 0) && s'.lastHash == Tip(c, s'.lines, 0);
    } else {
      ChainExtends(c, s.lines, k, line);
      assert Chain(c, s'.lines, k) && s'.lastHash == Tip(c, s'.lines, k);
    }
  }

  lemma ReopenKeepsInStep(c: Codec, s: LogState)
    requires c.Lawful() && InStep(c, s)
    ensures LastLineSha(c, s.lines) == s.lastHash
  {
    var k: nat :| k <= |s.lines| && Chain(c, s.lines, k) && s.lastHash == Tip(c, s.lines, k);
    if k < |s.lines| {
      assert Linked(c, s.lines, k, |s.lines| - 1);
    }
  }

  lemma {:induction false} RunKeepsInStep(c: Codec, number: nat -> Json, cap: nat, s: LogState, ops: seq<Op>)
    requires c.Lawful() && InStep(c, s)
    ensures InStep(c, Run(c, number, cap, s, ops))
    decreases |ops|
  {
    if ops != [] {
      var rest, op := ops[..|ops| - 1], ops[|ops| - 1];
      RunKeepsInStep(c, number, cap, s, rest);
      var t := Run(c, number, cap, s, rest);
      match op {
        case Record(fields, io) => RecordKeepsInStep(c, number, cap, t, fields, io);
        case Reopen =>
          ReopenKeepsInStep(c, t);
          var k: nat :| k <= |t.lines| && Chain(c, t.lines, k) && t.lastHash == Tip(c, t.lines, k);
          var t' := Step(c, number, cap, t, op);
          assert Chain(c, t'.lines, k) && t'.lastHash == Tip(c, t'.lines, k);
      }
    }
  }

  /**
   * Producer meets checker. From an empty or digest-free log, after any mix
   * of records, cap restarts, failures before or after truncation and process
   * restarts: the checker finds no break, at most one start and exactly one
   * if anything is chained, and the logger holds the last chained digest.
   */
  lemma EveryRunVerifies(c: Codec, number: nat -> Json, cap: nat, legacy: seq<string>, ops: seq<Op>)
    requires c.Lawful() && forall i | 0 <= i < |legacy| :: Read(c, legacy[i]).Bare?
    ensures var s := Run(c, number, cap, LogState(legacy, None, 0), ops);
            && Breaks(c, s.lines) == []
            && ChainStarts(c, s.lines) == (if Seals(c, s.lines) > 0 then 1 else 0)
            && |s.lines| == Seals(c, s.lines) + Legacy(c, s.lines)
            && s.lastHash == LastSeal(c, s.lines)
  {
    assert Chain(c, legacy, |legacy|);
    assert InStep(c, LogState(legacy, None, 0));
    RunKeepsInStep(c, number, cap, LogState(legacy, None, 0), ops);
    var s := Run(c, number, cap, LogState(legacy, None, 0), ops);
    var k: nat :| k <= |s.lines| && Chain(c, s.lines, k) && s.lastHash == Tip(c, s.lines, k);
    ChainIsAccepted(c, s.lines, k);
    ChainTip(c, s.lines, k);
  }

  // ---------------------------------------------------------------- what the log says

  /** A line that carries an event: its fields, a sequence number, and nothing else besides `prev` and `sha`. */
  predicate Carries(c: Codec, line: string, fields: EventFields, seqNo: Json) {
    var v := c.parse(line);
    && v.Some? && v.value.Object? && v.value.fields - {"seq", "prev", "sha"} == fields
    && "seq" in v.value.fields && v.value.fields["seq"] == seqNo
  }

  lemma EntryCarries(
    c: Codec, prev: Option<string>, fields: EventFields, seqNo: nat, number: nat -> Json, entry: map<string, Json>)
    requires c.Lawful() && entry == fields["seq" := number(seqNo)]["prev" := JsonOfDigest(prev)]
    ensures Carries(c, SealedLine(c, prev, entry), fields, number(seqNo))
  {
    SealedLineReads(c, prev, entry);
    var v := c.parse(SealedLine(c, prev, entry)).value;
    assert v.fields - {"seq", "prev", "sha"} == fields;
  }

  /** Re-anchoring a line changes nothing of the event. */
  lemma RestartCarries(c: Codec, prev: Option<string>, fields: EventFields, seqNo: nat, number: nat -> Json)
    requires c.Lawful()
    ensures var line := SealedLine(c, prev, Entry(fields, seqNo, prev, number));
            var restarted := RestartChainedLine(c, line);
            restarted.Some? && Carries(c, restarted.value.0, fields, number(seqNo))
  {
    var entry := Entry(fields, seqNo, prev, number);
    SealedLineReads(c, prev, entry);
    var genesis := (c.parse(SealedLine(c, prev, entry)).value.fields - {"sha"})["prev" := Null];
    assert genesis == fields["seq" := number(seqNo)]["prev" := JsonOfDigest(None)];
    EntryCarries(c, None, fields, seqNo, number, genesis);
  }

  /**
   * Recording an event whose write succeeds puts exactly one line behind
   * those kept, plain write and cap restart alike, and that line carries the
   * event's fields, every one and no other, and the number the logger was at.
   * A failed write adds nothing. Either way the lines before are all kept or
   * all gone, and the next event gets the next number.
   */
  lemma RecordedContent(c: Codec, number: nat -> Json, cap: nat, s: LogState, fields: EventFields, io: Io)
    requires c.Lawful()
    ensures var t := RecordStep(c, number, cap, s, fields, io);
            var n := |t.lines| - 1;
            && t.seqNo == s.seqNo + 1
            && (io.writeOk ==> 0 <= n && t.lines[..n] in {s.lines, []} && Carries(c, t.lines[n], fields, number(s.seqNo)))
            && (!io.writeOk ==> t.lines in {s.lines, []})
  {
    var entry := Entry(fields, s.seqNo, s.lastHash, number);
    EntryCarries(c, s.lastHash, fields, s.seqNo, number, entry);
    RestartCarries(c, s.lastHash, fields, s.seqNo, number);
  }

  /**
   * Re-anchoring applies exactly to lines that are objects with a digest; the
   * result is a sealed first entry that differs in `prev` and `sha` only.
   */
  lemma RestartReanchors(c: Codec, line: string)
    requires c.Lawful()
    ensures var v, r := c.parse(line), RestartChainedLine(c, line);
            && (r.Some? <==> v.Some? && v.value.Object? && "sha" in v.value.fields)
            && (r.Some? ==>
                  && Read(c, r.value.0) == Sealed(None, r.value.1)
                  && c.parse(r.value.0).Some? && c.parse(r.value.0).value.Object?
                  && c.parse(r.value.0).value.fields - {"prev", "sha"} == v.value.fields - {"prev", "sha"})
  {
    if RestartChainedLine(c, line).Some? {
      var fields := c.parse(line).value.fields;
      var entry := (fields - {"sha"})["prev" := Null];
      SealedLineReads(c, None, entry);
      var after := c.parse(SealedLine(c, None, entry)).value.fields;
      assert after - {"prev", "sha"} == fields - {"prev", "sha"};
    }
  }

  /** A new process resumes from what the last line that is not blank records, whatever stands before it. */
  lemma {:induction false} ResumesFromLast(c: Codec, before: seq<string>, last: string, blanks: seq<string>)
    requires last != "" && forall i | 0 <= i < |blanks| :: blanks[i] == ""
    ensures LastLineSha(c, before + [last] + blanks) == RecordedDigest(c, last)
    decreases |blanks|
  {
    var lines := before + [last] + blanks;
    if blanks == [] {
      assert lines == before + [last];
    } else {
      var n := |blanks| - 1;
      assert lines[|lines| - 1] == blanks[n] && lines[..|lines| - 1] == before + [last] + blanks[..n];
      ResumesFromLast(c, before, last, blanks[..n]);
    }
  }

  /** The number the `i`-th operation records under: how many records came before it since the last opening. */
  function SeqAt(ops: seq<Op>, i: nat): nat
    requires i <= |ops|
  {
    if i == 0 || ops[i - 1].Reopen? then 0 else SeqAt(ops, i - 1) + 1
  }

  lemma {:induction false} SeqAtPrefix(ops: seq<Op>, n: nat, i: nat)
    requires i <= n <= |ops|
    ensures SeqAt(ops[..n], i) == SeqAt(ops, i)
    decreases i
  {
    if i > 0 && ops[i - 1].Record? {
      SeqAtPrefix(ops, n, i - 1);
    }
  }

  /** `line` is what operation `i` recorded. */
  predicate RecordedBy(c: Codec, number: nat -> Json, ops: seq<Op>, i: nat, line: string) {
    i < |ops| && Succeeds(ops[i]) && Carries(c, line, ops[i].fields, number(SeqAt(ops, i)))
  }

  predicate Succeeds(op: Op) {
    op.Record? && op.io.writeOk
  }

  /**
   * `lines` is `base` followed by what the operations `idx` recorded, in their
   * order; a successful record that is missing is older than all of them.
   */
  predicate Journal(
    c: Codec, number: nat -> Json, ops: seq<Op>, lines: seq<string>, base: seq<string>, idx: seq<nat>)
  {
    && |lines| == |base| + |idx| && base <= lines
    && (forall m | 0 <= m < |idx| :: RecordedBy(c, number, ops, idx[m], lines[|base| + m]))
    && (forall m, k | 0 <= m < k < |idx| :: idx[m] < idx[k])
    && (forall i | 0 <= i < |ops| && Succeeds(ops[i]) && i !in idx :: forall m | 0 <= m < |idx| :: i < idx[m])
  }

  lemma OlderStay(c: Codec, number: nat -> Json, ops: seq<Op>, lines: seq<string>, base: seq<string>, idx: seq<nat>)
    requires ops != [] && Journal(c, number, ops[..|ops| - 1], lines, base, idx)
    ensures forall m | 0 <= m < |idx| :: RecordedBy(c, number, ops, idx[m], lines[|base| + m]) && idx[m] < |ops| - 1
  {
    forall m | 0 <= m < |idx|
      ensures RecordedBy(c, number, ops, idx[m], lines[|base| + m]) && idx[m] < |ops| - 1
    {
      assert RecordedBy(c, number, ops[..|ops| - 1], idx[m], lines[|base| + m]);
      SeqAtPrefix(ops, |ops| - 1, idx[m]);
    }
  }

  lemma JournalKept(c: Codec, number: nat -> Json, ops: seq<Op>, lines: seq<string>, base: seq<string>, idx: seq<nat>)
    requires ops != [] && Journal(c, number, ops[..|ops| - 1], lines, base, idx) && !Succeeds(ops[|ops| - 1])
    ensures Journal(c, number, ops, lines, base, idx)
  {
    OlderStay(c, number, ops, lines, base, idx);
    forall i | 0 <= i < |ops| && Succeeds(ops[i]) && i !in idx
      ensures forall m | 0 <= m < |idx| :: i < idx[m]
    {
      assert Succeeds(ops[..|ops| - 1][i]);
    }
  }

  lemma JournalGrows(
    c: Codec, number: nat -> Json, ops: seq<Op>, lines: seq<string>, line: string, base: seq<string>, idx: seq<nat>)
    requires ops != [] && Journal(c, number, ops[..|ops| - 1], lines, base, idx)
    requires RecordedBy(c, number, ops, |ops| - 1, line)
    ensures Journal(c, number, ops, lines + [line], base, idx + [|ops| - 1])
  {
    OlderStay(c, number, ops, lines, base, idx);
    var n, idx' := |ops| - 1, idx + [|ops| - 1];
    forall i | 0 <= i < |ops| && Succeeds(ops[i]) && i !in idx'
      ensures forall m | 0 <= m < |idx'| :: i < idx'[m]
    {
      assert idx'[|idx|] == n && i < n;
      assert i in idx ==> i in idx';
      assert Succeeds(ops[..n][i]);
    }
  }

  lemma {:induction false} RunNumbers(c: Codec, number: nat -> Json, cap: nat, s: LogState, ops: seq<Op>)
    requires c.Lawful() && s.seqNo == 0
    ensures Run(c, number, cap, s, ops).seqNo == SeqAt(ops, |ops|)
    decreases |ops|
  {
    if ops != [] {
      var n := |ops| - 1;
      RunNumbers(c, number, cap, s, ops[..n]);
      SeqAtPrefix(ops, n, n);
    }
  }

  /**
   * What the file holds after any run of records and reopenings: the lines it
   * started with or, once truncated, none of them, and then one line each for
   * the latest successful records, without a gap and in their order, carrying
   * that record's own event and its number since the last opening.
   */
  lemma {:induction false} RunJournal(c: Codec, number: nat -> Json, cap: nat, s: LogState, ops: seq<Op>)
    returns (base: seq<string>, idx: seq<nat>)
    requires c.Lawful() && s.seqNo == 0
    ensures base == s.lines || base == []
    ensures Journal(c, number, ops, Run(c, number, cap, s, ops).lines, base, idx)
    ensures ops != [] && Succeeds(ops[|ops| - 1]) ==> idx != [] && idx[|idx| - 1] == |ops| - 1
    decreases |ops|
  {
    base, idx := s.lines, [];
    if ops != [] {
      var n := |ops| - 1;
      var t, op := Run(c, number, cap, s, ops[..n]), ops[n];
      base, idx := RunJournal(c, number, cap, s, ops[..n]);
      if op.Reopen? {
        JournalKept(c, number, ops, t.lines, base, idx);
      } else {
        RunNumbers(c, number, cap, s, ops[..n]);
        SeqAtPrefix(ops, n, n);
        base, idx := RecordJournal(c, number, cap, t, ops, base, idx);
      }
    }
  }

  lemma RecordJournal(
    c: Codec, number: nat -> Json, cap: nat, t: LogState, ops: seq<Op>, base: seq<string>, idx: seq<nat>)
    returns (base': seq<string>, idx': seq<nat>)
    requires c.Lawful() && ops != [] && ops[|ops| - 1].Record? && t.seqNo == SeqAt(ops, |ops| - 1)
    requires Journal(c, number, ops[..|ops| - 1], t.lines, base, idx)
    ensures base' == base || base' == []
    ensures Journal(c, number, ops, Step(c, number, cap, t, ops[|ops| - 1]).lines, base', idx')
    ensures Succeeds(ops[|ops| - 1]) ==> idx' != [] && idx'[|idx'| - 1] == |ops| - 1
  {
    var n, op := |ops| - 1, ops[|ops| - 1];
    var after := Step(c, number, cap, t, op).lines;
    RecordedContent(c, number, cap, t, op.fields, op.io);
    var kept := if op.io.writeOk then after[..|after| - 1] else after;
    base', idx' := if kept == t.lines then base else [], if kept == t.lines then idx else [];
    assert Journal(c, number, ops[..n], kept, base', idx');
    if op.io.writeOk {
      JournalGrows(c, number, ops, kept, after[|after| - 1], base', idx');
      assert after == kept + [after[|after| - 1]];
      idx' := idx' + [n];
    } else {
      JournalKept(c, number, ops, kept, base', idx');
    }
  }

  // ---------------------------------------------------------------- the size cap

  /** The file's bytes: every line and its newline. */
  function FileBytes(lines: seq<string>): seq<Byte> {
    if lines == [] then [] else FileBytes(lines[..|lines| - 1]) + Utf8(lines[|lines| - 1]) + [0x0A]
  }

  lemma {:induction false} FileSizeIsBytes(lines: seq<string>)
    ensures FileSize(lines) == |FileBytes(lines)|
    decreases |lines|
  {
    if lines != [] {
      FileSizeIsBytes(lines[..|lines| - 1]);
    }
  }

  /**
   * A successful write keeps every earlier line and adds the new one as it is,
   * unless the file had content, would outgrow the cap, and `stat` and
   * truncation work; then the file is one line.
   */
  lemma WriteKeepsUnlessOver(c: Codec, cap: nat, lines: seq<string>, line: string, io: Io)
    requires io.writeOk
    ensures var over := lines != [] && cap < |FileBytes(lines + [line])| && io.statOk && io.truncateOk;
            var t := WriteStep(c, cap, lines, line, io).0;
            if over then |t| == 1 else t == lines + [line]
  {
    FileSizeIsBytes(lines);
    FileSizeIsBytes(lines + [line]);
    assert (lines + [line])[..|lines|] == lines;
    assert lines != [] ==> 0 < FileSize(lines);
  }

  /** Within the cap, or down to the one line the cap never splits. */
  predicate Bounded(cap: nat, lines: seq<string>) {
    FileSize(lines) <= cap || |lines| == 1
  }

  /** One successful write with a working file system bounds the file, whatever was there before. */
  lemma WriteBounds(c: Codec, cap: nat, lines: seq<string>, line: string, io: Io)
    requires io.statOk && io.truncateOk && io.writeOk
    ensures Bounded(cap, WriteStep(c, cap, lines, line, io).0)
  {
    if lines != [] {
      assert 0 < FileSize(lines);
      if !MustTruncate(cap, lines, line) {
        assert (lines + [line])[..|lines|] == lines;
      }
    }
  }

  /** With a working `stat` and truncation, a bounded log stays bounded through any run. */
  lemma {:induction false} RunStaysBounded(c: Codec, number: nat -> Json, cap: nat, s: LogState, ops: seq<Op>)
    requires Bounded(cap, s.lines)
    requires forall i | 0 <= i < |ops| :: ops[i].Record? ==> ops[i].io.statOk && ops[i].io.truncateOk
    ensures Bounded(cap, Run(c, number, cap, s, ops).lines)
    decreases |ops|
  {
    if ops != [] {
      var rest, op := ops[..|ops| - 1], ops[|ops| - 1];
      RunStaysBounded(c, number, cap, s, rest);
      var t := Run(c, number, cap, s, rest);
      if op.Record? && op.io.writeOk {
        var entry := Entry(op.fields, t.seqNo, t.lastHash, number);
        WriteBounds(c, cap, t.lines, SealedLine(c, t.lastHash, entry), op.io);
      }
    }
  }
}
