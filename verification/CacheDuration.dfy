/** Cache durations: `1h30m` and the like, summed in checked 64-bit arithmetic. */
module CacheDuration {
  import opened Prelude

  predicate IsDigit(c: char) {
    '0' <= c <= '9'
  }

  predicate IsUnit(c: char) {
    c == 's' || c == 'm' || c == 'h' || c == 'd' || c == 'w'
  }

  /** An amount of a unit in seconds. */
  function Seconds(amount: nat, unit: char): nat
    requires IsUnit(unit)
  {
    match unit
    case 's' => amount
    case 'm' => 60 * amount
    case 'h' => 60 * 60 * amount
    case 'd' => 24 * 60 * 60 * amount
    case _ => 7 * 24 * 60 * 60 * amount
  }

  // ---------------------------------------------------------------- the grammar

  datatype Term = Term(digits: string, unit: char)

  predicate WellFormed(t: Term) {
    t.digits != "" && (forall i | 0 <= i < |t.digits| :: IsDigit(t.digits[i])) && IsUnit(t.unit)
  }

  predicate AllWellFormed(ts: seq<Term>) {
    forall i | 0 <= i < |ts| :: WellFormed(ts[i])
  }

  function Text(ts: seq<Term>): string {
    if ts == [] then "" else ts[0].digits + [ts[0].unit] + Text(ts[1..])
  }

  function DigitValue(c: char): nat
    requires IsDigit(c)
  {
    (c - '0') as int
  }

  /** The value of a digit string, over unbounded integers. */
  function Decimal(s: string): nat
    requires forall i | 0 <= i < |s| :: IsDigit(s[i])
  {
    if s == "" then 0 else 10 * Decimal(s[..|s| - 1]) + DigitValue(s[|s| - 1])
  }

  function TermSeconds(t: Term): nat
    requires WellFormed(t)
  {
    Seconds(Decimal(t.digits), t.unit)
  }

  function Total(ts: seq<Term>): nat
    requires AllWellFormed(ts)
  {
    if ts == [] then 0 else Total(ts[..|ts| - 1]) + TermSeconds(ts[|ts| - 1])
  }

  /** A text denotes the unbounded sum of its terms, if it is a non-empty sequence of them. */
  ghost predicate Denotes(s: string, n: nat) {
    exists ts :: ts != [] && AllWellFormed(ts) && Text(ts) == s && Total(ts) == n
  }

  // ---------------------------------------------------------------- scanning

  function DigitRun(s: string): (n: nat)
    ensures n <= |s| && (forall i | 0 <= i < n :: IsDigit(s[i])) && (n < |s| ==> !IsDigit(s[n]))
  {
    if s == "" || !IsDigit(s[0]) then 0 else 1 + DigitRun(s[1..])
  }

  function Scan(s: string): (r: Option<seq<Term>>)
    ensures r.Some? ==> AllWellFormed(r.value)
    decreases |s|
  {
    if s == "" then Some([])
    else
      var n := DigitRun(s);
      if n == 0 || n == |s| || !IsUnit(s[n]) then None
      else
        var rest := Scan(s[n + 1..]);
        if rest.None? then None else Some([Term(s[..n], s[n])] + rest.value)
  }

  lemma SpellsOneMore(s: string, n: nat, rest: seq<Term>)
    requires n < |s| && Text(rest) == s[n + 1..]
    ensures Text([Term(s[..n], s[n])] + rest) == s
  {
    var ts := [Term(s[..n], s[n])] + rest;
    assert ts[1..] == rest;
    assert s == s[..n] + [s[n]] + s[n + 1..];
  }

  lemma {:induction false} ScanSpells(s: string)
    requires Scan(s).Some?
    ensures Text(Scan(s).value) == s
    decreases |s|
  {
    if s != "" {
      var n := DigitRun(s);
      var rest := Scan(s[n + 1..]).value;
      ScanSpells(s[n + 1..]);
      SpellsOneMore(s, n, rest);
    }
  }

  lemma {:induction false} RunStops(digits: string, rest: string)
    requires (forall i | 0 <= i < |digits| :: IsDigit(digits[i])) && (rest != "" ==> !IsDigit(rest[0]))
    ensures DigitRun(digits + rest) == |digits|
  {
    var s := digits + rest;
    if digits == "" {
      assert s == rest;
    } else {
      assert s[1..] == digits[1..] + rest;
      RunStops(digits[1..], rest);
    }
  }

  /** The scan reads back any sequence of terms, so a text has at most one reading. */
  lemma {:induction false} ScanReads(ts: seq<Term>)
    requires AllWellFormed(ts)
    ensures Scan(Text(ts)) == Some(ts)
  {
    if ts != [] {
      var t, rest := ts[0], Text(ts[1..]);
      var s := Text(ts);
      assert s == t.digits + ([t.unit] + rest);
      RunStops(t.digits, [t.unit] + rest);
      var n := |t.digits|;
      assert s[..n] == t.digits && s[n] == t.unit && s[n + 1..] == rest;
      ScanReads(ts[1..]);
      assert ts == [t] + ts[1..];
    }
  }

  lemma {:induction false} TotalConcat(a: seq<Term>, b: seq<Term>)
    requires AllWellFormed(a) && AllWellFormed(b)
    ensures AllWellFormed(a + b) && Total(a + b) == Total(a) + Total(b)
    decreases |b|
  {
    if b == [] {
      assert a + b == a;
    } else {
      TotalConcat(a, b[..|b| - 1]);
      assert (a + b)[..|a + b| - 1] == a + b[..|b| - 1];
    }
  }

  lemma TotalSnoc(ts: seq<Term>, t: Term)
    requires AllWellFormed(ts) && WellFormed(t)
    ensures AllWellFormed(ts + [t]) && Total(ts + [t]) == Total(ts) + TermSeconds(t)
  {
    assert (ts + [t])[..|ts|] == ts;
  }

  // ---------------------------------------------------------------- what amounts and units are worth

  /** A number written in decimal. */
  function Digits(n: nat): (s: string)
    ensures s != "" && forall i | 0 <= i < |s| :: IsDigit(s[i])
  {
    (if n < 10 then "" else Digits(n / 10)) + ["0123456789"[n % 10]]
  }

  lemma {:induction false} DecimalReads(n: nat)
    ensures Decimal(Digits(n)) == n
  {
    var s := Digits(n);
    var before := s[..|s| - 1];
    assert DigitValue("0123456789"[n % 10]) == n % 10;
    if n < 10 {
      assert before == "";
    } else {
      DecimalReads(n / 10);
      assert before == Digits(n / 10);
    }
  }

  /** The total of a text that scans. */
  function Worth(s: string): Option<nat> {
    if Scan(s).Some? then Some(Total(Scan(s).value)) else None
  }

  /** An amount and a unit, written out. */
  function Spell(n: nat, unit: char): string {
    Digits(n) + [unit]
  }

  lemma OneTerm(t: Term, s: string)
    requires WellFormed(t) && s == t.digits + [t.unit]
    ensures Worth(s) == Some(TermSeconds(t))
  {
    assert [t][1..] == [];
    assert Text([t]) == s + "" == s;
    ScanReads([t]);
    assert [] + [t] == [t];
    TotalSnoc([], t);
  }

  lemma TermWorth(n: nat, unit: char)
    requires IsUnit(unit)
    ensures Worth(Spell(n, unit)) == Some(Seconds(n, unit))
  {
    DecimalReads(n);
    OneTerm(Term(Digits(n), unit), Spell(n, unit));
  }

  /** What each unit is worth: minutes of 60 seconds, hours of 60 minutes, days of 24 hours, weeks of 7 days. */
  lemma UnitsWorth(n: nat)
    ensures Worth(Spell(n, 's')) == Some(n)
    ensures Worth(Spell(n, 'm')) == Some(60 * n)
    ensures Worth(Spell(n, 'h')) == Some(60 * 60 * n)
    ensures Worth(Spell(n, 'd')) == Some(24 * 60 * 60 * n)
    ensures Worth(Spell(n, 'w')) == Some(7 * 24 * 60 * 60 * n)
  {
    TermWorth(n, 's');
    TermWorth(n, 'm');
    TermWorth(n, 'h');
    TermWorth(n, 'd');
    TermWorth(n, 'w');
  }

  /** Only those five letters are units, and only the ten digits are digits. */
  lemma LettersExactly(c: char)
    ensures IsUnit(c) <==> c in "smhdw"
    ensures IsDigit(c) <==> c in "0123456789"
  {
    assert IsDigit(c) ==> "0123456789"[c as int - '0' as int] == c;
  }

  // ---------------------------------------------------------------- the parser

  datatype DurationError = Empty | Malformed | TooLarge | Zero

  /**
   * Terms read from the left and added to `total`, up to the first problem: no
   * digits, an amount beyond 64 bits, no known unit, a sum beyond 64 bits.
   */
  function SumFrom(s: string, total: nat): Result<nat, DurationError>
    decreases |s|
  {
    if s == "" then Ok(total)
    else
      var n := DigitRun(s);
      if n == 0 then Err(Malformed)
      else if U64_LIMIT <= Decimal(s[..n]) then Err(TooLarge)
      else if n == |s| || !IsUnit(s[n]) then Err(Malformed)
      else
        var sum := total + Seconds(Decimal(s[..n]), s[n]);
        if U64_LIMIT <= sum then Err(TooLarge) else SumFrom(s[n + 1..], sum)
  }

  lemma AmountFitsTerm(t: Term)
    requires WellFormed(t)
    ensures Decimal(t.digits) <= TermSeconds(t)
  {
  }

  lemma TotalCons(t: Term, rest: seq<Term>)
    requires WellFormed(t) && AllWellFormed(rest)
    ensures AllWellFormed([t] + rest) && Total([t] + rest) == TermSeconds(t) + Total(rest)
  {
    TotalConcat([t], rest);
    assert [] + [t] == [t];
    TotalSnoc([], t);
  }

  /** One term at the front, for the scan and for the sum. */
  lemma FirstTerm(s: string, n: nat, t: Term, tail: string, total: nat)
    requires n == DigitRun(s) && 0 < n < |s| && IsUnit(s[n]) && t == Term(s[..n], s[n]) && tail == s[n + 1..]
    ensures WellFormed(t)
    ensures Scan(s) == if Scan(tail).None? then None else Some([t] + Scan(tail).value)
    ensures SumFrom(s, total) ==
            if U64_LIMIT <= total + TermSeconds(t) then Err(TooLarge) else SumFrom(tail, total + TermSeconds(t))
  {
    AmountFitsTerm(t);
  }

  /** A checked sum behind `total` against the terms scanned: success exactly when the unbounded total fits. */
  predicate Agrees(sum: Result<nat, DurationError>, terms: Option<seq<Term>>, total: nat)
    requires terms.Some? ==> AllWellFormed(terms.value)
  {
    && (sum.Ok? <==> terms.Some? && total + Total(terms.value) < U64_LIMIT)
    && (sum.Ok? ==> sum.value == total + Total(terms.value))
    && (sum.Err? ==> sum.error.Malformed? || sum.error.TooLarge?)
  }

  lemma AgreesBehind(t: Term, sum: Result<nat, DurationError>, rest: seq<Term>, total: nat)
    requires WellFormed(t) && AllWellFormed(rest)
    requires if U64_LIMIT <= total + TermSeconds(t) then sum == Err(TooLarge)
             else Agrees(sum, Some(rest), total + TermSeconds(t))
    ensures AllWellFormed([t] + rest) && Agrees(sum, Some([t] + rest), total)
  {
    TotalCons(t, rest);
  }

  lemma {:induction false} SumFromMeans(s: string, total: nat)
    requires total < U64_LIMIT
    ensures Agrees(SumFrom(s, total), Scan(s), total)
    decreases |s|
  {
    var n := DigitRun(s);
    if 0 < n < |s| && IsUnit(s[n]) {
      var t, tail := Term(s[..n], s[n]), s[n + 1..];
      FirstTerm(s, n, t, tail, total);
      if total + TermSeconds(t) < U64_LIMIT {
        SumFromMeans(tail, total + TermSeconds(t));
      }
      if Scan(tail).Some? {
        AgreesBehind(t, SumFrom(s, total), Scan(tail).value, total);
      }
    }
  }

  /** Read digits and a unit and add them up; an amount that does not fit is reported before a missing unit. */
  method TakeTerm(value: string, index: nat, total: U64) returns (error: Option<DurationError>, next: nat, sum: U64)
    requires index < |value|
    ensures error.None? ==> index < next <= |value|
    ensures SumFrom(value[index..], total) == if error.Some? then Err(error.value) else SumFrom(value[next..], sum)
  {
    var left := value[index..];
    var n := DigitRun(left);
    error, next, sum := None, index + n + 1, total;
    if n == 0 {
      return Some(Malformed), next, sum;
    }
    var amount := Decimal(left[..n]);
    if U64_LIMIT <= amount {
      return Some(TooLarge), next, sum;
    }
    if n == |left| || !IsUnit(left[n]) {
      return Some(Malformed), next, sum;
    }
    var seconds := Seconds(amount, left[n]);
    assert left[n + 1..] == value[next..];
    if U64_LIMIT <= seconds || U64_LIMIT <= total + seconds {
      return Some(TooLarge), next, sum;
    }
    sum := total + seconds;
  }

  /** Sums term by term and stops at the first problem. */
  method SumTerms(value: string) returns (result: Result<U64, DurationError>)
    ensures result == SumFrom(value, 0)
  {
    var index := 0;
    var total: U64 := 0;
    assert value[0..] == value;
    while index < |value|
      invariant 0 <= index <= |value| && SumFrom(value, 0) == SumFrom(value[index..], total)
    {
      var error;
      error, index, total := TakeTerm(value, index, total);
      if error.Some? {
        return Err(error.value);
      }
    }
    result := Ok(total);
  }

  method ParseCacheMaxAge(input: string) returns (result: Result<U64, DurationError>)
    ensures var terms := Scan(Trim(input));
            && (result.Ok? <==> terms.Some? && 1 <= Total(terms.value) < U64_LIMIT)
            && (result.Ok? ==> result.value == Total(terms.value))
            && (result == Err(Empty) <==> Trim(input) == "")
            && (result == Err(Zero) <==> Trim(input) != "" && terms.Some? && Total(terms.value) == 0)
            && (result.Err? && !result.error.Empty? && !result.error.Zero? ==> SumFrom(Trim(input), 0) == Err(result.error))
  {
    var value := Trim(input);
    if value == "" {
      return Err(Empty);
    }
    SumFromMeans(value, 0);
    result := SumTerms(value);
    if result == Ok(0) {
      return Err(Zero);
    }
  }

  /** No wrap-around is accepted and no representable total is refused. */
  lemma AcceptedExactly(input: string, n: nat)
    ensures (Scan(Trim(input)).Some? && Total(Scan(Trim(input)).value) == n && 1 <= n < U64_LIMIT) <==>
            (Denotes(Trim(input), n) && 1 <= n < U64_LIMIT)
  {
    var s := Trim(input);
    if Scan(s).Some? && Total(Scan(s).value) == n && 1 <= n {
      ScanSpells(s);
      assert Scan(s).value != [];
    }
    if Denotes(s, n) {
      var ts :| ts != [] && AllWellFormed(ts) && Text(ts) == s && Total(ts) == n;
      ScanReads(ts);
    }
  }
}
