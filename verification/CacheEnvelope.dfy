/**
 * Cache entries: what an entry stores, when a reader may use it, and whose it
 * is. The write time is not stored; readers reconstruct it from the expiry.
 */
module CacheEnvelope {
  import opened Prelude

  const V4_MARKER := "monosecret-cache-v4:"
  const V3_MARKER := "monosecret-cache-v3:"
  const V2_MARKER := "monosecret-cache-v2:"

  datatype Envelope = Envelope(
    project: string, profile: string, expiresAt: U64, maxAgeSecs: U64, route: string,
    secretExpiry: Option<U64>, revision: Option<string>, valueBase64: string)

  datatype V3Envelope = V3Envelope(
    project: string, profile: string, expiresAt: U64, maxAgeSecs: U64, route: string,
    secretExpiry: Option<U64>, value: string)

  datatype LegacyEnvelope = LegacyEnvelope(
    project: string, profile: string, cachedAt: U64, route: string, value: string)

  datatype Decoded = Current(current: Envelope) | V3(v3: V3Envelope) | Legacy(legacy: LegacyEnvelope)

  /** The text, JSON and Base64 libraries an entry passes through. */
  datatype Codec = Codec(
    toJson: Envelope -> string,
    readV4: string -> Option<Envelope>,
    readV3: string -> Option<V3Envelope>,
    readV2: string -> Option<LegacyEnvelope>,
    fromUtf8: seq<Byte> -> Option<string>,
    encode64: seq<Byte> -> string,
    decode64: string -> Option<seq<Byte>>)
  {
    ghost predicate Lawful() {
      && (forall e {:trigger toJson(e)} :: readV4(toJson(e)) == Some(e))
      && (forall s {:trigger Utf8(s)} :: fromUtf8(Utf8(s)) == Some(s))
      && (forall v {:trigger encode64(v)} :: decode64(encode64(v)) == Some(v))
    }
  }

  datatype Ownership = Ours | Expired | Foreign(project: string, profile: string) | OursUnreadable | Unrecognized

  datatype Status =
    | Fresh(value: seq<Byte>, refreshAtMs: Option<U64>, expiresAtMs: Option<U64>, revision: Option<string>)
    | Stale
    | Unreadable
    | ForeignEntry(project: string, profile: string)
    | NotAnEntry

  datatype ClockError = ClockError

  datatype EncodeError = ExpirationOverflow | SecretExpired

  datatype ProviderValue = ProviderValue(value: seq<Byte>, expiresAtMs: Option<U64>, revision: Option<string>)

  // ---------------------------------------------------------------- u64 arithmetic

  /** Seconds to milliseconds, refused on overflow. */
  function CheckedMillis(seconds: U64): Option<U64> {
    if 1000 * seconds < U64_LIMIT then Some(1000 * seconds) else None
  }

  function CheckedAdd(a: U64, b: U64): Option<U64> {
    if a + b < U64_LIMIT then Some(a + b) else None
  }

  function SaturatingMillis(seconds: U64): U64 {
    if 1000 * seconds < U64_LIMIT then 1000 * seconds else U64_LIMIT - 1
  }

  // ---------------------------------------------------------------- decoding

  datatype Damaged = Damaged

  /** The bytes of an ASCII text. */
  function Ascii(s: string): seq<Byte> {
    seq(|s|, i requires 0 <= i < |s| => s[i] as int % 128)
  }

  function StripMarker(stored: seq<Byte>, marker: string): Option<seq<Byte>> {
    var m := Ascii(marker);
    if m <= stored then Some(stored[|m|..]) else None
  }

  /** None when no marker is present; a marked payload is read as exactly the version its marker names. */
  function Decode(c: Codec, stored: seq<Byte>): Contents {
    var v4, v3, v2 := StripMarker(stored, V4_MARKER), StripMarker(stored, V3_MARKER), StripMarker(stored, V2_MARKER);
    if v4.Some? then
      var text := c.fromUtf8(v4.value);
      Some(if text.Some? && c.readV4(text.value).Some? then Ok(Current(c.readV4(text.value).value)) else Err(Damaged))
    else if v3.Some? then
      var text := c.fromUtf8(v3.value);
      Some(if text.Some? && c.readV3(text.value).Some? then Ok(V3(c.readV3(text.value).value)) else Err(Damaged))
    else if v2.Some? then
      var text := c.fromUtf8(v2.value);
      Some(if text.Some? && c.readV2(text.value).Some? then Ok(Legacy(c.readV2(text.value).value)) else Err(Damaged))
    else None
  }

  function OwnershipOf(project: string, profile: string, me: string, mine: string): Ownership {
    if project == me && profile == mine then Ours else Foreign(project, profile)
  }

  type Contents = Option<Result<Decoded, Damaged>>

  function OwnershipAt(c: Codec, stored: seq<Byte>, project: string, profile: string, now: Option<U64>): Ownership {
    ContentsOwner(Decode(c, stored), project, profile, now)
  }

  function ContentsOwner(d: Contents, project: string, profile: string, now: Option<U64>): Ownership {
    match d
    case None => Unrecognized
    case Some(Err(_)) => OursUnreadable
    case Some(Ok(Current(e))) =>
      if now.Some? && now.value >= e.expiresAt then Expired else OwnershipOf(e.project, e.profile, project, profile)
    case Some(Ok(V3(e))) =>
      if now.Some? && now.value >= e.expiresAt then Expired else OwnershipOf(e.project, e.profile, project, profile)
    case Some(Ok(Legacy(e))) => OwnershipOf(e.project, e.profile, project, profile)
  }

  /** Who is reading, for which route, and under which freshness policy. */
  datatype Reader = Reader(project: string, profile: string, route: string, maxAgeSecs: U64)

  function InspectLegacy(e: LegacyEnvelope, r: Reader, clock: Option<U64>): Result<Status, ClockError> {
    if e.project != r.project || e.profile != r.profile then Ok(ForeignEntry(e.project, e.profile))
    else if e.route != r.route then Ok(Stale)
    else if clock.None? then Err(ClockError)
    else
      var now := clock.value;
      if e.cachedAt > now || now - e.cachedAt > r.maxAgeSecs then Ok(Stale)
      else
        var expiresAt := CheckedAdd(e.cachedAt, r.maxAgeSecs);
        Ok(Fresh(Utf8(e.value), if expiresAt.Some? then CheckedMillis(expiresAt.value) else None, None, None))
  }

  /** The part of an entry versions 3 and 4 share, with the value already taken out of its encoding. */
  datatype Common = Common(
    project: string, profile: string, expiresAt: U64, maxAgeSecs: U64, route: string,
    value: Option<seq<Byte>>, secretExpiry: Option<U64>, revision: Option<string>)

  function InspectCommon(e: Common, r: Reader, clock: Option<U64>): Result<Status, ClockError> {
    if clock.None? then Err(ClockError)
    else
      var now := clock.value;
      if now >= e.expiresAt || (e.secretExpiry.Some? && SaturatingMillis(now) >= e.secretExpiry.value) then Ok(Stale)
      else if e.project != r.project || e.profile != r.profile then Ok(ForeignEntry(e.project, e.profile))
      else if e.expiresAt < e.maxAgeSecs then Ok(Stale)
      else if e.expiresAt - e.maxAgeSecs > now || e.maxAgeSecs != r.maxAgeSecs then Ok(Stale)
      else if e.route != r.route then Ok(Stale)
      else if e.value.None? then Ok(Unreadable)
      else Ok(Fresh(e.value.value, CheckedMillis(e.expiresAt), e.secretExpiry, e.revision))
  }

  function InspectEntry(c: Codec, stored: seq<Byte>, r: Reader, clock: Option<U64>): Result<Status, ClockError> {
    InspectContents(c, Decode(c, stored), r, clock)
  }

  function InspectContents(c: Codec, d: Contents, r: Reader, clock: Option<U64>): Result<Status, ClockError> {
    match d
    case None => Ok(NotAnEntry)
    case Some(Err(_)) => Ok(Unreadable)
    case Some(Ok(Current(e))) =>
      InspectCommon(
        Common(e.project, e.profile, e.expiresAt, e.maxAgeSecs, e.route, c.decode64(e.valueBase64), e.secretExpiry, e.revision),
        r, clock)
    case Some(Ok(V3(e))) =>
      InspectCommon(
        Common(e.project, e.profile, e.expiresAt, e.maxAgeSecs, e.route, Some(Utf8(e.value)), e.secretExpiry, None), r, clock)
    case Some(Ok(Legacy(e))) => InspectLegacy(e, r, clock)
  }

  // ---------------------------------------------------------------- encoding

  function EncodeEntry(c: Codec, w: Reader, now: U64, value: ProviderValue): Result<seq<Byte>, EncodeError> {
    var cacheExpiresAt := CheckedAdd(now, w.maxAgeSecs);
    if cacheExpiresAt.None? then Err(ExpirationOverflow)
    else if value.expiresAtMs.Some? && value.expiresAtMs.value / 1000 <= now then Err(SecretExpired)
    else
      var expiresAt :=
        if value.expiresAtMs.None? || cacheExpiresAt.value <= value.expiresAtMs.value / 1000 then cacheExpiresAt.value
        else value.expiresAtMs.value / 1000;
      var e := Envelope(w.project, w.profile, expiresAt, w.maxAgeSecs, w.route, value.expiresAtMs, value.revision,
                        c.encode64(value.value));
      Ok(Ascii(V4_MARKER) + Utf8(c.toJson(e)))
  }

  /** When an entry written now stops being usable: the cache age or the secret's own expiry, whichever is first. */
  function ExpiryOf(now: int, maxAge: int, secretExpiryMs: Option<U64>): int {
    if secretExpiryMs.Some? && secretExpiryMs.value / 1000 < now + maxAge then secretExpiryMs.value / 1000 else now + maxAge
  }

  /** Encoding fails exactly on overflow or on a secret that is already expired to the second. */
  lemma EncodeOutcome(c: Codec, w: Reader, now: U64, value: ProviderValue)
    ensures EncodeEntry(c, w, now, value).Ok? <==>
              now + w.maxAgeSecs < U64_LIMIT &&
              (value.expiresAtMs.Some? ==> 1000 * (now + 1) <= value.expiresAtMs.value)
  {
  }

  /** The envelope an encoder call writes. */
  function Written(c: Codec, w: Reader, now: U64, value: ProviderValue): Envelope
    requires EncodeEntry(c, w, now, value).Ok?
  {
    Envelope(w.project, w.profile, ExpiryOf(now, w.maxAgeSecs, value.expiresAtMs), w.maxAgeSecs, w.route,
             value.expiresAtMs, value.revision, c.encode64(value.value))
  }

  lemma EncodedDecodes(c: Codec, w: Reader, now: U64, value: ProviderValue)
    requires c.Lawful() && EncodeEntry(c, w, now, value).Ok?
    ensures Decode(c, EncodeEntry(c, w, now, value).value) == Some(Ok(Current(Written(c, w, now, value))))
  {
    var json := c.toJson(Written(c, w, now, value));
    assert StripMarker(EncodeEntry(c, w, now, value).value, V4_MARKER) == Some(Utf8(json));
    assert c.fromUtf8(Utf8(json)) == Some(json);
  }

  /**
   * An entry is fresh to a reader exactly when the reader is its owner on the
   * same route with the same maximum age, and the clock lies in
   * [E - M, E). It then gives back what was stored, and the secret itself has
   * not expired, although expiry is floored to seconds and the comparison
   * saturates.
   */
  lemma FreshWindow(c: Codec, w: Reader, now: U64, value: ProviderValue, r: Reader, t: U64)
    requires c.Lawful() && EncodeEntry(c, w, now, value).Ok?
    ensures var E := ExpiryOf(now, w.maxAgeSecs, value.expiresAtMs);
            var seen := InspectEntry(c, EncodeEntry(c, w, now, value).value, r, Some(t));
            && seen.Ok?
            && (seen.value.Fresh? <==> r == w && w.maxAgeSecs <= E && E - w.maxAgeSecs <= t < E)
            && (seen.value.Fresh? ==>
                  && seen.value.value == value.value
                  && seen.value.revision == value.revision
                  && seen.value.expiresAtMs == value.expiresAtMs
                  && seen.value.refreshAtMs == (if 1000 * E < U64_LIMIT then Some(1000 * E) else None)
                  && (value.expiresAtMs.Some? ==> 1000 * t < value.expiresAtMs.value))
  {
    EncodedDecodes(c, w, now, value);
    assert c.decode64(c.encode64(value.value)) == Some(value.value);
  }

  /**
   * An entry is not always usable the moment it is written: the reconstructed
   * write time has to exist. Its owner reads it back at once exactly when the
   * maximum age is positive and does not exceed the capped expiry.
   */
  lemma FreshOnWrite(c: Codec, w: Reader, now: U64, value: ProviderValue)
    requires c.Lawful() && EncodeEntry(c, w, now, value).Ok?
    ensures var seen := InspectEntry(c, EncodeEntry(c, w, now, value).value, w, Some(now));
            seen.Ok? &&
            (seen.value.Fresh? <==>
               0 < w.maxAgeSecs && (value.expiresAtMs.Some? ==> w.maxAgeSecs <= value.expiresAtMs.value / 1000))
  {
    FreshWindow(c, w, now, value, w, now);
  }

  /** Ten seconds after the epoch, a day's caching of a secret good for a minute writes an entry nobody can read. */
  lemma WrittenButNeverFresh(c: Codec, project: string, profile: string, route: string, bytes: seq<Byte>, t: U64)
    requires c.Lawful()
    ensures var w := Reader(project, profile, route, 86_400);
            var stored := EncodeEntry(c, w, 10, ProviderValue(bytes, Some(60_000), None));
            stored.Ok? && InspectEntry(c, stored.value, w, Some(t)).Ok? && !InspectEntry(c, stored.value, w, Some(t)).value.Fresh?
  {
    var w := Reader(project, profile, route, 86_400);
    var value := ProviderValue(bytes, Some(60_000), None);
    EncodeOutcome(c, w, 10, value);
    FreshWindow(c, w, 10, value, w, t);
  }

  predicate FreshAt(c: Codec, stored: seq<Byte>, r: Reader, t: U64) {
    var seen := InspectEntry(c, stored, r, Some(t));
    seen.Ok? && seen.value.Fresh?
  }

  /**
   * Reconstructing the write time detects a clock that was set back, but not
   * always: an entry is served at some clock before it was written exactly
   * when the secret's expiry cut its lifetime short without falling below the
   * maximum age.
   */
  lemma RollbackServed(c: Codec, w: Reader, now: U64, value: ProviderValue)
    requires c.Lawful() && EncodeEntry(c, w, now, value).Ok?
    ensures (exists t: U64 :: t < now && FreshAt(c, EncodeEntry(c, w, now, value).value, w, t)) <==>
            value.expiresAtMs.Some? && w.maxAgeSecs <= value.expiresAtMs.value / 1000 < now + w.maxAgeSecs
  {
    var E, M := ExpiryOf(now, w.maxAgeSecs, value.expiresAtMs), w.maxAgeSecs;
    var stored := EncodeEntry(c, w, now, value).value;
    forall t: U64
      ensures FreshAt(c, stored, w, t) <==> M <= E && E - M <= t < E
    {
      FreshWindow(c, w, now, value, w, t);
    }
    if value.expiresAtMs.Some? && M <= value.expiresAtMs.value / 1000 < now + M {
      assert FreshAt(c, stored, w, E - M);
    }
  }

  /** A secret good until second 1500, cached at 1000 for 1000 seconds, is already served at second 500. */
  lemma RollbackUndetected(c: Codec, project: string, profile: string, route: string, bytes: seq<Byte>)
    requires c.Lawful()
    ensures var w := Reader(project, profile, route, 1000);
            var stored := EncodeEntry(c, w, 1000, ProviderValue(bytes, Some(1_500_000), None));
            stored.Ok? && FreshAt(c, stored.value, w, 500)
  {
    var w := Reader(project, profile, route, 1000);
    FreshWindow(c, w, 1000, ProviderValue(bytes, Some(1_500_000), None), w, 500);
  }

  // ---------------------------------------------------------------- any stored bytes, version by version

  function Then<T>(text: Option<string>, read: string -> Option<T>): Option<T> {
    if text.Some? then read(text.value) else None
  }

  /** Bytes are read by the version their marker names, and bytes without a marker are no entry. */
  lemma MarkersDecode(c: Codec, payload: seq<Byte>)
    ensures var text := c.fromUtf8(payload);
            && Decode(c, Ascii("monosecret-cache-v4:") + payload) ==
               Some(var e := Then(text, c.readV4); if e.Some? then Ok(Current(e.value)) else Err(Damaged))
            && Decode(c, Ascii("monosecret-cache-v3:") + payload) ==
               Some(var e := Then(text, c.readV3); if e.Some? then Ok(V3(e.value)) else Err(Damaged))
            && Decode(c, Ascii("monosecret-cache-v2:") + payload) ==
               Some(var e := Then(text, c.readV2); if e.Some? then Ok(Legacy(e.value)) else Err(Damaged))
    ensures Decode(c, payload).None? <==>
              && !(Ascii("monosecret-cache-v4:") <= payload)
              && !(Ascii("monosecret-cache-v3:") <= payload)
              && !(Ascii("monosecret-cache-v2:") <= payload)
  {
    var v4, v3, v2 := Ascii(V4_MARKER), Ascii(V3_MARKER), Ascii(V2_MARKER);
    assert v4[18] == '4' as int && v3[18] == '3' as int && v2[18] == '2' as int;
    assert (v4 + payload)[|v4|..] == payload && (v3 + payload)[|v3|..] == payload && (v2 + payload)[|v2|..] == payload;
    assert (v3 + payload)[18] == v3[18] && (v2 + payload)[18] == v2[18];
  }

  /** The clock lies in the window an expiry and a maximum age span, and the secret has not expired. */
  predicate InWindow(expiresAt: int, maxAge: int, secretExpiryMs: Option<U64>, t: int) {
    && maxAge <= expiresAt && expiresAt - maxAge <= t < expiresAt
    && (secretExpiryMs.Some? ==> 1000 * t < secretExpiryMs.value)
  }

  /** Seconds to milliseconds where that still is a 64-bit number. */
  function Millis(seconds: int): Option<int> {
    if 1000 * seconds < U64_LIMIT then Some(1000 * seconds) else None
  }

  /**
   * A version 4 entry is fresh exactly to its owner on its route with its
   * maximum age inside its window, if its value decodes; it then gives that
   * value, its revision and its secret's expiry.
   */
  lemma Version4Window(c: Codec, stored: seq<Byte>, e: Envelope, r: Reader, t: U64)
    requires Decode(c, stored) == Some(Ok(Current(e)))
    ensures var seen := InspectEntry(c, stored, r, Some(t));
            var due := r == Reader(e.project, e.profile, e.route, e.maxAgeSecs)
                       && InWindow(e.expiresAt, e.maxAgeSecs, e.secretExpiry, t);
            && seen.Ok?
            && (seen.value.Fresh? <==> due && c.decode64(e.valueBase64).Some?)
            && (seen.value.Unreadable? <==> due && c.decode64(e.valueBase64).None?)
            && (seen.value.Fresh? ==>
                  && Some(seen.value.value) == c.decode64(e.valueBase64) && seen.value.revision == e.revision
                  && seen.value.expiresAtMs == e.secretExpiry && seen.value.refreshAtMs == Millis(e.expiresAt))
  {
  }

  /** A version 3 entry likewise; its value is plain text and it has no revision. */
  lemma Version3Window(c: Codec, stored: seq<Byte>, e: V3Envelope, r: Reader, t: U64)
    requires Decode(c, stored) == Some(Ok(V3(e)))
    ensures var seen := InspectEntry(c, stored, r, Some(t));
            && seen.Ok? && !seen.value.Unreadable?
            && (seen.value.Fresh? <==>
                  && r == Reader(e.project, e.profile, e.route, e.maxAgeSecs)
                  && InWindow(e.expiresAt, e.maxAgeSecs, e.secretExpiry, t))
            && (seen.value.Fresh? ==>
                  && seen.value.value == Utf8(e.value) && seen.value.revision == None
                  && seen.value.expiresAtMs == e.secretExpiry && seen.value.refreshAtMs == Millis(e.expiresAt))
  {
  }

  /** A version 2 entry stores its write time and is fresh for the reader's own maximum age from then on, both ends included. */
  lemma Version2Window(c: Codec, stored: seq<Byte>, e: LegacyEnvelope, r: Reader, t: U64)
    requires Decode(c, stored) == Some(Ok(Legacy(e)))
    ensures var seen := InspectEntry(c, stored, r, Some(t));
            && seen.Ok? && !seen.value.Unreadable?
            && (seen.value.Fresh? <==>
                  && e.project == r.project && e.profile == r.profile && e.route == r.route
                  && e.cachedAt <= t <= e.cachedAt + r.maxAgeSecs)
            && (seen.value.Fresh? ==>
                  && seen.value.value == Utf8(e.value) && seen.value.revision == None
                  && seen.value.expiresAtMs == None
                  && seen.value.refreshAtMs == Millis(e.cachedAt + r.maxAgeSecs))
  {
  }

  /**
   * Without a clock nothing is served: versions 3 and 4 always report the
   * clock, version 2 only to its owner on its route, and the rest is answered
   * as it would be at any time.
   */
  lemma WithoutClock(c: Codec, stored: seq<Byte>, r: Reader)
    ensures var seen := InspectEntry(c, stored, r, None);
            match Decode(c, stored)
            case None => seen == Ok(NotAnEntry)
            case Some(Err(_)) => seen == Ok(Unreadable)
            case Some(Ok(Current(_))) => seen == Err(ClockError)
            case Some(Ok(V3(_))) => seen == Err(ClockError)
            case Some(Ok(Legacy(e))) =>
              seen == if e.project != r.project || e.profile != r.profile then Ok(ForeignEntry(e.project, e.profile))
                      else if e.route != r.route then Ok(Stale)
                      else Err(ClockError)
  {
  }

  /** Whose entry it is, for any stored bytes: an expired version 3 or 4 entry is nobody's, a version 2 entry never expires. */
  lemma OwnerExactly(c: Codec, stored: seq<Byte>, project: string, profile: string, now: Option<U64>)
    ensures var own := OwnershipAt(c, stored, project, profile, now);
            match Decode(c, stored)
            case None => own == Unrecognized
            case Some(Err(_)) => own == OursUnreadable
            case Some(Ok(d)) =>
              var (owner, its, expiry) := match d
                case Current(e) => (e.project, e.profile, Some(e.expiresAt))
                case V3(e) => (e.project, e.profile, Some(e.expiresAt))
                case Legacy(e) => (e.project, e.profile, None);
              && (own == Expired <==> now.Some? && expiry.Some? && expiry.value <= now.value)
              && (own == Ours <==> own != Expired && (owner, its) == (project, profile))
              && (own == Foreign(owner, its) <==> own != Expired && (owner, its) != (project, profile))
  {
  }

  /** Whether the secret inside a readable entry has itself expired. */
  predicate SecretPast(d: Contents, t: U64) {
    match d
    case Some(Ok(Current(e))) => e.secretExpiry.Some? && SaturatingMillis(t) >= e.secretExpiry.value
    case Some(Ok(V3(e))) => e.secretExpiry.Some? && SaturatingMillis(t) >= e.secretExpiry.value
    case _ => false
  }

  /**
   * The two classifiers at one clock, for any stored bytes: a fresh entry is
   * ours, an expired one is stale, and inspection calls an entry foreign
   * exactly when ownership does and the secret in it has not expired.
   */
  lemma ClassifiersAgree(c: Codec, stored: seq<Byte>, r: Reader, t: U64)
    ensures var own := OwnershipAt(c, stored, r.project, r.profile, Some(t));
            var seen := InspectEntry(c, stored, r, Some(t));
            && seen.Ok?
            && (seen.value.Fresh? ==> own == Ours)
            && (own == Expired ==> seen.value == Stale)
            && (own == Unrecognized <==> seen.value == NotAnEntry)
            && (own == OursUnreadable ==> seen.value == Unreadable)
            && (seen.value.ForeignEntry? <==> own.Foreign? && !SecretPast(Decode(c, stored), t))
            && (seen.value.ForeignEntry? ==> own == Foreign(seen.value.project, seen.value.profile))
  {
    var d := Decode(c, stored);
    if d.Some? && d.value.Ok? {
      match d.value.value {
        case Current(_) =>
        case V3(_) =>
        case Legacy(_) =>
      }
    }
  }

  /** On entries the encoder made the extra secret-expiry test never decides: foreign and foreign coincide. */
  lemma EncodedForeignAgrees(c: Codec, w: Reader, now: U64, value: ProviderValue, r: Reader, t: U64)
    requires c.Lawful() && EncodeEntry(c, w, now, value).Ok?
    ensures var stored := EncodeEntry(c, w, now, value).value;
            InspectEntry(c, stored, r, Some(t)).Ok? &&
            (InspectEntry(c, stored, r, Some(t)).value.ForeignEntry? <==>
               OwnershipAt(c, stored, r.project, r.profile, Some(t)).Foreign?)
  {
    var stored := EncodeEntry(c, w, now, value).value;
    EncodedDecodes(c, w, now, value);
    ClassifiersAgree(c, stored, r, t);
  }
}
