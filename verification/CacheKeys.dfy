/**
 * The key a cache entry is stored under: what decides a secret's authoritative
 * value, reduced to one fingerprint that separates any two different keys.
 */
module CacheKeys {
  import opened Prelude
  import opened Fingerprint

  /** A hash over part lists, printed. */
  type Hash = seq<Text> -> Digits

  // ---------------------------------------------------------------- addresses

  type Coordinate = (Text, Option<Text>)

  function Coordinates(a: NativeAddress<Text>): seq<Coordinate> {
    [("vault", a.vault), ("item", Some(a.item)), ("section", a.section), ("field", a.field), ("version", a.version)]
  }

  function CoordinateParts(coordinates: seq<Coordinate>): seq<Text> {
    if coordinates == [] then []
    else
      var (name, value) := coordinates[0];
      (if value.Some? then [name, "present", value.value] else [name, "absent"]) + CoordinateParts(coordinates[1..])
  }

  /** Every name, presence and value can be read back. */
  lemma {:induction false} CoordinatesInjective(p: seq<Coordinate>, q: seq<Coordinate>)
    requires CoordinateParts(p) == CoordinateParts(q)
    ensures p == q
    decreases |p|
  {
    var x, y := CoordinateParts(p), CoordinateParts(q);
    if p == [] || q == [] {
      assert p == [] ==> |x| == 0;
      assert q == [] ==> |y| == 0;
    } else {
      assert x[0] == p[0].0 && y[0] == q[0].0;
      assert x[1] == (if p[0].1.Some? then "present" else "absent");
      assert y[1] == (if q[0].1.Some? then "present" else "absent");
      assert |"present"| != |"absent"|;
      var n := if p[0].1.Some? then 3 else 2;
      assert p[0].1.Some? ==> x[2] == p[0].1.value && y[2] == q[0].1.value;
      assert x[n..] == CoordinateParts(p[1..]) && y[n..] == CoordinateParts(q[1..]);
      CoordinatesInjective(p[1..], q[1..]);
      assert p == [p[0]] + p[1..] && q == [q[0]] + q[1..];
    }
  }

  /** The loop that lists a kind and its coordinates as hash parts. */
  method ListCoordinates(kind: Text, coordinates: seq<Coordinate>) returns (parts: seq<Text>)
    ensures parts == [kind] + CoordinateParts(coordinates)
  {
    parts := [kind];
    var i := 0;
    assert coordinates[0..] == coordinates;
    while i < |coordinates|
      invariant 0 <= i <= |coordinates|
      invariant parts + CoordinateParts(coordinates[i..]) == [kind] + CoordinateParts(coordinates)
    {
      var (name, value) := coordinates[i];
      assert coordinates[i..][1..] == coordinates[i + 1..];
      ghost var rest := CoordinateParts(coordinates[i + 1..]);
      parts := parts + [name];
      match value {
        case Some(v) =>
          assert parts + (["present", v] + rest) == parts + ["present"] + [v] + rest;
          parts := parts + ["present"];
          parts := parts + [v];
        case None =>
          parts := parts + ["absent"];
      }
      i := i + 1;
    }
  }

  /** Where a secret is read from: one `ref`, per-alias `refs`, or the naming convention. */
  datatype Address =
    | LegacyRef(address: NativeAddress<Text>)
    | ScopedRefs(refs: map<Text, NativeAddress<Text>>)
    | Convention

  datatype CacheKey = CacheKey(project: Text, profile: Text, route: Text, name: Text, address: Address)

  function Print(h: Hash, parts: seq<Text>): Text {
    "v1-" + h(parts)
  }

  // ---------------------------------------------------------------- the fingerprint

  function AddressParts(kind: Text, a: NativeAddress<Text>): seq<Text> {
    [kind] + CoordinateParts(Coordinates(a))
  }

  function NativeParts(a: NativeAddress<Text>): seq<Text> {
    AddressParts("native-ref", a)
  }

  function ScopedParts(h: Hash, alias: Text, a: NativeAddress<Text>): seq<Text> {
    ["scoped-ref", alias, Print(h, NativeParts(a))]
  }

  function SortNames(names: seq<Text>): seq<Text> {
    if names == [] then [] else InsertText(SortNames(names[1..]), names[0])
  }

  function InsertText(s: seq<Text>, x: Text): (r: seq<Text>)
    ensures r == InsertName(s, x)
  {
    if s == [] then [x]
    else if s[0] == x then s
    else if Less(x, s[0]) then [x] + s
    else [s[0]] + InsertText(s[1..], x)
  }

  function RefParts(h: Hash, refs: map<Text, NativeAddress<Text>>, aliases: seq<Text>): seq<Text>
    requires forall a | a in aliases :: a in refs
  {
    seq(|aliases|, i requires 0 <= i < |aliases| => Print(h, ScopedParts(h, aliases[i], refs[aliases[i]])))
  }

  /** `order` is whatever order the alias table happens to be iterated in. */
  predicate Iterates(order: seq<Text>, address: Address) {
    address.ScopedRefs? ==>
      (forall a | a in order :: a in address.refs) && (forall a | a in address.refs :: a in order)
  }

  /** The aliases of a scoped address, sorted. */
  function Aliases(order: seq<Text>, address: Address): (names: seq<Text>)
    requires address.ScopedRefs? && Iterates(order, address)
    ensures (forall a | a in names :: a in address.refs) && (forall a | a in address.refs :: a in names)
  {
    SortNamesSound(order);
    SortNames(order)
  }

  function AddressText(h: Hash, address: Address, order: seq<Text>): Text
    requires Iterates(order, address)
  {
    match address
    case LegacyRef(a) => Print(h, AddressParts("legacy-ref", a))
    case ScopedRefs(refs) => Print(h, ["scoped-refs"] + RefParts(h, refs, Aliases(order, address)))
    case Convention => "convention"
  }

  function KeyParts(h: Hash, k: CacheKey, order: seq<Text>): seq<Text>
    requires Iterates(order, k.address)
  {
    [k.project, k.profile, k.route, k.name, AddressText(h, k.address, order)]
  }

  function CacheFingerprint(h: Hash, k: CacheKey, order: seq<Text>): Text
    requires Iterates(order, k.address)
  {
    Print(h, KeyParts(h, k, order))
  }

  lemma {:induction false} SortNamesSound(names: seq<Text>)
    ensures Ascending(SortNames(names))
    ensures forall x: Text :: x in SortNames(names) <==> x in names
    ensures forall x: string :: x in SortNames(names) <==> x in names
  {
    if names != [] {
      SortNamesSound(names[1..]);
      InsertNameAscending(SortNames(names[1..]), names[0]);
      assert names == [names[0]] + names[1..];
    }
  }

  /** The iteration order of the alias table does not show in the fingerprint. */
  lemma OrderIrrelevant(h: Hash, k: CacheKey, order: seq<Text>, other: seq<Text>)
    requires Iterates(order, k.address) && Iterates(other, k.address)
    ensures CacheFingerprint(h, k, order) == CacheFingerprint(h, k, other)
  {
    if k.address.ScopedRefs? {
      SortNamesSound(order);
      SortNamesSound(other);
      forall x: string
        ensures x in SortNames(order) <==> x in SortNames(other)
      {
        if x in SortNames(order) || x in SortNames(other) {
          var y: Text := x;
          assert y in order <==> y in k.address.refs;
          assert y in other <==> y in k.address.refs;
        }
      }
      AscendingUnique(SortNames(order), SortNames(other));
    }
  }

  /** Every part list hashed on the way to a key's fingerprint. */
  predicate Hashed(h: Hash, k: CacheKey, order: seq<Text>, parts: seq<Text>)
    requires Iterates(order, k.address)
  {
    || parts == KeyParts(h, k, order)
    || match k.address
       case LegacyRef(a) => parts == AddressParts("legacy-ref", a)
       case ScopedRefs(refs) =>
         || parts == ["scoped-refs"] + RefParts(h, refs, Aliases(order, k.address))
         || exists alias | alias in refs ::
              parts == ScopedParts(h, alias, refs[alias]) || parts == NativeParts(refs[alias])
       case Convention => false
  }

  /** The hash maps no two different part lists met on the way to these two fingerprints to the same digits. */
  ghost predicate NoCollision(h: Hash, k: CacheKey, order: seq<Text>, l: CacheKey, other: seq<Text>)
    requires Iterates(order, k.address) && Iterates(other, l.address)
  {
    forall p, q | Hashed(h, k, order, p) && Hashed(h, l, other, q) :: h(p) == h(q) ==> p == q
  }

  lemma PrintSeparates(h: Hash, k: CacheKey, order: seq<Text>, l: CacheKey, other: seq<Text>, p: seq<Text>, q: seq<Text>)
    requires Iterates(order, k.address) && Iterates(other, l.address) && NoCollision(h, k, order, l, other)
    requires Hashed(h, k, order, p) && Hashed(h, l, other, q) && Print(h, p) == Print(h, q)
    ensures p == q
  {
    assert Print(h, p)[3..] == h(p) && Print(h, q)[3..] == h(q);
  }

  lemma AddressPartsInjective(kind: Text, a: NativeAddress<Text>, other: Text, b: NativeAddress<Text>)
    requires AddressParts(kind, a) == AddressParts(other, b)
    ensures kind == other && a == b
  {
    var x, y := AddressParts(kind, a), AddressParts(other, b);
    assert x[0] == kind && y[0] == other;
    assert x[1..] == CoordinateParts(Coordinates(a)) && y[1..] == CoordinateParts(Coordinates(b));
    CoordinatesInjective(Coordinates(a), Coordinates(b));
    var c, d := Coordinates(a), Coordinates(b);
    assert c[0] == d[0] && c[1] == d[1] && c[2] == d[2] && c[3] == d[3] && c[4] == d[4];
  }

  lemma ScopedEntryHashed(h: Hash, k: CacheKey, order: seq<Text>, a: Text)
    requires Iterates(order, k.address) && k.address.ScopedRefs? && a in k.address.refs
    ensures Hashed(h, k, order, ScopedParts(h, a, k.address.refs[a]))
    ensures Hashed(h, k, order, NativeParts(k.address.refs[a]))
  {
  }

  lemma ScopedPrintsSeparate(
    h: Hash, k: CacheKey, order: seq<Text>, l: CacheKey, other: seq<Text>, a: Text, b: Text)
    requires Iterates(order, k.address) && Iterates(other, l.address) && NoCollision(h, k, order, l, other)
    requires k.address.ScopedRefs? && l.address.ScopedRefs? && a in k.address.refs && b in l.address.refs
    requires Print(h, ScopedParts(h, a, k.address.refs[a])) == Print(h, ScopedParts(h, b, l.address.refs[b]))
    ensures ScopedParts(h, a, k.address.refs[a]) == ScopedParts(h, b, l.address.refs[b])
  {
    ScopedEntryHashed(h, k, order, a);
    ScopedEntryHashed(h, l, other, b);
    PrintSeparates(h, k, order, l, other, ScopedParts(h, a, k.address.refs[a]), ScopedParts(h, b, l.address.refs[b]));
  }

  lemma NativePrintsSeparate(
    h: Hash, k: CacheKey, order: seq<Text>, l: CacheKey, other: seq<Text>, a: Text, b: Text)
    requires Iterates(order, k.address) && Iterates(other, l.address) && NoCollision(h, k, order, l, other)
    requires k.address.ScopedRefs? && l.address.ScopedRefs? && a in k.address.refs && b in l.address.refs
    requires Print(h, NativeParts(k.address.refs[a])) == Print(h, NativeParts(l.address.refs[b]))
    ensures k.address.refs[a] == l.address.refs[b]
  {
    var x, y := k.address.refs[a], l.address.refs[b];
    ScopedEntryHashed(h, k, order, a);
    ScopedEntryHashed(h, l, other, b);
    PrintSeparates(h, k, order, l, other, NativeParts(x), NativeParts(y));
    AddressPartsInjective("native-ref", x, "native-ref", y);
  }

  lemma ScopedPartsFields(h: Hash, a: Text, x: NativeAddress<Text>, b: Text, y: NativeAddress<Text>)
    requires ScopedParts(h, a, x) == ScopedParts(h, b, y)
    ensures a == b && Print(h, NativeParts(x)) == Print(h, NativeParts(y))
  {
    var s, t := ScopedParts(h, a, x), ScopedParts(h, b, y);
    assert s[1] == t[1] && s[2] == t[2];
  }

  lemma ScopedEntrySeparates(
    h: Hash, k: CacheKey, order: seq<Text>, l: CacheKey, other: seq<Text>, a: Text, b: Text)
    requires Iterates(order, k.address) && Iterates(other, l.address) && NoCollision(h, k, order, l, other)
    requires k.address.ScopedRefs? && l.address.ScopedRefs? && a in k.address.refs && b in l.address.refs
    requires Print(h, ScopedParts(h, a, k.address.refs[a])) == Print(h, ScopedParts(h, b, l.address.refs[b]))
    ensures a == b && k.address.refs[a] == l.address.refs[b]
  {
    ScopedPrintsSeparate(h, k, order, l, other, a, b);
    var x, y := k.address.refs[a], l.address.refs[b];
    ScopedPartsFields(h, a, x, b, y);
    NativePrintsSeparate(h, k, order, l, other, a, b);
  }

  lemma RefTablesEqual(
    refs: map<Text, NativeAddress<Text>>, names: seq<Text>, refs': map<Text, NativeAddress<Text>>, names': seq<Text>)
    requires (forall a | a in names :: a in refs) && (forall a | a in refs :: a in names)
    requires (forall a | a in names' :: a in refs') && (forall a | a in refs' :: a in names')
    requires |names| == |names'|
    requires forall i | 0 <= i < |names| :: names[i] == names'[i] && refs[names[i]] == refs'[names'[i]]
    ensures refs == refs'
  {
    assert names == names';
    forall a | a in refs
      ensures a in refs' && refs'[a] == refs[a]
    {
      var i :| 0 <= i < |names| && names[i] == a;
    }
  }

  lemma RefPartsSeparate(h: Hash, k: CacheKey, order: seq<Text>, l: CacheKey, other: seq<Text>)
    requires Iterates(order, k.address) && Iterates(other, l.address) && NoCollision(h, k, order, l, other)
    requires k.address.ScopedRefs? && l.address.ScopedRefs?
    requires AddressText(h, k.address, order) == AddressText(h, l.address, other)
    ensures RefParts(h, k.address.refs, Aliases(order, k.address)) == RefParts(h, l.address.refs, Aliases(other, l.address))
  {
    var x := RefParts(h, k.address.refs, Aliases(order, k.address));
    var y := RefParts(h, l.address.refs, Aliases(other, l.address));
    PrintSeparates(h, k, order, l, other, ["scoped-refs"] + x, ["scoped-refs"] + y);
    assert (["scoped-refs"] + x)[1..] == x && (["scoped-refs"] + y)[1..] == y;
  }

  lemma ScopedSeparates(h: Hash, k: CacheKey, order: seq<Text>, l: CacheKey, other: seq<Text>)
    requires Iterates(order, k.address) && Iterates(other, l.address) && NoCollision(h, k, order, l, other)
    requires k.address.ScopedRefs? && l.address.ScopedRefs?
    requires RefParts(h, k.address.refs, Aliases(order, k.address)) == RefParts(h, l.address.refs, Aliases(other, l.address))
    ensures k.address.refs == l.address.refs
  {
    var refs, refs' := k.address.refs, l.address.refs;
    var names, names' := Aliases(order, k.address), Aliases(other, l.address);
    var x, y := RefParts(h, refs, names), RefParts(h, refs', names');
    assert |x| == |names| && |y| == |names'|;
    forall i | 0 <= i < |names|
      ensures names[i] == names'[i] && refs[names[i]] == refs'[names'[i]]
    {
      assert x[i] == y[i];
      ScopedEntrySeparates(h, k, order, l, other, names[i], names'[i]);
    }
    RefTablesEqual(refs, names, refs', names');
  }

  /** A single `ref` and a table of them are hashed under different first parts. */
  lemma KindsSeparate(h: Hash, k: CacheKey, order: seq<Text>, l: CacheKey, other: seq<Text>)
    requires Iterates(order, k.address) && Iterates(other, l.address) && NoCollision(h, k, order, l, other)
    requires !k.address.Convention? && !l.address.Convention?
    requires AddressText(h, k.address, order) == AddressText(h, l.address, other)
    ensures k.address.LegacyRef? <==> l.address.LegacyRef?
  {
    var p := if k.address.LegacyRef? then AddressParts("legacy-ref", k.address.address)
             else ["scoped-refs"] + RefParts(h, k.address.refs, Aliases(order, k.address));
    var q := if l.address.LegacyRef? then AddressParts("legacy-ref", l.address.address)
             else ["scoped-refs"] + RefParts(h, l.address.refs, Aliases(other, l.address));
    PrintSeparates(h, k, order, l, other, p, q);
    assert |p[0]| == (if k.address.LegacyRef? then 10 else 11);
    assert |q[0]| == (if l.address.LegacyRef? then 10 else 11);
  }

  lemma AddressSeparates(h: Hash, k: CacheKey, order: seq<Text>, l: CacheKey, other: seq<Text>)
    requires Iterates(order, k.address) && Iterates(other, l.address) && NoCollision(h, k, order, l, other)
    requires AddressText(h, k.address, order) == AddressText(h, l.address, other)
    ensures k.address == l.address
  {
    var x, y := AddressText(h, k.address, order), AddressText(h, l.address, other);
    assert k.address.Convention? <==> x[0] == 'c';
    assert l.address.Convention? <==> y[0] == 'c';
    match k.address {
      case Convention =>
      case LegacyRef(a) =>
        KindsSeparate(h, k, order, l, other);
        PrintSeparates(
          h, k, order, l, other, AddressParts("legacy-ref", a), AddressParts("legacy-ref", l.address.address));
        AddressPartsInjective("legacy-ref", a, "legacy-ref", l.address.address);
      case ScopedRefs(refs) =>
        KindsSeparate(h, k, order, l, other);
        RefPartsSeparate(h, k, order, l, other);
        ScopedSeparates(h, k, order, l, other);
    }
  }

  /**
   * Unless the hash itself collides on something it was fed, two cache
   * fingerprints agree exactly when project, profile, route, name and address
   * all agree, in every mix of address modes and whatever the iteration order.
   */
  lemma FingerprintSeparates(h: Hash, k: CacheKey, order: seq<Text>, l: CacheKey, other: seq<Text>)
    requires Iterates(order, k.address) && Iterates(other, l.address) && NoCollision(h, k, order, l, other)
    ensures CacheFingerprint(h, k, order) == CacheFingerprint(h, l, other) <==> k == l
  {
    if k == l {
      OrderIrrelevant(h, k, order, other);
    }
    if CacheFingerprint(h, k, order) == CacheFingerprint(h, l, other) {
      var p, q := KeyParts(h, k, order), KeyParts(h, l, other);
      PrintSeparates(h, k, order, l, other, p, q);
      assert p[0] == q[0] && p[1] == q[1] && p[2] == q[2] && p[3] == q[3] && p[4] == q[4];
      AddressSeparates(h, k, order, l, other);
    }
  }

  /** The hash of a part list is the hash of its byte stream. */
  function Over(bytesHash: seq<Byte> -> Digits): Hash {
    (parts: seq<Text>) => bytesHash(Stream(parts))
  }

  /** FNV-1a, printed: the byte hash the program uses. */
  function Fnv(hex: bv64 -> Digits): seq<Byte> -> Digits {
    (bytes: seq<Byte>) => hex(Absorb(FnvStep, FNV_OFFSET, bytes))
  }

  /** The hashing loop prints the fingerprint that the key lemmas speak of, with FNV-1a as the byte hash. */
  method StableFingerprint(hex: bv64 -> Digits, parts: seq<Text>) returns (text: Text)
    ensures text == Print(Over(Fnv(hex)), parts)
  {
    var hash := HashParts(FnvStep, parts);
    text := "v1-" + hex(hash);
  }

  method CoordinateFingerprint(hex: bv64 -> Digits, kind: Text, a: NativeAddress<Text>) returns (text: Text)
    ensures text == Print(Over(Fnv(hex)), AddressParts(kind, a))
  {
    var parts := ListCoordinates(
      kind,
      [("vault", a.vault), ("item", Some(a.item)), ("section", a.section), ("field", a.field), ("version", a.version)]);
    text := StableFingerprint(hex, parts);
  }

  /** The fingerprints of the aliases' entries, one by one in sorted order. */
  method ScopedFingerprints(hex: bv64 -> Digits, refs: map<Text, NativeAddress<Text>>, aliases: seq<Text>)
    returns (parts: seq<Text>)
    requires forall a | a in aliases :: a in refs
    ensures parts == ["scoped-refs"] + RefParts(Over(Fnv(hex)), refs, aliases)
  {
    ghost var h := Over(Fnv(hex));
    ghost var all := RefParts(h, refs, aliases);
    parts := ["scoped-refs"];
    for i := 0 to |aliases|
      invariant parts == ["scoped-refs"] + all[..i]
    {
      var alias := aliases[i];
      var coordinates := CoordinateFingerprint(hex, "native-ref", refs[alias]);
      var entry := StableFingerprint(hex, ["scoped-ref", alias, coordinates]);
      assert entry == all[i] && all[..i + 1] == all[..i] + [all[i]];
      parts := parts + [entry];
    }
    assert all[..|aliases|] == all;
  }

  /** The fingerprint a secret's cache entry is stored under. */
  method ComputeCacheFingerprint(hex: bv64 -> Digits, k: CacheKey, order: seq<Text>) returns (text: Text)
    requires Iterates(order, k.address)
    ensures text == CacheFingerprint(Over(Fnv(hex)), k, order)
  {
    var address: Text;
    match k.address {
      case LegacyRef(a) =>
        address := CoordinateFingerprint(hex, "legacy-ref", a);
      case ScopedRefs(refs) =>
        var parts := ScopedFingerprints(hex, refs, Aliases(order, k.address));
        address := StableFingerprint(hex, parts);
      case Convention =>
        address := "convention";
    }
    text := StableFingerprint(hex, [k.project, k.profile, k.route, k.name, address]);
  }

  /** The same for a hash of bytes, since the stream determines the parts. */
  lemma ByteHashSeparates(bytesHash: seq<Byte> -> Digits, k: CacheKey, order: seq<Text>, l: CacheKey, other: seq<Text>)
    requires Iterates(order, k.address) && Iterates(other, l.address)
    requires var h := Over(bytesHash);
             forall p, q | Hashed(h, k, order, p) && Hashed(h, l, other, q) ::
               bytesHash(Stream(p)) == bytesHash(Stream(q)) ==> Stream(p) == Stream(q)
    ensures var h := Over(bytesHash); CacheFingerprint(h, k, order) == CacheFingerprint(h, l, other) <==> k == l
  {
    var h := Over(bytesHash);
    forall p, q | Hashed(h, k, order, p) && Hashed(h, l, other, q) && h(p) == h(q)
      ensures p == q
    {
      StreamInjective(p, q);
    }
    FingerprintSeparates(h, k, order, l, other);
  }
}
