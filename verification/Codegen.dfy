/**
 * Generated types: which fields a profile guarantees, the union of fields that
 * is safe for every profile, and the JSON Schemas emitted from both.
 */
module Codegen {
  import opened Prelude
  import opened CompiledSpec

  type Profile = map<string, CompiledSecret>

  datatype IrField = IrField(optional: bool, asPath: bool, description: Option<string>)

  /** Fields by name. */
  type Fields = map<string, IrField>

  // ---------------------------------------------------------------- per-profile fields

  function ProfileFields(profile: Profile): Fields {
    map name | name in profile ::
      IrField(
        !GuaranteedOnSuccess(profile[name].missing), profile[name].config.asPath == Some(true),
        profile[name].config.description)
  }

  /** A profile's field: optional unless its secret is guaranteed, with the secret's own path flag and description. */
  predicate DescribesSecret(s: CompiledSecret, f: IrField) {
    && (f.optional <==> s.missing.Omit?)
    && (f.asPath <==> s.config.asPath == Some(true))
    && f.description == s.config.description
  }

  lemma ProfileFieldsDescribe(profile: Profile)
    ensures ProfileFields(profile).Keys == profile.Keys
    ensures forall name | name in profile :: DescribesSecret(profile[name], ProfileFields(profile)[name])
  {
  }

  // ---------------------------------------------------------------- the counting pass

  datatype Acc = Acc(guaranteedCount: nat, asPath: bool, description: Option<string>)

  predicate Guarantees(profile: Profile, name: string) {
    name in profile && GuaranteedOnSuccess(profile[name].missing)
  }

  function Merge(acc: Option<Acc>, secret: CompiledSecret): Acc {
    var entry := if acc.Some? then acc.value else Acc(0, false, None);
    Acc(
      entry.guaranteedCount + (if GuaranteedOnSuccess(secret.missing) then 1 else 0),
      entry.asPath || secret.config.asPath == Some(true),
      if entry.description.None? then secret.config.description else entry.description)
  }

  /** What the pass has gathered about one name after some profiles. */
  function Gathered(profiles: seq<Profile>, name: string): Option<Acc> {
    if profiles == [] then None
    else
      var before, last := Gathered(profiles[..|profiles| - 1], name), profiles[|profiles| - 1];
      if name in last then Some(Merge(before, last[name])) else before
  }

  function Lookup(acc: map<string, Acc>, name: string): Option<Acc> {
    if name in acc then Some(acc[name]) else None
  }

  function UnionField(profiles: seq<Profile>, a: Acc): IrField {
    IrField(a.guaranteedCount != |profiles|, a.asPath, a.description)
  }

  /** A union field: optional unless every profile guarantees it, a path if any profile says so. */
  ghost predicate DescribesUnion(profiles: seq<Profile>, name: string, f: IrField) {
    && (f.optional <==> exists p | p in profiles :: !Guarantees(p, name))
    && (f.asPath <==> exists p: Profile | p in profiles :: name in p && p[name].config.asPath == Some(true))
    && FirstDescription(profiles, name, f.description)
  }

  predicate Describes(p: Profile, name: string) {
    name in p && p[name].config.description.Some?
  }

  /** The description of the first profile, in order, that gives one. */
  predicate FirstDescription(profiles: seq<Profile>, name: string, d: Option<string>) {
    if d.None? then forall i | 0 <= i < |profiles| :: !Describes(profiles[i], name)
    else exists k | 0 <= k < |profiles| ::
           Describes(profiles[k], name) && profiles[k][name].config.description == d &&
           forall i | 0 <= i < k :: !Describes(profiles[i], name)
  }

  ghost predicate IsUnion(profiles: seq<Profile>, union: Fields) {
    && (forall name :: name in union <==> exists i | 0 <= i < |profiles| :: name in profiles[i])
    && (forall name | name in union :: DescribesUnion(profiles, name, union[name]))
  }

  lemma {:induction false} GatheredMeans(profiles: seq<Profile>, name: string)
    ensures Gathered(profiles, name).Some? <==> exists i | 0 <= i < |profiles| :: name in profiles[i]
    ensures var g := Gathered(profiles, name);
            g.Some? ==>
              && g.value.guaranteedCount <= |profiles|
              && (g.value.guaranteedCount == |profiles| <==> forall i | 0 <= i < |profiles| :: Guarantees(profiles[i], name))
              && (g.value.asPath <==>
                    exists i | 0 <= i < |profiles| :: name in profiles[i] && profiles[i][name].config.asPath == Some(true))
    decreases |profiles|
  {
    if profiles != [] {
      var n := |profiles| - 1;
      GatheredMeans(profiles[..n], name);
      var last := profiles[n];
      assert forall i | 0 <= i < n :: profiles[..n][i] == profiles[i];
      if name in last && Gathered(profiles[..n], name).None? {
        assert forall i | 0 <= i < n :: name !in profiles[..n][i];
        if n > 0 {
          assert !Guarantees(profiles[..n][0], name);
        }
      }
    }
  }

  lemma {:induction false} GatheredDescription(profiles: seq<Profile>, name: string)
    ensures var g := Gathered(profiles, name);
            FirstDescription(profiles, name, if g.Some? then g.value.description else None)
    decreases |profiles|
  {
    if profiles != [] {
      var n := |profiles| - 1;
      GatheredDescription(profiles[..n], name);
      var g := Gathered(profiles[..n], name);
      var d := if g.Some? then g.value.description else None;
      if d.Some? {
        var k :| 0 <= k < n && Describes(profiles[..n][k], name) && profiles[..n][k][name].config.description == d &&
                 forall i | 0 <= i < k :: !Describes(profiles[..n][i], name);
        assert Describes(profiles[k], name);
        assert forall i | 0 <= i < k :: profiles[..n][i] == profiles[i];
      } else {
        assert forall i | 0 <= i < n :: !Describes(profiles[..n][i], name);
        assert forall i | 0 <= i < n :: profiles[..n][i] == profiles[i];
        if Describes(profiles[n], name) {
          assert profiles[n][name].config.description == Gathered(profiles, name).value.description;
        }
      }
    }
  }

  /** One profile folded into the accumulator, entry by entry. */
  method GatherProfile(acc: map<string, Acc>, profile: Profile) returns (more: map<string, Acc>)
    ensures forall name :: Lookup(more, name) ==
              if name in profile then Some(Merge(Lookup(acc, name), profile[name])) else Lookup(acc, name)
  {
    more := acc;
    var todo := profile.Keys;
    while todo != {}
      invariant todo <= profile.Keys
      invariant forall name :: Lookup(more, name) ==
                  if name in profile && name !in todo then Some(Merge(Lookup(acc, name), profile[name]))
                  else Lookup(acc, name)
      decreases todo
    {
      var name :| name in todo;
      assert Lookup(more, name) == Lookup(acc, name);
      more := more[name := Merge(Lookup(more, name), profile[name])];
      todo := todo - {name};
    }
  }

  /** A single counting pass computes the "for all profiles" description of every field. */
  method BuildUnion(profiles: seq<Profile>) returns (union: Fields)
    ensures IsUnion(profiles, union)
  {
    var acc: map<string, Acc> := map[];
    for i := 0 to |profiles|
      invariant forall name :: Lookup(acc, name) == Gathered(profiles[..i], name)
    {
      acc := GatherProfile(acc, profiles[i]);
      assert profiles[..i + 1][..i] == profiles[..i];
    }
    assert profiles[..|profiles|] == profiles;
    union := map name | name in acc :: UnionField(profiles, acc[name]);
    forall name
      ensures name in union <==> exists i | 0 <= i < |profiles| :: name in profiles[i]
      ensures name in union ==> DescribesUnion(profiles, name, union[name])
    {
      assert Lookup(acc, name) == Gathered(profiles, name);
      GatheredMeans(profiles, name);
      GatheredDescription(profiles, name);
    }
  }

  // ---------------------------------------------------------------- schemas

  datatype Value = NullValue | StringValue(text: string) | OtherValue

  type JsonObject = map<string, Value>

  /** The `properties`, `required` and `additionalProperties` of an emitted object schema. */
  datatype Schema = Schema(nullable: map<string, bool>, required: set<string>, additionalProperties: bool)

  function SchemaOf(fields: Fields): Schema {
    Schema(
      map name | name in fields :: fields[name].optional,
      set name | name in fields && !fields[name].optional,
      false)
  }

  /** The emitter's loop: every field gets a property, and a guaranteed one is also required. */
  method ObjectSchema(fields: Fields) returns (schema: Schema)
    ensures schema == SchemaOf(fields)
  {
    var nullable: map<string, bool> := map[];
    var required: set<string> := {};
    var todo := fields.Keys;
    while todo != {}
      invariant todo <= fields.Keys && nullable.Keys == fields.Keys - todo
      invariant forall name | name in nullable :: nullable[name] == fields[name].optional
      invariant forall name :: name in required <==> name in fields && name !in todo && !fields[name].optional
      decreases todo
    {
      var name :| name in todo;
      nullable := nullable[name := fields[name].optional];
      if !fields[name].optional {
        required := required + {name};
      }
      todo := todo - {name};
    }
    schema := Schema(nullable, required, false);
  }

  predicate ValidValue(v: Value, nullable: bool) {
    v.StringValue? || (nullable && v.NullValue?)
  }

  predicate Valid(o: JsonObject, s: Schema) {
    && (forall name | name in s.required :: name in o)
    && (forall name | name in o :: if name in s.nullable then ValidValue(o[name], s.nullable[name]) else s.additionalProperties)
  }

  /** Valid against the schema emitted for one profile. */
  predicate ValidFor(profile: Profile, o: JsonObject) {
    Valid(o, SchemaOf(ProfileFields(profile)))
  }

  /**
   * What a profile's schema accepts, in terms of the secrets alone: every
   * secret that cannot be omitted is a string, one that can is a string, null
   * or absent, and there is nothing else.
   */
  lemma ValidExactly(profile: Profile, o: JsonObject)
    ensures ValidFor(profile, o) <==>
              && o.Keys <= profile.Keys
              && (forall name | name in profile :: profile[name].missing.Omit? || name in o)
              && (forall name | name in o ::
                    o[name].StringValue? || (o[name].NullValue? && profile[name].missing.Omit?))
  {
    ProfileFieldsDescribe(profile);
    var fields := ProfileFields(profile);
    var s := SchemaOf(fields);
    assert s.nullable.Keys == profile.Keys;
    assert forall name | name in profile :: s.nullable[name] == profile[name].missing.Omit?;
    assert forall name :: name in s.required <==> name in profile && !profile[name].missing.Omit?;
  }

  predicate Carries(o: JsonObject, name: string) {
    name in o && o[name].StringValue?
  }

  /** What is valid for one profile is valid for the union. */
  lemma UnionAcceptsEveryProfile(profiles: seq<Profile>, union: Fields, i: nat, o: JsonObject)
    requires IsUnion(profiles, union) && i < |profiles| && ValidFor(profiles[i], o)
    ensures Valid(o, SchemaOf(union))
  {
    var profile := profiles[i];
    assert profile in profiles;
    var fields := ProfileFields(profile);
    forall name | name in SchemaOf(union).required
      ensures name in o
    {
      assert DescribesUnion(profiles, name, union[name]);
      assert Guarantees(profile, name);
      assert name in SchemaOf(fields).required;
    }
    forall name | name in o
      ensures name in union && ValidValue(o[name], union[name].optional)
    {
      assert name in SchemaOf(fields).nullable;
      assert name in profiles[i];
      assert DescribesUnion(profiles, name, union[name]);
      assert fields[name].optional ==> !Guarantees(profile, name);
    }
  }

  /** The smallest object a profile's schema accepts. */
  function Smallest(profile: Profile): JsonObject {
    map name | name in profile && GuaranteedOnSuccess(profile[name].missing) :: StringValue("")
  }

  lemma RequiredIsCarried(profiles: seq<Profile>, union: Fields, name: string, i: nat, o: JsonObject)
    requires IsUnion(profiles, union) && name in union && !union[name].optional
    requires i < |profiles| && ValidFor(profiles[i], o)
    ensures Carries(o, name)
  {
    assert DescribesUnion(profiles, name, union[name]);
    assert profiles[i] in profiles;
    assert Guarantees(profiles[i], name);
    assert name in SchemaOf(ProfileFields(profiles[i])).required;
    assert name in SchemaOf(ProfileFields(profiles[i])).nullable;
  }

  lemma OptionalCanBeMissing(profiles: seq<Profile>, union: Fields, name: string) returns (i: nat)
    requires IsUnion(profiles, union) && name in union && union[name].optional
    ensures i < |profiles| && name !in Smallest(profiles[i])
    ensures ValidFor(profiles[i], Smallest(profiles[i]))
  {
    assert DescribesUnion(profiles, name, union[name]);
    var p :| p in profiles && !Guarantees(p, name);
    i :| 0 <= i < |profiles| && profiles[i] == p;
  }

  /**
   * And the union asks for no less than it could: a field is required in it
   * exactly when every object valid for any profile carries it as a string.
   */
  lemma UnionIsTight(profiles: seq<Profile>, union: Fields, name: string)
    requires IsUnion(profiles, union) && name in union
    ensures name in SchemaOf(union).required <==>
              forall i, o | 0 <= i < |profiles| && ValidFor(profiles[i], o) :: Carries(o, name)
  {
    assert name in SchemaOf(union).required <==> !union[name].optional;
    if union[name].optional {
      var i := OptionalCanBeMissing(profiles, union, name);
      assert ValidFor(profiles[i], Smallest(profiles[i])) && !Carries(Smallest(profiles[i]), name);
    } else {
      forall i, o | 0 <= i < |profiles| && ValidFor(profiles[i], o)
        ensures Carries(o, name)
      {
        RequiredIsCarried(profiles, union, name, i, o);
      }
    }
  }

  /**
   * The whole description: the union and one field set per profile, or a lone
   * default profile carrying the union when none is declared. Whatever any of
   * the emitted profile schemas accepts, the union schema accepts.
   */
  method BuildIr(profiles: seq<Profile>) returns (union: Fields, perProfile: seq<Fields>)
    ensures IsUnion(profiles, union)
    ensures perProfile == if profiles == [] then [union] else seq(|profiles|, i requires 0 <= i < |profiles| => ProfileFields(profiles[i]))
    ensures forall j, o | 0 <= j < |perProfile| && Valid(o, SchemaOf(perProfile[j])) :: Valid(o, SchemaOf(union))
  {
    union := BuildUnion(profiles);
    perProfile :=
      if profiles == [] then [union] else seq(|profiles|, i requires 0 <= i < |profiles| => ProfileFields(profiles[i]));
    forall j, o | 0 <= j < |perProfile| && Valid(o, SchemaOf(perProfile[j]))
      ensures Valid(o, SchemaOf(union))
    {
      if profiles != [] {
        UnionAcceptsEveryProfile(profiles, union, j, o);
      }
    }
  }
}
