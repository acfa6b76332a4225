/**
 * Merging manifest documents: a later document wins field by field, and what
 * it leaves unset it inherits.
 */
module Overlay {
  import opened Prelude

  // A declaration the merge copies whole and never looks into.
  type Declaration = string

  datatype ProfileDefaults = ProfileDefaults(
    inherit: Option<bool>, required: Option<bool>, default: Option<string>, providers: Option<seq<string>>)

  datatype Profile = Profile(defaults: Option<ProfileDefaults>, secrets: map<string, Declaration>)

  datatype Project = Project(name: string, revision: string, parents: Option<seq<string>>, requireReason: Option<string>)

  datatype Config = Config(
    project: Project,
    profiles: map<string, Profile>,
    defaults: Option<seq<string>>,
    providers: Option<map<string, Declaration>>,
    groups: Option<map<string, Declaration>>,
    scopes: Option<map<string, Declaration>>)

  // ---------------------------------------------------------------- the merge as a function

  /** The later setting if there is one, else the earlier. */
  function Later<T>(earlier: Option<T>, later: Option<T>): Option<T> {
    if later.Some? then later else earlier
  }

  function InheritMissing(later: ProfileDefaults, earlier: ProfileDefaults): ProfileDefaults {
    ProfileDefaults(
      Later(earlier.inherit, later.inherit),
      Later(earlier.required, later.required),
      Later(earlier.default, later.default),
      Later(earlier.providers, later.providers))
  }

  function OverlayProfile(earlier: Profile, later: Profile): Profile {
    Profile(
      if later.defaults.None? then earlier.defaults
      else if earlier.defaults.None? then later.defaults
      else Some(InheritMissing(later.defaults.value, earlier.defaults.value)),
      earlier.secrets + later.secrets)
  }

  function OverlayTable(earlier: Option<map<string, Declaration>>, later: Option<map<string, Declaration>>)
    : Option<map<string, Declaration>>
  {
    if later.None? then earlier
    else if earlier.None? then later
    else Some(earlier.value + later.value)
  }

  /** Insert the later entries, starting an empty table if there was none. */
  function ExtendTable(table: Option<map<string, Declaration>>, later: map<string, Declaration>)
    : (r: map<string, Declaration>)
    ensures Some(r) == OverlayTable(table, Some(later))
  {
    assert map[] + later == later;
    (if table.Some? then table.value else map[]) + later
  }

  function OverlayProfiles(earlier: map<string, Profile>, later: map<string, Profile>): map<string, Profile> {
    map name | name in earlier.Keys + later.Keys ::
      if name !in later then earlier[name]
      else if name !in earlier then later[name]
      else OverlayProfile(earlier[name], later[name])
  }

  function Overlay(earlier: Config, later: Config): Config {
    Config(
      later.project.(requireReason := Later(earlier.project.requireReason, later.project.requireReason)),
      OverlayProfiles(earlier.profiles, later.profiles),
      Later(earlier.defaults, later.defaults),
      OverlayTable(earlier.providers, later.providers),
      OverlayTable(earlier.groups, later.groups),
      OverlayTable(earlier.scopes, later.scopes))
  }

  // ---------------------------------------------------------------- the merge in place

  class MergedConfig {
    var project: Project
    var profiles: map<string, Profile>
    var defaults: Option<seq<string>>
    var providers: Option<map<string, Declaration>>
    var groups: Option<map<string, Declaration>>
    var scopes: Option<map<string, Declaration>>

    function Value(): Config
      reads this
    {
      Config(project, profiles, defaults, providers, groups, scopes)
    }

    constructor (first: Config)
      ensures Value() == first
    {
      project, profiles, defaults := first.project, first.profiles, first.defaults;
      providers, groups, scopes := first.providers, first.groups, first.scopes;
    }

    /** Profiles are merged one entry at a time, in whatever order the later map yields them. */
    method MergeProfiles(later: map<string, Profile>)
      modifies `profiles
      ensures profiles == OverlayProfiles(old(profiles), later)
    {
      ghost var before, merged := profiles, OverlayProfiles(profiles, later);
      var todo := later.Keys;
      while todo != {}
        invariant todo <= later.Keys
        invariant profiles.Keys == before.Keys + (later.Keys - todo)
        invariant forall n | n in profiles :: profiles[n] == if n in todo then before[n] else merged[n]
        decreases todo
      {
        var name :| name in todo;
        if name in profiles {
          profiles := profiles[name := OverlayProfile(profiles[name], later[name])];
        } else {
          profiles := profiles[name := later[name]];
        }
        todo := todo - {name};
      }
    }

    method OverlayWith(later: Config)
      modifies this
      ensures Value() == Overlay(old(Value()), later)
    {
      var inheritedRequireReason := project.requireReason;
      project := later.project;
      if project.requireReason.None? {
        project := project.(requireReason := inheritedRequireReason);
      }
      MergeProfiles(later.profiles);
      if later.defaults.Some? {
        defaults := later.defaults;
      }
      if later.providers.Some? {
        providers := Some(ExtendTable(providers, later.providers.value));
      }
      if later.groups.Some? {
        groups := Some(ExtendTable(groups, later.groups.value));
      }
      if later.scopes.Some? {
        scopes := Some(ExtendTable(scopes, later.scopes.value));
      }
    }
  }

  // ---------------------------------------------------------------- algebra

  lemma OverlayTableAssociative(
    a: Option<map<string, Declaration>>, b: Option<map<string, Declaration>>, c: Option<map<string, Declaration>>)
    ensures OverlayTable(OverlayTable(a, b), c) == OverlayTable(a, OverlayTable(b, c))
  {
    if a.Some? && b.Some? && c.Some? {
      assert (a.value + b.value) + c.value == a.value + (b.value + c.value);
    }
  }

  lemma OverlayProfileAssociative(a: Profile, b: Profile, c: Profile)
    ensures OverlayProfile(OverlayProfile(a, b), c) == OverlayProfile(a, OverlayProfile(b, c))
  {
    assert (a.secrets + b.secrets) + c.secrets == a.secrets + (b.secrets + c.secrets);
  }

  lemma OverlayProfilesAssociative(a: map<string, Profile>, b: map<string, Profile>, c: map<string, Profile>)
    ensures OverlayProfiles(OverlayProfiles(a, b), c) == OverlayProfiles(a, OverlayProfiles(b, c))
  {
    var l, r := OverlayProfiles(OverlayProfiles(a, b), c), OverlayProfiles(a, OverlayProfiles(b, c));
    assert l.Keys == r.Keys;
    forall n | n in l
      ensures l[n] == r[n]
    {
      if n in a && n in b && n in c {
        OverlayProfileAssociative(a[n], b[n], c[n]);
      }
    }
  }

  lemma OverlayAssociative(a: Config, b: Config, c: Config)
    ensures Overlay(Overlay(a, b), c) == Overlay(a, Overlay(b, c))
  {
    OverlayProfilesAssociative(a.profiles, b.profiles, c.profiles);
    OverlayTableAssociative(a.providers, b.providers, c.providers);
    OverlayTableAssociative(a.groups, b.groups, c.groups);
    OverlayTableAssociative(a.scopes, b.scopes, c.scopes);
  }

  // ---------------------------------------------------------------- folding a linearisation

  /** Documents merged from least to most specific. */
  function Fold(docs: seq<Config>): Config
    requires docs != []
  {
    if |docs| == 1 then docs[0] else Overlay(Fold(docs[..|docs| - 1]), docs[|docs| - 1])
  }

  /** Any grouping of the documents merges to the same configuration. */
  lemma {:induction false} FoldSplits(a: seq<Config>, b: seq<Config>)
    requires a != [] && b != []
    ensures Fold(a + b) == Overlay(Fold(a), Fold(b))
    decreases |b|
  {
    var n := |b| - 1;
    assert (a + b)[..|a + b| - 1] == a + b[..n];
    if n == 0 {
      assert a + b[..n] == a;
    } else {
      FoldSplits(a, b[..n]);
      OverlayAssociative(Fold(a), Fold(b[..n]), b[n]);
    }
  }

  /** A setting for which the later document wins whenever it has one. */
  ghost predicate LaterWins<V(!new)>(setting: Config -> Option<V>) {
    forall a, b {:trigger Overlay(a, b)} :: setting(Overlay(a, b)) == Later(setting(a), setting(b))
  }

  /** `v` is what the last document that sets it says, and None when no document does. */
  ghost predicate FromLastSetter<V(!new)>(docs: seq<Config>, setting: Config -> Option<V>, v: Option<V>) {
    if v.None? then forall i | 0 <= i < |docs| :: setting(docs[i]).None?
    else exists k | 0 <= k < |docs| ::
           setting(docs[k]) == v && forall i | k < i < |docs| :: setting(docs[i]).None?
  }

  lemma {:induction false} FoldTakesLast<V(!new)>(docs: seq<Config>, setting: Config -> Option<V>)
    requires docs != [] && LaterWins(setting)
    ensures FromLastSetter(docs, setting, setting(Fold(docs)))
    decreases |docs|
  {
    var n := |docs| - 1;
    if n == 0 {
      assert setting(docs[0]) == setting(Fold(docs));
    } else {
      FoldTakesLast(docs[..n], setting);
      var v := setting(Fold(docs[..n]));
      assert setting(Fold(docs)) == Later(v, setting(docs[n]));
      if setting(docs[n]).None? && v.Some? {
        var k :| 0 <= k < n && setting(docs[..n][k]) == v &&
                 forall i | k < i < n :: setting(docs[..n][i]).None?;
        assert setting(docs[k]) == v;
        forall i | k < i < |docs|
          ensures setting(docs[i]).None?
        {
          if i < n {
            assert setting(docs[..n][i]).None?;
          }
        }
      } else if setting(docs[n]).None? {
        forall i | 0 <= i < |docs|
          ensures setting(docs[i]).None?
        {
          if i < n {
            assert setting(docs[..n][i]).None?;
          }
        }
      } else {
        assert setting(docs[n]) == setting(Fold(docs));
      }
    }
  }

  function Get<V>(m: map<string, V>, key: string): Option<V> {
    if key in m then Some(m[key]) else None
  }

  function SecretOf(profile: string, name: string): Config -> Option<Declaration> {
    (c: Config) => if profile in c.profiles then Get(c.profiles[profile].secrets, name) else None
  }

  datatype Table = Providers | Groups | Scopes

  function EntryOf(table: Table, key: string): Config -> Option<Declaration> {
    (c: Config) =>
      var t := match table { case Providers => c.providers case Groups => c.groups case Scopes => c.scopes };
      if t.None? then None else Get(t.value, key)
  }

  function RequireReason(c: Config): Option<string> {
    c.project.requireReason
  }

  function ProjectDefaults(c: Config): Option<seq<string>> {
    c.defaults
  }

  function DefaultOf<V>(profile: string, field: ProfileDefaults -> Option<V>): Config -> Option<V> {
    (c: Config) =>
      if profile in c.profiles && c.profiles[profile].defaults.Some? then field(c.profiles[profile].defaults.value)
      else None
  }

  /** The meaning of a merged linearisation: every secret is the last document's that declares it. */
  lemma FoldSecrets(docs: seq<Config>, profile: string, name: string)
    requires docs != []
    ensures FromLastSetter(docs, SecretOf(profile, name), SecretOf(profile, name)(Fold(docs)))
  {
    assert LaterWins(SecretOf(profile, name));
    FoldTakesLast(docs, SecretOf(profile, name));
  }

  /** And so is every provider, group and scope. */
  lemma FoldTables(docs: seq<Config>, table: Table, name: string)
    requires docs != []
    ensures FromLastSetter(docs, EntryOf(table, name), EntryOf(table, name)(Fold(docs)))
  {
    assert LaterWins(EntryOf(table, name));
    FoldTakesLast(docs, EntryOf(table, name));
  }

  /** `require_reason` and the project-wide defaults likewise; the rest of the project table is the last document's. */
  lemma FoldProject(docs: seq<Config>)
    requires docs != []
    ensures FromLastSetter(docs, RequireReason, RequireReason(Fold(docs)))
    ensures FromLastSetter(docs, ProjectDefaults, ProjectDefaults(Fold(docs)))
    ensures Fold(docs).project == docs[|docs| - 1].project.(requireReason := Fold(docs).project.requireReason)
  {
    assert LaterWins(RequireReason) && LaterWins(ProjectDefaults);
    FoldTakesLast(docs, RequireReason);
    FoldTakesLast(docs, ProjectDefaults);
  }

  /** A field of the defaults table that is inherited when unset. */
  ghost predicate InheritedField<V(!new)>(field: ProfileDefaults -> Option<V>) {
    forall later, earlier :: field(InheritMissing(later, earlier)) == Later(field(earlier), field(later))
  }

  lemma FoldDefault<V(!new)>(docs: seq<Config>, profile: string, field: ProfileDefaults -> Option<V>)
    requires docs != [] && InheritedField(field)
    ensures FromLastSetter(docs, DefaultOf(profile, field), DefaultOf(profile, field)(Fold(docs)))
  {
    assert LaterWins(DefaultOf(profile, field));
    FoldTakesLast(docs, DefaultOf(profile, field));
  }

  /** Every field of a profile's defaults comes from the last document that sets that field. */
  lemma FoldDefaults(docs: seq<Config>, profile: string)
    requires docs != []
    ensures var f := DefaultOf(profile, (d: ProfileDefaults) => d.inherit); FromLastSetter(docs, f, f(Fold(docs)))
    ensures var f := DefaultOf(profile, (d: ProfileDefaults) => d.required); FromLastSetter(docs, f, f(Fold(docs)))
    ensures var f := DefaultOf(profile, (d: ProfileDefaults) => d.default); FromLastSetter(docs, f, f(Fold(docs)))
    ensures var f := DefaultOf(profile, (d: ProfileDefaults) => d.providers); FromLastSetter(docs, f, f(Fold(docs)))
  {
    FoldDefault(docs, profile, (d: ProfileDefaults) => d.inherit);
    FoldDefault(docs, profile, (d: ProfileDefaults) => d.required);
    FoldDefault(docs, profile, (d: ProfileDefaults) => d.default);
    FoldDefault(docs, profile, (d: ProfileDefaults) => d.providers);
  }
}
