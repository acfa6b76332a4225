/** Planning a profile's secrets and grouping them by the store they are read from first. */
module PlanGroups {
  import opened Prelude
  import Composition
  import opened CompiledSpec

  /** The raw primary spec, or None for the default provider. */
  datatype Route = Route(primary: Option<string>, fallback: seq<string>)

  datatype PlannedSecret = PlannedSecret(name: string, secret: CompiledSecret, route: Option<Route>)

  /** What planning learns from the provider aliases and the override in force; each answer may be a refusal. */
  datatype Aliases = Aliases(
    refsOk: (string, CompiledSecret) -> bool,
    routeFor: CompiledSecret -> Option<Route>,
    cacheOk: PlannedSecret -> bool)

  /** A secret produced from others routes to no store, whatever the override. */
  function PlanOne(aliases: Aliases, name: string, secret: CompiledSecret): Option<PlannedSecret> {
    if !aliases.refsOk(name, secret) then None
    else if secret.composition.Some? || secret.config.from.Some? then Some(PlannedSecret(name, secret, None))
    else
      var route := aliases.routeFor(secret);
      if route.None? || !aliases.cacheOk(PlannedSecret(name, secret, route)) then None
      else Some(PlannedSecret(name, secret, route))
  }

  type Profile = map<string, Secret>

  /** Produced from other secrets: it names a source, or its template parses. */
  predicate Derived(config: Secret) {
    config.from.Some? || (config.composed.Some? && Composition.Parse(config.composed.value).Ok?)
  }

  /** Nothing about the secret stops planning: its `refs` are known, and it is derived or has a usable route. */
  predicate Plannable(aliases: Aliases, name: string, config: Secret) {
    var secret := Compile(config);
    && aliases.refsOk(name, secret)
    && (Derived(config) ||
        (aliases.routeFor(secret).Some? && aliases.cacheOk(PlannedSecret(name, secret, aliases.routeFor(secret)))))
  }

  /** What the plan says of a secret: its own settings, and no route if it is derived, else the one looked up for it. */
  predicate Plans(aliases: Aliases, name: string, config: Secret, planned: PlannedSecret) {
    && planned.name == name && planned.secret.config == config && planned.secret == Compile(config)
    && planned.route == if Derived(config) then None else aliases.routeFor(Compile(config))
  }

  lemma PlannedExactly(aliases: Aliases, name: string, config: Secret)
    ensures var planned := PlanOne(aliases, name, Compile(config));
            && (planned.Some? <==> Plannable(aliases, name, config))
            && (planned.Some? ==> Plans(aliases, name, config, planned.value))
  {
  }

  /** The plan of a profile: one entry a name, in the order of the names. */
  predicate PlanOf(aliases: Aliases, profile: Profile, names: seq<string>, plan: seq<PlannedSecret>)
    requires forall name | name in names :: name in profile
  {
    |plan| == |names| && forall i | 0 <= i < |names| :: Plans(aliases, names[i], profile[names[i]], plan[i])
  }

  /**
   * Planning goes through the names in order and stops at the first refusal:
   * it succeeds exactly when every name is plannable.
   */
  method BuildPlan(aliases: Aliases, profile: Profile, names: seq<string>) returns (plan: Option<seq<PlannedSecret>>)
    requires forall name | name in names :: name in profile
    ensures plan.Some? <==> forall name | name in names :: Plannable(aliases, name, profile[name])
    ensures plan.Some? ==> PlanOf(aliases, profile, names, plan.value)
  {
    var secrets: seq<PlannedSecret> := [];
    for i := 0 to |names|
      invariant PlanOf(aliases, profile, names[..i], secrets)
      invariant forall name | name in names[..i] :: Plannable(aliases, name, profile[name])
    {
      var planned := PlanOne(aliases, names[i], Compile(profile[names[i]]));
      PlannedExactly(aliases, names[i], profile[names[i]]);
      if planned.None? {
        return None;
      }
      assert names[..i + 1] == names[..i] + [names[i]];
      secrets := secrets + [planned.value];
    }
    assert names[..|names|] == names;
    plan := Some(secrets);
  }

  type GroupKey = Option<string>

  type Grouping = seq<(GroupKey, seq<PlannedSecret>)>

  predicate HasKey(s: PlannedSecret, key: GroupKey) {
    s.route.Some? && s.route.value.primary == key
  }

  /** The secrets routed to one primary, in plan order. */
  function Members(secrets: seq<PlannedSecret>, key: GroupKey): seq<PlannedSecret> {
    if secrets == [] then []
    else
      var last := secrets[|secrets| - 1];
      Members(secrets[..|secrets| - 1], key) + if HasKey(last, key) then [last] else []
  }

  lemma MembersGrow(secrets: seq<PlannedSecret>, key: GroupKey)
    requires secrets != []
    ensures var rest, last := secrets[..|secrets| - 1], secrets[|secrets| - 1];
            && Members(secrets, key) == (if HasKey(last, key) then Members(rest, key) + [last] else Members(rest, key))
            && multiset(Members(secrets, key)) ==
               multiset(Members(rest, key)) + if HasKey(last, key) then multiset{last} else multiset{}
  {
  }

  /** The primaries in first-seen order. */
  function Keys(secrets: seq<PlannedSecret>): seq<GroupKey> {
    if secrets == [] then []
    else
      var before, last := Keys(secrets[..|secrets| - 1]), secrets[|secrets| - 1];
      if last.route.Some? && last.route.value.primary !in before then before + [last.route.value.primary] else before
  }

  function Grouped(secrets: seq<PlannedSecret>): Grouping {
    var keys := Keys(secrets);
    seq(|keys|, i requires 0 <= i < |keys| => (keys[i], Members(secrets, keys[i])))
  }

  lemma {:induction false} KeysDistinct(secrets: seq<PlannedSecret>)
    ensures forall i, j | 0 <= i < j < |Keys(secrets)| :: Keys(secrets)[i] != Keys(secrets)[j]
    ensures forall key :: key in Keys(secrets) <==> exists i | 0 <= i < |secrets| :: HasKey(secrets[i], key)
    decreases |secrets|
  {
    if secrets != [] {
      var n := |secrets| - 1;
      KeysDistinct(secrets[..n]);
      assert forall i | 0 <= i < n :: secrets[..n][i] == secrets[i];
    }
  }

  lemma {:induction false} NoMembers(secrets: seq<PlannedSecret>, key: GroupKey)
    requires key !in Keys(secrets)
    ensures Members(secrets, key) == []
    decreases |secrets|
  {
    if secrets != [] {
      NoMembers(secrets[..|secrets| - 1], key);
    }
  }

  /** The first position at which a primary is used. */
  predicate FirstUse(secrets: seq<PlannedSecret>, key: GroupKey, at: nat) {
    at < |secrets| && HasKey(secrets[at], key) && forall i | 0 <= i < at :: !HasKey(secrets[i], key)
  }

  lemma {:induction false} KeysInFirstUseOrder(secrets: seq<PlannedSecret>, i: nat, j: nat, a: nat, b: nat)
    requires i < j < |Keys(secrets)| && FirstUse(secrets, Keys(secrets)[i], a) && FirstUse(secrets, Keys(secrets)[j], b)
    ensures a < b
    decreases |secrets|
  {
    var n := |secrets| - 1;
    var keys, before := Keys(secrets), Keys(secrets[..n]);
    KeysDistinct(secrets);
    KeysDistinct(secrets[..n]);
    if j < |before| {
      assert keys[i] in before && keys[j] in before;
      var x :| 0 <= x < n && HasKey(secrets[..n][x], keys[i]);
      var y :| 0 <= y < n && HasKey(secrets[..n][y], keys[j]);
      assert HasKey(secrets[x], keys[i]) && HasKey(secrets[y], keys[j]);
      assert FirstUse(secrets[..n], keys[i], a) && FirstUse(secrets[..n], keys[j], b);
      KeysInFirstUseOrder(secrets[..n], i, j, a, b);
    } else {
      assert keys[i] in before;
      var x :| 0 <= x < n && HasKey(secrets[..n][x], keys[i]);
      assert HasKey(secrets[x], keys[i]);
      forall y | 0 <= y < n
        ensures !HasKey(secrets[y], keys[j])
      {
        assert secrets[y] == secrets[..n][y];
      }
    }
  }

  /** Which secrets a group holds: exactly those with its key, none of them derived. */
  lemma {:induction false} MembersExactly(secrets: seq<PlannedSecret>, key: GroupKey, s: PlannedSecret)
    ensures s in Members(secrets, key) <==> s in secrets && HasKey(s, key)
    decreases |secrets|
  {
    if secrets != [] {
      var n := |secrets| - 1;
      MembersExactly(secrets[..n], key, s);
      assert secrets == secrets[..n] + [secrets[n]];
    }
  }

  predicate InGroup(plan: seq<PlannedSecret>, key: GroupKey, s: PlannedSecret) {
    key in Keys(plan) && s in Members(plan, key)
  }

  /**
   * Of a profile's plan, exactly the secrets that are not derived are in a
   * group, and then in one only: the group keyed by the primary of the route
   * looked up for the secret.
   */
  lemma GroupedByOwnRoute(aliases: Aliases, profile: Profile, names: seq<string>, plan: seq<PlannedSecret>, i: nat)
    requires forall name | name in names :: name in profile
    requires PlanOf(aliases, profile, names, plan) && i < |names|
    ensures forall key :: InGroup(plan, key, plan[i]) <==>
              && !Derived(profile[names[i]])
              && aliases.routeFor(Compile(profile[names[i]])).Some?
              && aliases.routeFor(Compile(profile[names[i]])).value.primary == key
  {
    var s := plan[i];
    assert Plans(aliases, names[i], profile[names[i]], s);
    KeysDistinct(plan);
    forall key
      ensures InGroup(plan, key, s) <==> HasKey(s, key)
    {
      MembersExactly(plan, key, s);
      if HasKey(s, key) {
        assert HasKey(plan[i], key);
      }
    }
  }

  function Routed(secrets: seq<PlannedSecret>): multiset<PlannedSecret> {
    if secrets == [] then multiset{}
    else
      var last := secrets[|secrets| - 1];
      Routed(secrets[..|secrets| - 1]) + if last.route.Some? then multiset{last} else multiset{}
  }

  function Contents(secrets: seq<PlannedSecret>, keys: seq<GroupKey>): multiset<PlannedSecret> {
    if keys == [] then multiset{} else multiset(Members(secrets, keys[0])) + Contents(secrets, keys[1..])
  }

  /** The share of a new last secret in the groups of `keys`. */
  function Share(last: PlannedSecret, keys: seq<GroupKey>): multiset<PlannedSecret> {
    if last.route.Some? && last.route.value.primary in keys then multiset{last} else multiset{}
  }

  lemma ShareOfFirst(last: PlannedSecret, keys: seq<GroupKey>)
    requires keys != [] && forall i, j | 0 <= i < j < |keys| :: keys[i] != keys[j]
    ensures Share(last, keys) == Share(last, keys[1..]) + if HasKey(last, keys[0]) then multiset{last} else multiset{}
  {
    assert keys == [keys[0]] + keys[1..];
    assert forall i | 0 <= i < |keys[1..]| :: keys[1..][i] != keys[0];
  }

  lemma {:induction false} ContentsGrow(secrets: seq<PlannedSecret>, keys: seq<GroupKey>)
    requires secrets != [] && forall i, j | 0 <= i < j < |keys| :: keys[i] != keys[j]
    ensures Contents(secrets, keys) == Contents(secrets[..|secrets| - 1], keys) + Share(secrets[|secrets| - 1], keys)
    decreases |keys|
  {
    if keys != [] {
      ContentsGrow(secrets, keys[1..]);
      MembersGrow(secrets, keys[0]);
      ShareOfFirst(secrets[|secrets| - 1], keys);
    }
  }

  lemma {:induction false} ContentsSnoc(secrets: seq<PlannedSecret>, keys: seq<GroupKey>, key: GroupKey)
    ensures Contents(secrets, keys + [key]) == Contents(secrets, keys) + multiset(Members(secrets, key))
    decreases |keys|
  {
    if keys == [] {
      assert (keys + [key])[1..] == [];
    } else {
      assert (keys + [key])[1..] == keys[1..] + [key];
      ContentsSnoc(secrets, keys[1..], key);
    }
  }

  /** The groups together hold every routed secret exactly as often as the plan does. */
  lemma {:induction false} GroupsPartition(secrets: seq<PlannedSecret>)
    ensures Contents(secrets, Keys(secrets)) == Routed(secrets)
    decreases |secrets|
  {
    if secrets != [] {
      var n := |secrets| - 1;
      var rest, last := secrets[..n], secrets[n];
      GroupsPartition(rest);
      KeysDistinct(secrets);
      ContentsGrow(secrets, Keys(secrets));
      if Keys(secrets) != Keys(rest) {
        ContentsSnoc(rest, Keys(rest), last.route.value.primary);
        NoMembers(rest, last.route.value.primary);
      }
    }
  }

  /** The index map only ever points at the group with that key. */
  ghost predicate Indexed(groups: Grouping, index: map<GroupKey, nat>) {
    && (forall key | key in index :: index[key] < |groups| && groups[index[key]].0 == key)
    && (forall i | 0 <= i < |groups| :: groups[i].0 in index && index[groups[i].0] == i)
  }

  /** A secret with no route joins no group. */
  lemma UnroutedJoinsNone(secrets: seq<PlannedSecret>)
    requires secrets != [] && secrets[|secrets| - 1].route.None?
    ensures Grouped(secrets) == Grouped(secrets[..|secrets| - 1])
  {
    var rest := secrets[..|secrets| - 1];
    forall key
      ensures Members(secrets, key) == Members(rest, key)
    {
      MembersGrow(secrets, key);
    }
  }

  /** A secret whose primary is known joins that group, at its end; the others stay as they are. */
  lemma KnownKeyGrows(secrets: seq<PlannedSecret>, at: nat)
    requires secrets != [] && at < |Keys(secrets[..|secrets| - 1])|
    requires HasKey(secrets[|secrets| - 1], Keys(secrets[..|secrets| - 1])[at])
    ensures var groups := Grouped(secrets[..|secrets| - 1]);
            Grouped(secrets) == groups[at := (groups[at].0, groups[at].1 + [secrets[|secrets| - 1]])]
  {
    var rest := secrets[..|secrets| - 1];
    var keys := Keys(rest);
    assert Keys(secrets) == keys;
    KeysDistinct(rest);
    forall i | 0 <= i < |keys|
      ensures Members(secrets, keys[i]) ==
              if i == at then Members(rest, keys[i]) + [secrets[|secrets| - 1]] else Members(rest, keys[i])
    {
      MembersGrow(secrets, keys[i]);
    }
  }

  /** A secret with a new primary opens a group of its own. */
  lemma NewKeyGrows(secrets: seq<PlannedSecret>, key: GroupKey)
    requires secrets != [] && HasKey(secrets[|secrets| - 1], key) && key !in Keys(secrets[..|secrets| - 1])
    ensures Grouped(secrets) == Grouped(secrets[..|secrets| - 1]) + [(key, [secrets[|secrets| - 1]])]
  {
    var rest, last := secrets[..|secrets| - 1], secrets[|secrets| - 1];
    var keys, all := Keys(rest), Keys(secrets);
    assert all == keys + [key];
    forall i | 0 <= i < |keys|
      ensures all[i] == keys[i] && Members(secrets, all[i]) == Members(rest, keys[i])
    {
      assert keys[i] in keys;
      MembersGrow(secrets, keys[i]);
    }
    NoMembers(rest, key);
    MembersGrow(secrets, key);
    assert all[|keys|] == key && Members(secrets, all[|keys|]) == [last];
  }

  method Groups(secrets: seq<PlannedSecret>) returns (groups: Grouping)
    ensures groups == Grouped(secrets)
  {
    groups := [];
    var groupIndex: map<GroupKey, nat> := map[];
    for i := 0 to |secrets|
      invariant groups == Grouped(secrets[..i]) && Indexed(groups, groupIndex)
    {
      var secret := secrets[i];
      assert secrets[..i + 1][..i] == secrets[..i];
      ghost var keys := Keys(secrets[..i]);
      assert forall j | 0 <= j < |keys| :: groups[j].0 == keys[j];
      if secret.route.None? {
        UnroutedJoinsNone(secrets[..i + 1]);
      } else {
        var primary := secret.route.value.primary;
        if primary in groupIndex {
          var at := groupIndex[primary];
          KnownKeyGrows(secrets[..i + 1], at);
          groups := groups[at := (primary, groups[at].1 + [secret])];
        } else {
          assert primary !in keys;
          NewKeyGrows(secrets[..i + 1], primary);
          groupIndex := groupIndex[primary := |groups|];
          groups := groups + [(primary, [secret])];
        }
      }
    }
    assert secrets[..|secrets|] == secrets;
  }
}
