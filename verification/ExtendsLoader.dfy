/**
 * Loading a manifest and everything it extends: a depth-first walk that emits
 * each document once, after everything that document extends, and folds the
 * emitted sequence into one configuration.
 */
module ExtendsLoader {
  import opened Prelude
  import opened Digraph
  import opened Overlay

  /** A readable manifest with its `extends` entries resolved to canonical paths. */
  datatype Document = Document(config: Config, parents: seq<string>)

  type Files = map<string, Document>

  datatype LoadError = Circular(path: string) | Missing(path: string)

  type Walk = Result<seq<string>, LoadError>

  function Links(files: Files): Graph {
    map path | path in files :: files[path].parents
  }

  // ---------------------------------------------------------------- the walk as a function

  /** The paths emitted so far, extended by a visit to `path`. */
  function Visit(g: Graph, path: string, active: set<string>, emitted: seq<string>): Walk
    decreases g.Keys - active, 0
  {
    if path in emitted then Ok(emitted)
    else if path in active then Err(Circular(path))
    else if path !in g then Err(Missing(path))
    else
      assert path in g.Keys - active;
      var r := VisitExtends(g, g[path], active + {path}, emitted);
      if r.Ok? then Ok(r.value + [path]) else r
  }

  function VisitExtends(g: Graph, parents: seq<string>, active: set<string>, emitted: seq<string>): Walk
    decreases g.Keys - active, |parents|
  {
    if parents == [] then Ok(emitted)
    else
      var r := Visit(g, parents[0], active, emitted);
      if r.Ok? then VisitExtends(g, parents[1..], active, r.value) else r
  }

  // ---------------------------------------------------------------- what the walk keeps

  function Elements(s: seq<string>): set<string> {
    set x | x in s
  }

  /** `stack` is the chain of documents being read; `emitted` is complete and dependency-first. */
  ghost predicate Sound(g: Graph, root: string, stack: seq<string>, emitted: seq<string>) {
    && (stack != [] ==> IsPath(g, stack))
    && NoDuplicates(emitted)
    && (forall x | x in emitted :: x in g && x !in stack && Reaches(g, root, x))
    && (forall x, d | x in emitted && Edge(g, x, d) :: d in g)
    && DependenciesFirst(g, emitted)
  }

  ghost predicate CycleReachable(g: Graph, root: string) {
    exists p :: IsCycle(g, p) && Reaches(g, root, p[0])
  }

  ghost predicate OnCycle(g: Graph, path: string) {
    exists p :: IsCycle(g, p) && p[0] == path
  }

  /** Whatever the walk from `root` reports is true of the graph. */
  ghost predicate Justified(g: Graph, root: string, e: LoadError) {
    Reaches(g, root, e.path) && if e.Circular? then OnCycle(g, e.path) else e.path !in g
  }

  lemma BackEdgeJustified(g: Graph, stack: seq<string>, path: string)
    requires stack != [] && IsPath(g, stack) && path in stack && Edge(g, stack[|stack| - 1], path)
    ensures OnCycle(g, path)
  {
    var at := FirstOccurrence(stack, path);
    BackEdgeCloses(g, stack, at);
    assert (stack[at..] + [path])[0] == path;
  }

  lemma EmitSound(g: Graph, root: string, path: string, stack: seq<string>, emitted: seq<string>)
    requires path in g && Sound(g, root, stack + [path], emitted) && Reaches(g, root, path)
    requires path !in stack && forall d | d in g[path] :: d in emitted
    ensures Sound(g, root, stack, emitted + [path])
  {
    var entered, emitted' := stack + [path], emitted + [path];
    assert entered[|stack|] == path;
    if stack != [] {
      forall i | 0 <= i < |stack| - 1
        ensures Edge(g, stack[i], stack[i + 1])
      {
        assert Edge(g, entered[i], entered[i + 1]);
      }
    }
    forall x | x in emitted'
      ensures x in g && x !in stack && Reaches(g, root, x)
    {
      assert x in emitted || x == path;
      assert x in stack ==> x in entered;
    }
    forall i, d | 0 <= i < |emitted'| && Edge(g, emitted'[i], d) && d in g
      ensures d in emitted'[..i]
    {
      assert emitted'[..i] == if i < |emitted| then emitted[..i] else emitted;
    }
  }

  lemma {:induction false} VisitSound(
    g: Graph, root: string, path: string, stack: seq<string>, emitted: seq<string>)
    requires Sound(g, root, stack, emitted) && Reaches(g, root, path)
    requires stack == [] || Edge(g, stack[|stack| - 1], path)
    ensures var r := Visit(g, path, Elements(stack), emitted);
            && (r.Ok? ==> Sound(g, root, stack, r.value) && emitted <= r.value && path in r.value)
            && (r.Err? ==> Justified(g, root, r.error))
    decreases g.Keys - Elements(stack), 0
  {
    if path in emitted {
    } else if path in stack {
      BackEdgeJustified(g, stack, path);
    } else if path in g {
      var entered := stack + [path];
      if stack != [] {
        PathExtends(g, stack, path);
      }
      assert Elements(entered) == Elements(stack) + {path};
      assert path in g.Keys - Elements(stack);
      assert Sound(g, root, entered, emitted);
      VisitExtendsSound(g, root, g[path], entered, emitted);
      var r := VisitExtends(g, g[path], Elements(entered), emitted);
      if r.Ok? {
        EmitSound(g, root, path, stack, r.value);
      }
    }
  }

  lemma {:induction false} VisitExtendsSound(
    g: Graph, root: string, parents: seq<string>, stack: seq<string>, emitted: seq<string>)
    requires Sound(g, root, stack, emitted)
    requires stack != [] && Reaches(g, root, stack[|stack| - 1])
    requires forall i | 0 <= i < |parents| :: Edge(g, stack[|stack| - 1], parents[i])
    ensures var r := VisitExtends(g, parents, Elements(stack), emitted);
            && (r.Ok? ==> Sound(g, root, stack, r.value) && emitted <= r.value && forall d | d in parents :: d in r.value)
            && (r.Err? ==> Justified(g, root, r.error))
    decreases g.Keys - Elements(stack), |parents|
  {
    if parents != [] {
      ReachesStep(g, root, stack[|stack| - 1], parents[0]);
      VisitSound(g, root, parents[0], stack, emitted);
      var r := Visit(g, parents[0], Elements(stack), emitted);
      if r.Ok? {
        VisitExtendsSound(g, root, parents[1..], stack, r.value);
      }
    }
  }

  // ---------------------------------------------------------------- what a load means

  lemma {:induction false} ReachableIsEmitted(g: Graph, root: string, emitted: seq<string>, p: seq<string>)
    requires Sound(g, root, [], emitted) && IsPath(g, p) && p[0] in emitted
    ensures p[|p| - 1] in emitted
    decreases |p|
  {
    if 1 < |p| {
      assert Edge(g, p[0], p[1]);
      var i :| 0 <= i < |emitted| && emitted[i] == p[0];
      assert p[1] in emitted[..i];
      PathTail(g, p);
      ReachableIsEmitted(g, root, emitted, p[1..]);
    }
  }

  /**
   * A load that succeeds emits exactly the documents reachable from the root,
   * each once and after everything it extends, the root last. A load that
   * fails names a reachable document that lies on a cycle or does not exist.
   */
  lemma LoadIsSound(g: Graph, root: string)
    ensures var r := Visit(g, root, {}, []);
            && (r.Err? ==> Justified(g, root, r.error))
            && (r.Ok? ==>
                  && NoDuplicates(r.value) && r.value != [] && r.value[|r.value| - 1] == root
                  && (forall x :: x in r.value <==> Reaches(g, root, x))
                  && (forall i, d | 0 <= i < |r.value| && Edge(g, r.value[i], d) :: d in r.value[..i]))
  {
    ReachesRefl(g, root);
    assert Elements([]) == {};
    VisitSound(g, root, root, [], []);
    var r := Visit(g, root, {}, []);
    if r.Ok? {
      forall x | Reaches(g, root, x)
        ensures x in r.value
      {
        var p :| Joins(g, p, root, x);
        ReachableIsEmitted(g, root, r.value, p);
      }
    }
  }

  /** Success exactly when no cycle and no missing document is reachable; with none missing, failure is exactly a cycle. */
  lemma LoadOutcome(g: Graph, root: string)
    ensures Visit(g, root, {}, []).Ok? <==>
              (forall x | Reaches(g, root, x) :: x in g) && !CycleReachable(g, root)
    ensures (forall x | Reaches(g, root, x) :: x in g) ==>
              ((Visit(g, root, {}, []).Err? && Visit(g, root, {}, []).error.Circular?) <==> CycleReachable(g, root))
  {
    LoadIsSound(g, root);
    ReachesRefl(g, root);
    assert Elements([]) == {};
    VisitSound(g, root, root, [], []);
    var r := Visit(g, root, {}, []);
    if r.Ok? {
      forall p | IsCycle(g, p)
        ensures !Reaches(g, root, p[0])
      {
        CycleNotListed(g, r.value, p);
      }
    }
  }

  // ---------------------------------------------------------------- the two entry points

  function Documents(files: Files, order: seq<string>): seq<Config>
    requires forall x | x in order :: x in files
  {
    seq(|order|, i requires 0 <= i < |order| => files[order[i]].config)
  }

  lemma {:induction false} EmitsFiles(g: Graph, path: string, active: set<string>, emitted: seq<string>)
    requires forall x | x in emitted :: x in g
    ensures var r := Visit(g, path, active, emitted); r.Ok? ==> path in r.value && forall x | x in r.value :: x in g
    decreases g.Keys - active, 0
  {
    if path !in emitted && path !in active && path in g {
      assert path in g.Keys - active;
      ExtendsEmitsFiles(g, g[path], active + {path}, emitted);
    }
  }

  lemma {:induction false} ExtendsEmitsFiles(g: Graph, parents: seq<string>, active: set<string>, emitted: seq<string>)
    requires forall x | x in emitted :: x in g
    ensures var r := VisitExtends(g, parents, active, emitted); r.Ok? ==> forall x | x in r.value :: x in g
    decreases g.Keys - active, |parents|
  {
    if parents != [] {
      EmitsFiles(g, parents[0], active, emitted);
      var r := Visit(g, parents[0], active, emitted);
      if r.Ok? {
        ExtendsEmitsFiles(g, parents[1..], active, r.value);
      }
    }
  }

  /** Load a manifest by path. */
  function LoadResult(files: Files, root: string): Result<Config, LoadError> {
    EmitsFiles(Links(files), root, {}, []);
    match Visit(Links(files), root, {}, [])
    case Ok(order) => Ok(Fold(Documents(files, order)))
    case Err(e) => Err(e)
  }

  /** Merge an already parsed root with what it extends. */
  function RootResult(files: Files, root: Document): Result<Config, LoadError> {
    ExtendsEmitsFiles(Links(files), root.parents, {}, []);
    match VisitExtends(Links(files), root.parents, {}, [])
    case Ok(order) => Ok(Fold(Documents(files, order) + [root.config]))
    case Err(e) => Err(e)
  }

  /** A walk that succeeds with `x` marked active never met it, so the mark made no difference. */
  lemma {:induction false} ActiveNeverMet(g: Graph, path: string, x: string, active: set<string>, emitted: seq<string>)
    requires x !in emitted
    requires Visit(g, path, active + {x}, emitted).Ok?
    ensures Visit(g, path, active, emitted) == Visit(g, path, active + {x}, emitted)
    ensures x !in Visit(g, path, active, emitted).value
    decreases g.Keys - active, 0
  {
    if path !in emitted {
      assert path != x && path in g.Keys - active;
      assert active + {path} + {x} == active + {x} + {path};
      ActiveNeverMetExtends(g, g[path], x, active + {path}, emitted);
    }
  }

  lemma {:induction false} ActiveNeverMetExtends(
    g: Graph, parents: seq<string>, x: string, active: set<string>, emitted: seq<string>)
    requires x !in emitted
    requires VisitExtends(g, parents, active + {x}, emitted).Ok?
    ensures VisitExtends(g, parents, active, emitted) == VisitExtends(g, parents, active + {x}, emitted)
    ensures x !in VisitExtends(g, parents, active, emitted).value
    decreases g.Keys - active, |parents|
  {
    if parents != [] {
      ActiveNeverMet(g, parents[0], x, active, emitted);
      ActiveNeverMetExtends(g, parents[1..], x, active, Visit(g, parents[0], active, emitted).value);
    }
  }

  lemma {:induction false} ParentsSound(g: Graph, root: string, parents: seq<string>, emitted: seq<string>)
    requires Sound(g, root, [], emitted) && forall i | 0 <= i < |parents| :: Edge(g, root, parents[i])
    ensures var r := VisitExtends(g, parents, {}, emitted);
            r.Ok? ==> Sound(g, root, [], r.value) && emitted <= r.value && forall d | d in parents :: d in r.value
    decreases |parents|
  {
    if parents != [] {
      ReachesRefl(g, root);
      ReachesStep(g, root, root, parents[0]);
      assert Elements([]) == {};
      VisitSound(g, root, parents[0], [], emitted);
      var r := Visit(g, parents[0], {}, emitted);
      if r.Ok? {
        ParentsSound(g, root, parents[1..], r.value);
      }
    }
  }

  /** A document with a non-empty way there from the root is emitted by visiting the root's parents. */
  lemma BeyondRootIsEmitted(g: Graph, root: string, p: seq<string>)
    requires root in g && IsPath(g, p) && p[0] == root && 2 <= |p|
    requires VisitExtends(g, g[root], {}, []).Ok?
    ensures p[|p| - 1] in VisitExtends(g, g[root], {}, []).value
    ensures Sound(g, root, [], VisitExtends(g, g[root], {}, []).value)
  {
    ParentsSound(g, root, g[root], []);
    assert Edge(g, p[0], p[1]);
    PathTail(g, p);
    ReachableIsEmitted(g, root, VisitExtends(g, g[root], {}, []).value, p[1..]);
  }

  lemma ParentsLoadImpliesLoad(g: Graph, root: string)
    requires root in g && VisitExtends(g, g[root], {}, []).Ok?
    ensures Visit(g, root, {}, []).Ok?
  {
    var order := VisitExtends(g, g[root], {}, []).value;
    ParentsSound(g, root, g[root], []);
    forall x | Reaches(g, root, x)
      ensures x in g
      ensures x != root ==> x in order
    {
      var p :| Joins(g, p, root, x);
      if 2 <= |p| {
        BeyondRootIsEmitted(g, root, p);
      }
    }
    forall p | IsCycle(g, p)
      ensures !Reaches(g, root, p[0])
    {
      CycleNotListed(g, order, p);
      if p[0] == root {
        BeyondRootIsEmitted(g, root, p);
      }
    }
    LoadOutcome(g, root);
  }

  /**
   * Loading a path and merging its parsed root succeed on the same graphs, and
   * then give the same configuration.
   */
  lemma EntryPointsAgree(files: Files, root: string)
    requires root in files
    ensures LoadResult(files, root).Ok? <==> RootResult(files, files[root]).Ok?
    ensures LoadResult(files, root).Ok? ==> RootResult(files, files[root]) == LoadResult(files, root)
  {
    var g := Links(files);
    if RootResult(files, files[root]).Ok? {
      ParentsLoadImpliesLoad(g, root);
    }
    if LoadResult(files, root).Ok? {
      assert {} + {root} == {root};
      ActiveNeverMetExtends(g, g[root], root, {}, []);
      var order := VisitExtends(g, g[root], {}, []).value;
      EmitsFiles(g, root, {}, []);
      ExtendsEmitsFiles(g, g[root], {}, []);
      assert Documents(files, order + [root]) == Documents(files, order) + [files[root].config];
    }
  }

  // ---------------------------------------------------------------- what is loaded

  /** `order` lists the documents reachable from the root once each, extended before extending, the root last. */
  ghost predicate Linearises(files: Files, root: string, order: seq<string>) {
    && NoDuplicates(order) && order != [] && order[|order| - 1] == root
    && (forall x :: x in order <==> Reaches(Links(files), root, x))
    && (forall x | x in order :: x in files)
    && (forall i, d | 0 <= i < |order| && d in files[order[i]].parents :: d in order[..i])
  }

  lemma LoadedLinearises(files: Files, root: string) returns (order: seq<string>)
    requires LoadResult(files, root).Ok?
    ensures Linearises(files, root, order) && LoadResult(files, root) == Ok(Fold(Documents(files, order)))
  {
    var g := Links(files);
    order := Visit(g, root, {}, []).value;
    LoadIsSound(g, root);
    EmitsFiles(g, root, {}, []);
    assert forall i | 0 <= i < |order| :: order[i] in order;
    forall i, d | 0 <= i < |order| && d in files[order[i]].parents
      ensures d in order[..i]
    {
      assert Edge(g, order[i], d);
    }
  }

  /** The last document of an order that has a setting. */
  ghost predicate Supplies<V(!new)>(files: Files, order: seq<string>, k: nat, setting: Config -> Option<V>)
    requires forall x | x in order :: x in files
  {
    && k < |order| && setting(files[order[k]].config).Some?
    && forall i | k < i < |order| :: setting(files[order[i]].config).None?
  }

  lemma LastSetterSupplies<V(!new)>(files: Files, order: seq<string>, setting: Config -> Option<V>, v: Option<V>)
    requires (forall x | x in order :: x in files) && FromLastSetter(Documents(files, order), setting, v)
    ensures v.None? ==> forall x | x in order :: setting(files[x].config).None?
    ensures v.Some? ==> exists k: nat :: Supplies(files, order, k, setting) && setting(files[order[k]].config) == v
  {
    var docs := Documents(files, order);
    assert forall i | 0 <= i < |order| :: docs[i] == files[order[i]].config;
    if v.Some? {
      var k :| 0 <= k < |docs| && setting(docs[k]) == v && forall i | k < i < |docs| :: setting(docs[i]).None?;
      assert Supplies(files, order, k, setting);
    }
  }

  /** A document that extends another, directly or not, comes after it. */
  lemma ExtendedComesFirst(files: Files, root: string, order: seq<string>, i: nat, k: nat)
    requires Linearises(files, root, order) && i < |order| && k < |order| && i != k
    requires Reaches(Links(files), order[i], order[k])
    ensures k < i
  {
    var g := Links(files);
    var p :| Joins(g, p, order[i], order[k]);
    forall m | 0 <= m < |p|
      ensures p[m] in g
    {
      PathStaysListed(files, root, order, p, m);
    }
    forall j, d | 0 <= j < |order| && Edge(g, order[j], d) && d in g
      ensures d in order[..j]
    {
      assert d in files[order[j]].parents;
    }
    var j := PathRunsForward(g, order, p, i);
  }

  lemma {:induction false} PathStaysListed(files: Files, root: string, order: seq<string>, p: seq<string>, m: nat)
    requires Linearises(files, root, order) && IsPath(Links(files), p) && p[0] in order && m < |p|
    ensures p[m] in order
  {
    if m > 0 {
      PathStaysListed(files, root, order, p, m - 1);
      assert Edge(Links(files), p[m - 1], p[m]);
      var i :| 0 <= i < |order| && order[i] == p[m - 1];
      assert p[m] in order[..i];
    }
  }

  /** The value of a loaded setting, and the document it comes from. */
  ghost predicate Decides<V(!new)>(files: Files, root: string, setting: Config -> Option<V>, v: Option<V>) {
    if v.None? then forall x | Reaches(Links(files), root, x) && x in files :: setting(files[x].config).None?
    else exists x | x in files :: Winner(files, root, setting, v, x)
  }

  /** A reachable document with the setting, which no other reachable document that has it extends. */
  ghost predicate Winner<V(!new)>(files: Files, root: string, setting: Config -> Option<V>, v: Option<V>, x: string)
    requires x in files
  {
    && Reaches(Links(files), root, x) && setting(files[x].config) == v
    && forall y | y in files && y != x && Reaches(Links(files), root, y) && Reaches(Links(files), y, x) ::
         setting(files[y].config).None?
  }

  lemma SuppliedDecides<V(!new)>(
    files: Files, root: string, order: seq<string>, setting: Config -> Option<V>, v: Option<V>)
    requires Linearises(files, root, order) && FromLastSetter(Documents(files, order), setting, v)
    ensures Decides(files, root, setting, v)
    ensures root in files && setting(files[root].config).Some? ==> v == setting(files[root].config)
  {
    LastSetterSupplies(files, order, setting, v);
    if v.Some? {
      var k: nat :| Supplies(files, order, k, setting) && setting(files[order[k]].config) == v;
      var x := order[k];
      forall y | y in files && y != x && Reaches(Links(files), root, y) && Reaches(Links(files), y, x)
        ensures setting(files[y].config).None?
      {
        var i :| 0 <= i < |order| && order[i] == y;
        ExtendedComesFirst(files, root, order, i, k);
      }
      assert x in order;
      assert Winner(files, root, setting, v, x);
    }
    assert order[|order| - 1] in order;
  }

  /**
   * Every secret of a loaded configuration is declared by a reachable document
   * and overridden by none that extends that one, and is absent only if no
   * reachable document declares it; the root's own declarations always win.
   */
  lemma LoadedSecrets(files: Files, root: string, profile: string, name: string)
    requires LoadResult(files, root).Ok?
    ensures var setting := SecretOf(profile, name);
            var v := setting(LoadResult(files, root).value);
            && Decides(files, root, setting, v)
            && root in files && (setting(files[root].config).Some? ==> v == setting(files[root].config))
  {
    var order := LoadedLinearises(files, root);
    FoldSecrets(Documents(files, order), profile, name);
    SuppliedDecides(files, root, order, SecretOf(profile, name), SecretOf(profile, name)(LoadResult(files, root).value));
    assert order[|order| - 1] in order;
  }

  /** So are providers, groups and scopes. */
  lemma LoadedTables(files: Files, root: string, table: Table, key: string)
    requires LoadResult(files, root).Ok?
    ensures var setting := EntryOf(table, key);
            var v := setting(LoadResult(files, root).value);
            && Decides(files, root, setting, v)
            && root in files && (setting(files[root].config).Some? ==> v == setting(files[root].config))
  {
    var order := LoadedLinearises(files, root);
    FoldTables(Documents(files, order), table, key);
    SuppliedDecides(files, root, order, EntryOf(table, key), EntryOf(table, key)(LoadResult(files, root).value));
    assert order[|order| - 1] in order;
  }

  // ---------------------------------------------------------------- the loader in place

  class ConfigGraphLoader {
    const files: Files
    var active: set<string>
    var emitted: set<string>
    var documents: seq<Config>
    ghost var order: seq<string>

    ghost predicate Valid()
      reads this
    {
      && emitted == Elements(order)
      && (forall x | x in order :: x in files)
      && documents == Documents(files, order)
    }

    constructor (files: Files)
      ensures Valid() && this.files == files && active == {} && order == []
    {
      this.files, active, emitted, documents, order := files, {}, {}, [], [];
    }

    /** Emit what `path` extends and then `path` itself, unless it was emitted before. */
    method VisitFile(path: string) returns (error: Option<LoadError>)
      requires Valid()
      modifies this
      ensures var r := Visit(Links(files), path, old(active), old(order));
              && (r.Ok? ==> error == None && Valid() && active == old(active) && order == r.value)
              && (r.Err? ==> error == Some(r.error))
      decreases Links(files).Keys - active, 0
    {
      if path in emitted {
        return None;
      }
      if path in active {
        return Some(Circular(path));
      }
      if path !in files {
        return Some(Missing(path));
      }
      assert path in Links(files).Keys - active;
      active := active + {path};
      error := VisitParents(files[path].parents);
      if error.Some? {
        return;
      }
      active := active - {path};
      emitted := emitted + {path};
      documents := documents + [files[path].config];
      order := order + [path];
      assert active == old(active);
      assert documents == Documents(files, order);
    }

    method VisitParents(parents: seq<string>) returns (error: Option<LoadError>)
      requires Valid()
      modifies this
      ensures var r := VisitExtends(Links(files), parents, old(active), old(order));
              && (r.Ok? ==> error == None && Valid() && active == old(active) && order == r.value)
              && (r.Err? ==> error == Some(r.error))
      decreases Links(files).Keys - active, 1
    {
      var i := 0;
      while i < |parents|
        invariant 0 <= i <= |parents| && Valid() && active == old(active)
        invariant VisitExtends(Links(files), parents, old(active), old(order)) ==
                  VisitExtends(Links(files), parents[i..], active, order)
      {
        assert parents[i..][1..] == parents[i + 1..];
        error := VisitFile(parents[i]);
        if error.Some? {
          return;
        }
        i := i + 1;
      }
      error := None;
    }
  }

  /** Merge documents in place, in order. */
  method MergeDocuments(documents: seq<Config>) returns (merged: Config)
    requires documents != []
    ensures merged == Fold(documents)
  {
    var config := new MergedConfig(documents[0]);
    for i := 1 to |documents|
      invariant config.Value() == Fold(documents[..i])
    {
      config.OverlayWith(documents[i]);
      assert documents[..i + 1][..i] == documents[..i];
    }
    assert documents[..|documents|] == documents;
    merged := config.Value();
  }

  method Load(files: Files, root: string) returns (result: Result<Config, LoadError>)
    ensures result == LoadResult(files, root)
  {
    EmitsFiles(Links(files), root, {}, []);
    var loader := new ConfigGraphLoader(files);
    var error := loader.VisitFile(root);
    if error.Some? {
      return Err(error.value);
    }
    var merged := MergeDocuments(loader.documents);
    result := Ok(merged);
  }

  method FromRootIn(files: Files, root: Document) returns (result: Result<Config, LoadError>)
    ensures result == RootResult(files, root)
  {
    ExtendsEmitsFiles(Links(files), root.parents, {}, []);
    var loader := new ConfigGraphLoader(files);
    var error := loader.VisitParents(root.parents);
    if error.Some? {
      return Err(error.value);
    }
    if loader.documents == [] {
      return Ok(root.config);
    }
    var merged := MergeDocuments(loader.documents + [root.config]);
    result := Ok(merged);
  }
}
