/**
 * The derived-secret check: composed references, `from` sources and credential
 * bindings form one graph, searched with a three-colour depth-first walk whose
 * colours are shared across roots.
 */
module DependencyGraph {
  import opened Prelude
  import opened Digraph
  import opened CompiledSpec

  /** One profile's secrets, by name. */
  type Profile = map<string, Secret>

  function DependencyMap(secrets: Profile): Graph {
    map name | name in secrets :: Dependencies(Compile(secrets[name]))
  }

  /** A declared secret whose settings name another. */
  predicate Needs(secrets: Profile, n: string, d: string) {
    n in secrets && Names(secrets[n], d)
  }

  /** Names in which each needs the next and the last is the first again. */
  predicate NeedsCycle(secrets: Profile, p: seq<string>) {
    2 <= |p| && p[0] == p[|p| - 1] && forall i | 0 <= i < |p| - 1 :: Needs(secrets, p[i], p[i + 1])
  }

  lemma EdgesAreNeeds(secrets: Profile)
    ensures forall n, d :: Edge(DependencyMap(secrets), n, d) <==> Needs(secrets, n, d)
  {
    forall n, d
      ensures Edge(DependencyMap(secrets), n, d) <==> Needs(secrets, n, d)
    {
      if n in secrets {
        DependenciesExactly(secrets[n], d);
      }
    }
  }

  lemma CyclesAreNeeds(secrets: Profile, p: seq<string>)
    ensures IsCycle(DependencyMap(secrets), p) <==> NeedsCycle(secrets, p)
  {
    EdgesAreNeeds(secrets);
  }

  datatype Colour = Active | Finished

  datatype Search = Done(state: map<string, Colour>) | Cycle(path: seq<string>)

  function Position(stack: seq<string>, name: string): Option<nat> {
    if stack == [] then None
    else if stack[0] == name then Some(0)
    else
      var rest := Position(stack[1..], name);
      if rest.Some? then Some(rest.value + 1) else None
  }

  lemma {:induction false} PositionFinds(stack: seq<string>, name: string)
    ensures Position(stack, name).Some? <==> name in stack
    ensures Position(stack, name).Some? ==>
              Position(stack, name).value < |stack| && stack[Position(stack, name).value] == name
  {
    if stack != [] && stack[0] != name {
      PositionFinds(stack[1..], name);
    }
  }

  /** The reported cycle: the stack from the repeated name on, closed by that name. */
  function CloseCycle(stack: seq<string>, name: string): seq<string> {
    PositionFinds(stack, name);
    var found := Position(stack, name);
    stack[if found.Some? then found.value else 0..] + [name]
  }

  // ---------------------------------------------------------------- the walk as a function

  function Visit(g: Graph, name: string, state: map<string, Colour>, stack: seq<string>): (r: Search)
    requires name in g
    ensures r.Done? ==> state.Keys <= r.state.Keys
    decreases g.Keys - state.Keys, 0
  {
    if name in state then
      match state[name]
      case Finished => Done(state)
      case Active => Cycle(CloseCycle(stack, name))
    else
      assert name in g.Keys - state.Keys && name !in g.Keys - state[name := Active].Keys;
      var r := VisitAll(g, g[name], state[name := Active], stack + [name]);
      if r.Done? then Done(r.state[name := Finished]) else r
  }

  function VisitAll(g: Graph, names: seq<string>, state: map<string, Colour>, stack: seq<string>): (r: Search)
    ensures r.Done? ==> state.Keys <= r.state.Keys
    decreases g.Keys - state.Keys, |names|
  {
    if names == [] then Done(state)
    else if names[0] !in g then VisitAll(g, names[1..], state, stack)
    else
      var r := Visit(g, names[0], state, stack);
      if r.Done? then VisitAll(g, names[1..], r.state, stack) else r
  }

  // ---------------------------------------------------------------- what the walk keeps

  /** The stack is the active path, and the finished names admit a dependency-first order. */
  ghost predicate Consistent(g: Graph, state: map<string, Colour>, stack: seq<string>, order: seq<string>) {
    && state.Keys <= g.Keys
    && NoDuplicates(stack)
    && (stack != [] ==> IsPath(g, stack))
    && (forall n :: n in stack <==> n in state && state[n] == Active)
    && (forall n :: n in order <==> n in state && state[n] == Finished)
    && DependenciesFirst(g, order)
  }

  ghost predicate Entered(g: Graph, stack: seq<string>, name: string) {
    stack == [] || Edge(g, stack[|stack| - 1], name)
  }

  lemma ClosedCycleIsCycle(g: Graph, stack: seq<string>, name: string)
    requires IsPath(g, stack) && name in stack && Edge(g, stack[|stack| - 1], name)
    ensures IsCycle(g, CloseCycle(stack, name))
    ensures CloseCycle(stack, name)[0] == name
  {
    PositionFinds(stack, name);
    BackEdgeCloses(g, stack, Position(stack, name).value);
  }

  lemma {:induction false} VisitSound(
    g: Graph, name: string, state: map<string, Colour>, stack: seq<string>, order: seq<string>)
    returns (order': seq<string>)
    requires name in g && Consistent(g, state, stack, order) && Entered(g, stack, name)
    ensures var r := Visit(g, name, state, stack);
            match r {
              case Done(state') => Consistent(g, state', stack, order') && order <= order' && name in order'
              case Cycle(p) => IsCycle(g, p)
            }
    decreases g.Keys - state.Keys, 0
  {
    order' := order;
    if name !in state {
      var entered := stack + [name];
      if stack != [] {
        PathExtends(g, stack, name);
      }
      assert name !in stack;
      assert Consistent(g, state[name := Active], entered, order);
      order' := VisitAllSound(g, g[name], state[name := Active], entered, order);
      var r := VisitAll(g, g[name], state[name := Active], entered);
      if r.Done? {
        FinishSound(g, name, r.state, stack, order');
        order' := order' + [name];
      }
    } else if state[name] == Active {
      ClosedCycleIsCycle(g, stack, name);
    }
  }

  lemma FinishSound(g: Graph, name: string, state: map<string, Colour>, stack: seq<string>, order: seq<string>)
    requires name in g && Consistent(g, state, stack + [name], order)
    requires forall d | d in g[name] && d in g :: d in order
    ensures Consistent(g, state[name := Finished], stack, order + [name])
  {
    var entered, order' := stack + [name], order + [name];
    var state' := state[name := Finished];
    assert entered[|stack|] == name;
    assert forall i | 0 <= i < |stack| :: stack[i] == entered[i];
    forall n
      ensures n in stack <==> n in state' && state'[n] == Active
      ensures n in order' <==> n in state' && state'[n] == Finished
    {
      if n in stack {
        var i :| 0 <= i < |stack| && stack[i] == n;
        assert entered[i] == n;
      } else if n in state && state[n] == Active {
        assert n in entered;
      }
      assert n in order' <==> n in order || n == name;
    }
    if stack != [] {
      forall i | 0 <= i < |stack| - 1
        ensures Edge(g, stack[i], stack[i + 1])
      {
        assert Edge(g, entered[i], entered[i + 1]);
      }
    }
    forall i, d | 0 <= i < |order'| && Edge(g, order'[i], d) && d in g
      ensures d in order'[..i]
    {
      if i < |order| {
        assert d in order[..i];
        assert order'[..i] == order[..i];
      } else {
        assert order'[..i] == order;
      }
    }
  }

  lemma {:induction false} VisitAllSound(
    g: Graph, names: seq<string>, state: map<string, Colour>, stack: seq<string>, order: seq<string>)
    returns (order': seq<string>)
    requires Consistent(g, state, stack, order)
    requires stack != [] && forall i | 0 <= i < |names| :: Edge(g, stack[|stack| - 1], names[i])
    ensures match VisitAll(g, names, state, stack) {
              case Done(state') =>
                && Consistent(g, state', stack, order') && order <= order'
                && (forall d | d in names && d in g :: d in order')
              case Cycle(p) => IsCycle(g, p)
            }
    decreases g.Keys - state.Keys, |names|
  {
    order' := order;
    if names != [] {
      if names[0] !in g {
        order' := VisitAllSound(g, names[1..], state, stack, order);
      } else {
        order' := VisitSound(g, names[0], state, stack, order);
        var r := Visit(g, names[0], state, stack);
        if r.Done? {
          order' := VisitAllSound(g, names[1..], r.state, stack, order');
        }
      }
    }
  }

  // ---------------------------------------------------------------- the walk in place

  class CycleSearch {
    const graph: Graph
    var state: map<string, Colour>
    var stack: seq<string>

    constructor (graph: Graph)
      ensures this.graph == graph && state == map[] && stack == []
    {
      this.graph, state, stack := graph, map[], [];
    }

    /** One recursive walk: colours and stack are updated in place, and only a cycle stops it early. */
    method Walk(name: string) returns (cycle: Option<seq<string>>)
      requires name in graph
      modifies this
      ensures match Visit(graph, name, old(state), old(stack)) {
                case Done(s) => cycle == None && state == s && stack == old(stack)
                case Cycle(p) => cycle == Some(p)
              }
      decreases graph.Keys - state.Keys
    {
      if name in state {
        match state[name] {
          case Finished => return None;
          case Active =>
            PositionFinds(stack, name);
            var found := Position(stack, name);
            var start := if found.Some? then found.value else 0;
            return Some(stack[start..] + [name]);
        }
      }
      state := state[name := Active];
      stack := stack + [name];
      var dependencies := graph[name];
      ghost var entered, state0 := stack, state;
      var i := 0;
      while i < |dependencies|
        invariant 0 <= i <= |dependencies|
        invariant stack == entered && state0.Keys <= state.Keys
        invariant VisitAll(graph, dependencies, state0, entered) ==
                  VisitAll(graph, dependencies[i..], state, entered)
      {
        assert dependencies[i..][1..] == dependencies[i + 1..];
        if dependencies[i] in graph {
          assert name !in graph.Keys - state.Keys;
          cycle := Walk(dependencies[i]);
          if cycle.Some? {
            return;
          }
        }
        i := i + 1;
      }
      stack := stack[..|stack| - 1];
      assert stack == old(stack);
      state := state[name := Finished];
      cycle := None;
    }
  }

  // ---------------------------------------------------------------- the whole check

  datatype Finding =
    | Accepted
    | SelfDependency(name: string)
    | UndeclaredDependency(name: string, dependency: string)
    | DerivedCycle(path: seq<string>)

  /** The names with dependencies; the others cannot lie on a cycle. */
  function Edges(deps: Graph): Graph {
    map n | n in deps && deps[n] != [] :: deps[n]
  }

  lemma {:induction false} CyclesLieInEdges(deps: Graph, p: seq<string>)
    ensures IsCycle(deps, p) <==> IsCycle(Edges(deps), p)
  {
    assert forall a, b :: Edge(deps, a, b) <==> Edge(Edges(deps), a, b);
  }

  lemma AllFinishedIsAcyclic(deps: Graph, state: map<string, Colour>, order: seq<string>)
    requires Consistent(Edges(deps), state, [], order)
    requires forall n | n in Edges(deps) :: n in order
    ensures Acyclic(deps)
  {
    forall p
      ensures !IsCycle(deps, p)
    {
      CyclesLieInEdges(deps, p);
      if IsCycle(deps, p) {
        assert Edge(Edges(deps), p[0], p[1]);
        CycleNotListed(Edges(deps), order, p);
      }
    }
  }

  /** A secret needs neither itself nor anything undeclared. */
  ghost predicate Grounded(secrets: Profile, n: string) {
    forall d | Needs(secrets, n, d) :: d != n && d in secrets
  }

  /**
   * The check accepts exactly the profiles in which no secret needs itself,
   * none needs an undeclared one, and no chain of needs closes; whatever it
   * reports instead is really there. `names` is the order the profile lists
   * its secrets in: the first secret in it with a bad need is the one
   * reported, and a cycle only if there is none.
   */
  method ValidateCompositionGraph(names: seq<string>, secrets: Profile) returns (finding: Finding)
    requires forall n :: n in names <==> n in secrets
    ensures finding.Accepted? <==> (forall n | n in secrets :: Grounded(secrets, n)) && forall p :: !NeedsCycle(secrets, p)
    ensures finding.SelfDependency? ==> Needs(secrets, finding.name, finding.name)
    ensures finding.UndeclaredDependency? ==>
              Needs(secrets, finding.name, finding.dependency) && finding.dependency !in secrets
    ensures finding.SelfDependency? || finding.UndeclaredDependency? ==>
              exists k | 0 <= k < |names| :: names[k] == finding.name && forall j | 0 <= j < k :: Grounded(secrets, names[j])
    ensures finding.DerivedCycle? ==> NeedsCycle(secrets, finding.path) && forall n | n in secrets :: Grounded(secrets, n)
  {
    for i := 0 to |names|
      invariant forall k | 0 <= k < i :: Grounded(secrets, names[k])
    {
      finding := CheckOwn(names[i], secrets);
      if !finding.Accepted? {
        return;
      }
    }
    NamesGrounded(names, secrets);
    finding := SearchNeeds(names, secrets);
  }

  lemma NamesGrounded(names: seq<string>, secrets: Profile)
    requires (forall n :: n in names <==> n in secrets) && forall k | 0 <= k < |names| :: Grounded(secrets, names[k])
    ensures forall n | n in secrets :: Grounded(secrets, n)
  {
    forall n | n in secrets
      ensures Grounded(secrets, n)
    {
      var k :| 0 <= k < |names| && names[k] == n;
    }
  }

  method SearchNeeds(names: seq<string>, secrets: Profile) returns (finding: Finding)
    requires forall n :: n in names <==> n in secrets
    ensures finding.Accepted? || finding.DerivedCycle?
    ensures finding.Accepted? <==> forall p :: !NeedsCycle(secrets, p)
    ensures finding.DerivedCycle? ==> NeedsCycle(secrets, finding.path)
  {
    finding := SearchRoots(names, DependencyMap(secrets));
    forall p
      ensures IsCycle(DependencyMap(secrets), p) <==> NeedsCycle(secrets, p)
    {
      CyclesAreNeeds(secrets, p);
    }
  }

  /** One secret's own dependencies: none is itself, every one is declared. */
  method CheckOwn(name: string, secrets: Profile) returns (finding: Finding)
    requires name in secrets
    ensures finding.Accepted? <==> Grounded(secrets, name)
    ensures finding == Accepted || finding == SelfDependency(name) ||
            (finding.UndeclaredDependency? && finding.name == name)
    ensures finding.SelfDependency? ==> Needs(secrets, name, name)
    ensures finding.UndeclaredDependency? ==>
              Needs(secrets, name, finding.dependency) && finding.dependency !in secrets
  {
    var dependencies := Dependencies(Compile(secrets[name]));
    forall d
      ensures d in dependencies <==> Needs(secrets, name, d)
    {
      DependenciesExactly(secrets[name], d);
    }
    for j := 0 to |dependencies|
      invariant forall k | 0 <= k < j :: dependencies[k] != name && dependencies[k] in secrets
    {
      var d := dependencies[j];
      assert d in dependencies;
      if d == name {
        return SelfDependency(name);
      }
      if d !in secrets {
        return UndeclaredDependency(name, d);
      }
    }
    finding := Accepted;
  }

  /** Visit every name in turn with one shared colouring and a fresh stack each time. */
  method SearchRoots(names: seq<string>, deps: Graph) returns (finding: Finding)
    requires forall n :: n in names <==> n in deps
    ensures finding.Accepted? || finding.DerivedCycle?
    ensures finding.Accepted? <==> Acyclic(deps)
    ensures finding.DerivedCycle? ==> IsCycle(deps, finding.path)
  {
    var graph := Edges(deps);
    var search := new CycleSearch(graph);
    ghost var order: seq<string> := [];
    var i := 0;
    while i < |names|
      invariant 0 <= i <= |names|
      invariant search.stack == [] && search.graph == graph
      invariant Consistent(graph, search.state, [], order)
      invariant forall k | 0 <= k < i && names[k] in graph :: names[k] in order
    {
      if names[i] in graph {
        ghost var order' := VisitSound(graph, names[i], search.state, [], order);
        var cycle := search.Walk(names[i]);
        if cycle.Some? {
          CyclesLieInEdges(deps, cycle.value);
          return DerivedCycle(cycle.value);
        }
        order := order';
      }
      i := i + 1;
    }
    AllFinishedIsAcyclic(deps, search.state, order);
    finding := Accepted;
  }
}
