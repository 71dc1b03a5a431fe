/**
  The dependency graph of `graph_from_deps`: a directed graph held as its nodes in
  insertion order, its set of edges and one attribute record per node, as a networkx
  `DiGraph` keeps them.
 */
module DepGraphs {
  import opened Wrappers
  import opened Text
  import opened LineKinds

  /** A node's attribute dictionary; `None` is a key that was never written. */
  datatype Attrs = Attrs(complete: Option<bool>, comment: Option<string>, next: Option<bool>, waiting: Option<bool>)

  /** The attributes of a node that `add_edge` creates: none at all. */
  const NoAttrs := Attrs(None, None, None, None)

  /** `dep.split("->")` does not yield exactly a parent and a child (the `ValueError` of the unpacking). */
  datatype GraphError = BadDependency(index: nat, dep: string)

  // ---------------------------------------------------------------- node order

  /** Adding a node: a new one goes to the end, a known one keeps its place. */
  function Insert(ns: seq<string>, x: string): (r: seq<string>)
    ensures ns <= r
    ensures forall y :: y in r <==> y in ns || y == x
    ensures Distinct(ns) ==> Distinct(r)
  {
    if x in ns then ns else ns + [x]
  }

  /** Adding the nodes `xs` one after another. */
  function InsertAll(ns: seq<string>, xs: seq<string>): seq<string>
    decreases |xs|
  {
    if xs == [] then ns else Insert(InsertAll(ns, xs[..|xs| - 1]), xs[|xs| - 1])
  }

  /** Adding nodes keeps the known ones in place, appends exactly the new ones, and keeps
      the nodes distinct. */
  lemma {:induction false} InsertAllFacts(ns: seq<string>, xs: seq<string>)
    ensures ns <= InsertAll(ns, xs)
    ensures forall y :: y in InsertAll(ns, xs) <==> y in ns || y in xs
    ensures Distinct(ns) ==> Distinct(InsertAll(ns, xs))
    decreases |xs|
  {
    if xs != [] {
      var init := xs[..|xs| - 1];
      InsertAllFacts(ns, init);
      assert xs == init + [xs[|xs| - 1]];
    }
  }

  /** Adding one more element of `xs` is one more `Insert`. */
  lemma InsertAllSnoc(ns: seq<string>, xs: seq<string>, k: nat)
    requires k < |xs|
    ensures InsertAll(ns, xs[..k + 1]) == Insert(InsertAll(ns, xs[..k]), xs[k])
  {
    assert xs[..k + 1][..k] == xs[..k];
  }

  lemma PrefixMembers<T>(xs: seq<T>, k: nat)
    requires k < |xs|
    ensures forall y :: y in xs[..k + 1] <==> y in xs[..k] || y == xs[k]
  {
    assert xs[..k + 1] == xs[..k] + [xs[k]];
  }

  /** Adding two runs of nodes is adding their concatenation. */
  lemma {:induction false} InsertAllAppend(ns: seq<string>, xs: seq<string>, ys: seq<string>)
    ensures InsertAll(ns, xs + ys) == InsertAll(InsertAll(ns, xs), ys)
    decreases |ys|
  {
    if ys == [] {
      assert xs + ys == xs;
    } else {
      var zs := xs + ys;
      var last := ys[|ys| - 1];
      assert zs[..|zs| - 1] == xs + ys[..|ys| - 1] && zs[|zs| - 1] == last;
      InsertAllAppend(ns, xs, ys[..|ys| - 1]);
      assert InsertAll(ns, zs) == Insert(InsertAll(ns, xs + ys[..|ys| - 1]), last);
      assert InsertAll(InsertAll(ns, xs), ys) == Insert(InsertAll(InsertAll(ns, xs), ys[..|ys| - 1]), last);
    }
  }

  /** Adding two nodes is adding the first and then the second. */
  lemma InsertPair(ns: seq<string>, u: string, v: string)
    ensures InsertAll(ns, [u, v]) == Insert(Insert(ns, u), v)
  {
    assert [u, v][..1] == [u] && [u][..0] == [];
    assert InsertAll(ns, [u]) == Insert(InsertAll(ns, []), u);
  }

  /** Adding two nodes a second time changes nothing. */
  lemma InsertPairTwice(ns: seq<string>, u: string, v: string)
    ensures InsertAll(InsertAll(ns, [u, v]), [u, v]) == InsertAll(ns, [u, v])
  {
    InsertPair(ns, u, v);
    InsertPair(InsertAll(ns, [u, v]), u, v);
  }

  /** The endpoints of the dependencies, parent before child, in order. */
  function Endpoints(pairs: seq<(string, string)>): (r: seq<string>)
    ensures forall x :: x in r <==> exists k :: 0 <= k < |pairs| && (pairs[k].0 == x || pairs[k].1 == x)
  {
    if pairs == [] then []
    else
      var init := pairs[..|pairs| - 1];
      var last := pairs[|pairs| - 1];
      assert forall k :: 0 <= k < |init| ==> init[k] == pairs[k];
      Endpoints(init) + [last.0, last.1]
  }

  /** The node sequence of the graph built from `pairs`: every endpoint, in order of first appearance. */
  function BuildNodes(pairs: seq<(string, string)>): (r: seq<string>)
    ensures Distinct(r)
    ensures forall x :: x in r <==> exists k :: 0 <= k < |pairs| && (pairs[k].0 == x || pairs[k].1 == x)
  {
    InsertAllFacts([], Endpoints(pairs));
    InsertAll([], Endpoints(pairs))
  }

  /** One more dependency adds its parent and then its child to the nodes built so far. */
  lemma BuildNodesStep(pairs: seq<(string, string)>, p: (string, string))
    ensures BuildNodes(pairs + [p]) == InsertAll(BuildNodes(pairs), [p.0, p.1])
  {
    assert (pairs + [p])[..|pairs|] == pairs;
    InsertAllAppend([], Endpoints(pairs), [p.0, p.1]);
  }

  /** Nodes keep the order in which they first appear: the nodes of the first `k`
      dependencies are a prefix of the nodes of all of them. */
  lemma {:induction false} BuildNodesPrefix(pairs: seq<(string, string)>, k: nat)
    requires k <= |pairs|
    ensures BuildNodes(pairs[..k]) <= BuildNodes(pairs)
    decreases |pairs| - k
  {
    if k < |pairs| {
      BuildNodesPrefix(pairs, k + 1);
      assert pairs[..k + 1] == pairs[..k] + [pairs[k]];
      BuildNodesStep(pairs[..k], pairs[k]);
      InsertAllFacts(BuildNodes(pairs[..k]), [pairs[k].0, pairs[k].1]);
    } else {
      assert pairs[..k] == pairs;
    }
  }

  /** The edge set: one edge per distinct `(parent, child)` pair, self-loops included. */
  function EdgeSet(pairs: seq<(string, string)>): (r: set<(string, string)>)
    ensures forall e :: e in r <==> e in pairs
  {
    set p | p in pairs
  }

  /** A repeated dependency adds no edge. */
  lemma EdgeSetDuplicate(pairs: seq<(string, string)>, p: (string, string))
    requires p in pairs
    ensures EdgeSet(pairs + [p]) == EdgeSet(pairs)
  {
  }

  // ---------------------------------------------------------------- splitting a dependency

  /** `->` occurs in `dep` at index `k` and nowhere else. */
  ghost predicate OnlyArrowAt(dep: string, k: nat) {
    OccursAt(dep, Arrow, k) && forall m: nat :: OccursAt(dep, Arrow, m) ==> m == k
  }

  /** `parent, child = dep.split("->")`, with both parts trimmed; `None` where the unpacking fails. */
  function SplitDep(dep: string): (r: Option<(string, string)>)
    ensures r.Some? ==> Trimmed(r.value.0) && Trimmed(r.value.1)
  {
    match FindFrom(dep, Arrow, 0)
    case None => None
    case Some(k) =>
      if FindFrom(dep, Arrow, k + 2).Some? then None
      else Some((Strip(dep[..k]), Strip(dep[k + 2..])))
  }

  /** The split succeeds exactly when `->` occurs once, and then yields the trimmed text on each side. */
  lemma SplitDepExact(dep: string)
    ensures SplitDep(dep).Some? ==>
              exists k: nat :: OnlyArrowAt(dep, k) && SplitDep(dep).value == (Strip(dep[..k]), Strip(dep[k + 2..]))
    ensures SplitDep(dep).None? ==> forall k: nat :: !OnlyArrowAt(dep, k)
  {
    match FindFrom(dep, Arrow, 0)
    case None =>
    case Some(k) =>
      assert !OccursAt(dep, Arrow, k + 1) by {
        assert dep[k + 1] == Arrow[1];
      }
      match FindFrom(dep, Arrow, k + 2)
      case None =>
        assert OnlyArrowAt(dep, k);
      case Some(m) =>
        forall j: nat ensures !OnlyArrowAt(dep, j) {
          assert OccursAt(dep, Arrow, k) && OccursAt(dep, Arrow, m) && k != m;
        }
  }

  /** Text without dashes joined by `->` splits back into its two trimmed sides. */
  lemma SplitJoined(parent: string, child: string)
    requires '-' !in parent && '-' !in child
    ensures SplitDep(parent + Arrow + child) == Some((Strip(parent), Strip(child)))
  {
    var dep := parent + Arrow + child;
    var k := |parent|;
    assert OccursAt(dep, Arrow, k) by {
      assert dep[k..k + 2] == Arrow;
    }
    forall m: nat | OccursAt(dep, Arrow, m) ensures m == k {
      assert dep[m] == '-';
    }
    SplitDepExact(dep);
    assert dep[..k] == parent && dep[k + 2..] == child;
  }

  /** The dependency strings split by `split` into pairs, or the first one that does not split. */
  function ParseWith(deps: seq<string>, split: string -> Option<(string, string)>)
    : (r: Result<seq<(string, string)>, GraphError>)
    ensures r.Success? ==> |r.value| == |deps|
    ensures r.Failure? ==> r.error.index < |deps| && r.error.dep == deps[r.error.index]
  {
    if deps == [] then Success([])
    else
      match ParseWith(deps[..|deps| - 1], split)
      case Failure(e) => Failure(e)
      case Success(pairs) =>
        match split(deps[|deps| - 1])
        case None => Failure(BadDependency(|deps| - 1, deps[|deps| - 1]))
        case Some(p) => Success(pairs + [p])
  }

  /** The dependency strings of a file split into `(parent, child)` pairs, or the first one
      that does not split. */
  function ParseDeps(deps: seq<string>): Result<seq<(string, string)>, GraphError> {
    ParseWith(deps, SplitDep)
  }

  /** A successful parse holds the split of every dependency, in order. */
  lemma {:induction false} ParseWithSplits(deps: seq<string>, split: string -> Option<(string, string)>)
    ensures ParseWith(deps, split).Success? ==>
              forall k :: 0 <= k < |deps| ==> split(deps[k]) == Some(ParseWith(deps, split).value[k])
  {
    if deps != [] {
      var init := deps[..|deps| - 1];
      ParseWithSplits(init, split);
      assert forall k :: 0 <= k < |init| ==> init[k] == deps[k];
    }
  }

  /** A failed parse names the first dependency that does not split. */
  lemma {:induction false} ParseWithFirstFailure(deps: seq<string>, split: string -> Option<(string, string)>)
    ensures ParseWith(deps, split).Failure? ==>
              && split(deps[ParseWith(deps, split).error.index]).None?
              && forall k :: 0 <= k < ParseWith(deps, split).error.index ==> split(deps[k]).Some?
  {
    if deps != [] {
      var init := deps[..|deps| - 1];
      ParseWithFirstFailure(init, split);
      ParseWithSplits(init, split);
      assert forall k :: 0 <= k < |init| ==> init[k] == deps[k];
    }
  }

  /** The dependencies all parse exactly when every one of them splits. */
  lemma ParseDepsSucceeds(deps: seq<string>)
    ensures ParseDeps(deps).Success? <==> forall k :: 0 <= k < |deps| ==> SplitDep(deps[k]).Some?
    ensures ParseDeps(deps).Success? ==> forall k :: 0 <= k < |deps| ==> SplitDep(deps[k]) == Some(ParseDeps(deps).value[k])
    ensures ParseDeps(deps).Failure? ==> SplitDep(deps[ParseDeps(deps).error.index]).None?
  {
    ParseWithSplits(deps, SplitDep);
    ParseWithFirstFailure(deps, SplitDep);
  }

  // ---------------------------------------------------------------- the graph

  class DepGraph {
    var nodes: seq<string>
    var edges: set<(string, string)>
    var attrs: map<string, Attrs>

    /** Nodes are distinct, edges join nodes, and every node (and nothing else) has attributes. */
    ghost predicate Valid()
      reads this
    {
      && Distinct(nodes)
      && (forall e :: e in edges ==> e.0 in nodes && e.1 in nodes)
      && (forall n :: n in attrs <==> n in nodes)
    }

    /** `nx.DiGraph()`: the empty graph. */
    constructor ()
      ensures Valid() && nodes == [] && edges == {} && attrs == map[]
    {
      nodes, edges, attrs := [], {}, map[];
    }

    /** The direct predecessors of `n`. */
    function Predecessors(n: string): (r: set<string>)
      reads this
      ensures forall p :: p in r <==> (p, n) in edges
    {
      set e | e in edges && e.1 == n :: e.0
    }

    /** `add_node(n, complete=c)`: a new node is appended; a known one keeps its place,
        and only its `complete` attribute is written. */
    method AddNode(n: string, complete: bool)
      requires Valid()
      modifies this
      ensures Valid()
      ensures nodes == Insert(old(nodes), n) && edges == old(edges)
      ensures attrs == old(attrs)[n := (if n in old(attrs) then old(attrs)[n] else NoAttrs).(complete := Some(complete))]
    {
      if n !in attrs {
        nodes := nodes + [n];
        attrs := attrs[n := NoAttrs.(complete := Some(complete))];
      } else {
        attrs := attrs[n := attrs[n].(complete := Some(complete))];
      }
    }

    /** `add_nodes_from(ns, complete=c)`: `AddNode` for each of `ns` in turn. */
    method AddNodesFrom(ns: seq<string>, complete: bool)
      requires Valid()
      modifies this
      ensures Valid()
      ensures nodes == InsertAll(old(nodes), ns) && edges == old(edges)
      ensures forall n :: n in attrs <==> n in old(attrs) || n in ns
      ensures forall n :: n in attrs ==>
                attrs[n] == if n in ns then (if n in old(attrs) then old(attrs)[n] else NoAttrs).(complete := Some(complete))
                            else old(attrs)[n]
    {
      for k := 0 to |ns|
        invariant Valid()
        invariant nodes == InsertAll(old(nodes), ns[..k]) && edges == old(edges)
        invariant forall n :: n in attrs <==> n in old(attrs) || n in ns[..k]
        invariant forall n :: n in attrs ==>
                    attrs[n] == if n in ns[..k] then (if n in old(attrs) then old(attrs)[n] else NoAttrs).(complete := Some(complete))
                                else old(attrs)[n]
      {
        InsertAllSnoc(old(nodes), ns, k);
        PrefixMembers(ns, k);
        AddNode(ns[k], complete);
      }
      assert ns[..|ns|] == ns;
      InsertAllFacts(old(nodes), ns);
    }

    /** `add_edge(u, v)`: missing endpoints are appended with no attributes, then the edge is added. */
    method AddEdge(u: string, v: string)
      requires Valid()
      modifies this
      ensures Valid()
      ensures nodes == InsertAll(old(nodes), [u, v]) && edges == old(edges) + {(u, v)}
      ensures forall n :: n in attrs <==> n in old(attrs) || n == u || n == v
      ensures forall n :: n in attrs ==> attrs[n] == if n in old(attrs) then old(attrs)[n] else NoAttrs
    {
      InsertPair(nodes, u, v);
      if u !in attrs {
        nodes := nodes + [u];
        attrs := attrs[u := NoAttrs];
      }
      if v !in attrs {
        nodes := nodes + [v];
        attrs := attrs[v := NoAttrs];
      }
      edges := edges + {(u, v)};
    }
  }

  /** Every node of a freshly built graph has `complete=False` and no other attribute. */
  ghost predicate AllIncomplete(g: DepGraph)
    reads g
  {
    forall n :: n in g.attrs ==> g.attrs[n] == NoAttrs.(complete := Some(false))
  }

  /** `graph_from_deps`: one `add_nodes_from([parent, child], complete=False)` and one
      `add_edge(parent, child)` per dependency, in order; a dependency that does not split
      into two parts stops the build with an error. */
  method GraphFromDeps(deps: seq<string>) returns (r: Result<DepGraph, GraphError>)
    ensures ParseDeps(deps).Failure? ==> r == Failure(ParseDeps(deps).error)
    ensures ParseDeps(deps).Success? ==>
              && r.Success? && fresh(r.value) && r.value.Valid()
              && r.value.nodes == BuildNodes(ParseDeps(deps).value)
              && r.value.edges == EdgeSet(ParseDeps(deps).value)
              && AllIncomplete(r.value)
  {
    var g := new DepGraph();
    var pairs: seq<(string, string)> := [];
    for i := 0 to |deps|
      invariant ParseDeps(deps[..i]) == Success(pairs)
      invariant g.Valid() && fresh(g)
      invariant g.nodes == BuildNodes(pairs) && g.edges == EdgeSet(pairs) && AllIncomplete(g)
    {
      assert deps[..i + 1][..i] == deps[..i];
      var split := SplitDep(deps[i]);
      if split.None? {
        ParseWithFrom(deps, SplitDep, i + 1);
        return Failure(BadDependency(i, deps[i]));
      }
      AddDependency(g, pairs, split.value);
      pairs := pairs + [split.value];
    }
    assert deps[..|deps|] == deps;
    r := Success(g);
  }

  /** A dependency of a node on itself is kept: one node and a self-loop. */
  lemma SelfLoopKept(x: string)
    requires '-' !in x && Trimmed(x)
    ensures ParseDeps([x + Arrow + x]) == Success([(x, x)])
    ensures BuildNodes([(x, x)]) == [x] && EdgeSet([(x, x)]) == {(x, x)}
  {
    SelfLoopSplits(x);
    assert [x + Arrow + x][..0] == [];
    assert ParseWith([x + Arrow + x], SplitDep) == Success([] + [(x, x)]);
    assert [] + [(x, x)] == [(x, x)];
    SelfLoopNodes(x);
  }

  lemma SelfLoopSplits(x: string)
    requires '-' !in x && Trimmed(x)
    ensures SplitDep(x + Arrow + x) == Some((x, x))
  {
    SplitJoined(x, x);
    StripPadded([], x, []);
    assert [] + x + [] == x;
  }

  lemma SelfLoopNodes(x: string)
    ensures BuildNodes([(x, x)]) == [x]
  {
    assert Endpoints([(x, x)]) == [x, x] by {
      assert [(x, x)][..0] == [];
    }
    InsertPair([], x, x);
    assert Insert(Insert([], x), x) == [x];
  }

  /** The body of the loop of `graph_from_deps` for one dependency `(parent, child)`. */
  method AddDependency(g: DepGraph, pairs: seq<(string, string)>, p: (string, string))
    requires g.Valid() && g.nodes == BuildNodes(pairs) && g.edges == EdgeSet(pairs) && AllIncomplete(g)
    modifies g
    ensures g.Valid() && g.nodes == BuildNodes(pairs + [p]) && g.edges == EdgeSet(pairs + [p]) && AllIncomplete(g)
  {
    var (parent, child) := p;
    AddEndpoints(g, parent, child);
    ghost var before := g.attrs;
    g.AddEdge(parent, child);
    forall n | n in g.attrs ensures g.attrs[n] == NoAttrs.(complete := Some(false)) {
      assert n in before;
    }
    DependencyStep(pairs, p);
  }

  /** What one dependency adds: its endpoints, inserted twice, and its edge. */
  lemma DependencyStep(pairs: seq<(string, string)>, p: (string, string))
    ensures InsertAll(InsertAll(BuildNodes(pairs), [p.0, p.1]), [p.0, p.1]) == BuildNodes(pairs + [p])
    ensures EdgeSet(pairs + [p]) == EdgeSet(pairs) + {p}
  {
    InsertPairTwice(BuildNodes(pairs), p.0, p.1);
    BuildNodesStep(pairs, p);
  }

  /** The first call of the loop body of `graph_from_deps`: both endpoints, as incomplete nodes. */
  method AddEndpoints(g: DepGraph, parent: string, child: string)
    requires g.Valid() && AllIncomplete(g)
    modifies g
    ensures g.Valid() && AllIncomplete(g) && parent in g.attrs && child in g.attrs
    ensures g.nodes == InsertAll(old(g.nodes), [parent, child]) && g.edges == old(g.edges)
  {
    g.AddNodesFrom([parent, child], false);
    forall n | n in g.attrs ensures g.attrs[n] == NoAttrs.(complete := Some(false)) {
      if n in old(g.attrs) {
        assert old(g.attrs)[n] == NoAttrs.(complete := Some(false));
      }
    }
  }

  /** Once a prefix of the dependencies fails to parse, the whole list fails with the same error. */
  lemma {:induction false} ParseWithFrom(deps: seq<string>, split: string -> Option<(string, string)>, k: nat)
    requires k <= |deps| && ParseWith(deps[..k], split).Failure?
    ensures ParseWith(deps, split) == ParseWith(deps[..k], split)
    decreases |deps| - k
  {
    if k < |deps| {
      assert deps[..k + 1][..k] == deps[..k];
      ParseWithFrom(deps, split, k + 1);
    } else {
      assert deps[..k] == deps;
    }
  }
}
