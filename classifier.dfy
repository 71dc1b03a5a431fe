/**
  `set_node_info` and `add_node_comments`: writing the declared metadata onto the graph's
  nodes and deriving which tasks are `next` and which of those are `waiting`.
 */
module Classifier {
  import opened Wrappers
  import opened Text
  import opened Parser
  import opened DepGraphs

  /** Tasks whose name starts with this are waiting on someone else. */
  const AwaitPrefix: string := "await"

  /** The `complete` flag the overlay gives node `n`: its declared flag, or `False`. */
  function InfoComplete(info: map<string, NodeInfo>, n: string): bool {
    n in info && info[n].complete
  }

  /** The comment the overlay gives node `n`: its declared comment, or `""`. */
  function InfoComment(info: map<string, NodeInfo>, n: string): string {
    if n in info then info[n].comment else ""
  }

  /** The value the variable `complete` holds once the overlay loop is over: the flag of
      the last node in iteration order (no node at all leaves the second loop empty). */
  function LastComplete(nodes: seq<string>, info: map<string, NodeInfo>): bool {
    nodes != [] && InfoComplete(info, nodes[|nodes| - 1])
  }

  /** Every direct predecessor of `n` is complete. */
  predicate ParentsComplete(edges: set<(string, string)>, info: map<string, NodeInfo>, n: string) {
    forall e :: e in edges && e.1 == n ==> InfoComplete(info, e.0)
  }

  /** The `next` flag the `is_next` assignment of `set_node_info` computes for `n`: it tests the
      `complete` left over from the overlay loop (the last node's flag), not `n`'s own flag. */
  function IsNext(nodes: seq<string>, edges: set<(string, string)>, info: map<string, NodeInfo>, n: string): bool {
    !LastComplete(nodes, info) && ParentsComplete(edges, info, n)
  }

  /** One node after the overlay loop. */
  function Overlaid(a: Attrs, info: map<string, NodeInfo>, n: string): Attrs {
    a.(complete := Some(InfoComplete(info, n)), comment := Some(InfoComment(info, n)))
  }

  /** One node after the derivation loop, given its `next` flag. */
  function Derived(a: Attrs, next: bool, n: string): Attrs {
    a.(waiting := Some(next && StartsWith(n, AwaitPrefix)), next := Some(next))
  }

  /** The attributes after the overlay loop. */
  function Overlay(attrs: map<string, Attrs>, info: map<string, NodeInfo>): (r: map<string, Attrs>)
    ensures r.Keys == attrs.Keys
  {
    map n | n in attrs :: Overlaid(attrs[n], info, n)
  }

  /** The attributes after the derivation loop, run with `stale` as the leftover `complete`. */
  function Derive(edges: set<(string, string)>, attrs: map<string, Attrs>, info: map<string, NodeInfo>,
                  stale: bool): (r: map<string, Attrs>)
    ensures r.Keys == attrs.Keys
  {
    map n | n in attrs :: Derived(attrs[n], !stale && ParentsComplete(edges, info, n), n)
  }

  /** The attributes after `set_node_info`, as the code computes them. */
  function Classified(nodes: seq<string>, edges: set<(string, string)>, attrs: map<string, Attrs>,
                      info: map<string, NodeInfo>): (r: map<string, Attrs>)
    ensures r.Keys == attrs.Keys
  {
    Derive(edges, Overlay(attrs, info), info, LastComplete(nodes, info))
  }

  /** The overlay writes each node's declared flag and comment (or `False` and `""`), and
      declared names that are not nodes are never added. */
  lemma OverlayCopies(nodes: seq<string>, edges: set<(string, string)>, attrs: map<string, Attrs>,
                      info: map<string, NodeInfo>, n: string)
    requires n in attrs
    ensures var r := Classified(nodes, edges, attrs, info);
            && r[n].complete == Some(if n in info then info[n].complete else false)
            && r[n].comment == Some(if n in info then info[n].comment else "")
    ensures forall m :: m in Classified(nodes, edges, attrs, info) <==> m in attrs
  {
  }

  /** The derived flags: `waiting` implies `next`; `next` holds exactly when every direct
      predecessor is complete and the stale flag of the last node is false; `waiting`
      holds exactly for the `next` nodes whose name starts with `await`. */
  lemma DerivedFlags(nodes: seq<string>, edges: set<(string, string)>, attrs: map<string, Attrs>,
                     info: map<string, NodeInfo>, n: string)
    requires n in attrs
    ensures var a := Classified(nodes, edges, attrs, info)[n];
            && a.next.Some? && a.waiting.Some?
            && (a.waiting.value ==> a.next.value)
            && (a.next.value <==> !LastComplete(nodes, info) && forall p :: (p, n) in edges ==> InfoComplete(info, p))
            && (a.waiting.value <==> a.next.value && StartsWith(n, AwaitPrefix))
  {
    var a := Classified(nodes, edges, attrs, info)[n];
    if a.next.value {
      forall p | (p, n) in edges ensures InfoComplete(info, p) {
        assert (p, n).1 == n;
      }
    }
  }

  /** Running `set_node_info` a second time leaves the attributes as they are. */
  lemma ClassifiedIdempotent(nodes: seq<string>, edges: set<(string, string)>, attrs: map<string, Attrs>,
                             info: map<string, NodeInfo>)
    ensures Classified(nodes, edges, Classified(nodes, edges, attrs, info), info) == Classified(nodes, edges, attrs, info)
  {
    var once := Classified(nodes, edges, attrs, info);
    var twice := Classified(nodes, edges, once, info);
    assert twice.Keys == once.Keys;
    forall n | n in once ensures twice[n] == once[n] {
    }
  }

  // ---------------------------------------------------------------- set_node_info

  /** `set_node_info(node_info, G)`: the overlay loop and then the derivation loop. */
  method SetNodeInfo(info: map<string, NodeInfo>, g: DepGraph)
    requires g.Valid()
    modifies g
    ensures g.Valid() && g.nodes == old(g.nodes) && g.edges == old(g.edges)
    ensures g.attrs == Classified(old(g.nodes), old(g.edges), old(g.attrs), info)
  {
    var complete := OverlayPass(info, g);
    DerivePass(info, g, complete);
  }

  /** The first loop of `set_node_info`: each node gets its declared flag and comment. The
      variable `complete` survives the loop holding the last node's flag. */
  method OverlayPass(info: map<string, NodeInfo>, g: DepGraph) returns (complete: bool)
    requires g.Valid()
    modifies g
    ensures g.Valid() && g.nodes == old(g.nodes) && g.edges == old(g.edges)
    ensures g.attrs == Overlay(old(g.attrs), info)
    ensures complete == LastComplete(g.nodes, info)
  {
    ghost var start := g.attrs;
    assert start == OverlaySome(start, info, g.nodes[..0]);
    complete := false;
    for k := 0 to |g.nodes|
      invariant g.Valid() && g.nodes == old(g.nodes) && g.edges == old(g.edges)
      invariant complete == LastComplete(g.nodes[..k], info)
      invariant g.attrs == OverlaySome(start, info, g.nodes[..k])
    {
      OverlaySomeStep(start, info, g.nodes, k);
      complete := OverlayNode(info, g, g.nodes[k]);
    }
    assert g.nodes[..|g.nodes|] == g.nodes;
    OverlaySomeAll(start, info, g.nodes);
  }

  /** The attributes part-way through the overlay loop: the nodes in `done` are overlaid. */
  ghost function OverlaySome(attrs: map<string, Attrs>, info: map<string, NodeInfo>, done: seq<string>)
    : map<string, Attrs>
  {
    map n | n in attrs :: if n in done then Overlaid(attrs[n], info, n) else attrs[n]
  }

  lemma OverlaySomeStep(attrs: map<string, Attrs>, info: map<string, NodeInfo>, nodes: seq<string>, k: nat)
    requires k < |nodes| && nodes[k] in attrs
    ensures var m := OverlaySome(attrs, info, nodes[..k]);
            OverlaySome(attrs, info, nodes[..k + 1]) == m[nodes[k] := Overlaid(m[nodes[k]], info, nodes[k])]
  {
    PrefixMembers(nodes, k);
  }

  lemma OverlaySomeAll(attrs: map<string, Attrs>, info: map<string, NodeInfo>, done: seq<string>)
    requires forall n :: n in attrs ==> n in done
    ensures OverlaySome(attrs, info, done) == Overlay(attrs, info)
  {
  }

  /** The body of the overlay loop for one node: its declared flag and comment; the result
      is the flag. */
  method OverlayNode(info: map<string, NodeInfo>, g: DepGraph, node: string) returns (complete: bool)
    requires g.Valid() && node in g.attrs
    modifies g
    ensures g.Valid() && g.nodes == old(g.nodes) && g.edges == old(g.edges)
    ensures g.attrs == old(g.attrs)[node := Overlaid(old(g.attrs)[node], info, node)]
    ensures complete == InfoComplete(info, node)
  {
    var comment: string;
    if node in info {
      complete := info[node].complete;
      comment := info[node].comment;
    } else {
      complete := false;
      comment := "";
    }
    g.attrs := g.attrs[node := g.attrs[node].(complete := Some(complete), comment := Some(comment))];
  }

  /** The second loop of `set_node_info`: `next` and `waiting` from the predecessors'
      flags and the leftover `complete`. */
  method DerivePass(info: map<string, NodeInfo>, g: DepGraph, complete: bool)
    requires g.Valid()
    requires forall n :: n in g.attrs ==> g.attrs[n].complete == Some(InfoComplete(info, n))
    modifies g
    ensures g.Valid() && g.nodes == old(g.nodes) && g.edges == old(g.edges)
    ensures g.attrs == Derive(old(g.edges), old(g.attrs), info, complete)
  {
    ghost var start := g.attrs;
    assert start == DeriveSome(g.edges, start, info, complete, g.nodes[..0]);
    for k := 0 to |g.nodes|
      invariant g.Valid() && g.nodes == old(g.nodes) && g.edges == old(g.edges)
      invariant g.attrs == DeriveSome(g.edges, start, info, complete, g.nodes[..k])
    {
      assert g.nodes[..k + 1] == g.nodes[..k] + [g.nodes[k]];
      SetFlags(info, g, complete, g.nodes[k], start, g.nodes[..k]);
    }
    assert g.nodes[..|g.nodes|] == g.nodes;
    DeriveSomeAll(g.edges, start, info, complete, g.nodes);
  }

  /** The attributes part-way through the derivation loop: the nodes in `done` are derived. */
  ghost function DeriveSome(edges: set<(string, string)>, attrs: map<string, Attrs>, info: map<string, NodeInfo>,
                            stale: bool, done: seq<string>): map<string, Attrs>
  {
    map n | n in attrs :: if n in done then Derived(attrs[n], !stale && ParentsComplete(edges, info, n), n) else attrs[n]
  }

  lemma DeriveSomeKeepsComplete(edges: set<(string, string)>, attrs: map<string, Attrs>, info: map<string, NodeInfo>,
                                stale: bool, done: seq<string>)
    requires forall n :: n in attrs ==> attrs[n].complete == Some(InfoComplete(info, n))
    ensures var m := DeriveSome(edges, attrs, info, stale, done);
            forall n :: n in m ==> m[n].complete == Some(InfoComplete(info, n))
  {
  }

  lemma DeriveSomeStep(edges: set<(string, string)>, attrs: map<string, Attrs>, info: map<string, NodeInfo>,
                       stale: bool, done: seq<string>, x: string)
    requires x in attrs
    ensures var m := DeriveSome(edges, attrs, info, stale, done);
            DeriveSome(edges, attrs, info, stale, done + [x]) == m[x := Derived(m[x], !stale && ParentsComplete(edges, info, x), x)]
  {
  }

  lemma DeriveSomeAll(edges: set<(string, string)>, attrs: map<string, Attrs>, info: map<string, NodeInfo>,
                      stale: bool, done: seq<string>)
    requires forall n :: n in attrs ==> n in done
    ensures DeriveSome(edges, attrs, info, stale, done) == Derive(edges, attrs, info, stale)
  {
  }

  /** The body of the derivation loop for one node, the nodes `done` having been derived
      from `start` before it. */
  method SetFlags(info: map<string, NodeInfo>, g: DepGraph, complete: bool, node: string,
                  ghost start: map<string, Attrs>, ghost done: seq<string>)
    requires g.Valid() && node in start
    requires forall n :: n in start ==> start[n].complete == Some(InfoComplete(info, n))
    requires g.attrs == DeriveSome(g.edges, start, info, complete, done)
    modifies g
    ensures g.Valid() && g.nodes == old(g.nodes) && g.edges == old(g.edges)
    ensures g.attrs == DeriveSome(g.edges, start, info, complete, done + [node])
  {
    DeriveSomeKeepsComplete(g.edges, start, info, complete, done);
    DeriveSomeStep(g.edges, start, info, complete, done, node);
    var allParentsComplete := CheckParents(g, node, info);
    var isNext := !complete && allParentsComplete;
    var isWaiting := isNext && StartsWith(node, AwaitPrefix);
    g.attrs := g.attrs[node := g.attrs[node].(waiting := Some(isWaiting), next := Some(isNext))];
  }

  /** The inner loop of the derivation pass: whether every predecessor of `node` has its
      `complete` attribute set, read from the graph. */
  method CheckParents(g: DepGraph, node: string, info: map<string, NodeInfo>)
    returns (allParentsComplete: bool)
    requires g.Valid()
    requires forall n :: n in g.attrs ==> g.attrs[n].complete == Some(InfoComplete(info, n))
    ensures allParentsComplete == ParentsComplete(g.edges, info, node)
  {
    allParentsComplete := true;
    var preds := g.Predecessors(node);
    var parents := preds;
    while parents != {}
      invariant parents <= preds
      invariant allParentsComplete <==> forall p :: p in preds && p !in parents ==> InfoComplete(info, p)
      decreases |parents|
    {
      var parent :| parent in parents;
      if !g.attrs[parent].complete.value {
        allParentsComplete := false;
      }
      parents := parents - {parent};
    }
  }

  // ---------------------------------------------------------------- the stale flag

  /** With `a` complete, `b` not, and `a -> b`, the `is_next` assignment marks the completed task `a` as
      `next` (so it is listed as a TODO), where the intended rule does not. */
  lemma StaleFlagMarksCompleteTask()
    ensures var info := map["a" := NodeInfo("a", true, ""), "b" := NodeInfo("b", false, "")];
            var attrs := map["a" := NoAttrs.(complete := Some(false)), "b" := NoAttrs.(complete := Some(false))];
            && Classified(["a", "b"], {("a", "b")}, attrs, info)["a"].complete == Some(true)
            && Classified(["a", "b"], {("a", "b")}, attrs, info)["a"].next == Some(true)
            && IntendedAttrs({("a", "b")}, attrs, info)["a"].next == Some(false)
  {
    var info := map["a" := NodeInfo("a", true, ""), "b" := NodeInfo("b", false, "")];
    assert !InfoComplete(info, "b");
    assert ParentsComplete({("a", "b")}, info, "a") by {
      assert ("a", "b").1 != "a";
    }
  }

  /** With `b` complete and last, the `is_next` assignment leaves the open task `a`, which has no
      predecessors, out of `next`. */
  lemma StaleFlagHidesOpenTask()
    ensures var info := map["a" := NodeInfo("a", false, ""), "b" := NodeInfo("b", true, "")];
            var attrs := map["a" := NoAttrs.(complete := Some(false)), "b" := NoAttrs.(complete := Some(false))];
            && Classified(["a", "b"], {("a", "b")}, attrs, info)["a"].complete == Some(false)
            && Classified(["a", "b"], {("a", "b")}, attrs, info)["a"].next == Some(false)
            && IntendedAttrs({("a", "b")}, attrs, info)["a"].next == Some(true)
  {
    var info := map["a" := NodeInfo("a", false, ""), "b" := NodeInfo("b", true, "")];
    assert InfoComplete(info, "b");
    assert ParentsComplete({("a", "b")}, info, "a") by {
      assert ("a", "b").1 != "a";
    }
  }

  /** The rule the comment on the derivation loop of `set_node_info` states: a task is `next` when it is itself not
      complete and all its direct predecessors are. */
  function IntendedNext(edges: set<(string, string)>, info: map<string, NodeInfo>, n: string): bool {
    !InfoComplete(info, n) && ParentsComplete(edges, info, n)
  }

  /** The attributes `set_node_info` evidently intends: the overlay, then `next` by `IntendedNext`. */
  function IntendedAttrs(edges: set<(string, string)>, attrs: map<string, Attrs>, info: map<string, NodeInfo>)
    : (r: map<string, Attrs>)
    ensures r.Keys == attrs.Keys
  {
    map n | n in attrs :: Derived(Overlaid(attrs[n], info, n), IntendedNext(edges, info, n), n)
  }

  /** Under the intended rule a complete task is never `next`, `next` holds exactly for the
      open tasks whose predecessors are all complete, and `waiting` implies `next`. */
  lemma IntendedFlags(edges: set<(string, string)>, attrs: map<string, Attrs>, info: map<string, NodeInfo>, n: string)
    requires n in attrs
    ensures var a := IntendedAttrs(edges, attrs, info)[n];
            && a.complete.Some? && a.next.Some? && a.waiting.Some?
            && (a.complete.value ==> !a.next.value)
            && (a.next.value <==> !a.complete.value && forall p :: (p, n) in edges ==> InfoComplete(info, p))
            && (a.waiting.value <==> a.next.value && StartsWith(n, AwaitPrefix))
  {
    var a := IntendedAttrs(edges, attrs, info)[n];
    if a.next.value {
      forall p | (p, n) in edges ensures InfoComplete(info, p) {
        assert (p, n).1 == n;
      }
    }
  }

  /** The code agrees with the intended rule on every node whose own flag equals the stale
      one; in particular on the last node. */
  lemma ClassifiedAsIntendedWhere(nodes: seq<string>, edges: set<(string, string)>, attrs: map<string, Attrs>,
                                  info: map<string, NodeInfo>, n: string)
    requires n in attrs
    ensures (Classified(nodes, edges, attrs, info)[n] == IntendedAttrs(edges, attrs, info)[n])
              <==> InfoComplete(info, n) == LastComplete(nodes, info) || !ParentsComplete(edges, info, n)
  {
  }

  // ---------------------------------------------------------------- add_node_comments

  /** `a` with its comment replaced by `c`, if there is one. */
  function WithComment(a: Attrs, c: Option<string>): Attrs {
    match c
    case None => a
    case Some(text) => a.(comment := Some(text))
  }

  /** The comment given last to `n` in `comments`, if any. */
  function LastComment(comments: seq<(string, string)>, n: string): (r: Option<string>)
    ensures r.Some? <==> exists k :: 0 <= k < |comments| && comments[k].0 == n
  {
    if comments == [] then None
    else
      var init := comments[..|comments| - 1];
      assert forall k :: 0 <= k < |init| ==> init[k] == comments[k];
      if comments[|comments| - 1].0 == n then Some(comments[|comments| - 1].1) else LastComment(init, n)
  }

  /** The attributes after writing `comments` (the dictionary's items, in order) and the node
      whose missing entry raised the `KeyError`, if any; writes before it remain. */
  function ApplyComments(attrs: map<string, Attrs>, comments: seq<(string, string)>)
    : (r: (map<string, Attrs>, Option<string>))
    ensures r.0.Keys == attrs.Keys
    ensures r.1.Some? ==> r.1.value !in attrs
  {
    if comments == [] then (attrs, None)
    else
      match ApplyComments(attrs, comments[..|comments| - 1])
      case (m, Some(missing)) => (m, Some(missing))
      case (m, None) =>
        var (node, comment) := comments[|comments| - 1];
        if node in m then (m[node := m[node].(comment := Some(comment))], None) else (m, Some(node))
  }

  /** Writing the comments fails exactly when one of them names a node that is not in the graph,
      and then it names the first such. */
  lemma {:induction false} ApplyCommentsFails(attrs: map<string, Attrs>, comments: seq<(string, string)>)
    ensures ApplyComments(attrs, comments).1.None? <==> forall k :: 0 <= k < |comments| ==> comments[k].0 in attrs
    ensures ApplyComments(attrs, comments).1.Some? ==>
              exists j :: 0 <= j < |comments| && comments[j].0 == ApplyComments(attrs, comments).1.value
                          && forall k :: 0 <= k < j ==> comments[k].0 in attrs
  {
    if comments != [] {
      var init := comments[..|comments| - 1];
      ApplyCommentsFails(attrs, init);
      assert forall k :: 0 <= k < |init| ==> init[k] == comments[k];
    }
  }

  /** When every comment names a node, each node ends with the comment given to it last;
      nodes given none, and all other attributes, are unchanged. */
  lemma {:induction false} ApplyCommentsWrites(attrs: map<string, Attrs>, comments: seq<(string, string)>, n: string)
    requires n in attrs
    ensures ApplyComments(attrs, comments).1.None? ==>
              ApplyComments(attrs, comments).0[n] == WithComment(attrs[n], LastComment(comments, n))
  {
    if comments != [] {
      ApplyCommentsWrites(attrs, comments[..|comments| - 1], n);
    }
  }

  /** Once a prefix of the comments fails, the whole write stops there. */
  lemma {:induction false} ApplyCommentsFrom(attrs: map<string, Attrs>, comments: seq<(string, string)>, k: nat)
    requires k <= |comments| && ApplyComments(attrs, comments[..k]).1.Some?
    ensures ApplyComments(attrs, comments) == ApplyComments(attrs, comments[..k])
    decreases |comments| - k
  {
    if k < |comments| {
      assert comments[..k + 1][..k] == comments[..k];
      ApplyCommentsFrom(attrs, comments, k + 1);
    } else {
      assert comments[..k] == comments;
    }
  }

  /** `add_node_comments(G, comments)`: each node named in `comments` gets its comment; a name
      that is not a node raises `KeyError` (returned here) after the earlier writes. */
  method AddNodeComments(g: DepGraph, comments: seq<(string, string)>) returns (missing: Option<string>)
    requires g.Valid()
    modifies g
    ensures g.Valid() && g.nodes == old(g.nodes) && g.edges == old(g.edges)
    ensures (g.attrs, missing) == ApplyComments(old(g.attrs), comments)
  {
    for k := 0 to |comments|
      invariant g.Valid() && g.nodes == old(g.nodes) && g.edges == old(g.edges)
      invariant ApplyComments(old(g.attrs), comments[..k]) == (g.attrs, None)
    {
      assert comments[..k + 1][..k] == comments[..k];
      var (node, comment) := comments[k];
      if node !in g.attrs {
        ApplyCommentsFrom(old(g.attrs), comments, k + 1);
        return Some(node);
      }
      g.attrs := g.attrs[node := g.attrs[node].(comment := Some(comment))];
    }
    assert comments[..|comments|] == comments;
    missing := None;
  }
}
