/**
  What the program reads back from a classified graph: the node colour of the DOT output
  (`get_node_fill_color`) and the three task lists (`print_todo_list`,
  `print_awaiting_list`, `print_koi_todo_list`), as values rather than printed lines.
 */
module Selection {
  import opened Wrappers
  import opened Text
  import opened Lists
  import opened Parser
  import opened DepGraphs
  import opened Classifier

  /** A flag attribute that is present and true; an absent one reads as false. */
  predicate IsSet(flag: Option<bool>) {
    flag == Some(true)
  }

  datatype Color = LightGrey | LightBlue | Green | White

  /** The fill colour: `complete` wins over `waiting`, which wins over `next`. */
  function FillColor(a: Attrs): Color {
    if IsSet(a.complete) then LightGrey
    else if IsSet(a.waiting) then LightBlue
    else if IsSet(a.next) then Green
    else White
  }

  /** The nodes listed as TODO: `next` and not `waiting`, in node order. */
  function TodoList(nodes: seq<string>, attrs: map<string, Attrs>): (r: seq<string>)
    ensures |r| <= |nodes|
  {
    Filter(nodes, n => n in attrs && IsSet(attrs[n].next) && !IsSet(attrs[n].waiting))
  }

  /** The nodes listed as awaiting: `next` and `waiting`, in node order. */
  function AwaitingList(nodes: seq<string>, attrs: map<string, Attrs>): (r: seq<string>)
    ensures |r| <= |nodes|
  {
    Filter(nodes, n => n in attrs && IsSet(attrs[n].next) && IsSet(attrs[n].waiting))
  }

  /** The TODO list holds exactly the nodes that are `next` and not `waiting`. */
  lemma TodoListMembers(nodes: seq<string>, attrs: map<string, Attrs>, n: string)
    ensures n in TodoList(nodes, attrs) <==> n in nodes && n in attrs && IsSet(attrs[n].next) && !IsSet(attrs[n].waiting)
  {
    FilterMembers(nodes, m => m in attrs && IsSet(attrs[m].next) && !IsSet(attrs[m].waiting), n);
  }

  /** The awaiting list holds exactly the nodes that are `next` and `waiting`. */
  lemma AwaitingListMembers(nodes: seq<string>, attrs: map<string, Attrs>, n: string)
    ensures n in AwaitingList(nodes, attrs) <==> n in nodes && n in attrs && IsSet(attrs[n].next) && IsSet(attrs[n].waiting)
  {
    FilterMembers(nodes, m => m in attrs && IsSet(attrs[m].next) && IsSet(attrs[m].waiting), n);
  }

  /** After `set_node_info` the two lists split the `next` tasks: a node is in one of them
      exactly when it is `next`, never in both, and it is awaiting exactly when its name
      starts with `await`. */
  lemma ListsPartitionNext(nodes: seq<string>, edges: set<(string, string)>, attrs: map<string, Attrs>,
                           info: map<string, NodeInfo>, n: string)
    requires forall m :: m in attrs <==> m in nodes
    requires n in nodes
    ensures var c := Classified(nodes, edges, attrs, info);
            && (n in TodoList(nodes, c) || n in AwaitingList(nodes, c) <==> IsSet(c[n].next))
            && !(n in TodoList(nodes, c) && n in AwaitingList(nodes, c))
            && (n in AwaitingList(nodes, c) <==> IsSet(c[n].next) && StartsWith(n, AwaitPrefix))
  {
    var c := Classified(nodes, edges, attrs, info);
    TodoListMembers(nodes, c, n);
    AwaitingListMembers(nodes, c, n);
    DerivedFlags(nodes, edges, attrs, info, n);
  }

  /** On a classified graph the colour agrees with the lists: green nodes are TODO items,
      light-blue ones are awaited, and an open TODO item is green. A complete task that
      the `is_next` assignment makes `next` is light grey yet still listed as TODO. */
  lemma ColorMatchesLists(nodes: seq<string>, edges: set<(string, string)>, attrs: map<string, Attrs>,
                          info: map<string, NodeInfo>, n: string)
    requires forall m :: m in attrs <==> m in nodes
    requires n in nodes
    ensures var c := Classified(nodes, edges, attrs, info);
            && (FillColor(c[n]) == Green ==> n in TodoList(nodes, c))
            && (FillColor(c[n]) == LightBlue ==> n in AwaitingList(nodes, c))
            && (FillColor(c[n]) == LightGrey <==> InfoComplete(info, n))
            && (n in TodoList(nodes, c) && !InfoComplete(info, n) ==> FillColor(c[n]) == Green)
  {
    var c := Classified(nodes, edges, attrs, info);
    TodoListMembers(nodes, c, n);
    AwaitingListMembers(nodes, c, n);
    DerivedFlags(nodes, edges, attrs, info, n);
  }

  /** Under the rule the comment on the derivation loop states, the lists hold no complete task, and every TODO
      item is green. */
  lemma IntendedListsOpenOnly(nodes: seq<string>, edges: set<(string, string)>, attrs: map<string, Attrs>,
                              info: map<string, NodeInfo>, n: string)
    requires forall m :: m in attrs <==> m in nodes
    requires n in nodes
    ensures var c := IntendedAttrs(edges, attrs, info);
            && (InfoComplete(info, n) ==> n !in TodoList(nodes, c) && n !in AwaitingList(nodes, c))
            && (n in TodoList(nodes, c) ==> FillColor(c[n]) == Green)
            && (n in AwaitingList(nodes, c) ==> FillColor(c[n]) == LightBlue)
  {
    var c := IntendedAttrs(edges, attrs, info);
    TodoListMembers(nodes, c, n);
    AwaitingListMembers(nodes, c, n);
    IntendedFlags(edges, attrs, info, n);
  }

  /** Koi's list: the direct successors of the node `koi` that are `next`; `None` where
      `koi` is not a node (networkx raises an error there). */
  function KoiList(nodes: seq<string>, edges: set<(string, string)>, attrs: map<string, Attrs>)
    : (r: Option<set<string>>)
    ensures r.Some? <==> "koi" in nodes
    ensures r.Some? ==> forall s :: s in r.value <==> ("koi", s) in edges && s in attrs && IsSet(attrs[s].next)
  {
    if "koi" !in nodes then None
    else Some(set e | e in edges && e.0 == "koi" && e.1 in attrs && IsSet(attrs[e.1].next) :: e.1)
  }
}
