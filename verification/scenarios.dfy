/** Small whole-program scenarios: what `NewStatic` and `SubGraph` produce for
    two functions that call each other. */
module Scenarios {
  import opened Names
  import opened CallGraph
  import opened Builder
  import opened Static
  import opened SubGraphs

  // ---------------------------------------------------------------------------
  // Counting nodes and edges through their names

  /** Nodes with pairwise different names are as many as their names. */
  lemma {:induction false} CaptionCount(nodes: map<Id, Node>)
    requires forall a, b | a in nodes && b in nodes && nodes[a].caption == nodes[b].caption :: a == b
    ensures |nodes.Keys| == |Captions(nodes)|
    decreases |nodes|
  {
    if |nodes| > 0 {
      var id :| id in nodes;
      var rest := nodes - {id};
      CaptionCount(rest);
      var c := nodes[id].caption;
      forall x | x in Captions(nodes)
        ensures x in Captions(rest) <==> x != c
      {
        var k :| k in nodes && nodes[k].caption == x;
        if x != c {
          assert k in rest;
        }
      }
      assert Captions(rest) == Captions(nodes) - {c};
      assert nodes.Keys == rest.Keys + {id};
    }
  }

  /** Edges joining pairwise different name pairs are as many as their pairs. */
  lemma {:induction false} PairCount(nodes: map<Id, Node>, edges: map<Id, Edge>)
    requires forall e | e in edges :: edges[e].source in nodes && edges[e].target in nodes
    requires forall e1, e2 | e1 in edges && e2 in edges
      && nodes[edges[e1].source].caption == nodes[edges[e2].source].caption
      && nodes[edges[e1].target].caption == nodes[edges[e2].target].caption :: e1 == e2
    ensures |edges.Keys| == |Pairs(nodes, edges)|
    decreases |edges|
  {
    if |edges| > 0 {
      var id :| id in edges;
      var rest := edges - {id};
      PairCount(nodes, rest);
      PairRemoved(nodes, edges, id);
      assert edges.Keys == rest.Keys + {id};
    }
  }

  lemma TwoElements<T>(x: T, y: T)
    requires x != y
    ensures |{x, y}| == 2
  {
  }

  lemma EndpointsOfBoth(x: string, y: string)
    ensures Endpoints({(x, y), (y, x)}) == {x, y}
  {
    assert (x, y).0 == x && (x, y).1 == y;
  }

  /** Removing one edge removes exactly its own name pair. */
  lemma PairRemoved(nodes: map<Id, Node>, edges: map<Id, Edge>, id: Id)
    requires forall e | e in edges :: edges[e].source in nodes && edges[e].target in nodes
    requires forall e1, e2 | e1 in edges && e2 in edges
      && nodes[edges[e1].source].caption == nodes[edges[e2].source].caption
      && nodes[edges[e1].target].caption == nodes[edges[e2].target].caption :: e1 == e2
    requires id in edges
    ensures Pairs(nodes, edges - {id})
      == Pairs(nodes, edges) - {(nodes[edges[id].source].caption, nodes[edges[id].target].caption)}
  {
    var rest := edges - {id};
    var p := (nodes[edges[id].source].caption, nodes[edges[id].target].caption);
    forall x | x in Pairs(nodes, edges)
      ensures x in Pairs(nodes, rest) <==> x != p
    {
      var k :| k in edges && edges[k].source in nodes && edges[k].target in nodes
        && x == (nodes[edges[k].source].caption, nodes[edges[k].target].caption);
      if x != p {
        assert k in rest;
      }
    }
  }

  /** In a well-formed graph the nodes are as many as their names and the
      edges as many as the name pairs they join. */
  lemma GraphCounts(g: StaticCallGraph)
    requires Wf(g)
    ensures |g.nodes.Keys| == |NodeCaptions(g)|
    ensures |g.edges.Keys| == |EdgePairs(g)|
  {
    forall a, b | a in g.nodes && b in g.nodes && g.nodes[a].caption == g.nodes[b].caption
      ensures a == b
    {
      OneNodePerName(g, a, b);
    }
    CaptionCount(g.nodes);
    WfEndpointsExist(g, {});
    forall e1, e2 | e1 in g.edges && e2 in g.edges
      && g.nodes[g.edges[e1].source].caption == g.nodes[g.edges[e2].source].caption
      && g.nodes[g.edges[e1].target].caption == g.nodes[g.edges[e2].target].caption
      ensures e1 == e2
    {
      OneEdgePerPair(g, e1, e2);
    }
    PairCount(g.nodes, g.edges);
  }

  // ---------------------------------------------------------------------------
  // A calls B twice; B calls nothing

  function TwiceDecls(a: Func, b: Func): seq<Decl> {
    [Decl(a, [FuncCallee(b), FuncCallee(b)]), Decl(b, [])]
  }

  /** What the reference descriptions say about the declarations. */
  lemma TwiceInput(a: Func, b: Func)
    requires '>' !in FunName(a) && '>' !in FunName(b)
    ensures var ds := TwiceDecls(a, b);
      && Cost(ds) == 8 && DeclsClean(ds) && !DeclsPanic(ds)
      && StaticPairs(ds) == {(FunName(a), FunName(b))}
      && ShownCallers(ds, Flags(false)) == {}
  {
    var ds := TwiceDecls(a, b);
    var p := (FunName(a), FunName(b));
    assert ds[1..] == [Decl(b, [])] && ds[1..][1..] == [];
    assert ds[0].calls[1..] == [FuncCallee(b)] && ds[0].calls[1..][1..] == [];
    assert Cost(ds[1..]) == 1;
    assert !CallsPanic(ds[0].calls) && !CallsPanic(ds[1].calls);
    assert CallPairs(a, ds[0].calls[1..][1..]) == {};
    assert CallPairs(a, ds[0].calls[1..]) == {p};
    assert CallPairs(a, ds[0].calls) == {p};
    assert StaticPairs(ds[1..][1..]) == {};
    assert StaticPairs(ds[1..]) == {};
  }

  /** Two call sites of the same callee collapse into one edge, and a caller
      without calls adds no node while orphans are hidden. */
  lemma TwiceCalledOnce(a: Func, b: Func)
    requires FunName(a) != FunName(b)
    requires '>' !in FunName(a) && '>' !in FunName(b)
    ensures var r := NewStatic(TwiceDecls(a, b), Flags(false));
      && r.Success?
      && NodeCaptions(r.value) == {FunName(a), FunName(b)}
      && EdgePairs(r.value) == {(FunName(a), FunName(b))}
      && |r.value.nodes| == 2 && |r.value.edges| == 1
  {
    var ds := TwiceDecls(a, b);
    TwiceInput(a, b);
    NewStaticContents(ds, Flags(false));
    EndpointsOfPair(FunName(a), FunName(b));
    TwoElements(FunName(a), FunName(b));
    GraphCounts(NewStatic(ds, Flags(false)).value);
  }

  /** The same scenario on two package-level functions `main.A` and `main.B`,
      whose parent is the package scope. */
  lemma TwiceCalledOnceMain()
    ensures var r := NewStatic(TwiceDecls(Func("main.A", true, false), Func("main.B", true, false)), Flags(false));
      && r.Success? && |r.value.nodes| == 2 && |r.value.edges| == 1
  {
    var a := Func("main.A", true, false);
    var b := Func("main.B", true, false);
    assert FunName(a) == "main.A" by {
      ShortNameUnchanged(a.fullName);
    }
    assert FunName(b) == "main.B" by {
      ShortNameUnchanged(b.fullName);
    }
    assert "main.A"[5] != "main.B"[5];
    TwiceCalledOnce(a, b);
  }

  // ---------------------------------------------------------------------------
  // A calls B and B calls A

  function CycleDecls(a: Func, b: Func): seq<Decl> {
    [Decl(a, [FuncCallee(b)]), Decl(b, [FuncCallee(a)])]
  }

  lemma CycleInput(a: Func, b: Func)
    requires '>' !in FunName(a) && '>' !in FunName(b)
    ensures var ds := CycleDecls(a, b);
      && Cost(ds) == 8 && DeclsClean(ds) && !DeclsPanic(ds)
      && StaticPairs(ds) == {(FunName(a), FunName(b)), (FunName(b), FunName(a))}
      && ShownCallers(ds, Flags(false)) == {}
  {
    var ds := CycleDecls(a, b);
    var pab, pba := (FunName(a), FunName(b)), (FunName(b), FunName(a));
    assert ds[1..] == [Decl(b, [FuncCallee(a)])] && ds[1..][1..] == [];
    assert ds[0].calls[1..] == [] && ds[1].calls[1..] == [];
    assert Cost(ds[1..]) == 4;
    assert !CallsPanic(ds[0].calls) && !CallsPanic(ds[1].calls);
    assert CallPairs(a, ds[0].calls) == {pab};
    assert CallPairs(b, ds[1].calls) == {pba};
    assert StaticPairs(ds[1..][1..]) == {};
    assert StaticPairs(ds[1..]) == {pba};
  }

  /** The static graph of the cycle: two nodes and one edge each way. */
  lemma CycleBuilt(a: Func, b: Func)
    requires FunName(a) != FunName(b)
    requires '>' !in FunName(a) && '>' !in FunName(b)
    ensures var r := NewStatic(CycleDecls(a, b), Flags(false));
      && r.Success? && Wf(r.value)
      && NodeCaptions(r.value) == {FunName(a), FunName(b)}
      && EdgePairs(r.value) == {(FunName(a), FunName(b)), (FunName(b), FunName(a))}
      && |r.value.nodes| == 2 && |r.value.edges| == 2
  {
    var ds := CycleDecls(a, b);
    var pab, pba := (FunName(a), FunName(b)), (FunName(b), FunName(a));
    CycleInput(a, b);
    NewStaticContents(ds, Flags(false));
    EndpointsOfBoth(FunName(a), FunName(b));
    TwoElements(FunName(a), FunName(b));
    TwoElements(pab, pba);
    GraphCounts(NewStatic(ds, Flags(false)).value);
  }

  /** Selecting the nodes named `name`. */
  function Named(name: string): Node -> bool {
    (n: Node) => n.caption == name
  }

  /** Over the cycle, every node is reachable from A: A itself, and B along the edge A -> B. */
  lemma CycleReachable(g: StaticCallGraph, a: string, b: string)
    requires Wf(g)
    requires NodeCaptions(g) == {a, b} && (a, b) in EdgePairs(g)
    ensures g.nodes.Keys <= ReachableSet(g, Named(a))
  {
    var e :| e in g.edges && g.edges[e].source in g.nodes && g.edges[e].target in g.nodes
      && (a, b) == (g.nodes[g.edges[e].source].caption, g.nodes[g.edges[e].target].caption);
    var src, dst := g.edges[e].source, g.edges[e].target;
    assert Reachable(g, Named(a), src) by {
      assert IsPath(g, [src]);
    }
    assert Step(g, src, dst);
    ReachExtend(g, Named(a), src, dst);
    forall n | n in g.nodes
      ensures Reachable(g, Named(a), n)
    {
      assert g.nodes[n].caption in NodeCaptions(g);
      if g.nodes[n].caption == a {
        assert IsPath(g, [n]);
      } else {
        OneNodePerName(g, n, dst);
      }
    }
  }

  /** The walk from A over the cycle stops at the node it already stored and
      keeps both nodes and both edges, unchanged. */
  lemma CycleSubGraph(g: StaticCallGraph, a: string, b: string, nodeOrder: seq<Id>, edgeOrder: seq<Id>)
    requires Wf(g)
    requires NodeCaptions(g) == {a, b} && (a, b) in EdgePairs(g)
    requires ListsKeys(nodeOrder, g.nodes.Keys) && ListsKeys(edgeOrder, g.edges.Keys)
    ensures EndpointsExist(g)
      && var r := SubGraph(g, Named(a), nodeOrder, edgeOrder);
      r.nodes == g.nodes && r.edges == g.edges
  {
    WfEndpointsExist(g, {});
    CycleReachable(g, a, b);
    AllReachableKept(g, Named(a), nodeOrder, edgeOrder);
  }

  /** Both halves together: the subgraph reachable from A in the built cycle
      has two nodes and two edges. */
  lemma CycleScenario(a: Func, b: Func, nodeOrder: seq<Id>, edgeOrder: seq<Id>)
    requires FunName(a) != FunName(b)
    requires '>' !in FunName(a) && '>' !in FunName(b)
    requires var r := NewStatic(CycleDecls(a, b), Flags(false));
      r.Success? && ListsKeys(nodeOrder, r.value.nodes.Keys) && ListsKeys(edgeOrder, r.value.edges.Keys)
    ensures var g := NewStatic(CycleDecls(a, b), Flags(false)).value;
      EndpointsExist(g) && |SubGraph(g, Named(FunName(a)), nodeOrder, edgeOrder).nodes| == 2
      && |SubGraph(g, Named(FunName(a)), nodeOrder, edgeOrder).edges| == 2
  {
    CycleBuilt(a, b);
    CycleSubGraph(NewStatic(CycleDecls(a, b), Flags(false)).value, FunName(a), FunName(b), nodeOrder, edgeOrder);
  }
}
