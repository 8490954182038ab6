/** The node and edge builders: `addNode`, `addStaticEdge` and the two edge stubs,
    with the invariant they keep. */
module Builder {
  import opened Names
  import opened Hex
  import opened CallGraph

  /** The id an operation returns together with the graph after it. */
  datatype Added = Added(id: Id, graph: StaticCallGraph)

  /** Attributes of a new function node: "go_root" for a function of the Go
      distribution, then "global" for one whose `Parent()` is nil (in `go/types`, a method). */
  function FuncAttrs(f: Func): (attrs: seq<string>)
    ensures "go_root" in attrs <==> f.inGoRoot
    ensures "global" in attrs <==> !f.hasParent
    ensures forall a | a in attrs :: a == "go_root" || a == "global"
    ensures |attrs| <= 2
  {
    (if f.inGoRoot then ["go_root"] else []) + (if f.hasParent then [] else ["global"])
  }

  /** The node `addNode` stores for a function seen for the first time. Both
      branches of the source's `strings.LastIndex` test give the full canonical
      name as the label, and the parent id stays empty. */
  function NewFuncNode(id: Id, f: Func): (n: Node)
    ensures n.id == id && n.nodeType == NodeFunc && n.symbol == FuncSymbol(f)
    ensures n.caption == FunName(f) && n.parent == "" && n.desc == ""
    ensures "global" in n.attrs <==> !f.hasParent
    ensures "go_root" in n.attrs <==> f.inGoRoot
    ensures n.attrs == FuncAttrs(f)
  {
    Node(id, "", FunName(f), "", FuncAttrs(f), NodeFunc, FuncSymbol(f))
  }

  /** `addNode`: the id of the function node registered under
      "func ~ <canonical name>", creating the node on first sight. */
  function AddNode(g: StaticCallGraph, f: Func): (r: Added)
    ensures NodeKey(FunName(f)) in r.graph.idMap && r.graph.idMap[NodeKey(FunName(f))] == r.id
    ensures NodeKey(FunName(f)) in g.idMap ==> r == Added(g.idMap[NodeKey(FunName(f))], g)
    ensures NodeKey(FunName(f)) !in g.idMap ==>
      && r.graph.nodes == g.nodes[r.id := NewFuncNode(r.id, f)]
      && r.graph.edges == g.edges
      && r.graph.idMap == g.idMap[NodeKey(FunName(f)) := r.id]
      && r.graph.idCounter == NextCounter(g.idCounter)
  {
    var got := GetId(g, NodeKey(FunName(f)), true);
    if !got.isNew then
      Added(got.id, got.graph)
    else
      Added(got.id, got.graph.(nodes := got.graph.nodes[got.id := NewFuncNode(got.id, f)]))
  }

  /** `addDynamicEdge` is an unfinished stub: it records nothing. */
  function AddDynamicEdge(g: StaticCallGraph, caller: Func, callee: string): (r: Added)
    ensures r.graph == g && r.id == ""
  {
    Added("", g)
  }

  /** `addBuiltinEdge` is an unfinished stub: it records nothing. */
  function AddBuiltinEdge(g: StaticCallGraph, caller: Func, callee: string): (r: Added)
    ensures r.graph == g && r.id == ""
  {
    Added("", g)
  }

  /** `addStaticEdge`: the id of the one edge registered under
      "call <caller> -> <callee>". A new key creates both endpoint nodes and then
      the edge, tagged "static"; a known key changes nothing. */
  function AddStaticEdge(g: StaticCallGraph, caller: Func, callee: Func): (r: Added)
    ensures var key := EdgeKey(FunName(caller), FunName(callee));
      && key in r.graph.idMap && r.graph.idMap[key] == r.id
      && (key in g.idMap ==> r == Added(g.idMap[key], g))
  {
    var got := GetId(g, EdgeKey(FunName(caller), FunName(callee)), true);
    if !got.isNew then
      Added(got.id, got.graph)
    else
      var key := EdgeKey(FunName(caller), FunName(callee));
      var from := AddNode(got.graph, caller);
      NodeKeyNotEdgeKey(FunName(caller), FunName(caller), FunName(callee));
      assert key in from.graph.idMap && from.graph.idMap[key] == got.id;
      var to := AddNode(from.graph, callee);
      NodeKeyNotEdgeKey(FunName(callee), FunName(caller), FunName(callee));
      var edge := Edge(got.id, from.id, to.id, ["static"]);
      Added(got.id, to.graph.(edges := to.graph.edges[got.id := edge]))
  }

  /** A node is stored under its own id, and that id is the one registered for its name. */
  ghost predicate NodeRegistered(g: StaticCallGraph, id: Id)
    requires id in g.nodes
  {
    var n := g.nodes[id];
    && n.id == id
    && NodeKey(n.caption) in g.idMap && g.idMap[NodeKey(n.caption)] == id
  }

  /** An edge is stored under its own id, joins two existing nodes, is tagged
      "static", and its id is the one registered for its endpoints' names. */
  ghost predicate EdgeRegistered(g: StaticCallGraph, id: Id)
    requires id in g.edges
  {
    var e := g.edges[id];
    && e.id == id
    && e.source in g.nodes && e.target in g.nodes
    && e.attrs == ["static"]
    && var key := EdgeKey(g.nodes[e.source].caption, g.nodes[e.target].caption);
       key in g.idMap && g.idMap[key] == id
  }

  /** The builder invariant, except that the edge keys in `pending` may still be
      waiting for their edge (the state inside `addStaticEdge`). */
  ghost predicate WfPending(g: StaticCallGraph, pending: set<string>) {
    && Registry(g)
    && (forall id {:trigger NodeRegistered(g, id)} | id in g.nodes :: NodeRegistered(g, id))
    && (forall id {:trigger EdgeRegistered(g, id)} | id in g.edges :: EdgeRegistered(g, id))
    && (forall name | NodeKey(name) in g.idMap :: g.idMap[NodeKey(name)] in g.nodes)
    && (forall a, b | EdgeKey(a, b) in g.idMap && EdgeKey(a, b) !in pending ::
          g.idMap[EdgeKey(a, b)] in g.edges)
  }

  /** The builder invariant of a finished operation. */
  ghost predicate Wf(g: StaticCallGraph) {
    WfPending(g, {})
  }

  /** Nothing recorded in `g` is lost or changed in `h`. */
  ghost predicate Grows(g: StaticCallGraph, h: StaticCallGraph) {
    && g.idCounter <= h.idCounter
    && (forall k | k in g.idMap :: k in h.idMap && h.idMap[k] == g.idMap[k])
    && (forall id | id in g.nodes :: id in h.nodes && h.nodes[id] == g.nodes[id])
    && (forall id | id in g.edges :: id in h.edges && h.edges[id] == g.edges[id])
  }

  /** No '>' in any node name. A Go qualified name holds one only through a quoted
      struct tag inside a receiver's type argument. */
  ghost predicate CaptionsClean(g: StaticCallGraph) {
    forall id | id in g.nodes :: '>' !in g.nodes[id].caption
  }

  lemma NewGraphWf()
    ensures Wf(NewGraph())
  {
  }

  /** Every registered node and edge id is a registry value. */
  lemma IdsRegistered(g: StaticCallGraph, pending: set<string>)
    requires WfPending(g, pending)
    ensures forall id | id in g.nodes :: id in g.idMap.Values
    ensures forall id | id in g.edges :: id in g.idMap.Values
  {
    forall id | id in g.nodes
      ensures id in g.idMap.Values
    {
      assert NodeRegistered(g, id);
      assert g.idMap[NodeKey(g.nodes[id].caption)] == id;
    }
    forall id | id in g.edges
      ensures id in g.idMap.Values
    {
      assert EdgeRegistered(g, id);
      var e := g.edges[id];
      assert g.idMap[EdgeKey(g.nodes[e.source].caption, g.nodes[e.target].caption)] == id;
    }
  }

  /** The node registered for a name carries that name. */
  lemma RegisteredNodeName(g: StaticCallGraph, pending: set<string>, name: string)
    requires WfPending(g, pending)
    requires NodeKey(name) in g.idMap
    ensures g.idMap[NodeKey(name)] in g.nodes
    ensures g.nodes[g.idMap[NodeKey(name)]].caption == name
  {
    var id := g.idMap[NodeKey(name)];
    assert NodeRegistered(g, id);
    NodeKeyInjective(g.nodes[id].caption, name);
  }

  /** `addNode` keeps the invariant, returns the id of a node carrying the
      function's canonical name, and adds exactly that name to the graph. */
  lemma AddNodeSound(g: StaticCallGraph, f: Func, pending: set<string>)
    requires WfPending(g, pending)
    requires g.idCounter + 1 < Uint64Limit
    ensures WfPending(AddNode(g, f).graph, pending)
    ensures AddNode(g, f).id in AddNode(g, f).graph.nodes
    ensures AddNode(g, f).graph.nodes[AddNode(g, f).id].caption == FunName(f)
    ensures Grows(g, AddNode(g, f).graph)
    ensures AddNode(g, f).graph.edges == g.edges
    ensures AddNode(g, f).graph.idCounter <= g.idCounter + 1
    ensures NodeCaptions(AddNode(g, f).graph) == NodeCaptions(g) + {FunName(f)}
  {
    AddNodeGrows(g, f, pending);
    if NodeKey(FunName(f)) in g.idMap {
      RegisteredNodeName(g, pending, FunName(f));
    } else {
      AddNodeFreshSound(g, f, pending);
    }
  }

  /** `addNode` loses and changes nothing, and adds no edge. */
  lemma AddNodeGrows(g: StaticCallGraph, f: Func, pending: set<string>)
    requires WfPending(g, pending)
    requires g.idCounter + 1 < Uint64Limit
    ensures Grows(g, AddNode(g, f).graph)
    ensures AddNode(g, f).graph.edges == g.edges
    ensures AddNode(g, f).graph.idCounter <= g.idCounter + 1
  {
    if NodeKey(FunName(f)) !in g.idMap {
      GetIdKeepsRegistry(g, NodeKey(FunName(f)), true);
      IdsRegistered(g, pending);
    }
  }

  lemma AddNodeFreshSound(g: StaticCallGraph, f: Func, pending: set<string>)
    requires WfPending(g, pending) && NodeKey(FunName(f)) !in g.idMap
    requires g.idCounter + 1 < Uint64Limit
    ensures WfPending(AddNode(g, f).graph, pending)
    ensures AddNode(g, f).id in AddNode(g, f).graph.nodes
    ensures AddNode(g, f).graph.nodes[AddNode(g, f).id].caption == FunName(f)
    ensures NodeCaptions(AddNode(g, f).graph) == NodeCaptions(g) + {FunName(f)}
  {
    GetIdKeepsRegistry(g, NodeKey(FunName(f)), true);
    IdsRegistered(g, pending);
    assert FreshNodeStep(g, f, pending);
    FreshNodeKeepsNodes(g, f, pending);
    FreshNodeKeepsEdges(g, f, pending);
    FreshNodeKeepsKeys(g, f, pending);
    FreshNodeCaptions(g, f, pending);
  }

  /** The facts about a first-time `addNode` that the lemmas below share. */
  ghost predicate FreshNodeStep(g: StaticCallGraph, f: Func, pending: set<string>) {
    && WfPending(g, pending)
    && NodeKey(FunName(f)) !in g.idMap
    && AddNode(g, f).id !in g.idMap.Values
    && (forall id | id in g.nodes :: id in g.idMap.Values)
    && (forall id | id in g.edges :: id in g.idMap.Values)
  }

  lemma FreshNodeKeepsNodes(g: StaticCallGraph, f: Func, pending: set<string>)
    requires FreshNodeStep(g, f, pending)
    ensures forall id | id in AddNode(g, f).graph.nodes :: NodeRegistered(AddNode(g, f).graph, id)
  {
    var r := AddNode(g, f);
    forall id | id in r.graph.nodes
      ensures NodeRegistered(r.graph, id)
    {
      if id != r.id {
        assert NodeRegistered(g, id);
        assert NodeKey(g.nodes[id].caption) in g.idMap;
      }
    }
  }

  lemma FreshNodeKeepsEdges(g: StaticCallGraph, f: Func, pending: set<string>)
    requires FreshNodeStep(g, f, pending)
    ensures forall id | id in AddNode(g, f).graph.edges :: EdgeRegistered(AddNode(g, f).graph, id)
  {
    var r := AddNode(g, f);
    forall id | id in r.graph.edges
      ensures EdgeRegistered(r.graph, id)
    {
      assert EdgeRegistered(g, id);
      var e := g.edges[id];
      assert e.source != r.id && e.target != r.id;
    }
  }

  lemma FreshNodeKeepsKeys(g: StaticCallGraph, f: Func, pending: set<string>)
    requires FreshNodeStep(g, f, pending)
    ensures var h := AddNode(g, f).graph;
      && (forall name | NodeKey(name) in h.idMap :: h.idMap[NodeKey(name)] in h.nodes)
      && (forall a, b | EdgeKey(a, b) in h.idMap && EdgeKey(a, b) !in pending ::
            h.idMap[EdgeKey(a, b)] in h.edges)
  {
    var h := AddNode(g, f).graph;
    forall a, b | EdgeKey(a, b) in h.idMap && EdgeKey(a, b) !in pending
      ensures h.idMap[EdgeKey(a, b)] in h.edges
    {
      NodeKeyNotEdgeKey(FunName(f), a, b);
    }
  }

  lemma FreshNodeCaptions(g: StaticCallGraph, f: Func, pending: set<string>)
    requires FreshNodeStep(g, f, pending)
    ensures NodeCaptions(AddNode(g, f).graph) == NodeCaptions(g) + {FunName(f)}
  {
    var r := AddNode(g, f);
    var h := r.graph;
    forall c | c in NodeCaptions(h)
      ensures c in NodeCaptions(g) + {FunName(f)}
    {
      var id :| id in h.nodes && h.nodes[id].caption == c;
      if id != r.id {
        assert g.nodes[id].caption == c;
      }
    }
    forall c | c in NodeCaptions(g)
      ensures c in NodeCaptions(h)
    {
      var id :| id in g.nodes && g.nodes[id].caption == c;
      assert h.nodes[id].caption == c;
    }
    assert h.nodes[r.id].caption == FunName(f);
  }

  lemma GrowsTransitive(g1: StaticCallGraph, g2: StaticCallGraph, g3: StaticCallGraph)
    requires Grows(g1, g2) && Grows(g2, g3)
    ensures Grows(g1, g3)
  {
  }

  /** Registering a new edge key leaves the invariant intact except for that key. */
  lemma EdgeKeyPending(g: StaticCallGraph, key: string)
    requires Wf(g) && key !in g.idMap && g.idCounter + 1 < Uint64Limit
    requires exists a, b :: key == EdgeKey(a, b)
    ensures WfPending(GetId(g, key, true).graph, {key})
    ensures Grows(g, GetId(g, key, true).graph)
    ensures GetId(g, key, true).id !in g.idMap.Values
    ensures GetId(g, key, true).graph.idCounter == g.idCounter + 1
  {
    var a, b :| key == EdgeKey(a, b);
    var h := GetId(g, key, true).graph;
    GetIdKeepsRegistry(g, key, true);
    forall id | id in h.nodes
      ensures NodeRegistered(h, id)
    {
      assert NodeRegistered(g, id);
    }
    forall id | id in h.edges
      ensures EdgeRegistered(h, id)
    {
      assert EdgeRegistered(g, id);
    }
    forall name | NodeKey(name) in h.idMap
      ensures h.idMap[NodeKey(name)] in h.nodes
    {
      NodeKeyNotEdgeKey(name, a, b);
    }
  }

  /** The last step of a first-time `addStaticEdge`: storing the edge under the
      pending key restores the full invariant. */
  lemma StoreEdgeWf(g: StaticCallGraph, key: string, edge: Edge)
    requires WfPending(g, {key})
    requires key in g.idMap && g.idMap[key] == edge.id && edge.id !in g.edges
    requires edge.source in g.nodes && edge.target in g.nodes && edge.attrs == ["static"]
    requires key == EdgeKey(g.nodes[edge.source].caption, g.nodes[edge.target].caption)
    ensures Wf(g.(edges := g.edges[edge.id := edge]))
  {
    var h := g.(edges := g.edges[edge.id := edge]);
    forall id | id in h.nodes
      ensures NodeRegistered(h, id)
    {
      assert NodeRegistered(g, id);
    }
    StoredEdgesRegistered(g, key, edge);
  }

  lemma StoredEdgesRegistered(g: StaticCallGraph, key: string, edge: Edge)
    requires forall id {:trigger EdgeRegistered(g, id)} | id in g.edges :: EdgeRegistered(g, id)
    requires key in g.idMap && g.idMap[key] == edge.id
    requires edge.source in g.nodes && edge.target in g.nodes && edge.attrs == ["static"]
    requires key == EdgeKey(g.nodes[edge.source].caption, g.nodes[edge.target].caption)
    ensures var h := g.(edges := g.edges[edge.id := edge]);
      forall id {:trigger EdgeRegistered(h, id)} | id in h.edges :: EdgeRegistered(h, id)
  {
    var h := g.(edges := g.edges[edge.id := edge]);
    forall id | id in h.edges
      ensures EdgeRegistered(h, id)
    {
      if id != edge.id {
        assert EdgeRegistered(g, id);
      }
    }
  }

  /** Storing one more edge adds exactly its pair of endpoint names. */
  lemma StoreEdgePairs(g: StaticCallGraph, edge: Edge)
    requires edge.id !in g.edges
    requires edge.source in g.nodes && edge.target in g.nodes
    ensures EdgePairs(g.(edges := g.edges[edge.id := edge])) ==
      EdgePairs(g) + {(g.nodes[edge.source].caption, g.nodes[edge.target].caption)}
  {
    var h := g.(edges := g.edges[edge.id := edge]);
    var pair := (g.nodes[edge.source].caption, g.nodes[edge.target].caption);
    forall p | p in EdgePairs(h)
      ensures p in EdgePairs(g) + {pair}
    {
      var e :| e in h.edges && h.edges[e].source in h.nodes && h.edges[e].target in h.nodes
        && p == (h.nodes[h.edges[e].source].caption, h.nodes[h.edges[e].target].caption);
      if e != edge.id {
        assert g.edges[e] == h.edges[e];
      }
    }
    forall p | p in EdgePairs(g)
      ensures p in EdgePairs(h)
    {
      var e :| e in g.edges && g.edges[e].source in g.nodes && g.edges[e].target in g.nodes
        && p == (g.nodes[g.edges[e].source].caption, g.nodes[g.edges[e].target].caption);
      assert h.edges[e] == g.edges[e];
    }
    assert h.edges[edge.id] == edge;
  }

  /** Growing the node map under an unchanged edge map keeps the edge pairs. */
  lemma EdgePairsKept(g: StaticCallGraph, h: StaticCallGraph)
    requires Grows(g, h) && h.edges == g.edges && EndpointsExist(g)
    ensures EdgePairs(h) == EdgePairs(g)
  {
    forall p | p in EdgePairs(h)
      ensures p in EdgePairs(g)
    {
      var e :| e in h.edges && h.edges[e].source in h.nodes && h.edges[e].target in h.nodes
        && p == (h.nodes[h.edges[e].source].caption, h.nodes[h.edges[e].target].caption);
      assert g.edges[e].source in g.nodes && g.edges[e].target in g.nodes;
    }
    forall p | p in EdgePairs(g)
      ensures p in EdgePairs(h)
    {
      var e :| e in g.edges && g.edges[e].source in g.nodes && g.edges[e].target in g.nodes
        && p == (g.nodes[g.edges[e].source].caption, g.nodes[g.edges[e].target].caption);
      assert h.edges[e] == g.edges[e];
    }
  }

  lemma WfEndpointsExist(g: StaticCallGraph, pending: set<string>)
    requires WfPending(g, pending)
    ensures EndpointsExist(g)
  {
    forall e | e in g.edges
      ensures g.edges[e].source in g.nodes && g.edges[e].target in g.nodes
    {
      assert EdgeRegistered(g, e);
    }
  }

  /** The edge registered under a key joins nodes whose names make up that key. */
  lemma RegisteredEdgeKey(g: StaticCallGraph, caller: string, callee: string)
    requires Wf(g) && EdgeKey(caller, callee) in g.idMap
    ensures var id := g.idMap[EdgeKey(caller, callee)];
      && id in g.edges
      && var e := g.edges[id];
         && e.source in g.nodes && e.target in g.nodes
         && EdgeKey(g.nodes[e.source].caption, g.nodes[e.target].caption) == EdgeKey(caller, callee)
  {
    var id := g.idMap[EdgeKey(caller, callee)];
    assert EdgeRegistered(g, id);
  }

  /** `addStaticEdge` keeps the invariant and returns an edge whose endpoints'
      names form the requested key. A new key adds both names and the pair; a
      known key leaves the graph as it was. */
  lemma AddStaticEdgeSound(g: StaticCallGraph, caller: Func, callee: Func)
    requires Wf(g)
    requires g.idCounter + 3 < Uint64Limit
    ensures StaticEdgeOutcome(g, caller, callee, AddStaticEdge(g, caller, callee))
    ensures EdgeKey(FunName(caller), FunName(callee)) !in g.idMap ==>
      && NodeCaptions(AddStaticEdge(g, caller, callee).graph)
         == NodeCaptions(g) + {FunName(caller), FunName(callee)}
      && EdgePairs(AddStaticEdge(g, caller, callee).graph)
         == EdgePairs(g) + {(FunName(caller), FunName(callee))}
  {
    var key := EdgeKey(FunName(caller), FunName(callee));
    if key in g.idMap {
      RegisteredEdgeKey(g, FunName(caller), FunName(callee));
      assert EdgeRegistered(g, g.idMap[key]);
    } else {
      AddStaticEdgeFresh(g, caller, callee);
      AddStaticEdgeFreshContents(g, caller, callee);
    }
  }

  /** What `addStaticEdge` guarantees in every case. */
  ghost predicate StaticEdgeOutcome(g: StaticCallGraph, caller: Func, callee: Func, r: Added) {
    && Wf(r.graph)
    && Grows(g, r.graph)
    && r.graph.idCounter <= g.idCounter + 3
    && r.id in r.graph.edges
    && var e := r.graph.edges[r.id];
       && e.source in r.graph.nodes && e.target in r.graph.nodes
       && e.attrs == ["static"]
       && EdgeKey(r.graph.nodes[e.source].caption, r.graph.nodes[e.target].caption)
          == EdgeKey(FunName(caller), FunName(callee))
  }

  /** The two `addNode` calls of a first-time `addStaticEdge`. */
  lemma EndpointsAdded(g: StaticCallGraph, caller: Func, callee: Func, key: string)
    requires WfPending(g, {key})
    requires g.idCounter + 2 < Uint64Limit
    ensures var from := AddNode(g, caller);
      var to := AddNode(from.graph, callee);
      && WfPending(to.graph, {key})
      && Grows(g, to.graph)
      && to.graph.edges == g.edges
      && to.graph.idCounter <= g.idCounter + 2
      && from.id in to.graph.nodes && to.graph.nodes[from.id].caption == FunName(caller)
      && to.id in to.graph.nodes && to.graph.nodes[to.id].caption == FunName(callee)
      && NodeCaptions(to.graph) == NodeCaptions(g) + {FunName(caller), FunName(callee)}
  {
    var from := AddNode(g, caller);
    var to := AddNode(from.graph, callee);
    AddNodeSound(g, caller, {key});
    AddNodeSound(from.graph, callee, {key});
    TwoSteps(g, from.graph, to.graph, from.id, FunName(caller), FunName(callee));
  }

  /** Two node additions in a row. */
  lemma TwoSteps(g: StaticCallGraph, h1: StaticCallGraph, h2: StaticCallGraph, id1: Id, c1: string, c2: string)
    requires Grows(g, h1) && Grows(h1, h2) && h1.edges == g.edges && h2.edges == h1.edges
    requires h1.idCounter <= g.idCounter + 1 && h2.idCounter <= h1.idCounter + 1
    requires id1 in h1.nodes && h1.nodes[id1].caption == c1
    requires NodeCaptions(h1) == NodeCaptions(g) + {c1} && NodeCaptions(h2) == NodeCaptions(h1) + {c2}
    ensures Grows(g, h2) && h2.edges == g.edges && h2.idCounter <= g.idCounter + 2
    ensures id1 in h2.nodes && h2.nodes[id1].caption == c1
    ensures NodeCaptions(h2) == NodeCaptions(g) + {c1, c2}
  {
    GrowsTransitive(g, h1, h2);
  }

  /** The state of a first-time `addStaticEdge` just before it stores the edge:
      both endpoints exist and only the key's edge is missing ... */
  lemma FreshEdgeEndpoints(g: StaticCallGraph, caller: Func, callee: Func)
    requires Wf(g)
    requires g.idCounter + 3 < Uint64Limit
    requires EdgeKey(FunName(caller), FunName(callee)) !in g.idMap
    ensures var key := EdgeKey(FunName(caller), FunName(callee));
      var got := GetId(g, key, true);
      var from := AddNode(got.graph, caller);
      var to := AddNode(from.graph, callee);
      && WfPending(to.graph, {key})
      && Grows(g, to.graph)
      && to.graph.edges == g.edges
      && to.graph.idCounter <= g.idCounter + 3
      && from.id in to.graph.nodes && to.graph.nodes[from.id].caption == FunName(caller)
      && to.id in to.graph.nodes && to.graph.nodes[to.id].caption == FunName(callee)
      && NodeCaptions(to.graph) == NodeCaptions(g) + {FunName(caller), FunName(callee)}
  {
    var key := EdgeKey(FunName(caller), FunName(callee));
    var got := GetId(g, key, true);
    var from := AddNode(got.graph, caller);
    var to := AddNode(from.graph, callee);
    EdgeKeyPending(g, key);
    EndpointsAdded(got.graph, caller, callee, key);
    GrowsTransitive(g, got.graph, to.graph);
  }

  /** ... the key stays registered to its fresh id through the two `addNode` calls ... */
  lemma FreshEdgeKey(g: StaticCallGraph, caller: Func, callee: Func)
    requires EdgeKey(FunName(caller), FunName(callee)) !in g.idMap
    ensures var key := EdgeKey(FunName(caller), FunName(callee));
      var got := GetId(g, key, true);
      var from := AddNode(got.graph, caller);
      var to := AddNode(from.graph, callee);
      key in to.graph.idMap && to.graph.idMap[key] == got.id
  {
    var key := EdgeKey(FunName(caller), FunName(callee));
    var got := GetId(g, key, true);
    var from := AddNode(got.graph, caller);
    NodeKeyNotEdgeKey(FunName(caller), FunName(caller), FunName(callee));
    NodeKeyNotEdgeKey(FunName(callee), FunName(caller), FunName(callee));
    assert key in from.graph.idMap && from.graph.idMap[key] == got.id;
  }

  /** ... and no edge has that id yet. */
  lemma FreshEdgeId(g: StaticCallGraph, key: string)
    requires Wf(g) && key !in g.idMap && g.idCounter + 1 < Uint64Limit
    ensures GetId(g, key, true).id !in g.edges
  {
    GetIdKeepsRegistry(g, key, true);
    IdsRegistered(g, {});
  }

  /** A first-time `addStaticEdge` is the two `addNode` calls followed by storing the edge. */
  lemma FreshEdgeShape(g: StaticCallGraph, caller: Func, callee: Func)
    requires EdgeKey(FunName(caller), FunName(callee)) !in g.idMap
    ensures var key := EdgeKey(FunName(caller), FunName(callee));
      var got := GetId(g, key, true);
      var from := AddNode(got.graph, caller);
      var to := AddNode(from.graph, callee);
      var edge := Edge(got.id, from.id, to.id, ["static"]);
      AddStaticEdge(g, caller, callee) == Added(got.id, to.graph.(edges := to.graph.edges[got.id := edge]))
  {
  }

  /** A first-time `addStaticEdge` keeps the invariant. */
  lemma AddStaticEdgeFresh(g: StaticCallGraph, caller: Func, callee: Func)
    requires Wf(g)
    requires g.idCounter + 3 < Uint64Limit
    requires EdgeKey(FunName(caller), FunName(callee)) !in g.idMap
    ensures StaticEdgeOutcome(g, caller, callee, AddStaticEdge(g, caller, callee))
  {
    var key := EdgeKey(FunName(caller), FunName(callee));
    var got := GetId(g, key, true);
    var from := AddNode(got.graph, caller);
    var to := AddNode(from.graph, callee);
    FreshEdgeEndpoints(g, caller, callee);
    FreshEdgeKey(g, caller, callee);
    FreshEdgeId(g, key);
    FreshEdgeShape(g, caller, callee);
    StoreFreshEdge(g, to.graph, key, got.id, from.id, to.id);
  }

  /** Storing the edge of a fresh key on top of a graph that grew from `g`. */
  lemma StoreFreshEdge(g: StaticCallGraph, h: StaticCallGraph, key: string, id: Id, a: Id, b: Id)
    requires WfPending(h, {key}) && Grows(g, h) && h.edges == g.edges
    requires key in h.idMap && h.idMap[key] == id && id !in h.edges
    requires a in h.nodes && b in h.nodes
    requires key == EdgeKey(h.nodes[a].caption, h.nodes[b].caption)
    ensures var h2 := h.(edges := h.edges[id := Edge(id, a, b, ["static"])]);
      && Wf(h2) && Grows(g, h2) && h2.nodes == h.nodes
      && id in h2.edges && h2.edges[id] == Edge(id, a, b, ["static"])
  {
    var edge := Edge(id, a, b, ["static"]);
    StoreEdgeWf(h, key, edge);
    var h2 := h.(edges := h.edges[id := edge]);
    assert Grows(h, h2);
    GrowsTransitive(g, h, h2);
  }

  /** A first-time `addStaticEdge` adds both names and the pair. */
  lemma AddStaticEdgeFreshContents(g: StaticCallGraph, caller: Func, callee: Func)
    requires Wf(g)
    requires g.idCounter + 3 < Uint64Limit
    requires EdgeKey(FunName(caller), FunName(callee)) !in g.idMap
    ensures NodeCaptions(AddStaticEdge(g, caller, callee).graph)
      == NodeCaptions(g) + {FunName(caller), FunName(callee)}
    ensures EdgePairs(AddStaticEdge(g, caller, callee).graph)
      == EdgePairs(g) + {(FunName(caller), FunName(callee))}
  {
    var key := EdgeKey(FunName(caller), FunName(callee));
    var got := GetId(g, key, true);
    var from := AddNode(got.graph, caller);
    var to := AddNode(from.graph, callee);
    FreshEdgeEndpoints(g, caller, callee);
    FreshEdgeKey(g, caller, callee);
    FreshEdgeId(g, key);
    FreshEdgeShape(g, caller, callee);
    var edge := Edge(got.id, from.id, to.id, ["static"]);
    StoreEdgePairs(to.graph, edge);
    WfEndpointsExist(g, {});
    EdgePairsKept(g, to.graph);
  }

  /** A second `addNode` for a function with the same canonical name returns
      the first id and changes nothing. */
  lemma AddNodeIdempotent(g: StaticCallGraph, f: Func, f2: Func)
    requires FunName(f2) == FunName(f)
    ensures var r := AddNode(g, f);
      AddNode(r.graph, f2) == r
  {
  }

  /** Repeated call sites between the same caller and callee names collapse:
      the second `addStaticEdge` returns the first id and changes nothing. */
  lemma AddStaticEdgeCollapses(g: StaticCallGraph, caller: Func, callee: Func, caller2: Func, callee2: Func)
    requires FunName(caller2) == FunName(caller) && FunName(callee2) == FunName(callee)
    ensures var r := AddStaticEdge(g, caller, callee);
      AddStaticEdge(r.graph, caller2, callee2) == r
  {
  }

  /** Under the invariant no two nodes carry the same name. */
  lemma OneNodePerName(g: StaticCallGraph, n1: Id, n2: Id)
    requires Wf(g) && n1 in g.nodes && n2 in g.nodes
    requires g.nodes[n1].caption == g.nodes[n2].caption
    ensures n1 == n2
  {
    assert NodeRegistered(g, n1) && NodeRegistered(g, n2);
  }

  /** Under the invariant no two edges join the same pair of names. */
  lemma OneEdgePerPair(g: StaticCallGraph, e1: Id, e2: Id)
    requires Wf(g) && e1 in g.edges && e2 in g.edges
    requires g.edges[e1].source in g.nodes && g.edges[e1].target in g.nodes
    requires g.edges[e2].source in g.nodes && g.edges[e2].target in g.nodes
    requires g.nodes[g.edges[e1].source].caption == g.nodes[g.edges[e2].source].caption
    requires g.nodes[g.edges[e1].target].caption == g.nodes[g.edges[e2].target].caption
    ensures e1 == e2
  {
    assert EdgeRegistered(g, e1) && EdgeRegistered(g, e2);
  }

  /** Node ids and edge ids never collide. Both start with "n"; they differ
      because each was issued for a different key by the one counter, and node
      keys never equal edge keys. */
  lemma NodeEdgeIdsDisjoint(g: StaticCallGraph)
    requires Wf(g)
    ensures g.nodes.Keys !! g.edges.Keys
  {
    forall id | id in g.nodes && id in g.edges
      ensures false
    {
      assert NodeRegistered(g, id) && EdgeRegistered(g, id);
      var n := g.nodes[id];
      var e := g.edges[id];
      NodeKeyNotEdgeKey(n.caption, g.nodes[e.source].caption, g.nodes[e.target].caption);
    }
  }

  /** With names free of '>' an edge key names one pair only, so the edge that
      `addStaticEdge` returns joins exactly the caller and the callee, and the
      graph gains exactly their names and their pair. */
  lemma AddStaticEdgeClean(g: StaticCallGraph, caller: Func, callee: Func)
    requires Wf(g) && CaptionsClean(g)
    requires g.idCounter + 3 < Uint64Limit
    requires '>' !in FunName(caller) && '>' !in FunName(callee)
    ensures CleanEdgeOutcome(g, caller, callee, AddStaticEdge(g, caller, callee))
  {
    AddStaticEdgeSound(g, caller, callee);
    if EdgeKey(FunName(caller), FunName(callee)) in g.idMap {
      KnownEdgeClean(g, caller, callee);
    } else {
      FreshEdgeClean(g, caller, callee);
    }
  }

  ghost predicate CleanEdgeOutcome(g: StaticCallGraph, caller: Func, callee: Func, r: Added) {
    && CaptionsClean(r.graph)
    && r.id in r.graph.edges
    && r.graph.edges[r.id].source in r.graph.nodes
    && r.graph.edges[r.id].target in r.graph.nodes
    && r.graph.nodes[r.graph.edges[r.id].source].caption == FunName(caller)
    && r.graph.nodes[r.graph.edges[r.id].target].caption == FunName(callee)
    && NodeCaptions(r.graph) == NodeCaptions(g) + {FunName(caller), FunName(callee)}
    && EdgePairs(r.graph) == EdgePairs(g) + {(FunName(caller), FunName(callee))}
  }

  /** Names free of '>' added to a graph whose names are free of it. */
  lemma CleanByCaptions(g: StaticCallGraph, h: StaticCallGraph, names: set<string>)
    requires CaptionsClean(g) && NodeCaptions(h) == NodeCaptions(g) + names
    requires forall n | n in names :: '>' !in n
    ensures CaptionsClean(h)
  {
    forall id | id in h.nodes
      ensures '>' !in h.nodes[id].caption
    {
      assert h.nodes[id].caption in NodeCaptions(h);
      if h.nodes[id].caption in NodeCaptions(g) {
        var id2 :| id2 in g.nodes && g.nodes[id2].caption == h.nodes[id].caption;
      }
    }
  }

  lemma KnownEdgeClean(g: StaticCallGraph, caller: Func, callee: Func)
    requires Wf(g) && CaptionsClean(g)
    requires '>' !in FunName(caller) && '>' !in FunName(callee)
    requires EdgeKey(FunName(caller), FunName(callee)) in g.idMap
    ensures CleanEdgeOutcome(g, caller, callee, AddStaticEdge(g, caller, callee))
  {
    var r := AddStaticEdge(g, caller, callee);
    assert r.graph == g;
    RegisteredEdgeKey(g, FunName(caller), FunName(callee));
    var e := g.edges[r.id];
    var a := g.nodes[e.source].caption;
    var b := g.nodes[e.target].caption;
    assert '>' !in a;
    EdgeKeyInjective(a, b, FunName(caller), FunName(callee));
    assert (a, b) in EdgePairs(g);
    assert a in NodeCaptions(g) && b in NodeCaptions(g);
  }

  lemma FreshEdgeClean(g: StaticCallGraph, caller: Func, callee: Func)
    requires Wf(g) && CaptionsClean(g)
    requires g.idCounter + 3 < Uint64Limit
    requires '>' !in FunName(caller) && '>' !in FunName(callee)
    requires EdgeKey(FunName(caller), FunName(callee)) !in g.idMap
    ensures CleanEdgeOutcome(g, caller, callee, AddStaticEdge(g, caller, callee))
  {
    AddStaticEdgeFresh(g, caller, callee);
    AddStaticEdgeFreshContents(g, caller, callee);
    CleanFromOutcome(g, caller, callee, AddStaticEdge(g, caller, callee));
  }

  /** A sound outcome whose names stay '>'-free names the edge's endpoints exactly. */
  lemma CleanFromOutcome(g: StaticCallGraph, caller: Func, callee: Func, r: Added)
    requires StaticEdgeOutcome(g, caller, callee, r) && CaptionsClean(g)
    requires '>' !in FunName(caller) && '>' !in FunName(callee)
    requires NodeCaptions(r.graph) == NodeCaptions(g) + {FunName(caller), FunName(callee)}
    requires EdgePairs(r.graph) == EdgePairs(g) + {(FunName(caller), FunName(callee))}
    ensures CleanEdgeOutcome(g, caller, callee, r)
  {
    CleanByCaptions(g, r.graph, {FunName(caller), FunName(callee)});
    var e := r.graph.edges[r.id];
    var a := r.graph.nodes[e.source].caption;
    var b := r.graph.nodes[e.target].caption;
    assert '>' !in a;
    EdgeKeyInjective(a, b, FunName(caller), FunName(callee));
  }
}
