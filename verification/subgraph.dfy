/** `SubGraph`: the part of a graph reachable from the nodes a predicate selects,
    found by a depth-first walk that skips nodes it has already stored. */
module SubGraphs {
  import opened CallGraph

  /** An entry of the adjacency lists: an edge and the node it leads to. */
  datatype Out = Out(edge: Id, target: Id)

  /** `order` lists exactly the keys of a map, as one pass of `range` over it does. */
  predicate ListsKeys<K>(order: seq<K>, keys: set<K>) {
    && (forall i | 0 <= i < |order| :: order[i] in keys)
    && (forall k | k in keys :: k in order)
  }

  predicate EdgesIn(g: StaticCallGraph, order: seq<Id>) {
    forall i | 0 <= i < |order| :: order[i] in g.edges
  }

  /** A missing entry reads as the empty (nil) list. */
  function OutsOf(adj: map<Id, seq<Out>>, s: Id): seq<Out> {
    if s in adj then adj[s] else []
  }

  /** The adjacency map, built by appending each edge, in iteration order, to
      the list of its source. */
  function Adjacency(g: StaticCallGraph, order: seq<Id>): map<Id, seq<Out>>
    requires EdgesIn(g, order)
    decreases |order|
  {
    if |order| == 0 then map[]
    else
      var e := order[|order| - 1];
      var init := order[..|order| - 1];
      assert EdgesIn(g, init) by {
        forall i | 0 <= i < |init|
          ensures init[i] in g.edges
        {
          assert init[i] == order[i];
        }
      }
      var adj := Adjacency(g, init);
      var s := g.edges[e].source;
      adj[s := OutsOf(adj, s) + [Out(e, g.edges[e].target)]]
  }

  /** Reference definition: the out-edges of `s`, in iteration order. */
  function OutEdges(g: StaticCallGraph, order: seq<Id>, s: Id): seq<Out>
    requires EdgesIn(g, order)
    decreases |order|
  {
    if |order| == 0 then []
    else
      var e := order[0];
      (if g.edges[e].source == s then [Out(e, g.edges[e].target)] else [])
        + OutEdges(g, order[1..], s)
  }

  lemma {:induction false} OutEdgesAppend(g: StaticCallGraph, a: seq<Id>, b: seq<Id>, s: Id)
    requires EdgesIn(g, a) && EdgesIn(g, b)
    ensures EdgesIn(g, a + b)
    ensures OutEdges(g, a + b, s) == OutEdges(g, a, s) + OutEdges(g, b, s)
    decreases |a|
  {
    if |a| > 0 {
      assert (a + b)[0] == a[0];
      assert (a + b)[1..] == a[1..] + b;
      OutEdgesAppend(g, a[1..], b, s);
      var head := if g.edges[a[0]].source == s then [Out(a[0], g.edges[a[0]].target)] else [];
      assert OutEdges(g, a + b, s) == head + (OutEdges(g, a[1..], s) + OutEdges(g, b, s));
      assert OutEdges(g, a, s) == head + OutEdges(g, a[1..], s);
    } else {
      assert a + b == b;
    }
  }

  /** The list the adjacency map holds for a node is exactly its out-edges, in
      iteration order; a node without out-edges has no (nil) list. */
  lemma {:induction false} AdjacencyLists(g: StaticCallGraph, order: seq<Id>, s: Id)
    requires EdgesIn(g, order)
    ensures OutsOf(Adjacency(g, order), s) == OutEdges(g, order, s)
    decreases |order|
  {
    if |order| > 0 {
      var n := |order| - 1;
      var init := order[..n];
      assert init + [order[n]] == order;
      AdjacencyLists(g, init, s);
      OutEdgesAppend(g, init, [order[n]], s);
      assert OutEdges(g, [order[n]][1..], s) == [];
    }
  }

  /** An entry of a node's out-edge list is an edge of the listed order leaving
      that node, and every such edge has an entry. */
  lemma {:induction false} OutEdgesMembers(g: StaticCallGraph, order: seq<Id>, s: Id, o: Out)
    requires EdgesIn(g, order)
    ensures o in OutEdges(g, order, s) <==>
      o.edge in order && g.edges[o.edge].source == s && o.target == g.edges[o.edge].target
    decreases |order|
  {
    if |order| > 0 {
      OutEdgesMembers(g, order[1..], s, o);
      assert o.edge in order <==> o.edge == order[0] || o.edge in order[1..] by {
        assert order == [order[0]] + order[1..];
      }
    }
  }

  // ---------------------------------------------------------------------------
  // The walk

  /** Every adjacency entry is a real edge from the node it is listed under, to
      a node of the graph. */
  ghost predicate AdjSound(g: StaticCallGraph, adj: map<Id, seq<Out>>) {
    forall s, i | s in adj && 0 <= i < |adj[s]| ::
      && adj[s][i].edge in g.edges
      && g.edges[adj[s][i].edge].source == s
      && g.edges[adj[s][i].edge].target == adj[s][i].target
      && adj[s][i].target in g.nodes
  }

  /** Every entry of the extracted graph is the source graph's entry under the same id. */
  ghost predicate Copied(g: StaticCallGraph, x: StaticCallGraph) {
    && (forall k | k in x.nodes :: k in g.nodes && x.nodes[k] == g.nodes[k])
    && (forall e | e in x.edges :: e in g.edges && x.edges[e] == g.edges[e])
  }

  /** Every extracted edge leaves an extracted node. */
  ghost predicate OutOnly(g: StaticCallGraph, x: StaticCallGraph)
    requires Copied(g, x)
  {
    forall e | e in x.edges :: g.edges[e].source in x.nodes
  }

  ghost predicate Grows(x: StaticCallGraph, y: StaticCallGraph) {
    && x.nodes.Keys <= y.nodes.Keys && x.edges.Keys <= y.edges.Keys
    && y.idCounter == x.idCounter && y.idMap == x.idMap
  }

  /** Every entry of the list has its edge and its target stored. */
  ghost predicate ListDone(x: StaticCallGraph, list: seq<Out>) {
    forall i | 0 <= i < |list| :: list[i].edge in x.edges && list[i].target in x.nodes
  }

  /** Entries the walk may still take: real edges from stored nodes. */
  ghost predicate ListOk(g: StaticCallGraph, x: StaticCallGraph, list: seq<Out>) {
    forall i | 0 <= i < |list| ::
      && list[i].edge in g.edges
      && g.edges[list[i].edge].source in x.nodes
      && list[i].target in g.nodes
  }

  /** Every node stored since `x` has had all of its list walked. */
  ghost predicate NewDone(adj: map<Id, seq<Out>>, x: StaticCallGraph, y: StaticCallGraph) {
    forall n | n in y.nodes && n !in x.nodes :: ListDone(y, OutsOf(adj, n))
  }

  /** What every step of the walk keeps: sound lists, copied entries, edges from stored nodes. */
  ghost predicate Walkable(g: StaticCallGraph, adj: map<Id, seq<Out>>, x: StaticCallGraph) {
    AdjSound(g, adj) && Copied(g, x) && OutOnly(g, x)
  }

  /** Storing a new node keeps the walk's invariant and leaves one node fewer to store. */
  lemma StoreNode(g: StaticCallGraph, adj: map<Id, seq<Out>>, sub: StaticCallGraph, source: Id)
    requires Walkable(g, adj, sub) && source in g.nodes && source !in sub.nodes
    ensures var sub1 := sub.(nodes := sub.nodes[source := g.nodes[source]]);
      && Walkable(g, adj, sub1) && Grows(sub, sub1)
      && ListOk(g, sub1, OutsOf(adj, source))
      && sub1.nodes.Keys == sub.nodes.Keys + {source}
      && |g.nodes.Keys - sub1.nodes.Keys| < |g.nodes.Keys - sub.nodes.Keys|
  {
    var sub1 := sub.(nodes := sub.nodes[source := g.nodes[source]]);
    LeftShrinksMap(g.nodes.Keys, sub.nodes, source, g.nodes[source]);
    StoredCopied(g, sub, source);
    ListFromStored(g, adj, sub1, source);
  }

  lemma StoredCopied(g: StaticCallGraph, sub: StaticCallGraph, source: Id)
    requires Copied(g, sub) && OutOnly(g, sub) && source in g.nodes
    ensures var sub1 := sub.(nodes := sub.nodes[source := g.nodes[source]]);
      Copied(g, sub1) && OutOnly(g, sub1)
  {
  }

  /** The list of a stored node is one the walk may take. */
  lemma ListFromStored(g: StaticCallGraph, adj: map<Id, seq<Out>>, x: StaticCallGraph, source: Id)
    requires AdjSound(g, adj) && source in x.nodes
    ensures ListOk(g, x, OutsOf(adj, source))
  {
  }

  /** Storing the edge of the first entry keeps the walk's invariant. */
  lemma StoreEdge(g: StaticCallGraph, adj: map<Id, seq<Out>>, sub: StaticCallGraph, list: seq<Out>)
    requires Walkable(g, adj, sub) && ListOk(g, sub, list) && |list| > 0
    ensures var sub1 := sub.(edges := sub.edges[list[0].edge := g.edges[list[0].edge]]);
      && Walkable(g, adj, sub1) && Grows(sub, sub1) && sub1.nodes == sub.nodes
      && list[0].edge in sub1.edges && list[0].target in g.nodes
  {
  }

  lemma ListOkTail(g: StaticCallGraph, x: StaticCallGraph, y: StaticCallGraph, list: seq<Out>)
    requires ListOk(g, x, list) && |list| > 0 && x.nodes.Keys <= y.nodes.Keys
    ensures ListOk(g, y, list[1..])
  {
    forall i | 0 <= i < |list| - 1
      ensures g.edges[list[1..][i].edge].source in y.nodes
    {
      assert list[1..][i] == list[i + 1];
    }
  }

  lemma SubsetCard<T>(x: set<T>, y: set<T>)
    requires x <= y
    ensures |x| <= |y|
  {
    if x != {} {
      var a :| a in x;
      SubsetCard(x - {a}, y - {a});
    }
  }

  /** The number of nodes left to store never grows ... */
  lemma LeftKept(all: set<Id>, done: set<Id>, more: set<Id>)
    requires done <= more
    ensures |all - more| <= |all - done|
  {
    SubsetCard(all - more, all - done);
  }

  lemma LeftShrinksMap(all: set<Id>, m: map<Id, Node>, s: Id, v: Node)
    requires s in all && s !in m
    ensures m[s := v].Keys == m.Keys + {s}
    ensures |all - m[s := v].Keys| < |all - m.Keys|
  {
    assert m[s := v].Keys == m.Keys + {s};
    LeftShrinks(all, m.Keys, s);
  }

  /** ... and shrinks by one per new node. */
  lemma LeftShrinks(all: set<Id>, done: set<Id>, s: Id)
    requires s in all && s !in done
    ensures |all - (done + {s})| < |all - done|
  {
    assert all - done == (all - (done + {s})) + {s};
  }

  /** `dfs(source)`: nothing when the node is stored already; otherwise store it,
      then for each entry of its list store the edge and walk on from the target. */
  function Visit(g: StaticCallGraph, adj: map<Id, seq<Out>>, sub: StaticCallGraph, source: Id): (r: StaticCallGraph)
    requires Walkable(g, adj, sub)
    requires source in g.nodes
    ensures Walkable(g, adj, r) && Grows(sub, r)
    ensures source in r.nodes
    ensures NewDone(adj, sub, r)
    decreases |g.nodes.Keys - sub.nodes.Keys|, 0
  {
    if source in sub.nodes then sub
    else
      var sub1 := sub.(nodes := sub.nodes[source := g.nodes[source]]);
      StoreNode(g, adj, sub, source);
      var r := VisitEdges(g, adj, sub1, OutsOf(adj, source));
      assert NewDone(adj, sub, r) by {
        forall n | n in r.nodes && n !in sub.nodes
          ensures ListDone(r, OutsOf(adj, n))
        {
          if n != source {
            assert n !in sub1.nodes;
          }
        }
      }
      r
  }

  /** The loop of `dfs` over the list of one node. */
  function VisitEdges(g: StaticCallGraph, adj: map<Id, seq<Out>>, sub: StaticCallGraph, list: seq<Out>): (r: StaticCallGraph)
    requires Walkable(g, adj, sub)
    requires ListOk(g, sub, list)
    ensures Walkable(g, adj, r) && Grows(sub, r)
    ensures ListDone(r, list)
    ensures NewDone(adj, sub, r)
    decreases |g.nodes.Keys - sub.nodes.Keys|, 1, |list|
  {
    if |list| == 0 then sub
    else
      var o := list[0];
      var sub1 := sub.(edges := sub.edges[o.edge := g.edges[o.edge]]);
      StoreEdge(g, adj, sub, list);
      var sub2 := Visit(g, adj, sub1, o.target);
      LeftKept(g.nodes.Keys, sub.nodes.Keys, sub2.nodes.Keys);
      ListOkTail(g, sub, sub2, list);
      var r := VisitEdges(g, adj, sub2, list[1..]);
      assert ListDone(r, list) by {
        forall i | 0 <= i < |list|
          ensures list[i].edge in r.edges && list[i].target in r.nodes
        {
          if i > 0 {
            assert list[i] == list[1..][i - 1];
          }
        }
      }
      assert NewDone(adj, sub, r) by {
        forall n | n in r.nodes && n !in sub.nodes
          ensures ListDone(r, OutsOf(adj, n))
        {
          if n in sub2.nodes {
            DoneKept(sub2, r, OutsOf(adj, n));
          }
        }
      }
      r
  }

  lemma DoneKept(x: StaticCallGraph, y: StaticCallGraph, list: seq<Out>)
    requires ListDone(x, list) && Grows(x, y)
    ensures ListDone(y, list)
  {
  }

  /** The loop over the roots. */
  function VisitRoots(g: StaticCallGraph, adj: map<Id, seq<Out>>, sub: StaticCallGraph, roots: seq<Id>): (r: StaticCallGraph)
    requires Walkable(g, adj, sub)
    requires forall i | 0 <= i < |roots| :: roots[i] in g.nodes
    ensures Walkable(g, adj, r) && Grows(sub, r)
    ensures forall i | 0 <= i < |roots| :: roots[i] in r.nodes
    ensures NewDone(adj, sub, r)
    decreases |roots|
  {
    if |roots| == 0 then sub
    else
      var sub1 := Visit(g, adj, sub, roots[0]);
      var r := VisitRoots(g, adj, sub1, roots[1..]);
      assert forall i | 0 <= i < |roots| :: roots[i] in r.nodes by {
        forall i | 0 <= i < |roots|
          ensures roots[i] in r.nodes
        {
          if i > 0 {
            assert roots[i] == roots[1..][i - 1];
          }
        }
      }
      assert NewDone(adj, sub, r) by {
        forall n | n in r.nodes && n !in sub.nodes
          ensures ListDone(r, OutsOf(adj, n))
        {
          if n in sub1.nodes {
            DoneKept(sub1, r, OutsOf(adj, n));
          }
        }
      }
      r
  }

  /** `findRoots`: the ids the predicate selects, in iteration order. */
  function FindRoots(g: StaticCallGraph, order: seq<Id>, rootPred: Node -> bool): (roots: seq<Id>)
    requires forall i | 0 <= i < |order| :: order[i] in g.nodes
    ensures forall i | 0 <= i < |roots| :: roots[i] in g.nodes && rootPred(g.nodes[roots[i]])
    ensures forall id | id in order && rootPred(g.nodes[id]) :: id in roots
    decreases |order|
  {
    if |order| == 0 then []
    else
      var rest := FindRoots(g, order[1..], rootPred);
      assert forall id | id in order && id != order[0] :: id in order[1..] by {
        assert order == [order[0]] + order[1..];
      }
      if rootPred(g.nodes[order[0]]) then [order[0]] + rest else rest
  }

  // ---------------------------------------------------------------------------
  // Reachability

  predicate IsRoot(g: StaticCallGraph, rootPred: Node -> bool, id: Id) {
    id in g.nodes && rootPred(g.nodes[id])
  }

  ghost predicate Step(g: StaticCallGraph, a: Id, b: Id) {
    exists e | e in g.edges :: g.edges[e].source == a && g.edges[e].target == b
  }

  ghost predicate IsPath(g: StaticCallGraph, p: seq<Id>) {
    |p| > 0 && forall i | 0 <= i < |p| - 1 :: Step(g, p[i], p[i + 1])
  }

  /** A node some path of edges leads to from a selected node. */
  ghost predicate Reachable(g: StaticCallGraph, rootPred: Node -> bool, n: Id) {
    exists p | IsPath(g, p) :: IsRoot(g, rootPred, p[0]) && p[|p| - 1] == n
  }

  ghost function ReachableSet(g: StaticCallGraph, rootPred: Node -> bool): set<Id> {
    set n | n in g.nodes && Reachable(g, rootPred, n)
  }

  lemma ReachExtend(g: StaticCallGraph, rootPred: Node -> bool, a: Id, b: Id)
    requires Reachable(g, rootPred, a) && Step(g, a, b)
    ensures Reachable(g, rootPred, b)
  {
    var p :| IsPath(g, p) && IsRoot(g, rootPred, p[0]) && p[|p| - 1] == a;
    var q := p + [b];
    assert forall i | 0 <= i < |q| - 1 :: Step(g, q[i], q[i + 1]) by {
      forall i | 0 <= i < |q| - 1
        ensures Step(g, q[i], q[i + 1])
      {
        if i < |p| - 1 {
          assert q[i] == p[i] && q[i + 1] == p[i + 1];
        }
      }
    }
    assert IsPath(g, q);
  }

  /** The set `inside` has every target of an adjacency entry of its members. */
  ghost predicate AdjClosed(adj: map<Id, seq<Out>>, inside: set<Id>) {
    forall s, i | s in inside && 0 <= i < |OutsOf(adj, s)| :: OutsOf(adj, s)[i].target in inside
  }

  lemma ReachableClosed(g: StaticCallGraph, rootPred: Node -> bool, adj: map<Id, seq<Out>>)
    requires AdjSound(g, adj)
    ensures AdjClosed(adj, ReachableSet(g, rootPred))
  {
    var inside := ReachableSet(g, rootPred);
    forall s, i | s in inside && 0 <= i < |OutsOf(adj, s)|
      ensures OutsOf(adj, s)[i].target in inside
    {
      var o := adj[s][i];
      assert Step(g, s, o.target);
      ReachExtend(g, rootPred, s, o.target);
    }
  }

  /** The walk stays inside any set closed under the adjacency lists. */
  lemma {:induction false} VisitInside(g: StaticCallGraph, adj: map<Id, seq<Out>>, sub: StaticCallGraph,
                                       source: Id, inside: set<Id>)
    requires Walkable(g, adj, sub)
    requires source in g.nodes
    requires AdjClosed(adj, inside) && sub.nodes.Keys <= inside && source in inside
    ensures Visit(g, adj, sub, source).nodes.Keys <= inside
    decreases |g.nodes.Keys - sub.nodes.Keys|, 0
  {
    if source !in sub.nodes {
      var sub1 := sub.(nodes := sub.nodes[source := g.nodes[source]]);
      StoreNode(g, adj, sub, source);
      VisitEdgesInside(g, adj, sub1, OutsOf(adj, source), inside);
      assert Visit(g, adj, sub, source) == VisitEdges(g, adj, sub1, OutsOf(adj, source));
    }
  }

  lemma {:induction false} VisitEdgesInside(g: StaticCallGraph, adj: map<Id, seq<Out>>, sub: StaticCallGraph,
                                            list: seq<Out>, inside: set<Id>)
    requires Walkable(g, adj, sub)
    requires ListOk(g, sub, list)
    requires AdjClosed(adj, inside) && sub.nodes.Keys <= inside
    requires forall i | 0 <= i < |list| :: list[i].target in inside
    ensures VisitEdges(g, adj, sub, list).nodes.Keys <= inside
    decreases |g.nodes.Keys - sub.nodes.Keys|, 1, |list|
  {
    if |list| > 0 {
      var o := list[0];
      var sub1 := sub.(edges := sub.edges[o.edge := g.edges[o.edge]]);
      StoreEdge(g, adj, sub, list);
      VisitInside(g, adj, sub1, o.target, inside);
      var sub2 := Visit(g, adj, sub1, o.target);
      LeftKept(g.nodes.Keys, sub.nodes.Keys, sub2.nodes.Keys);
      ListOkTail(g, sub, sub2, list);
      assert forall i | 0 <= i < |list[1..]| :: list[1..][i].target in inside by {
        forall i | 0 <= i < |list[1..]|
          ensures list[1..][i].target in inside
        {
          assert list[1..][i] == list[i + 1];
        }
      }
      VisitEdgesInside(g, adj, sub2, list[1..], inside);
      assert VisitEdges(g, adj, sub, list) == VisitEdges(g, adj, sub2, list[1..]);
    }
  }

  lemma {:induction false} VisitRootsInside(g: StaticCallGraph, adj: map<Id, seq<Out>>, sub: StaticCallGraph,
                                            roots: seq<Id>, inside: set<Id>)
    requires Walkable(g, adj, sub)
    requires forall i | 0 <= i < |roots| :: roots[i] in g.nodes && roots[i] in inside
    requires AdjClosed(adj, inside) && sub.nodes.Keys <= inside
    ensures VisitRoots(g, adj, sub, roots).nodes.Keys <= inside
    decreases |roots|
  {
    if |roots| > 0 {
      VisitInside(g, adj, sub, roots[0], inside);
      var sub1 := Visit(g, adj, sub, roots[0]);
      assert forall i | 0 <= i < |roots[1..]| :: roots[1..][i] in g.nodes && roots[1..][i] in inside by {
        forall i | 0 <= i < |roots[1..]|
          ensures roots[1..][i] in g.nodes && roots[1..][i] in inside
        {
          assert roots[1..][i] == roots[i + 1];
        }
      }
      VisitRootsInside(g, adj, sub1, roots[1..], inside);
    }
  }

  /** Every out-edge of a stored node is stored, with its target. */
  ghost predicate Closed(g: StaticCallGraph, x: StaticCallGraph) {
    forall e | e in g.edges && g.edges[e].source in x.nodes ::
      e in x.edges && g.edges[e].target in x.nodes
  }

  /** A path that starts at a stored node of a closed graph stays inside it. */
  lemma {:induction false} PathInside(g: StaticCallGraph, x: StaticCallGraph, p: seq<Id>)
    requires Closed(g, x) && IsPath(g, p) && p[0] in x.nodes
    ensures p[|p| - 1] in x.nodes
    decreases |p|
  {
    if |p| > 1 {
      var q := p[..|p| - 1];
      assert IsPath(g, q) by {
        forall i | 0 <= i < |q| - 1
          ensures Step(g, q[i], q[i + 1])
        {
          assert q[i] == p[i] && q[i + 1] == p[i + 1];
        }
      }
      PathInside(g, x, q);
      assert Step(g, p[|p| - 2], p[|p| - 1]);
      var e :| e in g.edges && g.edges[e].source == p[|p| - 2] && g.edges[e].target == p[|p| - 1];
    }
  }

  // ---------------------------------------------------------------------------
  // The operation

  /** `SubGraph`: a fresh graph holding every node reachable from a node the
      predicate selects, and every edge leaving such a node, each entry the
      source graph's own. `nodeOrder` and `edgeOrder` are the orders in which
      `range` visits the node and edge maps. */
  function SubGraph(g: StaticCallGraph, rootPred: Node -> bool, nodeOrder: seq<Id>, edgeOrder: seq<Id>): (r: StaticCallGraph)
    requires EndpointsExist(g)
    requires ListsKeys(nodeOrder, g.nodes.Keys) && ListsKeys(edgeOrder, g.edges.Keys)
    ensures forall n :: n in r.nodes <==> n in g.nodes && Reachable(g, rootPred, n)
    ensures r.nodes.Keys == ReachableSet(g, rootPred)
    ensures forall e :: e in r.edges <==> e in g.edges && g.edges[e].source in r.nodes
    ensures forall n | n in r.nodes :: r.nodes[n] == g.nodes[n]
    ensures forall e | e in r.edges :: r.edges[e] == g.edges[e]
    ensures r.idCounter == 0 && r.idMap == map[]
  {
    var adj := Adjacency(g, edgeOrder);
    AdjacencyFaithful(g, edgeOrder);
    var roots := FindRoots(g, nodeOrder, rootPred);
    var r := VisitRoots(g, adj, NewGraph(), roots);
    ExtractInside(g, rootPred, adj, roots);
    ExtractExact(g, rootPred, adj, roots, r);
    ReachableKeys(g, rootPred, r);
    r
  }

  lemma ReachableKeys(g: StaticCallGraph, rootPred: Node -> bool, r: StaticCallGraph)
    requires forall n :: n in r.nodes <==> n in g.nodes && Reachable(g, rootPred, n)
    ensures r.nodes.Keys == ReachableSet(g, rootPred)
  {
  }

  /** The adjacency map of a full pass lists each edge under its source, and nothing else. */
  lemma AdjacencyFaithful(g: StaticCallGraph, order: seq<Id>)
    requires EndpointsExist(g) && ListsKeys(order, g.edges.Keys)
    ensures AdjSound(g, Adjacency(g, order))
    ensures forall e | e in g.edges ::
      Out(e, g.edges[e].target) in OutsOf(Adjacency(g, order), g.edges[e].source)
  {
    var adj: map<Id, seq<Out>> := Adjacency(g, order);
    forall s: Id, i: int | s in adj && 0 <= i < |adj[s]|
      ensures adj[s][i].edge in g.edges && g.edges[adj[s][i].edge].source == s
      ensures g.edges[adj[s][i].edge].target == adj[s][i].target && adj[s][i].target in g.nodes
    {
      AdjacencyLists(g, order, s);
      assert adj[s][i] in OutEdges(g, order, s);
      OutEdgesMembers(g, order, s, adj[s][i]);
    }
    forall e | e in g.edges
      ensures Out(e, g.edges[e].target) in OutsOf(adj, g.edges[e].source)
    {
      AdjacencyLists(g, order, g.edges[e].source);
      OutEdgesMembers(g, order, g.edges[e].source, Out(e, g.edges[e].target));
    }
  }

  /** The finished walk holds exactly the reachable nodes and their out-edges. */
  lemma ExtractExact(g: StaticCallGraph, rootPred: Node -> bool, adj: map<Id, seq<Out>>, roots: seq<Id>,
                     r: StaticCallGraph)
    requires forall e | e in g.edges :: Out(e, g.edges[e].target) in OutsOf(adj, g.edges[e].source)
    requires forall id | id in g.nodes && rootPred(g.nodes[id]) :: id in roots
    requires Walkable(g, adj, r) && NewDone(adj, NewGraph(), r)
    requires forall i | 0 <= i < |roots| :: roots[i] in r.nodes
    requires r.nodes.Keys <= ReachableSet(g, rootPred)
    ensures forall n :: n in r.nodes <==> n in g.nodes && Reachable(g, rootPred, n)
    ensures forall e :: e in r.edges <==> e in g.edges && g.edges[e].source in r.nodes
  {
    ExtractClosed(g, adj, r);
    assert forall id | IsRoot(g, rootPred, id) :: id in r.nodes by {
      forall id | IsRoot(g, rootPred, id)
        ensures id in r.nodes
      {
        var i :| 0 <= i < |roots| && roots[i] == id;
      }
    }
    ClosedComplete(g, rootPred, r);
    ClosedEdges(g, adj, r);
  }

  /** A closed graph that holds every selected node holds every reachable one. */
  lemma ClosedComplete(g: StaticCallGraph, rootPred: Node -> bool, r: StaticCallGraph)
    requires Closed(g, r)
    requires forall id | IsRoot(g, rootPred, id) :: id in r.nodes
    ensures forall n | Reachable(g, rootPred, n) :: n in r.nodes
  {
    forall n | Reachable(g, rootPred, n)
      ensures n in r.nodes
    {
      var p :| IsPath(g, p) && IsRoot(g, rootPred, p[0]) && p[|p| - 1] == n;
      PathInside(g, r, p);
    }
  }

  /** In a closed walk result the stored edges are exactly the out-edges of the stored nodes. */
  lemma ClosedEdges(g: StaticCallGraph, adj: map<Id, seq<Out>>, r: StaticCallGraph)
    requires Walkable(g, adj, r) && Closed(g, r)
    ensures forall e :: e in r.edges <==> e in g.edges && g.edges[e].source in r.nodes
  {
  }

  /** Soundness: the walk stores only reachable nodes. */
  lemma ExtractInside(g: StaticCallGraph, rootPred: Node -> bool, adj: map<Id, seq<Out>>, roots: seq<Id>)
    requires AdjSound(g, adj)
    requires forall i | 0 <= i < |roots| :: roots[i] in g.nodes && rootPred(g.nodes[roots[i]])
    ensures VisitRoots(g, adj, NewGraph(), roots).nodes.Keys <= ReachableSet(g, rootPred)
  {
    var inside := ReachableSet(g, rootPred);
    ReachableClosed(g, rootPred, adj);
    forall i | 0 <= i < |roots|
      ensures roots[i] in inside
    {
      var p := [roots[i]];
      assert IsPath(g, p) && IsRoot(g, rootPred, p[0]);
    }
    VisitRootsInside(g, adj, NewGraph(), roots, inside);
  }

  /** Every out-edge of a stored node, and its target, is stored. */
  lemma ExtractClosed(g: StaticCallGraph, adj: map<Id, seq<Out>>, r: StaticCallGraph)
    requires forall e | e in g.edges :: Out(e, g.edges[e].target) in OutsOf(adj, g.edges[e].source)
    requires NewDone(adj, NewGraph(), r)
    ensures Closed(g, r)
  {
    forall e | e in g.edges && g.edges[e].source in r.nodes
      ensures e in r.edges && g.edges[e].target in r.nodes
    {
      var list := OutsOf(adj, g.edges[e].source);
      assert ListDone(r, list);
      var i :| 0 <= i < |list| && list[i] == Out(e, g.edges[e].target);
    }
  }

  /** With no selected node the result is the empty graph. */
  lemma NoRootsEmpty(g: StaticCallGraph, rootPred: Node -> bool, nodeOrder: seq<Id>, edgeOrder: seq<Id>)
    requires EndpointsExist(g)
    requires ListsKeys(nodeOrder, g.nodes.Keys) && ListsKeys(edgeOrder, g.edges.Keys)
    requires forall id | id in g.nodes :: !rootPred(g.nodes[id])
    ensures SubGraph(g, rootPred, nodeOrder, edgeOrder) == NewGraph()
  {
    var r := SubGraph(g, rootPred, nodeOrder, edgeOrder);
    assert forall p | IsPath(g, p) :: !IsRoot(g, rootPred, p[0]);
    assert r.nodes.Keys == {};
    assert r.edges.Keys == {};
  }

  lemma SameEntries<V>(m1: map<Id, V>, m2: map<Id, V>, src: map<Id, V>)
    requires m1.Keys == m2.Keys
    requires forall k | k in m1 :: k in src && m1[k] == src[k]
    requires forall k | k in m2 :: k in src && m2[k] == src[k]
    ensures m1 == m2
  {
  }

  /** Two graphs that both hold exactly the reachable nodes and their out-edges,
      with the source graph's entries, are equal. */
  lemma ExtractDetermined(g: StaticCallGraph, rootPred: Node -> bool, r1: StaticCallGraph, r2: StaticCallGraph)
    requires forall n :: n in r1.nodes <==> n in g.nodes && Reachable(g, rootPred, n)
    requires forall n :: n in r2.nodes <==> n in g.nodes && Reachable(g, rootPred, n)
    requires forall e :: e in r1.edges <==> e in g.edges && g.edges[e].source in r1.nodes
    requires forall e :: e in r2.edges <==> e in g.edges && g.edges[e].source in r2.nodes
    requires forall n | n in r1.nodes :: r1.nodes[n] == g.nodes[n]
    requires forall n | n in r2.nodes :: r2.nodes[n] == g.nodes[n]
    requires forall e | e in r1.edges :: r1.edges[e] == g.edges[e]
    requires forall e | e in r2.edges :: r2.edges[e] == g.edges[e]
    requires r1.idCounter == r2.idCounter && r1.idMap == r2.idMap
    ensures r1 == r2
  {
    assert r1.nodes.Keys == r2.nodes.Keys;
    SameEntries(r1.nodes, r2.nodes, g.nodes);
    assert r1.edges.Keys == r2.edges.Keys;
    SameEntries(r1.edges, r2.edges, g.edges);
  }

  /** The result does not depend on the order in which the maps are visited. */
  lemma OrderIndependent(g: StaticCallGraph, rootPred: Node -> bool,
                         nodeOrder1: seq<Id>, edgeOrder1: seq<Id>, nodeOrder2: seq<Id>, edgeOrder2: seq<Id>)
    requires EndpointsExist(g)
    requires ListsKeys(nodeOrder1, g.nodes.Keys) && ListsKeys(edgeOrder1, g.edges.Keys)
    requires ListsKeys(nodeOrder2, g.nodes.Keys) && ListsKeys(edgeOrder2, g.edges.Keys)
    ensures SubGraph(g, rootPred, nodeOrder1, edgeOrder1) == SubGraph(g, rootPred, nodeOrder2, edgeOrder2)
  {
    ExtractDetermined(g, rootPred, SubGraph(g, rootPred, nodeOrder1, edgeOrder1),
      SubGraph(g, rootPred, nodeOrder2, edgeOrder2));
  }

  /** When every node is reachable, the walk keeps the whole graph. */
  lemma AllReachableKept(g: StaticCallGraph, rootPred: Node -> bool, nodeOrder: seq<Id>, edgeOrder: seq<Id>)
    requires EndpointsExist(g)
    requires ListsKeys(nodeOrder, g.nodes.Keys) && ListsKeys(edgeOrder, g.edges.Keys)
    requires g.nodes.Keys <= ReachableSet(g, rootPred)
    ensures var r := SubGraph(g, rootPred, nodeOrder, edgeOrder);
      r.nodes == g.nodes && r.edges == g.edges
  {
    KeptWhole(g, SubGraph(g, rootPred, nodeOrder, edgeOrder), ReachableSet(g, rootPred));
  }

  /** A graph holding every node of `g` and the out-edges of its nodes, with
      the entries of `g`, is `g`'s nodes and edges. */
  lemma KeptWhole(g: StaticCallGraph, r: StaticCallGraph, inside: set<Id>)
    requires EndpointsExist(g) && g.nodes.Keys <= inside
    requires r.nodes.Keys == inside && inside <= g.nodes.Keys
    requires forall e :: e in r.edges <==> e in g.edges && g.edges[e].source in r.nodes
    requires forall n | n in r.nodes :: r.nodes[n] == g.nodes[n]
    requires forall e | e in r.edges :: r.edges[e] == g.edges[e]
    ensures r.nodes == g.nodes && r.edges == g.edges
  {
    forall e | e in g.edges
      ensures e in r.edges
    {
      assert g.edges[e].source in g.nodes;
    }
    SameEntries(r.nodes, g.nodes, g.nodes);
    SameEntries(r.edges, g.edges, g.edges);
  }
}
