/** The call-graph data model and its identity registry (`getID`). */
module CallGraph {
  import opened Names
  import opened Hex

  type Id = string

  /** A Go `uint64`. */
  type Uint64 = x: nat | x < Uint64Limit

  datatype NodeType = NodeFunc | NodeRecv | NodePkg

  /** The object a node stands for: a function, a receiver variable or a package. */
  datatype Symbol = FuncSymbol(fun: Func) | VarSymbol(name: string) | PkgSymbol(pkg: Package)

  datatype Node = Node(
    id: Id,
    parent: Id,
    caption: string,   // the `Label` field
    desc: string,
    attrs: seq<string>,
    nodeType: NodeType,
    symbol: Symbol)

  datatype Edge = Edge(id: Id, source: Id, target: Id, attrs: seq<string>)

  /** A graph under construction: the id counter, the registry from canonical
      keys to ids, and the node and edge maps keyed by id. */
  datatype StaticCallGraph = StaticCallGraph(
    idCounter: Uint64,
    idMap: map<string, Id>,
    nodes: map<Id, Node>,
    edges: map<Id, Edge>)

  function NewGraph(): StaticCallGraph {
    StaticCallGraph(0, map[], map[], map[])
  }

  /** The `uint64` increment of the counter, wrapping at 2^64. */
  function NextCounter(c: Uint64): (r: Uint64)
    ensures r == (c + 1) % Uint64Limit
  {
    if c == Uint64Limit - 1 then 0 else c + 1
  }

  function IdPrefix(isNode: bool): string {
    if isNode then "n" else "e"
  }

  /** The counter value an id was made from: the hex digits after its letter. */
  function IdNumber(id: Id): nat {
    if |id| == 0 then 0 else ParseHex(id[1..])
  }

  datatype IdResult = IdResult(id: Id, isNew: bool, graph: StaticCallGraph)

  /** `getID`: the id stored for a known key, or a fresh id made from the
      incremented counter for a new one. */
  function GetId(g: StaticCallGraph, fullName: string, isNode: bool): (r: IdResult)
    ensures fullName in r.graph.idMap && r.graph.idMap[fullName] == r.id
    ensures r.isNew <==> fullName !in g.idMap
    ensures !r.isNew ==> r.graph == g
    ensures r.isNew ==>
      && r.graph.idCounter == NextCounter(g.idCounter)
      && r.graph.idMap == g.idMap[fullName := r.id]
      && r.graph.nodes == g.nodes && r.graph.edges == g.edges
      && r.id == IdPrefix(isNode) + FormatUint(r.graph.idCounter)
      && |r.id| > 1 && r.id[0] == (if isNode then 'n' else 'e')
      && IdNumber(r.id) == r.graph.idCounter
  {
    if fullName in g.idMap then
      IdResult(g.idMap[fullName], false, g)
    else
      var counter := NextCounter(g.idCounter);
      var id := IdPrefix(isNode) + FormatUint(counter);
      assert id[1..] == FormatUint(counter);
      ParseFormat(counter);
      IdResult(id, true, g.(idCounter := counter, idMap := g.idMap[fullName := id]))
  }

  /** The registry invariant: every registered id was made from a counter value
      already issued, and no two keys share an id. */
  ghost predicate Registry(g: StaticCallGraph) {
    && (forall k | k in g.idMap :: 1 <= IdNumber(g.idMap[k]) <= g.idCounter)
    && (forall k1, k2 | k1 in g.idMap && k2 in g.idMap && k1 != k2 :: g.idMap[k1] != g.idMap[k2])
  }

  lemma NewGraphRegistry()
    ensures Registry(NewGraph())
  {
  }

  /** While the counter has not reached the top of the `uint64` range, `getID`
      keeps the registry invariant, and a new id differs from every id issued
      before it. */
  lemma GetIdKeepsRegistry(g: StaticCallGraph, fullName: string, isNode: bool)
    requires Registry(g)
    requires g.idCounter + 1 < Uint64Limit
    ensures var r := GetId(g, fullName, isNode);
      && Registry(r.graph)
      && (r.isNew ==> r.id !in g.idMap.Values && r.graph.idCounter == g.idCounter + 1)
  {
    var r := GetId(g, fullName, isNode);
    if r.isNew {
      assert r.graph.idCounter == g.idCounter + 1;
      forall k | k in g.idMap
        ensures g.idMap[k] != r.id
      {
        assert IdNumber(g.idMap[k]) <= g.idCounter < IdNumber(r.id);
      }
      RegistryAdd(g, fullName, r.id);
      assert r.graph == g.(idCounter := g.idCounter + 1, idMap := g.idMap[fullName := r.id]);
    }
  }

  /** Registering a fresh key under an id made from the next counter value. */
  lemma RegistryAdd(g: StaticCallGraph, key: string, id: Id)
    requires Registry(g) && key !in g.idMap
    requires id !in g.idMap.Values
    requires IdNumber(id) == g.idCounter + 1 < Uint64Limit
    ensures Registry(g.(idCounter := g.idCounter + 1, idMap := g.idMap[key := id]))
  {
    var m := g.idMap[key := id];
    forall k1, k2 | k1 in m && k2 in m && k1 != k2
      ensures m[k1] != m[k2]
    {
      if k1 == key {
        assert m[k2] == g.idMap[k2];
      } else if k2 == key {
        assert m[k1] == g.idMap[k1];
      }
    }
  }

  /** At the top of the range the counter wraps, and the next new id is "n0". */
  lemma GetIdWraps(g: StaticCallGraph, fullName: string)
    requires g.idCounter == Uint64Limit - 1 && fullName !in g.idMap
    ensures GetId(g, fullName, true).id == "n0"
    ensures GetId(g, fullName, true).graph.idCounter == 0
  {
  }

  /** Every edge joins two nodes of the graph. */
  ghost predicate EndpointsExist(g: StaticCallGraph) {
    forall e | e in g.edges :: g.edges[e].source in g.nodes && g.edges[e].target in g.nodes
  }

  /** The set of display names of the graph's nodes. */
  ghost function NodeCaptions(g: StaticCallGraph): set<string> {
    Captions(g.nodes)
  }

  ghost function Captions(nodes: map<Id, Node>): set<string> {
    set id | id in nodes :: nodes[id].caption
  }

  /** The (caller, callee) name pairs the graph's edges connect. */
  ghost function EdgePairs(g: StaticCallGraph): set<(string, string)> {
    Pairs(g.nodes, g.edges)
  }

  ghost function Pairs(nodes: map<Id, Node>, edges: map<Id, Edge>): set<(string, string)> {
    set e | e in edges && edges[e].source in nodes && edges[e].target in nodes
      :: (nodes[edges[e].source].caption, nodes[edges[e].target].caption)
  }
}
