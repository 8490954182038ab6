# go-callgraph `static.go` in Dafny

This project models the in-memory call-graph engine of go-callgraph's
`static.go`:

- the identity registry `getID`;
- the builders `addNode` and `addStaticEdge`, and the `addDynamicEdge` and `addBuiltinEdge` stubs;
- the name normalisers `funName` and `pkgPath`;
- the callee classification that `NewStatic` runs for every matched call site;
- the `SubGraph` extractor.

Each operation is a pure function over an immutable `StaticCallGraph` record that
holds the `uint64` id counter, the key→id registry, and the id→node and id→edge
maps. A function from `go/types` is abstracted as
`Func(fullName, hasParent, inGoRoot)`.

Modules:

- `Hex` (`hex.dfy`): `strconv.FormatUint(n, 16)` and its inverse.
- `Names` (`names.dfy`): `funName`, `pkgPath` and the two registry key formats.
- `CallGraph` (`callgraph.dfy`): the data model and `getID`.
- `Builder` (`builder.dfy`): `addNode`, `addStaticEdge`, the stubs, and the builder invariant `Wf`.
- `Static` (`static.dfy`): the declaration/call-site walk of `NewStatic`, with the panic on an unknown callee kind.
- `SubGraphs` (`subgraph.dfy`): `SubGraph` as a measure-bounded depth-first walk.
- `Scenarios` (`scenarios.dfy`): whole-program examples.

The model follows the code in three places:

- `addStaticEdge` asks `getID` for a *node* id (`isNode` is `true`), so edge ids also start with `n`. Node ids and edge ids still never collide, for two reasons. The shared counter issues one distinct id per registered key, and a node key `func ~ …` never equals an edge key `call … -> …`. `NodeEdgeIdsDisjoint` proves it.
- A new node's label is the whole canonical name on both branches of the `strings.LastIndex` test.
- The `if false` calls to `addPkgNode` and `addRecvTypeNode` never run, so a new node's parent id stays empty.

Go's map iteration order is not fixed. `SubGraph` therefore takes the order in
which it visits `g.Nodes` and `g.Edges` as two parameters that list the keys,
and `OrderIndependent` proves the result does not depend on them.

## Model

| member | source | states |
|---|---|---|
| `CallGraph.NewGraph` | static.go:126-132 | The empty graph: counter 0, no keys, no nodes, no edges. `Builder.NewGraphWf` shows it satisfies the builder invariant. |
| `CallGraph.NextCounter` | static.go:241 | `idCounter++` on a `uint64`: the result is the successor modulo 2^64. |
| `CallGraph.IdPrefix` | static.go:242-245 | The id letter: `n` when a node id is asked for, `e` otherwise. `CallGraph.GetId` states that a new id starts with it. |
| `CallGraph.GetId` | static.go:236-249 | A known key returns its stored id with `isNew` false and the graph unchanged. A new key increments the counter (wrapping at 2^64), registers the key, leaves nodes and edges alone, and returns `n`/`e` followed by the counter in hex. |
| `CallGraph.GetIdKeepsRegistry` | static.go:241-248 | Below 2^64 draws, `getID` keeps every registered id distinct and made from an issued counter value. A new id differs from all earlier ones, and the counter grows by exactly 1. |
| `CallGraph.GetIdWraps` | static.go:241-246 | At the top of the `uint64` range the counter wraps to 0, and the next new node id is `n0`. |
| `Hex.FormatUint` | static.go:246 | `strconv.FormatUint(n, 16)` renders a canonical hex string, lower-case digits with no leading zero, which starts with `0` exactly for 0. `Hex.ParseFormat` and `Hex.FormatParse` are its round trips. |
| `Hex.ParseFormat` | static.go:246 | Reading the hex rendering of a counter gives the counter back, so ids made from different counter values differ. |
| `Hex.FormatParse` | static.go:246 | Every canonical hex string (digits only, no leading zero) is the rendering of the number it denotes. |
| `Hex.FormatInjective` | static.go:246 | `FormatUint` maps different counters to different strings. |
| `Names.StripQualifier` | static.go:407-409 | Removing every `command-line-arguments.` never lengthens a name, adds no character, and leaves the name unchanged exactly when it has no occurrence. |
| `Names.FirstIndex` | static.go:408 | The first position where the qualifier occurs, as `strings.Index` finds it: an occurrence starts there, and none starts earlier. |
| `Names.StripAtFirst` | static.go:408 | `strings.ReplaceAll` keeps everything before the first occurrence, drops that occurrence, and continues right after it. Together with the unchanged-iff-absent clause of `StripQualifier`, this pins down the result on every name. |
| `Names.FunName` | static.go:407-409 | A function's canonical name is its full name with every `command-line-arguments.` deleted. `Names.StripQualifier` and `Names.StripAtFirst` carry the contract. |
| `Names.PkgPath` | static.go:397-405 | The path is empty exactly for a nil package, the `command-line-arguments` placeholder, or an empty path. Otherwise it is the package's own path. |
| `Names.FunNameOfFunction` | static.go:407-409 | `command-line-arguments.main` normalises to `main`. |
| `Names.FunNameOfMethod` | static.go:407-409 | `(*command-line-arguments.T).M` normalises to `(*T).M`: the qualifier also disappears inside a receiver. |
| `Names.StripQualifierNotIdempotent` | static.go:407-409 | `strings.ReplaceAll` makes one pass, so deleting an occurrence can join its neighbours into a new one. Normalising twice can then differ from normalising once. |
| `Names.NodeKey` | static.go:253 | The registry key of a function node, `func ~ <name>`. `Names.NodeKeyInjective` and `Names.NodeKeyNotEdgeKey` state its properties. |
| `Names.EdgeKey` | static.go:316 | The registry key of a static edge, `call <caller> -> <callee>`. `Names.EdgeKeyInjective` and `Names.EdgeKeyAmbiguous` state when it determines the pair. |
| `Names.NodeKeyNotEdgeKey` | static.go:253 | A node key `func ~ …` never equals an edge key `call … -> …`. |
| `Names.NodeKeyInjective` | static.go:253 | Two node keys are equal exactly when their names are. |
| `Names.EdgeKeyInjective` | static.go:316 | When the caller names contain no `>`, two edge keys are equal exactly when both names agree. |
| `Names.EdgeKeyAmbiguous` | static.go:316 | Without that hypothesis, the pairs (`x -> y`, `z`) and (`x`, `y -> z`) share one key. |
| `Builder.NewFuncNode` | static.go:259-299 | A new function node has its id, type `NodeFunc`, the function as its object, and label `funName(fun)` on both branches. Its parent and description are empty. It has `go_root` exactly for a Go-distribution function and `global` exactly when the function's `Parent()` is nil, which in `go/types` means a method. |
| `Builder.FuncAttrs` | static.go:292-297 | The attributes hold `go_root` exactly when the function is in the Go root, and `global` exactly when its `Parent()` is nil (a method; a package-level function's parent is its package scope). |
| `Builder.AddNode` | static.go:251-301 | The returned id is the one registered under `func ~ <name>`. A known name changes nothing. A new name stores exactly one new node under the new id, leaves the edges alone, and registers only that key. |
| `Builder.AddNodeSound` | static.go:251-301 | `addNode` keeps the builder invariant. It returns a node labelled with the function's name, loses nothing already recorded, and adds exactly that name to the node labels. |
| `Builder.AddNodeIdempotent` | static.go:251-257 | Adding a function whose normalised name was just added returns the same id and the same graph. |
| `Builder.AddDynamicEdge` | static.go:303-305 | The stub returns the empty id and leaves the graph unchanged. |
| `Builder.AddBuiltinEdge` | static.go:307-309 | The stub returns the empty id and leaves the graph unchanged. |
| `Builder.AddStaticEdge` | static.go:311-333 | The returned id is the one registered under `call <caller> -> <callee>`. A key seen before returns that id and changes nothing. |
| `Builder.AddStaticEdgeSound` | static.go:311-333 | `addStaticEdge` keeps the invariant and returns an edge whose endpoints are nodes of the graph, whose attributes are exactly `["static"]`, and whose endpoint names give back the key. A new key adds both names to the labels and exactly that pair to the edges. |
| `Builder.AddStaticEdgeClean` | static.go:311-333 | With `>`-free names, the returned edge runs from the caller's node to the callee's node, and labels and pairs grow by exactly the caller, the callee and their pair. |
| `Builder.AddStaticEdgeCollapses` | static.go:316-320 | A second call site between the same normalised names returns the first id and leaves nodes and edges unchanged. |
| `Builder.OneNodePerName` | static.go:251-257 | Under the builder invariant no two nodes carry the same label. |
| `Builder.OneEdgePerPair` | static.go:316-320 | Under the builder invariant no two edges join the same pair of names. |
| `Builder.NodeEdgeIdsDisjoint` | static.go:241-248 | Under the builder invariant no id is both a node id and an edge id, although both kinds start with `n`. |
| `Builder.WfEndpointsExist` | static.go:322-331 | Every edge of a graph that satisfies the invariant joins two existing nodes. |
| `Static.NewStatic` | static.go:38-87 | The whole build: walk the matched declarations in order from `newGraph()`. Its contract is carried by `Static.NewStaticPanics`, `Static.NewStaticWf` and `Static.NewStaticContents`. |
| `Static.HandleDecls` | static.go:52-84 | One matcher callback per declaration, in match order, stopping at the first panic. `Static.HandleDeclsPanics`, `Static.HandleDeclsWf` and `Static.HandleDeclsContents` state what it does. |
| `Static.HandleDecl` | static.go:53-83 | Add the caller's node first when orphans are shown, then handle its call sites. `Static.HandleDeclContents` states the outcome. |
| `Static.HandleCalls` | static.go:61-83 | The call sites of one declaration, in order, stopping at the first panic. It fails exactly when some callee has an unknown kind (`Static.HandleCallsPanics`). With `>`-free names, no unknown callee, a graph that satisfies the builder invariant with no `>` in its labels, and room for three ids per call, it succeeds. It then adds exactly the names and pairs of its static calls (`Static.HandleCallsContents`). |
| `Static.HandleCall` | static.go:64-82 | A nil callee is skipped. A function gets a static edge. A function value or a builtin goes to its stub and changes nothing. Any other kind fails with `unreachable`, and only that kind fails. |
| `Static.NewStaticPanics` | static.go:52-84 | The build panics with `unreachable` exactly when some matched call site has a callee of an unknown kind. |
| `Static.NewStaticWf` | static.go:38-87 | A finished build satisfies the builder invariant `Wf`. From `Wf` follow one node per name (`OneNodePerName`), one edge per name pair (`OneEdgePerPair`), endpoints present (`WfEndpointsExist`), and node and edge ids apart (`NodeEdgeIdsDisjoint`). |
| `Static.NewStaticContents` | static.go:38-87 | With `>`-free names and no unknown callee, the build succeeds. Its labels are exactly the shown callers plus every endpoint of a static call, and its edges join exactly the distinct (caller, callee) name pairs. |
| `Static.HandleDeclContents` | static.go:57-83 | With `>`-free names, no unknown callee, a graph that satisfies the builder invariant with no `>` in its labels, and room for the ids it draws, one declaration adds its caller's name when orphans are shown, plus the names and pairs of its static calls, and nothing else. |
| `SubGraphs.FindRoots` | static.go:196-203 | The roots are exactly the listed nodes the predicate selects. |
| `SubGraphs.Adjacency` | static.go:213-216 | The map built by appending `(edge, target)` under each source, in edge iteration order. `SubGraphs.AdjacencyLists` and `SubGraphs.OutEdgesMembers` state its contents. |
| `SubGraphs.AdjacencyLists` | static.go:213-216 | The adjacency map lists under each node exactly its out-edges, in edge iteration order. A node without any out-edge gets an empty list. |
| `SubGraphs.OutEdgesMembers` | static.go:213-216 | An adjacency entry is an edge leaving the node together with its target, and every such edge has an entry. |
| `SubGraphs.Visit` | static.go:220-229 | On every graph whose edges join existing nodes, `dfs` terminates, cycles included, because each call stores one more node of `g`. It only adds entries copied unchanged from `g`, and it stores an edge only when that edge leaves a stored node. It leaves the source node stored, together with every out-edge and target of each node it newly stores. |
| `SubGraphs.VisitEdges` | static.go:225-228 | The loop over a node's adjacency list: each edge is copied from `g` and its target is visited. Afterwards every listed edge and target is stored, only entries copied from `g` are added, and every node newly stored has its out-edges and targets stored. |
| `SubGraphs.VisitRoots` | static.go:230-232 | The loop over the roots: afterwards every root is stored, only copied entries are added, and every node newly stored has its out-edges and targets stored. |
| `SubGraphs.SubGraph` | static.go:195-234 | The result's nodes are exactly those reachable from a selected node, and its edges exactly their out-edges. Every entry is identical to `g`'s, and the result has a fresh counter and an empty registry. |
| `SubGraphs.NoRootsEmpty` | static.go:195-234 | When the predicate selects no node, the result is the empty graph. |
| `SubGraphs.OrderIndependent` | static.go:195-234 | Different iteration orders of `g.Nodes` and `g.Edges` give the same result. |
| `SubGraphs.AllReachableKept` | static.go:195-234 | When every node is reachable, the result has all of `g`'s nodes and edges. |
| `Scenarios.TwiceCalledOnce` | static.go:311-333 | A caller that calls one callee twice, plus a callee without calls, gives 2 nodes and 1 edge when orphans are hidden. |
| `Scenarios.TwiceCalledOnceMain` | static.go:311-333 | The same holds for the package-level functions `main.A` and `main.B`. |
| `Scenarios.CycleBuilt` | static.go:38-87 | A calls B and B calls A: the build has 2 nodes and 2 edges. |
| `Scenarios.CycleSubGraph` | static.go:219-232 | In a built graph whose only names are A and B and which has an edge A→B, the walk from A returns every node and every edge unchanged. |
| `Scenarios.CycleScenario` | static.go:195-234 | In the built cycle, the subgraph reachable from A has 2 nodes and 2 edges: the walk terminates and collects the whole cycle. |
| `Scenarios.GraphCounts` | static.go:251-333 | Under the builder invariant, the number of nodes equals the number of distinct names, and the number of edges equals the number of distinct (caller, callee) name pairs. |

## Left out

- `ssa.go`: a facade over `golang.org/x/tools` call-graph algorithms and stderr logging. These are foreign calls.
- The test file: it loads real packages and opens a browser.
- `Dot`, `String` and `OpenOnline` (static.go:136-193): rendering that depends on map order and `%q` quoting, plus a process spawn.
- `addRecvTypeNode` and `addPkgNode` (static.go:335-395): they are only called under `if false`, so they never run.
- The AST matcher, the loader, and the `StaticOption` setters (static.go:27-62): they are external pattern callbacks. Their output is an input here: a sequence of matched declarations, each with the callee kinds of its matched call sites, in match order. `ShowOrphanedNode` is the only flag kept.
- The `errLog` diagnostic for a nil callee (static.go:66-69): output only. The call site is skipped as in the source.
- The `build.Import` lookup behind `go_root` (static.go:284-294): a filesystem query, modelled as the `inGoRoot` field of `Func`.
- The `go/types` objects themselves: `FullName()` and `Parent()` are the fields `fullName` and `hasParent`. A node's `Object` holds the abstract function.
- Inserting into an extracted subgraph: `SubGraph` returns a fresh counter and an empty registry, and nothing adds to the result.
- `CallGraph.GetIdKeepsRegistry`: stated only while the counter stays below 2^64. The first id ever issued is `n1`, so the `n0` that `GetIdWraps` exhibits after the wrap is still new. The ids after it (`n1`, `n2`, …) repeat ids issued before the wrap, so uniqueness fails from there on.
- `Builder.AddNodeSound`: assumes room for one more id below 2^64, for the same reason.
- `Builder.AddStaticEdgeSound`: assumes room for three more ids below 2^64, for the same reason.
- `Static.NewStaticWf`: stated for builds that draw fewer than 2^64 ids.
- `Static.NewStaticContents`: stated for builds that draw fewer than 2^64 ids and whose names contain no `>`. Go qualified names practically never contain it: only through a quoted struct tag inside a receiver's type argument, as in `(*p.L[struct{F int "a>b"}]).M`. With such a name, two different pairs can share one edge key (`EdgeKeyAmbiguous`).
- `Builder.AddStaticEdgeClean`: assumes `>`-free names, for the same reason.
- `Static.HandleDeclContents`: like `Static.HandleCallsContents` and `Static.HandleDeclsContents`, it is stated only for `>`-free names on a graph that satisfies the builder invariant, has no `>` in its labels, and has room for the ids drawn. Without the `>` hypothesis the exact contents fail. A graph that already holds the pair (`x -> y`, `z`) has the key of the call from `x` to `y -> z` (`EdgeKeyAmbiguous`). `addStaticEdge` then returns early at static.go:317-319 and adds neither `x` nor that pair.
- `SubGraphs.SubGraph`: requires every edge's endpoints to be nodes of the graph. Graphs built by `NewStatic` satisfy this (`WfEndpointsExist`). On other graphs the source does something else. For an edge target `x` that is not a node, `dfs` stores `subGraph.Nodes[x] = nil`. Its visited test at static.go:221 then never treats `x` as visited. A cycle through such a target recurses without end: for example Nodes={a}, Edges={a→x, x→x}, root a. Neither nil entries nor that divergence is modelled.
- The `Scenarios` lemmas: they take the two functions' names as parameters. They require the names to differ and to contain no `>`.
