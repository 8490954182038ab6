/** `NewStatic`: the walk over matched declarations and call sites, with the
    classification of each resolved callee. */
module Static {
  import opened Wrappers
  import opened Names
  import opened Hex
  import opened CallGraph
  import opened Builder

  /** What `typeutil.Callee` resolves a call expression to. */
  datatype Callee =
    | Unresolved                  // nil: no callee object
    | FuncCallee(fun: Func)       // a `*types.Func`: a named function or method
    | VarCallee(name: string)     // a `*types.Var`: a call through a function value
    | BuiltinCallee(name: string) // a `*types.Builtin`
    | OtherCallee                 // any other kind of object

  /** A function declaration the caller pattern matched, with the callees of the
      call expressions the call pattern matched in its body, in match order. */
  datatype Decl = Decl(caller: Func, calls: seq<Callee>)

  /** The option of `StaticFlags` that changes the graph (the two patterns are
      represented by the declarations and call sites they select). */
  datatype Flags = Flags(showOrphanedNode: bool)

  /** The message of the panic for an unclassifiable callee. */
  const PanicMessage: string := "unreachable"

  /** One call site: unresolved callees are skipped, functions get a static
      edge, function values and builtins go to the stubs, anything else panics. */
  function HandleCall(g: StaticCallGraph, caller: Func, callee: Callee): (r: Result<StaticCallGraph, string>)
    ensures r.Failure? <==> callee.OtherCallee?
    ensures r.Failure? ==> r.error == PanicMessage
    ensures callee.Unresolved? || callee.VarCallee? || callee.BuiltinCallee? ==> r == Success(g)
    ensures callee.FuncCallee? ==> r == Success(AddStaticEdge(g, caller, callee.fun).graph)
  {
    match callee
    case Unresolved => Success(g)
    case FuncCallee(f) => Success(AddStaticEdge(g, caller, f).graph)
    case VarCallee(v) => Success(AddDynamicEdge(g, caller, v).graph)
    case BuiltinCallee(b) => Success(AddBuiltinEdge(g, caller, b).graph)
    case OtherCallee => Failure(PanicMessage)
  }

  function HandleCalls(g: StaticCallGraph, caller: Func, calls: seq<Callee>): Result<StaticCallGraph, string>
    decreases |calls|
  {
    if |calls| == 0 then Success(g)
    else
      match HandleCall(g, caller, calls[0])
      case Failure(e) => Failure(e)
      case Success(g1) => HandleCalls(g1, caller, calls[1..])
  }

  /** One matched declaration: its node first when orphaned callers are shown,
      then its call sites. */
  function HandleDecl(g: StaticCallGraph, d: Decl, flags: Flags): Result<StaticCallGraph, string> {
    var g1 := if flags.showOrphanedNode then AddNode(g, d.caller).graph else g;
    HandleCalls(g1, d.caller, d.calls)
  }

  function HandleDecls(g: StaticCallGraph, ds: seq<Decl>, flags: Flags): Result<StaticCallGraph, string>
    decreases |ds|
  {
    if |ds| == 0 then Success(g)
    else
      match HandleDecl(g, ds[0], flags)
      case Failure(e) => Failure(e)
      case Success(g1) => HandleDecls(g1, ds[1..], flags)
  }

  /** `NewStatic`: the graph of all matched declarations, or the panic. */
  function NewStatic(ds: seq<Decl>, flags: Flags): Result<StaticCallGraph, string> {
    HandleDecls(NewGraph(), ds, flags)
  }

  // ---------------------------------------------------------------------------
  // Reference descriptions of the input

  predicate CallsPanic(calls: seq<Callee>) {
    exists j | 0 <= j < |calls| :: calls[j].OtherCallee?
  }

  predicate DeclsPanic(ds: seq<Decl>) {
    exists i | 0 <= i < |ds| :: CallsPanic(ds[i].calls)
  }

  /** A call list panics exactly when its head or its tail does. */
  lemma CallsPanicSplit(calls: seq<Callee>)
    requires |calls| > 0
    ensures CallsPanic(calls) <==> calls[0].OtherCallee? || CallsPanic(calls[1..])
  {
    if CallsPanic(calls[1..]) {
      var j :| 0 <= j < |calls[1..]| && calls[1..][j].OtherCallee?;
      assert calls[j + 1].OtherCallee?;
    }
    if CallsPanic(calls) && !calls[0].OtherCallee? {
      var j :| 0 <= j < |calls| && calls[j].OtherCallee?;
      assert calls[1..][j - 1].OtherCallee?;
    }
  }

  /** A declaration list panics exactly when its head or its tail does. */
  lemma DeclsPanicSplit(ds: seq<Decl>)
    requires |ds| > 0
    ensures DeclsPanic(ds) <==> CallsPanic(ds[0].calls) || DeclsPanic(ds[1..])
  {
    if DeclsPanic(ds[1..]) {
      var i :| 0 <= i < |ds[1..]| && CallsPanic(ds[1..][i].calls);
      assert CallsPanic(ds[i + 1].calls);
    }
    if DeclsPanic(ds) && !CallsPanic(ds[0].calls) {
      var i :| 0 <= i < |ds| && CallsPanic(ds[i].calls);
      assert CallsPanic(ds[1..][i - 1].calls);
    }
  }

  /** The (caller, callee) name pairs of the static call sites. */
  function CallPairs(caller: Func, calls: seq<Callee>): set<(string, string)>
    decreases |calls|
  {
    if |calls| == 0 then {}
    else
      (if calls[0].FuncCallee? then {(FunName(caller), FunName(calls[0].fun))} else {})
      + CallPairs(caller, calls[1..])
  }

  function StaticPairs(ds: seq<Decl>): set<(string, string)>
    decreases |ds|
  {
    if |ds| == 0 then {} else CallPairs(ds[0].caller, ds[0].calls) + StaticPairs(ds[1..])
  }

  /** The callers that get a node of their own because orphans are shown. */
  function ShownCallers(ds: seq<Decl>, flags: Flags): set<string>
    decreases |ds|
  {
    if |ds| == 0 || !flags.showOrphanedNode then {}
    else {FunName(ds[0].caller)} + ShownCallers(ds[1..], flags)
  }

  function Endpoints(pairs: set<(string, string)>): set<string> {
    (set p | p in pairs :: p.0) + (set p | p in pairs :: p.1)
  }

  /** How many ids a walk may draw at most: one per shown caller and three per call site. */
  function Cost(ds: seq<Decl>): nat
    decreases |ds|
  {
    if |ds| == 0 then 0 else 1 + 3 * |ds[0].calls| + Cost(ds[1..])
  }

  predicate CallsClean(calls: seq<Callee>) {
    forall j | 0 <= j < |calls| :: calls[j].FuncCallee? ==> '>' !in FunName(calls[j].fun)
  }

  predicate DeclsClean(ds: seq<Decl>) {
    forall i | 0 <= i < |ds| :: '>' !in FunName(ds[i].caller) && CallsClean(ds[i].calls)
  }

  lemma EndpointsUnion(a: set<(string, string)>, b: set<(string, string)>)
    ensures Endpoints(a + b) == Endpoints(a) + Endpoints(b)
  {
  }

  lemma EndpointsOfPair(x: string, y: string)
    ensures Endpoints({(x, y)}) == {x, y}
  {
    assert (x, y).0 in Endpoints({(x, y)});
    assert (x, y).1 in Endpoints({(x, y)});
  }

  // ---------------------------------------------------------------------------
  // Panics

  lemma {:induction false} HandleCallsPanics(g: StaticCallGraph, caller: Func, calls: seq<Callee>)
    ensures HandleCalls(g, caller, calls).Failure? <==> CallsPanic(calls)
    decreases |calls|
  {
    if |calls| > 0 {
      CallsPanicSplit(calls);
      match HandleCall(g, caller, calls[0])
      case Failure(_) =>
      case Success(g1) => HandleCallsPanics(g1, caller, calls[1..]);
    }
  }

  lemma {:induction false} HandleDeclsPanics(g: StaticCallGraph, ds: seq<Decl>, flags: Flags)
    ensures HandleDecls(g, ds, flags).Failure? <==> DeclsPanic(ds)
    decreases |ds|
  {
    if |ds| > 0 {
      DeclsPanicSplit(ds);
      var g1 := if flags.showOrphanedNode then AddNode(g, ds[0].caller).graph else g;
      HandleCallsPanics(g1, ds[0].caller, ds[0].calls);
      match HandleDecl(g, ds[0], flags)
      case Failure(_) =>
      case Success(g2) => HandleDeclsPanics(g2, ds[1..], flags);
    }
  }

  /** The build panics exactly when some matched call site has a callee of a
      kind the classification does not know; otherwise it returns a graph. */
  lemma NewStaticPanics(ds: seq<Decl>, flags: Flags)
    ensures NewStatic(ds, flags).Failure? <==> DeclsPanic(ds)
    ensures NewStatic(ds, flags).Failure? ==> NewStatic(ds, flags).error == PanicMessage
  {
    HandleDeclsPanics(NewGraph(), ds, flags);
    PanicMessageKept(NewGraph(), ds, flags);
  }

  lemma {:induction false} PanicMessageKept(g: StaticCallGraph, ds: seq<Decl>, flags: Flags)
    ensures HandleDecls(g, ds, flags).Failure? ==> HandleDecls(g, ds, flags).error == PanicMessage
    decreases |ds|
  {
    if |ds| > 0 {
      var g1 := if flags.showOrphanedNode then AddNode(g, ds[0].caller).graph else g;
      CallsPanicMessage(g1, ds[0].caller, ds[0].calls);
      match HandleDecl(g, ds[0], flags)
      case Failure(_) =>
      case Success(g2) => PanicMessageKept(g2, ds[1..], flags);
    }
  }

  lemma {:induction false} CallsPanicMessage(g: StaticCallGraph, caller: Func, calls: seq<Callee>)
    ensures HandleCalls(g, caller, calls).Failure? ==> HandleCalls(g, caller, calls).error == PanicMessage
    decreases |calls|
  {
    if |calls| > 0 {
      match HandleCall(g, caller, calls[0])
      case Failure(_) =>
      case Success(g1) => CallsPanicMessage(g1, caller, calls[1..]);
    }
  }

  // ---------------------------------------------------------------------------
  // The invariant over a whole walk

  lemma {:induction false} HandleCallsWf(g: StaticCallGraph, caller: Func, calls: seq<Callee>)
    requires Wf(g) && g.idCounter + 3 * |calls| < Uint64Limit
    ensures var r := HandleCalls(g, caller, calls);
      r.Success? ==> Wf(r.value) && r.value.idCounter <= g.idCounter + 3 * |calls|
    decreases |calls|
  {
    if |calls| > 0 {
      if calls[0].FuncCallee? {
        AddStaticEdgeSound(g, caller, calls[0].fun);
      }
      match HandleCall(g, caller, calls[0])
      case Failure(_) =>
      case Success(g1) => HandleCallsWf(g1, caller, calls[1..]);
    }
  }

  lemma {:induction false} HandleDeclsWf(g: StaticCallGraph, ds: seq<Decl>, flags: Flags)
    requires Wf(g) && g.idCounter + Cost(ds) < Uint64Limit
    ensures var r := HandleDecls(g, ds, flags);
      r.Success? ==> Wf(r.value) && r.value.idCounter <= g.idCounter + Cost(ds)
    decreases |ds|
  {
    if |ds| > 0 {
      var g1 := if flags.showOrphanedNode then AddNode(g, ds[0].caller).graph else g;
      if flags.showOrphanedNode {
        AddNodeSound(g, ds[0].caller, {});
      }
      HandleCallsWf(g1, ds[0].caller, ds[0].calls);
      match HandleDecl(g, ds[0], flags)
      case Failure(_) =>
      case Success(g2) => HandleDeclsWf(g2, ds[1..], flags);
    }
  }

  /** While fewer than 2^64 ids are drawn, a finished build satisfies the
      builder invariant: one node per name, one edge per key, endpoints present,
      node and edge ids distinct. */
  lemma NewStaticWf(ds: seq<Decl>, flags: Flags)
    requires Cost(ds) < Uint64Limit
    ensures NewStatic(ds, flags).Success? ==> Wf(NewStatic(ds, flags).value)
  {
    NewGraphWf();
    HandleDeclsWf(NewGraph(), ds, flags);
  }

  // ---------------------------------------------------------------------------
  // The exact contents of a build with '>'-free names

  /** The graph `r` holds the captions and pairs of `g` plus the given ones. */
  ghost predicate Extended(g: StaticCallGraph, r: StaticCallGraph,
                           names: set<string>, pairs: set<(string, string)>) {
    && NodeCaptions(r) == NodeCaptions(g) + names
    && EdgePairs(r) == EdgePairs(g) + pairs
  }

  /** Two walks one after the other extend the graph by the union of what each adds. */
  lemma ExtendedTransitive(g: StaticCallGraph, g1: StaticCallGraph, g2: StaticCallGraph,
                           n1: set<string>, n2: set<string>,
                           p1: set<(string, string)>, p2: set<(string, string)>)
    requires Extended(g, g1, n1, p1) && Extended(g1, g2, n2, p2)
    ensures Extended(g, g2, n1 + n2, p1 + p2)
  {
  }

  /** What one call site adds: both names and their pair for a function callee, nothing otherwise. */
  function CallNames(caller: Func, c: Callee): set<string> {
    if c.FuncCallee? then {FunName(caller), FunName(c.fun)} else {}
  }

  function CallPair(caller: Func, c: Callee): set<(string, string)> {
    if c.FuncCallee? then {(FunName(caller), FunName(c.fun))} else {}
  }

  lemma CallPairsStep(caller: Func, calls: seq<Callee>)
    requires |calls| > 0
    ensures CallPairs(caller, calls) == CallPair(caller, calls[0]) + CallPairs(caller, calls[1..])
    ensures Endpoints(CallPairs(caller, calls))
         == CallNames(caller, calls[0]) + Endpoints(CallPairs(caller, calls[1..]))
  {
    EndpointsUnion(CallPair(caller, calls[0]), CallPairs(caller, calls[1..]));
    if calls[0].FuncCallee? {
      EndpointsOfPair(FunName(caller), FunName(calls[0].fun));
    } else {
      assert Endpoints({}) == {};
    }
  }

  /** One call site of a walk with '>'-free names. */
  lemma HandleCallContents(g: StaticCallGraph, caller: Func, c: Callee)
    requires Wf(g) && CaptionsClean(g) && g.idCounter + 3 < Uint64Limit
    requires '>' !in FunName(caller) && !c.OtherCallee?
    requires c.FuncCallee? ==> '>' !in FunName(c.fun)
    ensures var r := HandleCall(g, caller, c);
      && r.Success? && Wf(r.value) && CaptionsClean(r.value)
      && r.value.idCounter <= g.idCounter + 3
      && Extended(g, r.value, CallNames(caller, c), CallPair(caller, c))
  {
    if c.FuncCallee? {
      AddStaticEdgeSound(g, caller, c.fun);
      AddStaticEdgeClean(g, caller, c.fun);
    }
  }

  lemma {:induction false} HandleCallsContents(g: StaticCallGraph, caller: Func, calls: seq<Callee>)
    requires Wf(g) && CaptionsClean(g) && g.idCounter + 3 * |calls| < Uint64Limit
    requires '>' !in FunName(caller) && CallsClean(calls) && !CallsPanic(calls)
    ensures var r := HandleCalls(g, caller, calls);
      && r.Success? && Wf(r.value) && CaptionsClean(r.value)
      && r.value.idCounter <= g.idCounter + 3 * |calls|
      && Extended(g, r.value, Endpoints(CallPairs(caller, calls)), CallPairs(caller, calls))
    decreases |calls|
  {
    if |calls| == 0 {
      assert Endpoints({}) == {};
    } else {
      var c := calls[0];
      var rest := calls[1..];
      assert CallsClean(rest) by {
        forall j | 0 <= j < |rest| && rest[j].FuncCallee?
          ensures '>' !in FunName(rest[j].fun)
        {
          assert rest[j] == calls[j + 1];
        }
      }
      CallsPanicSplit(calls);
      assert !c.OtherCallee? && (c.FuncCallee? ==> '>' !in FunName(c.fun));
      HandleCallContents(g, caller, c);
      var g1 := HandleCall(g, caller, c).value;
      HandleCallsContents(g1, caller, rest);
      var g2 := HandleCalls(g1, caller, rest).value;
      assert HandleCalls(g, caller, calls) == Success(g2);
      CallPairsStep(caller, calls);
      ExtendedTransitive(g, g1, g2, CallNames(caller, c), Endpoints(CallPairs(caller, rest)),
        CallPair(caller, c), CallPairs(caller, rest));
    }
  }

  /** A shown caller adds its own name and no pair. */
  lemma ShowCallerContents(g: StaticCallGraph, caller: Func)
    requires Wf(g) && CaptionsClean(g) && g.idCounter + 1 < Uint64Limit
    requires '>' !in FunName(caller)
    ensures var h := AddNode(g, caller).graph;
      && Wf(h) && CaptionsClean(h) && h.idCounter <= g.idCounter + 1
      && Extended(g, h, {FunName(caller)}, {})
  {
    var h := AddNode(g, caller).graph;
    AddNodeSound(g, caller, {});
    WfEndpointsExist(g, {});
    EdgePairsKept(g, h);
    CleanByCaptions(g, h, {FunName(caller)});
  }

  /** What one declaration adds to the captions. */
  function DeclNames(d: Decl, flags: Flags): set<string> {
    (if flags.showOrphanedNode then {FunName(d.caller)} else {}) + Endpoints(CallPairs(d.caller, d.calls))
  }

  lemma HandleDeclContents(g: StaticCallGraph, d: Decl, flags: Flags)
    requires Wf(g) && CaptionsClean(g) && g.idCounter + 1 + 3 * |d.calls| < Uint64Limit
    requires '>' !in FunName(d.caller) && CallsClean(d.calls) && !CallsPanic(d.calls)
    ensures var r := HandleDecl(g, d, flags);
      && r.Success? && Wf(r.value) && CaptionsClean(r.value)
      && r.value.idCounter <= g.idCounter + 1 + 3 * |d.calls|
      && Extended(g, r.value, DeclNames(d, flags), CallPairs(d.caller, d.calls))
  {
    if flags.showOrphanedNode {
      ShownDeclContents(g, d);
    } else {
      HandleCallsContents(g, d.caller, d.calls);
    }
  }

  /** The shown-caller branch of `HandleDeclContents`. */
  lemma ShownDeclContents(g: StaticCallGraph, d: Decl)
    requires Wf(g) && CaptionsClean(g) && g.idCounter + 1 + 3 * |d.calls| < Uint64Limit
    requires '>' !in FunName(d.caller) && CallsClean(d.calls) && !CallsPanic(d.calls)
    ensures var r := HandleCalls(AddNode(g, d.caller).graph, d.caller, d.calls);
      && r.Success? && Wf(r.value) && CaptionsClean(r.value)
      && r.value.idCounter <= g.idCounter + 1 + 3 * |d.calls|
      && Extended(g, r.value, {FunName(d.caller)} + Endpoints(CallPairs(d.caller, d.calls)),
           CallPairs(d.caller, d.calls))
  {
    var pairs := CallPairs(d.caller, d.calls);
    var g1 := AddNode(g, d.caller).graph;
    ShowCallerContents(g, d.caller);
    HandleCallsContents(g1, d.caller, d.calls);
    var g2 := HandleCalls(g1, d.caller, d.calls).value;
    ExtendedTransitive(g, g1, g2, {FunName(d.caller)}, Endpoints(pairs), {}, pairs);
  }

  /** What the whole walk adds to the captions. */
  function WalkNames(ds: seq<Decl>, flags: Flags): set<string> {
    ShownCallers(ds, flags) + Endpoints(StaticPairs(ds))
  }

  lemma WalkNamesStep(ds: seq<Decl>, flags: Flags)
    requires |ds| > 0
    ensures WalkNames(ds, flags) == DeclNames(ds[0], flags) + WalkNames(ds[1..], flags)
    ensures StaticPairs(ds) == CallPairs(ds[0].caller, ds[0].calls) + StaticPairs(ds[1..])
  {
    var p0, pr := CallPairs(ds[0].caller, ds[0].calls), StaticPairs(ds[1..]);
    var s0 := if flags.showOrphanedNode then {FunName(ds[0].caller)} else {};
    assert ShownCallers(ds, flags) == s0 + ShownCallers(ds[1..], flags);
    EndpointsUnion(p0, pr);
    UnionShuffle(s0, ShownCallers(ds[1..], flags), Endpoints(p0), Endpoints(pr));
  }

  lemma UnionShuffle<T>(a: set<T>, b: set<T>, c: set<T>, d: set<T>)
    ensures (a + b) + (c + d) == (a + c) + (b + d)
  {
  }

  lemma {:induction false} HandleDeclsContents(g: StaticCallGraph, ds: seq<Decl>, flags: Flags)
    requires Wf(g) && CaptionsClean(g) && g.idCounter + Cost(ds) < Uint64Limit
    requires DeclsClean(ds) && !DeclsPanic(ds)
    ensures var r := HandleDecls(g, ds, flags);
      && r.Success? && Wf(r.value) && CaptionsClean(r.value)
      && r.value.idCounter <= g.idCounter + Cost(ds)
      && Extended(g, r.value, WalkNames(ds, flags), StaticPairs(ds))
    decreases |ds|
  {
    if |ds| == 0 {
      assert Endpoints({}) == {};
    } else {
      var d := ds[0];
      var rest := ds[1..];
      assert !CallsPanic(d.calls);
      assert DeclsClean(rest) by {
        forall i | 0 <= i < |rest|
          ensures '>' !in FunName(rest[i].caller) && CallsClean(rest[i].calls)
        {
          assert rest[i] == ds[i + 1];
        }
      }
      DeclsPanicSplit(ds);
      HandleDeclContents(g, d, flags);
      var g1 := HandleDecl(g, d, flags).value;
      HandleDeclsContents(g1, rest, flags);
      var g2 := HandleDecls(g1, rest, flags).value;
      assert HandleDecls(g, ds, flags) == Success(g2);
      WalkNamesStep(ds, flags);
      ExtendedTransitive(g, g1, g2, DeclNames(d, flags), WalkNames(rest, flags),
        CallPairs(d.caller, d.calls), StaticPairs(rest));
    }
  }

  /** With '>'-free names and no unclassifiable callee, the build succeeds and
      holds exactly: a node for every shown caller and every endpoint of a static
      call site, and an edge for every distinct (caller, callee) pair of names. */
  lemma NewStaticContents(ds: seq<Decl>, flags: Flags)
    requires Cost(ds) < Uint64Limit
    requires DeclsClean(ds) && !DeclsPanic(ds)
    ensures NewStatic(ds, flags).Success?
    ensures Wf(NewStatic(ds, flags).value)
    ensures NodeCaptions(NewStatic(ds, flags).value) == ShownCallers(ds, flags) + Endpoints(StaticPairs(ds))
    ensures EdgePairs(NewStatic(ds, flags).value) == StaticPairs(ds)
  {
    NewGraphWf();
    assert NodeCaptions(NewGraph()) == {} && EdgePairs(NewGraph()) == {};
    HandleDeclsContents(NewGraph(), ds, flags);
  }
}
