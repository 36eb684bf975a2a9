/**
 The unrecover analyzer: for every `go` statement of the analyzed package it
 resolves the spawned function through a call graph and reports the spawn site
 when that function has a body but no recover block.

 The SSA program and the call graph are abstracted to values: a function is its
 number of basic blocks and whether the SSA builder gave it a recover block; a
 call-graph node is the ordered list of its out-edges, each naming the call
 instruction it stands for and the function it reaches.
 */
module Unrecover {

  datatype Option<T> = None | Some(value: T)

  /** Identity of an SSA function (the key of a call-graph node). */
  type FuncId = nat
  /** Identity of a call instruction; two sites are the same instruction iff their ids are equal. */
  type SiteId = nat
  /** A source position, as `token.Pos`. */
  type Pos = nat

  /** A call-like SSA instruction: the function it sits in and its own identity. */
  datatype CallInstr = CallInstr(parent: FuncId, site: SiteId)

  /** An out-edge of a call-graph node: the call instruction and the function it reaches. */
  datatype Edge = Edge(site: SiteId, callee: FuncId)

  /** A call graph: each function that has a node maps to that node's out-edges, in order. */
  type Graph = map<FuncId, seq<Edge>>

  /** What the reporting rule reads of an SSA function. */
  datatype Function = Function(blocks: nat, hasRecover: bool)

  /** The instructions the walker visits; only `Go` matters to the analyzer. */
  datatype Instr =
    | Go(call: CallInstr, pos: Pos)
    | Call(call: CallInstr)
    | Defer(call: CallInstr)
    | Other

  /** A reported diagnostic, as handed to `pass.Reportf`. */
  datatype Diagnostic = Diagnostic(pos: Pos, message: string)

  const Message: string := "this goroutine does not recover a panic"

  /** The analyzed program: the call graph and the SSA functions it refers to. */
  datatype Program = Program(graph: Graph, funcs: map<FuncId, Function>)

  /** Every function an edge reaches is an SSA function of the program
      (an edge's callee node always carries a function). */
  predicate WellFormed(p: Program)
  {
    forall f, i :: f in p.graph && 0 <= i < |p.graph[f]| ==> p.graph[f][i].callee in p.funcs
  }

  // ---------------------------------------------------------------------------
  // Callee lookup
  // ---------------------------------------------------------------------------

  /** `i` is the position of the first out-edge whose site is `site`. */
  ghost predicate IsFirstMatch(out: seq<Edge>, site: SiteId, i: int)
  {
    && 0 <= i < |out|
    && out[i].site == site
    && forall j :: 0 <= j < i ==> out[j].site != site
  }

  /** The callee of the first edge of `out` whose site is `site`, if any. */
  function FirstEdgeTo(out: seq<Edge>, site: SiteId): Option<FuncId>
    decreases |out|
  {
    if out == [] then None
    else if out[0].site == site then Some(out[0].callee)
    else FirstEdgeTo(out[1..], site)
  }

  /** The function `callee` returns: none when the caller has no node,
      otherwise the first matching out-edge's callee. */
  function ResolveCallee(g: Graph, call: CallInstr): Option<FuncId>
  {
    if call.parent !in g then None else FirstEdgeTo(g[call.parent], call.site)
  }

  /** `callee`: looks up the caller's node and scans its out-edges in order.
      The graph is a value and the method has no `modifies` clause, so it
      changes neither the graph nor any edge list. */
  method Callee(g: Graph, call: CallInstr) returns (r: Option<FuncId>)
    ensures r == ResolveCallee(g, call)
  {
    if call.parent !in g {
      return None;
    }
    var out := g[call.parent];
    var i := 0;
    while i < |out|
      invariant 0 <= i <= |out|
      invariant FirstEdgeTo(out[i..], call.site) == FirstEdgeTo(out, call.site)
    {
      assert out[i..][1..] == out[i + 1..];
      if out[i].site == call.site {
        return Some(out[i].callee);
      }
      i := i + 1;
    }
    return None;
  }

  /** The first matching edge decides the result. */
  lemma {:induction false} FirstEdgeToFirstMatch(out: seq<Edge>, site: SiteId, i: int)
    requires IsFirstMatch(out, site, i)
    ensures FirstEdgeTo(out, site) == Some(out[i].callee)
    decreases |out|
  {
    if i > 0 {
      assert out[0].site != site;
      assert IsFirstMatch(out[1..], site, i - 1);
      FirstEdgeToFirstMatch(out[1..], site, i - 1);
    }
  }

  /** No result exactly when no edge has the site. */
  lemma {:induction false} FirstEdgeToNone(out: seq<Edge>, site: SiteId)
    ensures FirstEdgeTo(out, site).None? <==> forall i :: 0 <= i < |out| ==> out[i].site != site
    decreases |out|
  {
    if out != [] {
      FirstEdgeToNone(out[1..], site);
      if out[0].site != site {
        forall i | 1 <= i < |out| ensures out[i] == out[1..][i - 1] { }
      }
    }
  }

  /** A result is always the callee of a first matching edge. */
  lemma {:induction false} FirstEdgeToWitness(out: seq<Edge>, site: SiteId)
    ensures FirstEdgeTo(out, site).Some? ==>
      exists i :: IsFirstMatch(out, site, i) && FirstEdgeTo(out, site).value == out[i].callee
    decreases |out|
  {
    if out != [] {
      if out[0].site == site {
        assert IsFirstMatch(out, site, 0);
      } else if FirstEdgeTo(out[1..], site).Some? {
        FirstEdgeToWitness(out[1..], site);
        var i :| IsFirstMatch(out[1..], site, i) && FirstEdgeTo(out[1..], site).value == out[1..][i].callee;
        assert IsFirstMatch(out, site, i + 1);
      }
    }
  }

  /** Edges after a match never change the result. */
  lemma {:induction false} FirstEdgeToIgnoresLater(out: seq<Edge>, later: seq<Edge>, site: SiteId)
    requires FirstEdgeTo(out, site).Some?
    ensures FirstEdgeTo(out + later, site) == FirstEdgeTo(out, site)
    decreases |out|
  {
    if out[0].site != site {
      assert (out + later)[1..] == out[1..] + later;
      FirstEdgeToIgnoresLater(out[1..], later, site);
    }
  }

  /** `callee` returns none exactly when the caller has no node or none of its
      out-edges is the call. */
  lemma ResolveCalleeNone(g: Graph, call: CallInstr)
    ensures ResolveCallee(g, call).None? <==>
      (call.parent !in g || forall i :: 0 <= i < |g[call.parent]| ==> g[call.parent][i].site != call.site)
  {
    if call.parent in g {
      FirstEdgeToNone(g[call.parent], call.site);
    }
  }

  /** A returned function is the callee of the first out-edge of the caller's node whose site is the call. */
  lemma ResolveCalleeSome(g: Graph, call: CallInstr)
    ensures ResolveCallee(g, call).Some? ==>
      && call.parent in g
      && exists i :: IsFirstMatch(g[call.parent], call.site, i)
                  && ResolveCallee(g, call).value == g[call.parent][i].callee
  {
    if call.parent in g {
      FirstEdgeToWitness(g[call.parent], call.site);
    }
  }

  /** The first matching out-edge decides; a later edge with the same site is ignored. */
  lemma ResolveCalleeFirst(g: Graph, call: CallInstr, i: int, j: int)
    requires call.parent in g && IsFirstMatch(g[call.parent], call.site, i)
    requires i < j < |g[call.parent]| && g[call.parent][j].site == call.site
    requires g[call.parent][j].callee != g[call.parent][i].callee
    ensures ResolveCallee(g, call) == Some(g[call.parent][i].callee)
    ensures ResolveCallee(g, call) != Some(g[call.parent][j].callee)
  {
    FirstEdgeToFirstMatch(g[call.parent], call.site, i);
  }

  /** In a well-formed program a resolved callee is a known SSA function. */
  lemma ResolvedCalleeKnown(p: Program, call: CallInstr)
    requires WellFormed(p)
    ensures ResolveCallee(p.graph, call).Some? ==> ResolveCallee(p.graph, call).value in p.funcs
  {
    ResolveCalleeSome(p.graph, call);
  }

  // ---------------------------------------------------------------------------
  // The `go`-instruction visitor, as written
  // ---------------------------------------------------------------------------

  /** The test at the report site: a body exists and there is no recover block. */
  predicate LacksRecover(f: Function)
  {
    f.blocks != 0 && !f.hasRecover
  }

  /** What visiting one instruction does: go on with some diagnostics, or
      crash reading `f.Blocks` through the nil pointer `callee` returned. */
  datatype Step = Continue(reported: seq<Diagnostic>) | NilDereference(at: Pos)

  /** Outcome of the walk: every instruction visited, or a panic at a spawn site
      after the diagnostics already reported. */
  datatype Outcome = Finished(diags: seq<Diagnostic>) | Panicked(at: Pos, diags: seq<Diagnostic>)

  /** The visitor callback on one instruction. */
  function Visit(p: Program, instr: Instr): Step
    requires WellFormed(p)
  {
    match instr
    case Go(call, pos) =>
      var f := ResolveCallee(p.graph, call);
      if f.None? then NilDereference(pos)
      else
        ResolvedCalleeKnown(p, call);
        if LacksRecover(p.funcs[f.value]) then Continue([Diagnostic(pos, Message)]) else Continue([])
    case _ => Continue([])
  }

  /** The walk over the instructions, visiting them in order; a panic ends it. */
  function Analyze(p: Program, instrs: seq<Instr>): Outcome
    requires WellFormed(p)
    decreases |instrs|
  {
    if instrs == [] then Finished([])
    else
      match Analyze(p, instrs[..|instrs| - 1])
      case Panicked(at, d) => Panicked(at, d)
      case Finished(d) =>
        match Visit(p, instrs[|instrs| - 1])
        case NilDereference(at) => Panicked(at, d)
        case Continue(e) => Finished(d + e)
  }

  /** `run`'s walk over the instructions of the source functions, with the
      callback that resolves each `go` and reports it. */
  method Run(p: Program, instrs: seq<Instr>) returns (out: Outcome)
    requires WellFormed(p)
    ensures out == Analyze(p, instrs)
  {
    var diags: seq<Diagnostic> := [];
    var i := 0;
    while i < |instrs|
      invariant 0 <= i <= |instrs|
      invariant Analyze(p, instrs[..i]) == Finished(diags)
    {
      assert instrs[..i + 1][..i] == instrs[..i];
      var instr := instrs[i];
      if instr.Go? {
        var f := Callee(p.graph, instr.call);
        if f.None? {
          // `f.Blocks` is read with no nil check: the pass panics here
          PanicPersists(p, instrs, i + 1);
          return Panicked(instr.pos, diags);
        }
        ResolvedCalleeKnown(p, instr.call);
        var fn := p.funcs[f.value];
        if fn.blocks != 0 && !fn.hasRecover {
          diags := diags + [Diagnostic(instr.pos, Message)];
        }
      }
      i := i + 1;
    }
    assert instrs[..i] == instrs;
    return Finished(diags);
  }

  /** Once the walk has panicked, the remaining instructions change nothing. */
  lemma {:induction false} PanicPersists(p: Program, instrs: seq<Instr>, k: nat)
    requires WellFormed(p) && k <= |instrs|
    requires Analyze(p, instrs[..k]).Panicked?
    ensures Analyze(p, instrs) == Analyze(p, instrs[..k])
    decreases |instrs| - k
  {
    if k < |instrs| {
      var n := |instrs|;
      assert instrs[..n - 1][..k] == instrs[..k];
      PanicPersists(p, instrs[..n - 1], k);
    } else {
      assert instrs[..k] == instrs;
    }
  }

  // ---------------------------------------------------------------------------
  // Reference: which spawn sites deserve a diagnostic
  // ---------------------------------------------------------------------------

  /** A spawn site whose callee resolves to a function with a body and no recover block. */
  predicate Reportable(p: Program, instr: Instr)
  {
    && instr.Go?
    && var f := ResolveCallee(p.graph, instr.call);
       f.Some? && f.value in p.funcs && LacksRecover(p.funcs[f.value])
  }

  /** The instruction is not a spawn site, or its callee resolves. */
  predicate Resolved(p: Program, instr: Instr)
  {
    instr.Go? ==> ResolveCallee(p.graph, instr.call).Some?
  }

  ghost predicate AllResolved(p: Program, instrs: seq<Instr>)
  {
    forall i :: 0 <= i < |instrs| ==> Resolved(p, instrs[i])
  }

  lemma AllResolvedAppend(p: Program, a: seq<Instr>, b: seq<Instr>)
    requires AllResolved(p, a) && AllResolved(p, b)
    ensures AllResolved(p, a + b)
  {
  }

  /** `k` is the first spawn site whose callee does not resolve. */
  ghost predicate FirstUnresolved(p: Program, instrs: seq<Instr>, k: int)
  {
    && 0 <= k < |instrs|
    && !Resolved(p, instrs[k])
    && forall j :: 0 <= j < k ==> Resolved(p, instrs[j])
  }

  /** One diagnostic per reportable spawn site, in instruction order; a site
      whose callee does not resolve is skipped. */
  function Expected(p: Program, instrs: seq<Instr>): seq<Diagnostic>
    decreases |instrs|
  {
    if instrs == [] then []
    else
      (if Reportable(p, instrs[0]) then [Diagnostic(instrs[0].pos, Message)] else [])
      + Expected(p, instrs[1..])
  }

  /** Number of `go` instructions. */
  function GoCount(instrs: seq<Instr>): nat
    decreases |instrs|
  {
    if instrs == [] then 0 else (if instrs[0].Go? then 1 else 0) + GoCount(instrs[1..])
  }

  /** The `go` instructions alone, in order. */
  function GoOnly(instrs: seq<Instr>): seq<Instr>
    decreases |instrs|
  {
    if instrs == [] then []
    else
      var last := instrs[|instrs| - 1];
      GoOnly(instrs[..|instrs| - 1]) + (if last.Go? then [last] else [])
  }

  lemma {:induction false} ExpectedAppend(p: Program, a: seq<Instr>, b: seq<Instr>)
    ensures Expected(p, a + b) == Expected(p, a) + Expected(p, b)
    decreases |a|
  {
    if a != [] {
      assert (a + b)[1..] == a[1..] + b;
      ExpectedAppend(p, a[1..], b);
    } else {
      assert a + b == b;
    }
  }

  /** A diagnostic is expected exactly at the position of a reportable spawn
      site, and always carries the fixed message. */
  lemma {:induction false} ExpectedMembership(p: Program, instrs: seq<Instr>, d: Diagnostic)
    ensures d in Expected(p, instrs) <==>
      exists i :: 0 <= i < |instrs| && Reportable(p, instrs[i]) && d == Diagnostic(instrs[i].pos, Message)
    decreases |instrs|
  {
    if instrs != [] {
      ExpectedMembership(p, instrs[1..], d);
      if d in Expected(p, instrs) {
        if !(Reportable(p, instrs[0]) && d == Diagnostic(instrs[0].pos, Message)) {
          var i :| 0 <= i < |instrs[1..]| && Reportable(p, instrs[1..][i]) && d == Diagnostic(instrs[1..][i].pos, Message);
          assert instrs[i + 1] == instrs[1..][i];
        }
      } else {
        forall i | 0 <= i < |instrs| && Reportable(p, instrs[i])
          ensures d != Diagnostic(instrs[i].pos, Message)
        {
          if i > 0 {
            assert instrs[1..][i - 1] == instrs[i];
          }
        }
      }
    }
  }

  /** Instructions that are not `go` instructions produce no diagnostic. */
  lemma {:induction false} ExpectedNoSpawn(p: Program, instrs: seq<Instr>)
    requires forall i :: 0 <= i < |instrs| ==> !instrs[i].Go?
    ensures Expected(p, instrs) == []
    decreases |instrs|
  {
    if instrs != [] {
      assert !instrs[0].Go?;
      ExpectedNoSpawn(p, instrs[1..]);
    }
  }

  /** Each `go` instruction yields at most one diagnostic; others yield none. */
  lemma {:induction false} ExpectedAtMostOnePerGo(p: Program, instrs: seq<Instr>)
    ensures |Expected(p, instrs)| <= GoCount(instrs)
    decreases |instrs|
  {
    if instrs != [] {
      ExpectedAtMostOnePerGo(p, instrs[1..]);
    }
  }

  // ---------------------------------------------------------------------------
  // What the visitor as written does, in terms of the reference
  // ---------------------------------------------------------------------------

  /** When every spawn site resolves, the walk finishes with exactly the expected diagnostics. */
  lemma {:induction false} AnalyzeFinishes(p: Program, instrs: seq<Instr>)
    requires WellFormed(p) && AllResolved(p, instrs)
    ensures Analyze(p, instrs) == Finished(Expected(p, instrs))
    decreases |instrs|
  {
    if instrs != [] {
      var n := |instrs|;
      var front, last := instrs[..n - 1], instrs[n - 1];
      assert AllResolved(p, front) by {
        forall i | 0 <= i < |front| ensures Resolved(p, front[i]) {
          assert front[i] == instrs[i];
        }
      }
      AnalyzeFinishes(p, front);
      assert Resolved(p, last);
      assert instrs == front + [last];
      ExpectedAppend(p, front, [last]);
      if last.Go? {
        ResolvedCalleeKnown(p, last.call);
      }
    }
  }

  /** The walk finishes exactly when every spawn site's callee resolves. */
  lemma {:induction false} AnalyzeFinishesOnlyIfResolved(p: Program, instrs: seq<Instr>)
    requires WellFormed(p)
    ensures Analyze(p, instrs).Finished? <==> AllResolved(p, instrs)
    decreases |instrs|
  {
    if AllResolved(p, instrs) {
      AnalyzeFinishes(p, instrs);
    } else if instrs != [] {
      var n := |instrs|;
      var front, last := instrs[..n - 1], instrs[n - 1];
      AnalyzeFinishesOnlyIfResolved(p, front);
      if AllResolved(p, front) {
        assert !Resolved(p, last) by {
          forall i | 0 <= i < n - 1 ensures Resolved(p, instrs[i]) {
            assert front[i] == instrs[i];
          }
        }
      }
    }
  }

  /** An unresolved spawn site is not skipped: the walk panics there, after
      reporting exactly the diagnostics expected of the instructions before it. */
  lemma UnresolvedGoPanics(p: Program, instrs: seq<Instr>, k: int)
    requires WellFormed(p) && FirstUnresolved(p, instrs, k)
    ensures Analyze(p, instrs) == Panicked(instrs[k].pos, Expected(p, instrs[..k]))
  {
    assert AllResolved(p, instrs[..k]);
    AnalyzeFinishes(p, instrs[..k]);
    assert instrs[..k + 1][..k] == instrs[..k];
    PanicPersists(p, instrs, k + 1);
  }

  /** Non-`go` instructions neither report nor stop the walk: visiting only
      the `go` instructions gives the same outcome. */
  lemma {:induction false} AnalyzeIgnoresNonGo(p: Program, instrs: seq<Instr>)
    requires WellFormed(p)
    ensures Analyze(p, instrs) == Analyze(p, GoOnly(instrs))
    decreases |instrs|
  {
    if instrs != [] {
      var n := |instrs|;
      var front, last := instrs[..n - 1], instrs[n - 1];
      AnalyzeIgnoresNonGo(p, front);
      if last.Go? {
        var g := GoOnly(front) + [last];
        assert GoOnly(instrs) == g;
        assert g[..|g| - 1] == GoOnly(front);
        assert g[|g| - 1] == last;
      } else {
        assert GoOnly(instrs) == GoOnly(front);
        assert Visit(p, last) == Continue([]);
        assert Analyze(p, instrs) == Analyze(p, front) by {
          match Analyze(p, front)
          case Panicked(_, _) =>
          case Finished(d) => assert d + [] == d;
        }
      }
    }
  }

  // ---------------------------------------------------------------------------
  // The visitor with the nil check the callee lookup calls for
  // ---------------------------------------------------------------------------

  /** The walk with a guard on the lookup: an unresolved spawn site is skipped. */
  method RunGuarded(p: Program, instrs: seq<Instr>) returns (diags: seq<Diagnostic>)
    requires WellFormed(p)
    ensures diags == Expected(p, instrs)
  {
    diags := [];
    var i := 0;
    while i < |instrs|
      invariant 0 <= i <= |instrs|
      invariant diags == Expected(p, instrs[..i])
    {
      var instr := instrs[i];
      assert instrs[..i + 1] == instrs[..i] + [instr];
      ExpectedAppend(p, instrs[..i], [instr]);
      if instr.Go? {
        var f := Callee(p.graph, instr.call);
        if f.Some? {
          ResolvedCalleeKnown(p, instr.call);
          var fn := p.funcs[f.value];
          if fn.blocks != 0 && !fn.hasRecover {
            diags := diags + [Diagnostic(instr.pos, Message)];
          }
        }
      }
      i := i + 1;
    }
    assert instrs[..i] == instrs;
  }

  /** Where the walk as written finishes, the guarded walk reports the same diagnostics. */
  lemma GuardedAgrees(p: Program, instrs: seq<Instr>)
    requires WellFormed(p)
    ensures Analyze(p, instrs).Finished? ==> Analyze(p, instrs).diags == Expected(p, instrs)
  {
    AnalyzeFinishesOnlyIfResolved(p, instrs);
    if AllResolved(p, instrs) {
      AnalyzeFinishes(p, instrs);
    }
  }
}
