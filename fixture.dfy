/**
 The scenarios of the analyzer's test package `a`: one function `f` that
 spawns four anonymous functions, each with a different use of `recover`.
 Functions are numbered in the order the walker visits them:
 0 `f`, 1 `f$1`, 2 `f$2`, 3 `f$2$1` (the deferred closure of `f$2`), 4 `f$3`,
 5 `f$4`, 6 `f$4$1` (the deferred closure of `f$4`). Positions are line numbers.

 Whether a body has a recover block is an input. `Prog` sets it only for `f$2`,
 which is what the test's expectations need. The SSA builder gives a recover
 block to every body with a `defer`, so `f$4` would have one too; `BuilderProg`
 sets the bit that way.
 */
module Fixture {
  import opened Unrecover

  /** The call graph: `f`'s four spawn sites and the two deferred closures. */
  const CallGraph: Graph := map[
    0 := [Edge(1, 1), Edge(2, 2), Edge(3, 4), Edge(4, 5)],
    1 := [],
    2 := [Edge(6, 3)],
    3 := [],
    4 := [],
    5 := [Edge(11, 6)],
    6 := []
  ]

  /** The recover-block bit as the test's expectations need it. */
  const Funcs: map<FuncId, Function> := map[
    0 := Function(1, false),
    1 := Function(1, false),   // prints only
    2 := Function(2, true),    // defers func() { recover() }()
    3 := Function(1, false),
    4 := Function(1, false),   // bare recover() call, no defer
    5 := Function(1, false),   // defers a closure that only prints
    6 := Function(1, false)
  ]

  const Prog: Program := Program(CallGraph, Funcs)

  /** The recover-block bit as the SSA builder sets it: every body with a
      `defer` gets one, so `f$4` has one as well as `f$2`. */
  const BuilderProg: Program := Program(CallGraph, Funcs[5 := Function(2, true)])

  /** The four spawn sites of `f`. */
  const Sites: seq<Instr> :=
    [Go(CallInstr(0, 1), 4), Go(CallInstr(0, 2), 13), Go(CallInstr(0, 3), 18), Go(CallInstr(0, 4), 23)]

  /** The rest of `f`, then the bodies of the spawned functions and of their deferred closures. */
  const Tail: seq<Instr> := [
    // f: return
    Other,
    // f$1
    Call(CallInstr(1, 5)), Other,
    // f$2
    Defer(CallInstr(2, 6)), Call(CallInstr(2, 7)), Other,
    // f$2$1
    Call(CallInstr(3, 8)), Other,
    // f$3
    Call(CallInstr(4, 9)), Call(CallInstr(4, 10)), Other,
    // f$4
    Defer(CallInstr(5, 11)), Other,
    // f$4$1
    Call(CallInstr(6, 12)), Other
  ]

  /** Every instruction of every source function, in the walker's order. */
  const Instrs: seq<Instr> := Sites + Tail

  const Reported: seq<Diagnostic> := [Diagnostic(4, Message), Diagnostic(18, Message), Diagnostic(23, Message)]

  lemma FixtureWellFormed()
    ensures WellFormed(Prog) && WellFormed(BuilderProg)
  {
  }

  lemma SitesReported()
    ensures AllResolved(Prog, Sites) && Expected(Prog, Sites) == Reported
    ensures AllResolved(BuilderProg, Sites) && Expected(BuilderProg, Sites) == Reported[..2]
  {
  }

  lemma TailSpawnsNothing()
    ensures forall i :: 0 <= i < |Tail| ==> !Tail[i].Go?
  {
  }

  /** A walk whose spawn sites all come first finishes with what those sites yield. */
  lemma QuietAfter(p: Program, a: seq<Instr>, b: seq<Instr>, reported: seq<Diagnostic>)
    requires WellFormed(p)
    requires AllResolved(p, a) && Expected(p, a) == reported
    requires forall i :: 0 <= i < |b| ==> !b[i].Go?
    ensures Analyze(p, a + b) == Finished(reported)
  {
    ExpectedNoSpawn(p, b);
    ExpectedAppend(p, a, b);
    AllResolvedAppend(p, a, b);
    AnalyzeFinishes(p, a + b);
  }

  /** An unresolved spawn site after resolved ones ends the walk there. */
  lemma PanicsAfter(p: Program, a: seq<Instr>, x: Instr, b: seq<Instr>, reported: seq<Diagnostic>)
    requires WellFormed(p)
    requires AllResolved(p, a) && Expected(p, a) == reported
    requires x.Go? && ResolveCallee(p.graph, x.call) == None
    requires forall i :: 0 <= i < |b| ==> !b[i].Go?
    ensures Analyze(p, a + [x] + b) == Panicked(x.pos, reported)
    ensures Expected(p, a + [x] + b) == reported
  {
    var s := a + [x] + b;
    assert s[|a|] == x;
    assert s[..|a|] == a;
    assert forall j :: 0 <= j < |a| ==> s[j] == a[j];
    assert FirstUnresolved(p, s, |a|);
    UnresolvedGoPanics(p, s, |a|);
    assert Expected(p, [x]) == [];
    ExpectedNoSpawn(p, b);
    ExpectedAppend(p, a, [x]);
    ExpectedAppend(p, a + [x], b);
  }

  /** Whatever `f`'s spawn sites yield is what the whole walk yields. */
  lemma FixtureOutcome(p: Program, reported: seq<Diagnostic>)
    requires WellFormed(p)
    requires AllResolved(p, Sites) && Expected(p, Sites) == reported
    ensures Analyze(p, Instrs) == Finished(reported)
  {
    TailSpawnsNothing();
    QuietAfter(p, Sites, Tail, reported);
  }

  /** The spawns at lines 4, 18 and 23 are reported; the one at line 13, whose
      body defers a recovering closure, is not. */
  lemma FixtureReports()
    ensures WellFormed(Prog)
    ensures Analyze(Prog, Instrs) == Finished(Reported)
  {
    FixtureWellFormed();
    SitesReported();
    FixtureOutcome(Prog, Reported);
  }

  /** With the recover-block bit set as the SSA builder sets it, the spawn at
      line 23 is not reported: its body defers a closure, so it has a recover block. */
  lemma BuilderOmitsLine23()
    ensures WellFormed(BuilderProg)
    ensures Analyze(BuilderProg, Instrs) == Finished([Diagnostic(4, Message), Diagnostic(18, Message)])
  {
    FixtureWellFormed();
    SitesReported();
    assert Reported[..2] == [Diagnostic(4, Message), Diagnostic(18, Message)];
    FixtureOutcome(BuilderProg, Reported[..2]);
  }

  /** A spawn site of `f` for which the call graph holds no edge, placed after
      the other four, just before `f` returns (line 26 stands for it). */
  const Stray: Instr := Go(CallInstr(0, 99), 26)

  /** `f`'s instructions with the stray spawn site among them. */
  const WithStray: seq<Instr> := Sites + [Stray] + Tail

  /** The unresolved spawn site is not skipped: the pass panics there, where a
      nil check would have skipped the site and kept the three diagnostics. */
  lemma UnresolvedSpawnCrashes()
    ensures WellFormed(Prog)
    ensures ResolveCallee(CallGraph, Stray.call) == None
    ensures Analyze(Prog, WithStray) == Panicked(26, Reported)
    ensures Expected(Prog, WithStray) == Reported
  {
    FixtureWellFormed();
    SitesReported();
    TailSpawnsNothing();
    PanicsAfter(Prog, Sites, Stray, Tail, Reported);
  }
}
