# unrecover — a verified model of the spawn-site check

`unrecover` is a Go static analyzer. For every `go` statement in the analyzed
package it finds the function the goroutine runs. It reports the statement,
with the message "this goroutine does not recover a panic", when that function
has a body but no recover block. A panic in such a goroutine cannot be
recovered inside it, so it ends the whole process.

The model has two modules:

- `Unrecover` (`unrecover.dfy`) models `unrecover.go`.
  - `Callee` is the call-graph lookup. It is a search loop, proved equal to the
    specification function `ResolveCallee`.
  - `Run` is the walk over every instruction of the source functions, with the
    callback that handles `go` instructions. It is a loop that extends a list of
    diagnostics, proved equal to the specification function `Analyze`.
  - `Expected` is an independent reference. It gives one diagnostic per
    reportable spawn site, in order. Lemmas tie `Analyze` to it.
- `Fixture` (`fixture.dfy`) runs the scenarios of the test package `a` through
  the model.

Abstractions:

- An SSA function is `Function(blocks, hasRecover)`: its number of basic blocks,
  and whether the SSA builder gave it a recover block.
- The call graph is `map<FuncId, seq<Edge>>`, with `Edge(site, callee)`. A
  function without a node is absent from the map. Out-edges keep their order.
- A call instruction is `CallInstr(parent, site)`: the function holding it and
  its identity. Pointer equality of instructions becomes equality of `site`.
- A diagnostic is a `(position, message)` pair.

The lookup returns nil when the caller has no node or no out-edge for the call.
The report test then reads `f.Blocks` with no nil check. So the model does not
skip an unresolved `go` site: the walk ends in `Panicked` at that site. The
diagnostics reported before it are kept. `UnresolvedGoPanics` proves this.

## Model

| member | source | states |
|---|---|---|
| `Unrecover.Callee` | unrecover.go:44-57 | The loop returns exactly `ResolveCallee`: none when the caller has no node, otherwise the callee of the first out-edge whose site is the call. It takes the graph by value and has no `modifies` clause, so the graph and its edge lists are unchanged. |
| `Unrecover.FirstEdgeToFirstMatch` | unrecover.go:50-53 | If edge `i` is the first edge whose site is the call, the scan returns edge `i`'s callee. |
| `Unrecover.FirstEdgeToNone` | unrecover.go:50-56 | The scan finds nothing if and only if no out-edge has the call as its site. |
| `Unrecover.FirstEdgeToWitness` | unrecover.go:50-52 | Any function the scan returns is the callee of a first matching edge. |
| `Unrecover.FirstEdgeToIgnoresLater` | unrecover.go:50-53 | Once an edge matches, edges appended after it do not change the result. |
| `Unrecover.ResolveCalleeNone` | unrecover.go:45-56 | The lookup returns none if and only if the caller has no node, or none of its out-edges is the call. |
| `Unrecover.ResolveCalleeSome` | unrecover.go:50-52 | A returned function implies that the caller has a node, and that the result is the callee of the first out-edge whose site is the call. |
| `Unrecover.ResolveCalleeFirst` | unrecover.go:50-53 | When two edges share the call's site, the first one decides. The later edge's different callee is never returned. |
| `Unrecover.ResolvedCalleeKnown` | unrecover.go:51 | In a well-formed program, every resolved callee is a function of the program. |
| `Unrecover.Run` | unrecover.go:25-42 | The walk returns exactly `Analyze`. Non-`go` instructions do nothing. A `go` with no resolved callee panics. Otherwise one diagnostic is appended at the `go` instruction's position when the callee has a block and no recover block. |
| `Unrecover.PanicPersists` | unrecover.go:34-35 | Once the walk has panicked, the instructions after that point change nothing. |
| `Unrecover.AnalyzeFinishes` | unrecover.go:28-40 | When every `go` site resolves, the walk finishes with exactly the reference diagnostics `Expected`, in instruction order. |
| `Unrecover.AnalyzeFinishesOnlyIfResolved` | unrecover.go:34-35 | The walk finishes if and only if every `go` site's callee resolves. |
| `Unrecover.UnresolvedGoPanics` | unrecover.go:34-35 | At the first `go` site whose callee is nil, the walk panics at that site's position. It has already reported exactly the diagnostics expected of the instructions before the site. The site is not skipped. |
| `Unrecover.AnalyzeIgnoresNonGo` | unrecover.go:29-32 | Removing every non-`go` instruction leaves the outcome unchanged. Non-`go` instructions neither report nor stop the walk. |
| `Unrecover.ExpectedNoSpawn` | unrecover.go:29-32 | A run of instructions with no `go` instruction yields no diagnostic. |
| `Unrecover.ExpectedMembership` | unrecover.go:35-37 | A diagnostic is produced if and only if it carries the fixed message and sits at the position of a `go` instruction. That instruction's callee must resolve, have at least one block, and have no recover block. |
| `Unrecover.ExpectedAtMostOnePerGo` | unrecover.go:34-39 | There are never more diagnostics than `go` instructions. |
| `Unrecover.RunGuarded` | unrecover.go:34-37 | The walk with a nil check on the lookup skips unresolved sites. It returns exactly the reference diagnostics `Expected`. |
| `Unrecover.GuardedAgrees` | unrecover.go:34-37 | Whenever the walk as written finishes, the guarded walk reports the same diagnostics. |
| `Fixture.SitesReported` | testdata/src/a/a.go:3-26 | All four spawn sites of `f` resolve. With the recover-block bit the test expects, exactly the spawns at lines 4, 18 and 23 yield a diagnostic. With the bit set as the SSA builder sets it, only lines 4 and 18 do. |
| `Fixture.FixtureReports` | testdata/src/a/a.go:3-26 | The whole fixture finishes with diagnostics at lines 4, 18 and 23 only. The calls and defers inside the spawned bodies add nothing. |
| `Fixture.BuilderOmitsLine23` | testdata/src/a/a.go:23-25 | If `f$4` gets a recover block, because its body has a `defer`, the whole fixture finishes with diagnostics at lines 4 and 18 only. The expected report at line 23 is then missing. |
| `Fixture.UnresolvedSpawnCrashes` | unrecover.go:34-35 | Add a spawn site of `f` with no call-graph edge after its four other spawn sites. The pass then panics there, where a guarded check would skip the site and keep the three diagnostics. |

## Left out

- Call-graph construction (`vta.CallGraph` over `ssautil.AllFunctions`, seeded by `cha.CallGraph`, line 27) is library code. The graph is an input.
- How the SSA builder splits bodies into blocks and when it sets `Function.Recover` (line 35) is library behaviour. Both are plain input fields.
- The fixture's expectation at testdata/src/a/a.go:23 is not reproduced under the SSA builder's rule. The builder gives a recover block to every body with a `defer`, so `f$4` has one, and line 35 as written would not report line 23. `Fixture.FixtureReports` reports line 23 only because its input leaves that bit unset, as the test's expectations need. `Fixture.BuilderOmitsLine23` shows the outcome with the bit set as the builder sets it.
- `analysisutil.InspectFuncs` (line 28) is modelled only as "every instruction of every source function, in sequence". The order of functions and blocks is an input.
- `WellFormed`: every edge's callee node is taken to carry a function. The root node of a call graph, whose function is nil, is never an edge's callee.
- Pointer identity of instructions and functions is modelled as equality of numeric ids.
- The analyzer registration, its `Requires` list and its doc string (lines 14-23) are not part of this model.
- `pass.Reportf` formatting and output are not modelled. Reporting only appends a `(position, message)` pair.
- A Go panic is modelled as the `Panicked` outcome. How the analysis driver reacts to it is not modelled.
- Fault-capability inference, fact propagation across packages and detection of recovery delegated to helper functions do not appear in `unrecover.go`. They are not modelled. The reporting rule here is only "has blocks and no recover block".

## Findings

| source | as written | input that shows it | evidently intended | confidence | as-written member | corrected member |
|---|---|---|---|---|---|---|
| unrecover.go:34-35 | `f.Blocks` is read from `callee`'s result without a nil check, although `callee` returns nil at lines 46-48 and 56 | a `go` site whose caller has no call-graph node, or no out-edge for that site (`Fixture.Stray`) | skip a spawn site whose callee cannot be resolved | medium, not executed | `Unrecover.UnresolvedGoPanics` | `Unrecover.RunGuarded` |
