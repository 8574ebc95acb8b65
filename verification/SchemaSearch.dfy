/**
 The closure of root references over the component schemas: a depth-first search with three
 colours (absent, visiting, visited) over a graph that may have cycles and missing nodes.
 `VisitName` and `VisitNames` say what the search does; class `Search` is the search itself,
 which updates its state in place.
 */
module SchemaSearch {
  import opened Text
  import opened References

  datatype VisitState = Visiting | Visited

  /** What the search has built so far; `log` lists every warning raised, repeated ones included. */
  datatype Progress = Progress(states: map<string, VisitState>, reachable: map<string, Json>, log: seq<Warning>)

  /** A component schema with what schemaReferences finds in it. */
  datatype Component = Component(definition: Json, refs: seq<string>, refWarnings: seq<Warning>)

  type Schemas = map<string, Component>

  function ComponentOf(definition: Json): Component {
    var (refs, refWarnings) := SchemaReferences(definition);
    Component(definition, refs, refWarnings)
  }

  function Components(definitions: map<string, Json>): Schemas {
    map name | name in definitions :: ComponentOf(definitions[name])
  }

  /** References found in a schema can only be reported as non-local. */
  ghost predicate OnlyNonLocal(schemas: Schemas) {
    forall n, w :: n in schemas && w in schemas[n].refWarnings ==> w.NonLocal?
  }

  lemma ComponentsAreOnlyNonLocal(definitions: map<string, Json>)
    ensures OnlyNonLocal(Components(definitions))
  {
    forall n, w | n in definitions && w in ComponentOf(definitions[n]).refWarnings
      ensures w.NonLocal?
    {
      SchemaReferencesMeaning(definitions[n], "", w);
    }
  }

  function VisitName(schemas: Schemas, name: string, p: Progress): (r: Progress)
    ensures p.states.Keys <= r.states.Keys
    decreases schemas.Keys - p.states.Keys, 0
  {
    if name in p.states then
      if p.states[name].Visiting? then p.(log := p.log + [Cyclic(name)]) else p
    else if name !in schemas then
      p.(log := p.log + [NotFound(name)])
    else
      var entered := Enter(schemas, name, p);
      assert name in schemas.Keys - p.states.Keys && entered.states.Keys == p.states.Keys + {name};
      var done := VisitNames(schemas, schemas[name].refs, entered);
      done.(states := done.states[name := Visited])
  }

  function Enter(schemas: Schemas, name: string, p: Progress): Progress
    requires name in schemas
  {
    Progress(p.states[name := Visiting], p.reachable[name := schemas[name].definition], p.log + schemas[name].refWarnings)
  }

  function VisitNames(schemas: Schemas, names: seq<string>, p: Progress): (r: Progress)
    ensures p.states.Keys <= r.states.Keys
    decreases schemas.Keys - p.states.Keys, 1 + |names|
  {
    if names == [] then p
    else
      var next := VisitName(schemas, names[0], p);
      assert schemas.Keys - next.states.Keys <= schemas.Keys - p.states.Keys;
      VisitNames(schemas, names[1..], next)
  }

  // ----- The reference graph -----

  /** A walk follows references; only its last node may be undefined. */
  ghost predicate IsWalk(schemas: Schemas, walk: seq<string>) {
    walk != [] && forall i :: 0 <= i < |walk| - 1 ==> IsEdge(schemas, walk[i], walk[i + 1])
  }

  ghost predicate IsEdge(schemas: Schemas, a: string, b: string) {
    a in schemas && b in schemas[a].refs
  }

  ghost predicate Reachable(schemas: Schemas, root: Component, name: string) {
    exists walk :: IsWalk(schemas, walk) && walk[0] in root.refs && walk[|walk| - 1] == name
  }

  ghost predicate IsCycle(schemas: Schemas, walk: seq<string>) {
    IsWalk(schemas, walk) && |walk| > 1 && walk[0] == walk[|walk| - 1]
  }

  ghost predicate OnCycle(schemas: Schemas, name: string) {
    exists cycle :: IsCycle(schemas, cycle) && cycle[0] == name
  }

  /** One of the nodes is reported as cyclic. */
  ghost predicate IsMarked(walk: seq<string>, warnings: seq<Warning>) {
    exists i :: 0 <= i < |walk| && Cyclic(walk[i]) in warnings
  }

  /** No cycle that can be reached from the root goes unreported. */
  ghost predicate CyclesAreMarked(schemas: Schemas, root: Component, warnings: seq<Warning>) {
    forall cycle :: IsCycle(schemas, cycle) && Reachable(schemas, root, cycle[0]) ==> IsMarked(cycle, warnings)
  }

  lemma ReachableStep(schemas: Schemas, root: Component, a: string, b: string)
    requires Reachable(schemas, root, a) && IsEdge(schemas, a, b)
    ensures Reachable(schemas, root, b)
  {
    var walk :| IsWalk(schemas, walk) && walk[0] in root.refs && walk[|walk| - 1] == a;
    assert IsWalk(schemas, walk + [b]);
  }

  // ----- The invariant of the search -----

  /** The open nodes are a walk, and nothing else is open. */
  ghost predicate StackMatches(schemas: Schemas, stack: seq<string>, p: Progress) {
    && (stack != [] ==> IsWalk(schemas, stack))
    && (forall n :: n in p.states && p.states[n].Visiting? ==> n in stack)
    && (forall n :: n in stack ==> n in p.states && p.states[n].Visiting?)
  }

  /** A non-local reference was found in the root or in a schema that was entered. */
  ghost predicate Raised(schemas: Schemas, root: Component, p: Progress, w: Warning) {
    w in root.refWarnings || exists n :: n in p.states && n in schemas && w in schemas[n].refWarnings
  }

  /** What was found is defined, reachable and kept with its definition; what was reported is true. */
  ghost predicate Sound(schemas: Schemas, root: Component, p: Progress) {
    && p.states.Keys == p.reachable.Keys
    && (forall n :: n in p.states ==> n in schemas && p.reachable[n] == schemas[n].definition && Reachable(schemas, root, n))
    && (forall w :: w in p.log && w.NonLocal? ==> Raised(schemas, root, p, w))
    && (forall n :: NotFound(n) in p.log ==> n !in schemas && Reachable(schemas, root, n))
    && (forall n :: Cyclic(n) in p.log ==> n in p.states && Reachable(schemas, root, n) && OnCycle(schemas, n))
  }

  ghost predicate Handled(schemas: Schemas, name: string, p: Progress) {
    if name in schemas then name in p.states else NotFound(name) in p.log
  }

  ghost predicate RefsHandled(schemas: Schemas, name: string, p: Progress) {
    name in schemas && forall d :: d in schemas[name].refs ==> Handled(schemas, d, p)
  }

  ghost predicate WarningsKept(schemas: Schemas, name: string, p: Progress) {
    name in schemas && forall w :: w in schemas[name].refWarnings ==> w in p.log
  }

  /** Everything a visited schema mentions has been dealt with. */
  ghost predicate Complete(schemas: Schemas, p: Progress) {
    forall n :: n in p.states ==> (p.states[n].Visited? ==> RefsHandled(schemas, n, p)) && WarningsKept(schemas, n, p)
  }

  ghost predicate IsVisited(p: Progress, name: string) {
    name in p.states && p.states[name].Visited?
  }

  /** Nothing more is to be found below the schema, or the cycle through it is reported. */
  ghost predicate Settled(schemas: Schemas, name: string, p: Progress) {
    name in schemas ==> IsVisited(p, name) || Cyclic(name) in p.log
  }

  ghost predicate RefsSettled(schemas: Schemas, name: string, p: Progress) {
    forall d :: IsEdge(schemas, name, d) ==> Settled(schemas, d, p)
  }

  ghost predicate CyclesThroughAreMarked(schemas: Schemas, name: string, p: Progress) {
    forall cycle :: IsCycle(schemas, cycle) && cycle[0] == name ==> IsMarked(cycle, p.log)
  }

  /** The visited schemas are closed, and cut by reports wherever they would form a cycle. */
  ghost predicate CutAtCycles(schemas: Schemas, p: Progress) {
    forall n :: IsVisited(p, n) ==> RefsSettled(schemas, n, p) && CyclesThroughAreMarked(schemas, n, p)
  }

  ghost predicate Invariant(schemas: Schemas, root: Component, stack: seq<string>, p: Progress) {
    StackMatches(schemas, stack, p) && Sound(schemas, root, p) && Complete(schemas, p) && CutAtCycles(schemas, p)
  }

  /** What the search may be asked to visit: root, or dependencies of the innermost open schema. */
  ghost predicate Wanted(schemas: Schemas, root: Component, stack: seq<string>, name: string) {
    if stack == [] then name in root.refs else IsEdge(schemas, stack[|stack| - 1], name)
  }

  /** Later progress extends earlier progress. */
  ghost predicate Extends(later: Progress, earlier: Progress) {
    && earlier.states.Keys <= later.states.Keys
    && (forall n :: n in earlier.states && earlier.states[n].Visited? ==> later.states[n].Visited?)
    && (forall w :: w in earlier.log ==> w in later.log)
  }

  ghost predicate Finished(schemas: Schemas, name: string, p: Progress) {
    Handled(schemas, name, p) && Settled(schemas, name, p)
  }

  // ----- The search keeps the invariant -----

  lemma WantedIsReachable(schemas: Schemas, root: Component, stack: seq<string>, name: string, p: Progress)
    requires StackMatches(schemas, stack, p) && Sound(schemas, root, p)
    requires Wanted(schemas, root, stack, name)
    ensures Reachable(schemas, root, name)
  {
    if stack == [] {
      assert IsWalk(schemas, [name]);
    } else {
      var top := stack[|stack| - 1];
      assert top in stack;
      ReachableStep(schemas, root, top, name);
    }
  }

  lemma CycleFromStack(schemas: Schemas, stack: seq<string>, k: nat)
    requires k < |stack| && IsWalk(schemas, stack) && IsEdge(schemas, stack[|stack| - 1], stack[k])
    ensures IsCycle(schemas, stack[k..] + [stack[k]])
  {
    var walk := stack[k..] + [stack[k]];
    forall i | 0 <= i < |walk| - 1
      ensures IsEdge(schemas, walk[i], walk[i + 1])
    {
      if i < |walk| - 2 {
        assert walk[i] == stack[k + i] && walk[i + 1] == stack[k + i + 1];
        assert IsEdge(schemas, stack[k + i], stack[k + i + 1]);
      }
    }
  }

  /** A reference back into the stack closes a cycle. */
  lemma BackEdgeClosesCycle(schemas: Schemas, stack: seq<string>, name: string)
    requires stack != [] && IsWalk(schemas, stack) && name in stack
    requires IsEdge(schemas, stack[|stack| - 1], name)
    ensures OnCycle(schemas, name)
  {
    var i :| 0 <= i < |stack| && stack[i] == name;
    CycleFromStack(schemas, stack, i);
  }

  /** An unreported walk from a visited schema meets visited schemas only, while it stays defined. */
  lemma {:induction false} UnmarkedWalkIsVisited(schemas: Schemas, p: Progress, walk: seq<string>, i: nat)
    requires CutAtCycles(schemas, p)
    requires IsWalk(schemas, walk) && i < |walk| && IsVisited(p, walk[0])
    requires !IsMarked(walk, p.log) && walk[|walk| - 1] in schemas
    ensures IsVisited(p, walk[i])
  {
    if i > 0 {
      UnmarkedWalkIsVisited(schemas, p, walk, i - 1);
      assert IsEdge(schemas, walk[i - 1], walk[i]);
      assert RefsSettled(schemas, walk[i - 1], p);
      if i < |walk| - 1 {
        assert IsEdge(schemas, walk[i], walk[i + 1]);
      }
    }
  }

  /** A schema that is still open is on no unreported cycle, once its references are settled. */
  lemma OpenSchemaIsOnMarkedCycles(schemas: Schemas, p: Progress, name: string)
    requires CutAtCycles(schemas, p) && RefsSettled(schemas, name, p)
    requires name in schemas && !IsVisited(p, name)
    ensures CyclesThroughAreMarked(schemas, name, p)
  {
    forall cycle | IsCycle(schemas, cycle) && cycle[0] == name
      ensures IsMarked(cycle, p.log)
    {
      if !IsMarked(cycle, p.log) {
        var rest := cycle[1..];
        RestOfWalk(schemas, cycle, p.log);
        assert IsEdge(schemas, cycle[0], cycle[1]);
        if |cycle| > 2 {
          assert IsEdge(schemas, cycle[1], cycle[2]);
        }
        UnmarkedWalkIsVisited(schemas, p, rest, |rest| - 1);
      }
    }
  }

  lemma RestOfWalk(schemas: Schemas, walk: seq<string>, warnings: seq<Warning>)
    requires IsWalk(schemas, walk) && |walk| > 1
    ensures IsWalk(schemas, walk[1..])
    ensures IsMarked(walk[1..], warnings) ==> IsMarked(walk, warnings)
  {
    var rest := walk[1..];
    if i :| 0 <= i < |rest| && Cyclic(rest[i]) in warnings {
      assert Cyclic(walk[i + 1]) in warnings;
    }
    assert forall k :: 0 <= k < |rest| - 1 ==> rest[k] == walk[k + 1] && IsEdge(schemas, walk[k + 1], walk[k + 1 + 1]);
  }

  lemma FinishedStays(schemas: Schemas, name: string, p: Progress, r: Progress)
    requires Extends(r, p) && Finished(schemas, name, p)
    ensures Finished(schemas, name, r)
  {
  }

  lemma {:induction false} VisitNamesKeepsInvariant(
    schemas: Schemas, root: Component, stack: seq<string>, names: seq<string>, p: Progress)
    requires OnlyNonLocal(schemas) && Invariant(schemas, root, stack, p)
    requires forall n :: n in names ==> Wanted(schemas, root, stack, n)
    ensures
      var r := VisitNames(schemas, names, p);
      && Invariant(schemas, root, stack, r)
      && Extends(r, p)
      && forall n :: n in names ==> Finished(schemas, n, r)
    decreases schemas.Keys - p.states.Keys, 1 + |names|
  {
    if names != [] {
      var next := VisitName(schemas, names[0], p);
      VisitNameKeepsInvariant(schemas, root, stack, names[0], p);
      assert schemas.Keys - next.states.Keys <= schemas.Keys - p.states.Keys;
      VisitNamesKeepsInvariant(schemas, root, stack, names[1..], next);
      FinishedStays(schemas, names[0], next, VisitNames(schemas, names[1..], next));
      assert forall n :: n in names ==> n == names[0] || n in names[1..];
    }
  }

  lemma {:induction false} VisitNameKeepsInvariant(
    schemas: Schemas, root: Component, stack: seq<string>, name: string, p: Progress)
    requires OnlyNonLocal(schemas) && Invariant(schemas, root, stack, p)
    requires Wanted(schemas, root, stack, name)
    ensures
      var r := VisitName(schemas, name, p);
      Invariant(schemas, root, stack, r) && Extends(r, p) && Finished(schemas, name, r)
    decreases schemas.Keys - p.states.Keys, 0
  {
    WantedIsReachable(schemas, root, stack, name, p);
    if name in p.states {
      if p.states[name].Visiting? {
        ReportCycle(schemas, root, stack, name, p);
      }
    } else if name !in schemas {
      ReportMissing(schemas, root, stack, name, p);
    } else {
      var entered := Enter(schemas, name, p);
      EnterKeepsInvariant(schemas, root, stack, name, p);
      VisitNamesKeepsInvariant(schemas, root, stack + [name], schemas[name].refs, entered);
      var done := VisitNames(schemas, schemas[name].refs, entered);
      LeaveKeepsInvariant(schemas, root, stack, name, done);
    }
  }

  /** Progress stays complete if whatever is new in it is complete. */
  lemma CompleteGrows(schemas: Schemas, p: Progress, r: Progress)
    requires Complete(schemas, p) && Extends(r, p)
    requires forall n :: n in r.states && r.states[n].Visited? && (n in p.states ==> p.states[n].Visiting?) ==>
      RefsHandled(schemas, n, r)
    requires forall n :: n in r.states && n !in p.states ==> WarningsKept(schemas, n, r)
    ensures Complete(schemas, r)
  {
    forall n | n in r.states
      ensures (r.states[n].Visited? ==> RefsHandled(schemas, n, r)) && WarningsKept(schemas, n, r)
    {
      if n in p.states {
        assert WarningsKept(schemas, n, p);
        if p.states[n].Visited? {
          assert RefsHandled(schemas, n, p);
          assert forall d :: d in schemas[n].refs ==> Handled(schemas, d, p);
        }
      }
    }
  }

  /** What is settled stays settled, and reports are never taken back. */
  lemma CutGrows(schemas: Schemas, p: Progress, r: Progress)
    requires CutAtCycles(schemas, p) && Extends(r, p)
    requires forall n :: IsVisited(r, n) && !IsVisited(p, n) ==>
      RefsSettled(schemas, n, p) && CyclesThroughAreMarked(schemas, n, p)
    ensures CutAtCycles(schemas, r)
  {
    forall n | IsVisited(r, n)
      ensures RefsSettled(schemas, n, r) && CyclesThroughAreMarked(schemas, n, r)
    {
      assert RefsSettled(schemas, n, p) && CyclesThroughAreMarked(schemas, n, p);
      forall cycle | IsCycle(schemas, cycle) && cycle[0] == n
        ensures IsMarked(cycle, r.log)
      {
        var i :| 0 <= i < |cycle| && Cyclic(cycle[i]) in p.log;
        assert Cyclic(cycle[i]) in r.log;
      }
    }
  }

  lemma ReportCycle(schemas: Schemas, root: Component, stack: seq<string>, name: string, p: Progress)
    requires Invariant(schemas, root, stack, p)
    requires Wanted(schemas, root, stack, name) && Reachable(schemas, root, name)
    requires name in p.states && p.states[name].Visiting?
    ensures
      var r := p.(log := p.log + [Cyclic(name)]);
      Invariant(schemas, root, stack, r) && Extends(r, p) && Finished(schemas, name, r)
  {
    var r := p.(log := p.log + [Cyclic(name)]);
    BackEdgeClosesCycle(schemas, stack, name);
    assert Cyclic(name) in r.log;
    CompleteGrows(schemas, p, r);
    CutGrows(schemas, p, r);
  }

  lemma ReportMissing(schemas: Schemas, root: Component, stack: seq<string>, name: string, p: Progress)
    requires Invariant(schemas, root, stack, p)
    requires Reachable(schemas, root, name) && name !in schemas
    ensures
      var r := p.(log := p.log + [NotFound(name)]);
      Invariant(schemas, root, stack, r) && Extends(r, p) && Finished(schemas, name, r)
  {
    var r := p.(log := p.log + [NotFound(name)]);
    CompleteGrows(schemas, p, r);
    CutGrows(schemas, p, r);
  }

  lemma EnterKeepsInvariant(schemas: Schemas, root: Component, stack: seq<string>, name: string, p: Progress)
    requires OnlyNonLocal(schemas) && Invariant(schemas, root, stack, p)
    requires Wanted(schemas, root, stack, name) && Reachable(schemas, root, name)
    requires name in schemas && name !in p.states
    ensures
      var entered := Enter(schemas, name, p);
      && Invariant(schemas, root, stack + [name], entered)
      && Extends(entered, p)
      && forall d :: d in schemas[name].refs ==> Wanted(schemas, root, stack + [name], d)
  {
    var entered := Enter(schemas, name, p);
    StackGrows(schemas, stack, name, p);
    assert Extends(entered, p);
    CompleteGrows(schemas, p, entered);
    EnterKeepsSound(schemas, root, name, p);
    CutGrows(schemas, p, entered);
  }

  lemma EnterKeepsSound(schemas: Schemas, root: Component, name: string, p: Progress)
    requires OnlyNonLocal(schemas) && Sound(schemas, root, p)
    requires name in schemas && name !in p.states && Reachable(schemas, root, name)
    ensures Sound(schemas, root, Enter(schemas, name, p))
  {
    var entered := Enter(schemas, name, p);
    forall w | w in entered.log
      ensures w in p.log || w.NonLocal?
      ensures w.NonLocal? ==> Raised(schemas, root, entered, w)
    {
      if w in p.log && w.NonLocal? {
        assert Raised(schemas, root, p, w);
      } else if w !in p.log {
        assert w in schemas[name].refWarnings;
      }
    }
  }

  lemma StackGrows(schemas: Schemas, stack: seq<string>, name: string, p: Progress)
    requires StackMatches(schemas, stack, p)
    requires stack != [] ==> IsEdge(schemas, stack[|stack| - 1], name)
    requires name in schemas && name !in p.states
    ensures StackMatches(schemas, stack + [name], Enter(schemas, name, p))
  {
    var grown := stack + [name];
    forall i | 0 <= i < |grown| - 1
      ensures IsEdge(schemas, grown[i], grown[i + 1])
    {
      if i < |stack| - 1 {
        assert IsEdge(schemas, stack[i], stack[i + 1]);
      }
    }
    forall n
      ensures n in grown <==> n in stack || n == name
    {
    }
  }

  lemma LeaveKeepsInvariant(schemas: Schemas, root: Component, stack: seq<string>, name: string, done: Progress)
    requires Invariant(schemas, root, stack + [name], done)
    requires name in schemas && name !in stack
    requires forall d :: d in schemas[name].refs ==> Finished(schemas, d, done)
    ensures
      var r := done.(states := done.states[name := Visited]);
      Invariant(schemas, root, stack, r) && Extends(r, done) && Finished(schemas, name, r)
  {
    var r := done.(states := done.states[name := Visited]);
    assert name in stack + [name];
    LeaveKeepsSound(schemas, root, name, done);
    assert Complete(schemas, r) by {
      assert RefsHandled(schemas, name, r);
      CompleteGrows(schemas, done, r);
    }
    StackShrinks(schemas, stack, name, done);
    assert RefsSettled(schemas, name, done);
    OpenSchemaIsOnMarkedCycles(schemas, done, name);
    CutGrows(schemas, done, r);
  }

  lemma LeaveKeepsSound(schemas: Schemas, root: Component, name: string, done: Progress)
    requires Sound(schemas, root, done) && name in done.states
    ensures Sound(schemas, root, done.(states := done.states[name := Visited]))
  {
    var r := done.(states := done.states[name := Visited]);
    assert r.states.Keys == done.states.Keys;
    forall w | w in r.log && w.NonLocal?
      ensures Raised(schemas, root, r, w)
    {
      assert Raised(schemas, root, done, w);
    }
  }

  lemma StackShrinks(schemas: Schemas, stack: seq<string>, name: string, done: Progress)
    requires StackMatches(schemas, stack + [name], done) && name !in stack
    ensures StackMatches(schemas, stack, done.(states := done.states[name := Visited]))
  {
    var grown := stack + [name];
    forall i | 0 <= i < |stack| - 1
      ensures IsEdge(schemas, stack[i], stack[i + 1])
    {
      assert IsEdge(schemas, grown[i], grown[i + 1]);
    }
    forall n
      ensures n in grown <==> n in stack || n == name
    {
    }
  }

  // ----- Which schemas are reported as cyclic -----

  /** A cycle through the schema that meets no schema entered before. */
  ghost predicate IsUnenteredCycle(schemas: Schemas, cycle: seq<string>, name: string, entered: set<string>) {
    IsCycle(schemas, cycle) && cycle[0] == name && forall i :: 0 <= i < |cycle| ==> cycle[i] !in entered
  }

  ghost predicate HasUnenteredCycle(schemas: Schemas, name: string, entered: set<string>) {
    exists cycle :: IsUnenteredCycle(schemas, cycle, name, entered)
  }

  /** While the schema is open, everything else on such a cycle is entered and left again. */
  lemma {:induction false} UnenteredCycleIsVisited(
    schemas: Schemas, stack: seq<string>, p: Progress, name: string, done: Progress, cycle: seq<string>, i: nat)
    requires StackMatches(schemas, stack, p) && StackMatches(schemas, stack + [name], done) && Complete(schemas, done)
    requires RefsHandled(schemas, name, done)
    requires IsUnenteredCycle(schemas, cycle, name, p.states.Keys) && i < |cycle|
    ensures cycle[i] == name || IsVisited(done, cycle[i])
  {
    if i > 0 {
      UnenteredCycleIsVisited(schemas, stack, p, name, done, cycle, i - 1);
      assert IsEdge(schemas, cycle[i - 1], cycle[i]);
      assert cycle[i - 1] != name ==> RefsHandled(schemas, cycle[i - 1], done);
      if i < |cycle| - 1 {
        assert IsEdge(schemas, cycle[i], cycle[i + 1]);
      }
      assert cycle[i] in done.states;
      assert cycle[i] !in stack;
    }
  }

  lemma UnenteredCycleIsReported(
    schemas: Schemas, stack: seq<string>, p: Progress, name: string, done: Progress, cycle: seq<string>)
    requires StackMatches(schemas, stack, p) && StackMatches(schemas, stack + [name], done)
    requires Complete(schemas, done) && CutAtCycles(schemas, done)
    requires RefsHandled(schemas, name, done) && RefsSettled(schemas, name, done)
    requires IsUnenteredCycle(schemas, cycle, name, p.states.Keys)
    ensures Cyclic(name) in done.log
  {
    var last := cycle[|cycle| - 2];
    UnenteredCycleIsVisited(schemas, stack, p, name, done, cycle, |cycle| - 2);
    assert IsEdge(schemas, cycle[|cycle| - 2], cycle[|cycle| - 2 + 1]);
    assert name in stack + [name];
    assert last != name ==> RefsSettled(schemas, last, done);
    assert Settled(schemas, name, done);
  }

  /** What is open above the schema was entered after it, so a report of the schema closes a cycle of such schemas. */
  lemma {:induction false} ReportClosesUnenteredCycle(
    schemas: Schemas, root: Component, stack: seq<string>, name: string, p: Progress, k: nat, before: set<string>)
    requires OnlyNonLocal(schemas) && Invariant(schemas, root, stack, p) && Wanted(schemas, root, stack, name)
    requires k < |stack| && before <= p.states.Keys && forall i :: k <= i < |stack| ==> stack[i] !in before
    requires Cyclic(stack[k]) in VisitName(schemas, name, p).log && Cyclic(stack[k]) !in p.log
    ensures HasUnenteredCycle(schemas, stack[k], before)
    decreases schemas.Keys - p.states.Keys, 0
  {
    if name in p.states {
      assert name == stack[k];
      UnenteredStackClosesCycle(schemas, stack, k, before);
    } else {
      assert name in schemas;
      EnterIsNoReport(schemas, name, p, stack[k]);
      WantedIsReachable(schemas, root, stack, name, p);
      EnterKeepsInvariant(schemas, root, stack, name, p);
      var entered, grown := Enter(schemas, name, p), stack + [name];
      assert grown[k] == stack[k] && forall i :: k <= i < |grown| ==> grown[i] == name || grown[i] == stack[i];
      ReportsCloseUnenteredCycle(schemas, root, grown, schemas[name].refs, entered, k, before);
    }
  }

  lemma UnenteredStackClosesCycle(schemas: Schemas, stack: seq<string>, k: nat, before: set<string>)
    requires k < |stack| && IsWalk(schemas, stack) && IsEdge(schemas, stack[|stack| - 1], stack[k])
    requires forall i :: k <= i < |stack| ==> stack[i] !in before
    ensures HasUnenteredCycle(schemas, stack[k], before)
  {
    CycleFromStack(schemas, stack, k);
    assert IsUnenteredCycle(schemas, stack[k..] + [stack[k]], stack[k], before);
  }

  lemma EnterIsNoReport(schemas: Schemas, name: string, p: Progress, other: string)
    requires OnlyNonLocal(schemas) && name in schemas && name !in p.states
    ensures Cyclic(other) in Enter(schemas, name, p).log <==> Cyclic(other) in p.log
    ensures schemas.Keys - Enter(schemas, name, p).states.Keys < schemas.Keys - p.states.Keys
  {
    assert Enter(schemas, name, p).states.Keys == p.states.Keys + {name};
    assert name in schemas.Keys - p.states.Keys;
    forall w | w in schemas[name].refWarnings
      ensures w != Cyclic(other)
    {
      assert w.NonLocal?;
    }
  }

  lemma {:induction false} ReportsCloseUnenteredCycle(
    schemas: Schemas, root: Component, stack: seq<string>, names: seq<string>, p: Progress, k: nat, before: set<string>)
    requires OnlyNonLocal(schemas) && Invariant(schemas, root, stack, p)
    requires forall n :: n in names ==> Wanted(schemas, root, stack, n)
    requires k < |stack| && before <= p.states.Keys && forall i :: k <= i < |stack| ==> stack[i] !in before
    requires Cyclic(stack[k]) in VisitNames(schemas, names, p).log && Cyclic(stack[k]) !in p.log
    ensures HasUnenteredCycle(schemas, stack[k], before)
    decreases schemas.Keys - p.states.Keys, 1 + |names|
  {
    var next := VisitName(schemas, names[0], p);
    VisitNameKeepsInvariant(schemas, root, stack, names[0], p);
    if Cyclic(stack[k]) in next.log {
      ReportClosesUnenteredCycle(schemas, root, stack, names[0], p, k, before);
    } else {
      assert schemas.Keys - next.states.Keys <= schemas.Keys - p.states.Keys;
      ReportsCloseUnenteredCycle(schemas, root, stack, names[1..], next, k, before);
    }
  }

  /** What the visit of a schema comes to just before it leaves it. */
  lemma VisitBeforeLeaving(
    schemas: Schemas, root: Component, stack: seq<string>, name: string, p: Progress) returns (done: Progress)
    requires OnlyNonLocal(schemas) && Invariant(schemas, root, stack, p) && Wanted(schemas, root, stack, name)
    requires name in schemas && name !in p.states
    ensures done == VisitNames(schemas, schemas[name].refs, Enter(schemas, name, p))
    ensures done.log == VisitName(schemas, name, p).log
    ensures Invariant(schemas, root, stack + [name], done) && RefsHandled(schemas, name, done) && RefsSettled(schemas, name, done)
    ensures Cyclic(name) !in Enter(schemas, name, p).log
    ensures Invariant(schemas, root, stack + [name], Enter(schemas, name, p))
    ensures forall d :: d in schemas[name].refs ==> Wanted(schemas, root, stack + [name], d)
  {
    WantedIsReachable(schemas, root, stack, name, p);
    EnterKeepsInvariant(schemas, root, stack, name, p);
    EnterIsNoReport(schemas, name, p, name);
    VisitNamesKeepsInvariant(schemas, root, stack + [name], schemas[name].refs, Enter(schemas, name, p));
    done := VisitNames(schemas, schemas[name].refs, Enter(schemas, name, p));
    assert forall d :: d in schemas[name].refs ==> Finished(schemas, d, done);
  }

  /** A visit that enters a schema reports it as cyclic exactly if a cycle through it meets no schema entered before. */
  lemma CyclicIffUnenteredCycle(schemas: Schemas, root: Component, stack: seq<string>, name: string, p: Progress)
    requires OnlyNonLocal(schemas) && Invariant(schemas, root, stack, p) && Wanted(schemas, root, stack, name)
    requires name in schemas && name !in p.states
    ensures Cyclic(name) in VisitName(schemas, name, p).log <==> HasUnenteredCycle(schemas, name, p.states.Keys)
  {
    var grown := stack + [name];
    var done := VisitBeforeLeaving(schemas, root, stack, name, p);
    if cycle :| IsUnenteredCycle(schemas, cycle, name, p.states.Keys) {
      UnenteredCycleIsReported(schemas, stack, p, name, done, cycle);
    }
    if Cyclic(name) in done.log {
      assert grown[|stack|] == name;
      ReportsCloseUnenteredCycle(
        schemas, root, grown, schemas[name].refs, Enter(schemas, name, p), |stack|, p.states.Keys);
    }
  }

  /** Once a schema is left, it is not reported any more. */
  lemma {:induction false} VisitedIsNotReported(schemas: Schemas, names: seq<string>, p: Progress, name: string)
    requires OnlyNonLocal(schemas) && IsVisited(p, name)
    ensures IsVisited(VisitNames(schemas, names, p), name)
    ensures Cyclic(name) in VisitNames(schemas, names, p).log ==> Cyclic(name) in p.log
    decreases schemas.Keys - p.states.Keys, |names|
  {
    if names != [] {
      var first, next := names[0], VisitName(schemas, names[0], p);
      if first !in p.states && first in schemas {
        EnterIsNoReport(schemas, first, p, name);
        VisitedIsNotReported(schemas, schemas[first].refs, Enter(schemas, first, p), name);
      }
      assert schemas.Keys - next.states.Keys <= schemas.Keys - p.states.Keys;
      VisitedIsNotReported(schemas, names[1..], next, name);
    }
  }

  // ----- What a whole search finds -----

  function Start(root: Component): Progress {
    Progress(map[], map[], root.refWarnings)
  }

  function Close(schemas: Schemas, root: Component): Progress {
    VisitNames(schemas, root.refs, Start(root))
  }

  /** The search from the root keeps exactly the defined schemas reachable from it, with their definitions;
      reports exactly the reachable undefined names as missing; reports a name on every cycle that is reachable,
      and only names that lie on one; and reports exactly the non-local references of the root and of
      the kept schemas. */
  lemma CloseFindsReachable(schemas: Schemas, root: Component, name: string, w: Warning)
    requires OnlyNonLocal(schemas) && forall v :: v in root.refWarnings ==> v.NonLocal?
    ensures
      var r := Close(schemas, root);
      && (name in r.reachable <==> name in schemas && Reachable(schemas, root, name))
      && (name in r.reachable ==> r.reachable[name] == schemas[name].definition)
      && (NotFound(name) in r.log <==> name !in schemas && Reachable(schemas, root, name))
      && (Cyclic(name) in r.log ==> Reachable(schemas, root, name) && OnCycle(schemas, name))
      && CyclesAreMarked(schemas, root, r.log)
      && (w.NonLocal? ==> (w in r.log <==>
            w in root.refWarnings || exists n :: n in r.reachable && n in schemas && w in schemas[n].refWarnings))
  {
    var start, r := Start(root), Close(schemas, root);
    assert Invariant(schemas, root, [], start);
    VisitNamesKeepsInvariant(schemas, root, [], root.refs, start);
    if Reachable(schemas, root, name) {
      var walk :| IsWalk(schemas, walk) && walk[0] in root.refs && walk[|walk| - 1] == name;
      WalkIsHandled(schemas, root, walk, |walk| - 1, r);
    }
    forall cycle | IsCycle(schemas, cycle) && Reachable(schemas, root, cycle[0])
      ensures IsMarked(cycle, r.log)
    {
      var walk :| IsWalk(schemas, walk) && walk[0] in root.refs && walk[|walk| - 1] == cycle[0];
      WalkIsHandled(schemas, root, walk, |walk| - 1, r);
      assert IsEdge(schemas, cycle[0], cycle[1]);
      assert IsVisited(r, cycle[0]);
    }
    if w.NonLocal? && w in r.log {
      assert Raised(schemas, root, r, w);
    }
    if n :| n in r.reachable && n in schemas && w in schemas[n].refWarnings {
      assert WarningsKept(schemas, n, r);
    }
  }

  lemma {:induction false} WalkIsHandled(schemas: Schemas, root: Component, walk: seq<string>, i: nat, r: Progress)
    requires Complete(schemas, r) && StackMatches(schemas, [], r)
    requires forall n :: n in root.refs ==> Handled(schemas, n, r)
    requires IsWalk(schemas, walk) && walk[0] in root.refs && i < |walk|
    ensures Handled(schemas, walk[i], r)
  {
    if i > 0 {
      WalkIsHandled(schemas, root, walk, i - 1, r);
      assert IsEdge(schemas, walk[i - 1], walk[i]);
      assert RefsHandled(schemas, walk[i - 1], r);
    }
  }

  // ----- The search as it runs -----

  /** Collects warnings and drops those it has already seen. */
  class WarningCollector {
    var seen: set<Warning>
    var entries: seq<Warning>
    ghost var added: seq<Warning>  // every warning handed in, in order

    ghost predicate Valid()
      reads this
    {
      seen == (set w | w in entries) && entries == FirstSeen(added)
    }

    constructor ()
      ensures Valid() && added == []
    {
      seen, entries, added := {}, [], [];
    }

    method Add(value: Warning)
      requires Valid()
      modifies this
      ensures Valid() && added == old(added) + [value]
    {
      added := added + [value];
      assert added[..|added| - 1] == old(added);
      if value in seen {
        return;
      }
      seen := seen + {value};
      entries := entries + [value];
    }

    method AddAll(values: seq<Warning>)
      requires Valid()
      modifies this
      ensures Valid() && added == old(added) + values
    {
      for i := 0 to |values|
        invariant Valid() && added == old(added) + values[..i]
      {
        Add(values[i]);
      }
    }

    /** Each warning once, in the order of its first occurrence. */
    method Values() returns (r: seq<Warning>)
      requires Valid()
      ensures r == FirstSeen(added) && NoDuplicates(r)
    {
      FirstSeenKeepsFirstOccurrences(added);
      r := entries;
    }
  }

  class Search {
    const schemas: Schemas
    const warnings: WarningCollector
    var states: map<string, VisitState>
    var reachable: map<string, Json>

    ghost predicate Valid()
      reads this, warnings
    {
      warnings.Valid()
    }

    ghost function Current(): Progress
      reads this, warnings
    {
      Progress(states, reachable, warnings.added)
    }

    constructor (schemas: Schemas, warnings: WarningCollector)
      requires warnings.Valid()
      ensures Valid() && this.schemas == schemas && this.warnings == warnings
      ensures Current() == Progress(map[], map[], warnings.added)
    {
      this.schemas, this.warnings := schemas, warnings;
      states, reachable := map[], map[];
    }

    method Visit(name: string)
      requires Valid()
      modifies this, warnings
      ensures Valid() && Current() == VisitName(schemas, name, old(Current()))
      decreases schemas.Keys - states.Keys, 0
    {
      if name in states {
        if states[name].Visiting? {
          warnings.Add(Cyclic(name));
        }
        return;
      }
      if name !in schemas {
        warnings.Add(NotFound(name));
        return;
      }
      assert name in schemas.Keys - states.Keys;
      states := states[name := Visiting];
      var component := schemas[name];
      reachable := reachable[name := component.definition];
      warnings.AddAll(component.refWarnings);
      VisitAll(component.refs);
      states := states[name := Visited];
    }

    method VisitAll(names: seq<string>)
      requires Valid()
      modifies this, warnings
      ensures Valid() && Current() == VisitNames(schemas, names, old(Current()))
      decreases schemas.Keys - states.Keys, 1
    {
      for i := 0 to |names|
        invariant Valid()
        invariant old(states.Keys) <= states.Keys
        invariant VisitNames(schemas, names[i..], Current()) == VisitNames(schemas, names, old(Current()))
      {
        assert schemas.Keys - states.Keys <= schemas.Keys - old(states.Keys);
        assert names[i..] == [names[i]] + names[i + 1..];
        Visit(names[i]);
      }
    }
  }
}
