/** Reference semantics of one Catch test case: a tree of SECTION statements is
  * run again and again, one leaf a cycle, until its tracker is complete.
  *
  * A section is identified by its position in the program (the statement
  * indices on the way down).  A test body may throw: `throws(cycle, path, i)`
  * says whether, in that cycle, the body at `path` throws just before its i-th
  * SECTION statement (i == |body| is "after the last one").
  */
module SectionRuns {

  datatype NameAndLocation = NameAndLocation(name: string, line: nat)

  datatype Section = Section(key: NameAndLocation, body: seq<Section>)

  datatype CycleState =
    | NotStarted | Executing | ExecutingChildren
    | NeedsAnotherRun | CompletedSuccessfully | Failed

  datatype Tracker = Tracker(key: NameAndLocation, state: CycleState, kids: seq<Tracker>)

  type Path = seq<nat>

  type Throws = (nat, Path, nat) -> bool

  /** How a body was left: normally, by its own exception, or by one from a nested section. */
  datatype Exit = Normal | ThrownHere | ThrownBelow

  /** A tracker while its body runs (`done`: the cycle is complete), and the leaf bodies entered. */
  datatype Pass = Pass(state: CycleState, kids: seq<Tracker>, done: bool, exit: Exit, entered: seq<Path>)

  predicate IsComplete(state: CycleState) {
    state == CompletedSuccessfully || state == Failed
  }

  /** The state a tracker has after `close`; only the last child is consulted. */
  function Closed(state: CycleState, kids: seq<Tracker>): CycleState {
    if state == Executing then CompletedSuccessfully
    else if state == ExecutingChildren && (kids == [] || IsComplete(kids[|kids| - 1].state)) then CompletedSuccessfully
    else state
  }

  /** A section's tracker once its body has been left. */
  function Ended(key: NameAndLocation, sub: Pass): Tracker {
    Tracker(key, if sub.exit == ThrownHere then Failed else Closed(sub.state, sub.kids), sub.kids)
  }

  function Acquired(body: seq<Section>, i: nat, kids: seq<Tracker>): seq<Tracker>
    requires i < |body|
  {
    if i < |kids| then kids else kids + [Tracker(body[i].key, NotStarted, [])]
  }

  /** Statement i of a body: acquire its tracker and, unless the cycle or the tracker is complete, run it. */
  function RunStatement(body: seq<Section>, i: nat, path: Path, throws: Throws, cycle: nat,
                        state: CycleState, kids: seq<Tracker>, done: bool): Pass
    requires i < |body| && i <= |kids|
    decreases body, |body| - i, 0
  {
    var kids1 := Acquired(body, i, kids);
    if done || IsComplete(kids1[i].state) then Pass(state, kids1, done, Normal, [])
    else
      var sub := RunBody(body[i].body, 0, path + [i], throws, cycle, Executing, kids1[i].kids, false);
      Pass(if sub.exit == ThrownHere then NeedsAnotherRun else ExecutingChildren,
           kids1[i := Ended(kids1[i].key, sub)], true,
           if sub.exit == Normal then Normal else ThrownBelow,
           if body[i].body == [] then [path + [i]] else sub.entered)
  }

  /** A body from statement i on, under a tracker in `state` with children `kids`. */
  function RunBody(body: seq<Section>, i: nat, path: Path, throws: Throws, cycle: nat,
                   state: CycleState, kids: seq<Tracker>, done: bool): Pass
    requires i <= |body| && i <= |kids|
    decreases body, |body| - i, 1
  {
    if throws(cycle, path, i) then Pass(state, kids, done, ThrownHere, [])
    else if i == |body| then Pass(state, kids, done, Normal, [])
    else
      var first := RunStatement(body, i, path, throws, cycle, state, kids, done);
      if first.exit != Normal then first
      else
        var rest := RunBody(body, i + 1, path, throws, cycle, first.state, first.kids, first.done);
        rest.(entered := first.entered + rest.entered)
  }

  // ---------- what every pass keeps ----------

  predicate DistinctKeys(body: seq<Section>) {
    && (forall i, j :: 0 <= i < j < |body| ==> body[i].key != body[j].key)
    && forall i :: 0 <= i < |body| ==> DistinctKeys(body[i].body)
  }

  /** Between cycles the children of a tracker follow the statements of its
    * body, and nothing behind an incomplete child has been started.
    */
  predicate Shape(body: seq<Section>, kids: seq<Tracker>)
    decreases body
  {
    && |kids| <= |body|
    && (forall i :: 0 <= i < |kids| ==> ShapeOf(body[i], kids[i]))
    && (forall i, j :: 0 <= i < j < |kids| && kids[j].state != NotStarted ==> IsComplete(kids[i].state))
  }

  predicate ShapeOf(s: Section, t: Tracker)
    decreases s
  {
    && t.key == s.key
    && t.state != Executing
    && (t.state == NotStarted ==> t.kids == [])
    && (t.state == ExecutingChildren || t.state == NeedsAnotherRun ==> s.body != [])
    && Shape(s.body, t.kids)
  }

  /** Before statement i: while the cycle is not complete everything so far is,
    * and afterwards nothing that follows has been started.
    */
  ghost predicate Ready(body: seq<Section>, i: nat, kids: seq<Tracker>, done: bool) {
    && Shape(body, kids)
    && i <= |body| && i <= |kids|
    && (!done ==> forall j :: 0 <= j < i ==> IsComplete(kids[j].state))
    && (done ==> forall j :: i <= j < |kids| ==> kids[j].state == NotStarted)
  }

  /** A pass keeps the shape, and completes the cycle exactly when it ended a
    * section; the tracker it leaves can be closed, since its state is neither
    * NotStarted nor complete when it was Executing.
    */
  ghost predicate GoodPass(body: seq<Section>, kids: seq<Tracker>, state: CycleState, done: bool, r: Pass) {
    && Shape(body, r.kids)
    && |kids| <= |r.kids|
    && (done ==> r.done)
    && (r.done == done ==> r.state == state && r.exit != ThrownBelow && r.entered == [])
    && (r.done != done ==> body != [] && (r.state == ExecutingChildren || r.state == NeedsAnotherRun))
  }

  lemma AcquiredKeepsShape(body: seq<Section>, i: nat, kids: seq<Tracker>)
    requires Shape(body, kids) && i < |body| && i <= |kids|
    ensures Shape(body, Acquired(body, i, kids))
    ensures ShapeOf(body[i], Acquired(body, i, kids)[i])
  {
    assert |kids| < |body| || Acquired(body, i, kids) == kids;
  }

  lemma ReplaceKeepsShape(body: seq<Section>, i: nat, kids: seq<Tracker>, t: Tracker)
    requires Shape(body, kids) && i < |kids| && ShapeOf(body[i], t)
    requires forall j :: 0 <= j < i ==> IsComplete(kids[j].state)
    requires !IsComplete(kids[i].state)
    ensures Shape(body, kids[i := t])
  {
    var kids' := kids[i := t];
    forall j | 0 <= j < |kids'| ensures ShapeOf(body[j], kids'[j]) {
      assert j == i || kids'[j] == kids[j];
    }
  }

  lemma EndedHasShape(s: Section, kids: seq<Tracker>, sub: Pass)
    requires GoodPass(s.body, kids, Executing, false, sub)
    ensures ShapeOf(s, Ended(s.key, sub))
    ensures !sub.done ==> IsComplete(Ended(s.key, sub).state)
    ensures Ended(s.key, sub).state != NotStarted
  {
  }

  lemma {:induction false} RunStatementIsGood(body: seq<Section>, i: nat, path: Path, throws: Throws, cycle: nat,
                                              state: CycleState, kids: seq<Tracker>, done: bool)
    requires Ready(body, i, kids, done) && i < |body|
    ensures var r := RunStatement(body, i, path, throws, cycle, state, kids, done);
            GoodPass(body, kids, state, done, r) && Ready(body, i + 1, r.kids, r.done)
    decreases body, |body| - i, 0
  {
    var kids1 := Acquired(body, i, kids);
    AcquiredKeepsShape(body, i, kids);
    if !done && !IsComplete(kids1[i].state) {
      RunBodyIsGood(body[i].body, 0, path + [i], throws, cycle, Executing, kids1[i].kids, false);
      var sub := RunBody(body[i].body, 0, path + [i], throws, cycle, Executing, kids1[i].kids, false);
      EndedHasShape(body[i], kids1[i].kids, sub);
      ReplaceKeepsShape(body, i, kids1, Ended(kids1[i].key, sub));
    }
  }

  lemma {:induction false} RunBodyIsGood(body: seq<Section>, i: nat, path: Path, throws: Throws, cycle: nat,
                                         state: CycleState, kids: seq<Tracker>, done: bool)
    requires Ready(body, i, kids, done)
    ensures var r := RunBody(body, i, path, throws, cycle, state, kids, done);
            GoodPass(body, kids, state, done, r) && (r.exit == Normal ==> Ready(body, |body|, r.kids, r.done))
    decreases body, |body| - i, 1
  {
    if !throws(cycle, path, i) && i < |body| {
      RunStatementIsGood(body, i, path, throws, cycle, state, kids, done);
      var first := RunStatement(body, i, path, throws, cycle, state, kids, done);
      if first.exit == Normal {
        RunBodyIsGood(body, i + 1, path, throws, cycle, first.state, first.kids, first.done);
      }
    }
  }

  // ---------- progress: completed trackers ----------

  function DoneOf(t: Tracker): nat
    decreases t
  {
    (if IsComplete(t.state) then 1 else 0) + Done(t.kids)
  }

  function Done(kids: seq<Tracker>): nat
    decreases kids
  {
    if kids == [] then 0 else Done(kids[..|kids| - 1]) + DoneOf(kids[|kids| - 1])
  }

  function SectionCount(body: seq<Section>): nat
    decreases body
  {
    if body == [] then 0 else SectionCount(body[..|body| - 1]) + 1 + SectionCount(body[|body| - 1].body)
  }

  lemma {:induction false} DoneAtMostSections(body: seq<Section>, kids: seq<Tracker>)
    requires Shape(body, kids)
    ensures Done(kids) <= SectionCount(body)
    decreases body
  {
    if |kids| < |body| {
      assert Shape(body[..|body| - 1], kids);
      DoneAtMostSections(body[..|body| - 1], kids);
    } else if kids != [] {
      var n := |kids| - 1;
      assert Shape(body[..n], kids[..n]);
      DoneAtMostSections(body[..n], kids[..n]);
      assert ShapeOf(body[n], kids[n]);
      DoneAtMostSections(body[n].body, kids[n].kids);
    }
  }

  lemma {:induction false} DoneAfterUpdate(kids: seq<Tracker>, i: nat, t: Tracker)
    requires i < |kids|
    ensures Done(kids[i := t]) == Done(kids) - DoneOf(kids[i]) + DoneOf(t)
  {
    var n := |kids| - 1;
    if i == n {
      assert kids[i := t][..n] == kids[..n];
    } else {
      assert kids[i := t][..n] == kids[..n][i := t];
      DoneAfterUpdate(kids[..n], i, t);
    }
  }

  lemma DoneAfterAcquire(body: seq<Section>, i: nat, kids: seq<Tracker>)
    requires i < |body|
    ensures Done(Acquired(body, i, kids)) == Done(kids)
  {
    if i >= |kids| {
      var kids1 := Acquired(body, i, kids);
      assert kids1[..|kids1| - 1] == kids;
      assert DoneOf(kids1[|kids1| - 1]) == 0;
    }
  }

  /** No completed tracker is lost, and a pass that completes the cycle completes a new one. */
  ghost predicate Advances(kids: seq<Tracker>, done: bool, r: Pass) {
    Done(r.kids) >= Done(kids) + if r.done && !done then 1 else 0
  }

  lemma {:induction false} RunStatementAdvances(body: seq<Section>, i: nat, path: Path, throws: Throws, cycle: nat,
                                                state: CycleState, kids: seq<Tracker>, done: bool)
    requires Ready(body, i, kids, done) && i < |body|
    ensures Advances(kids, done, RunStatement(body, i, path, throws, cycle, state, kids, done))
    decreases body, |body| - i, 0
  {
    var kids1 := Acquired(body, i, kids);
    AcquiredKeepsShape(body, i, kids);
    DoneAfterAcquire(body, i, kids);
    if !done && !IsComplete(kids1[i].state) {
      RunBodyIsGood(body[i].body, 0, path + [i], throws, cycle, Executing, kids1[i].kids, false);
      RunBodyAdvances(body[i].body, 0, path + [i], throws, cycle, Executing, kids1[i].kids, false);
      var sub := RunBody(body[i].body, 0, path + [i], throws, cycle, Executing, kids1[i].kids, false);
      EndedHasShape(body[i], kids1[i].kids, sub);
      DoneAfterUpdate(kids1, i, Ended(kids1[i].key, sub));
    }
  }

  lemma {:induction false} RunBodyAdvances(body: seq<Section>, i: nat, path: Path, throws: Throws, cycle: nat,
                                           state: CycleState, kids: seq<Tracker>, done: bool)
    requires Ready(body, i, kids, done)
    ensures Advances(kids, done, RunBody(body, i, path, throws, cycle, state, kids, done))
    decreases body, |body| - i, 1
  {
    if !throws(cycle, path, i) && i < |body| {
      RunStatementIsGood(body, i, path, throws, cycle, state, kids, done);
      RunStatementAdvances(body, i, path, throws, cycle, state, kids, done);
      var first := RunStatement(body, i, path, throws, cycle, state, kids, done);
      if first.exit == Normal {
        RunBodyAdvances(body, i + 1, path, throws, cycle, first.state, first.kids, first.done);
      }
    }
  }

  // ---------- leaves are entered once ----------

  /** The tracker at `path` below `kids` exists and is complete. */
  predicate DoneAt(kids: seq<Tracker>, path: Path)
    decreases |path|
  {
    && path != [] && path[0] < |kids|
    && if |path| == 1 then IsComplete(kids[path[0]].state) else DoneAt(kids[path[0]].kids, path[1..])
  }

  ghost predicate Keeps(kids: seq<Tracker>, kids': seq<Tracker>) {
    forall p :: DoneAt(kids, p) ==> DoneAt(kids', p)
  }

  lemma KeepsAcquired(body: seq<Section>, i: nat, kids: seq<Tracker>)
    requires i < |body|
    ensures Keeps(kids, Acquired(body, i, kids))
    ensures Keeps(Acquired(body, i, kids), kids)
  {
  }

  lemma KeepsUpdate(kids: seq<Tracker>, i: nat, t: Tracker)
    requires i < |kids| && !IsComplete(kids[i].state) && Keeps(kids[i].kids, t.kids)
    ensures Keeps(kids, kids[i := t])
  {
    forall p | DoneAt(kids, p) ensures DoneAt(kids[i := t], p) {
      if p[0] == i && |p| > 1 {
        assert DoneAt(kids[i].kids, p[1..]);
      }
    }
  }

  /** p extends `path`; its tracker was not complete in `kids` and is complete in `kids'`. */
  ghost predicate NewlyDone(path: Path, kids: seq<Tracker>, kids': seq<Tracker>, p: Path) {
    path <= p && !DoneAt(kids, p[|path|..]) && DoneAt(kids', p[|path|..])
  }

  ghost predicate EntersNewLeaf(path: Path, kids: seq<Tracker>, r: Pass) {
    && Keeps(kids, r.kids)
    && |r.entered| <= 1
    && (r.entered != [] ==> NewlyDone(path, kids, r.kids, r.entered[0]))
  }

  lemma {:induction false} RunStatementEnters(body: seq<Section>, i: nat, path: Path, throws: Throws, cycle: nat,
                                              state: CycleState, kids: seq<Tracker>, done: bool)
    requires Ready(body, i, kids, done) && i < |body|
    ensures EntersNewLeaf(path, kids, RunStatement(body, i, path, throws, cycle, state, kids, done))
    decreases body, |body| - i, 0
  {
    var kids1 := Acquired(body, i, kids);
    AcquiredKeepsShape(body, i, kids);
    KeepsAcquired(body, i, kids);
    if !done && !IsComplete(kids1[i].state) {
      RunBodyIsGood(body[i].body, 0, path + [i], throws, cycle, Executing, kids1[i].kids, false);
      RunBodyEnters(body[i].body, 0, path + [i], throws, cycle, Executing, kids1[i].kids, false);
      var sub := RunBody(body[i].body, 0, path + [i], throws, cycle, Executing, kids1[i].kids, false);
      KeepsUpdate(kids1, i, Ended(kids1[i].key, sub));
      EnteredBelow(body[i], path, i, kids1, sub);
    }
  }

  lemma EnteredBelow(s: Section, path: Path, i: nat, kids: seq<Tracker>, sub: Pass)
    requires i < |kids| && !IsComplete(kids[i].state)
    requires GoodPass(s.body, kids[i].kids, Executing, false, sub)
    requires EntersNewLeaf(path + [i], kids[i].kids, sub)
    ensures var entered := if s.body == [] then [path + [i]] else sub.entered;
            entered != [] ==> NewlyDone(path, kids, kids[i := Ended(kids[i].key, sub)], entered[0])
  {
    if s.body == [] {
      assert (path + [i])[|path|..] == [i];
    } else if sub.entered != [] {
      var p := sub.entered[0];
      assert p[|path|] == (path + [i])[|path|] == i;
      assert p[|path|..][1..] == p[|path| + 1..];
      assert p[|path|..][0] == i;
    }
  }

  lemma {:induction false} RunBodyEnters(body: seq<Section>, i: nat, path: Path, throws: Throws, cycle: nat,
                                         state: CycleState, kids: seq<Tracker>, done: bool)
    requires Ready(body, i, kids, done)
    ensures EntersNewLeaf(path, kids, RunBody(body, i, path, throws, cycle, state, kids, done))
    decreases body, |body| - i, 1
  {
    if !throws(cycle, path, i) && i < |body| {
      RunStatementIsGood(body, i, path, throws, cycle, state, kids, done);
      RunStatementEnters(body, i, path, throws, cycle, state, kids, done);
      var first := RunStatement(body, i, path, throws, cycle, state, kids, done);
      if first.exit == Normal {
        RunBodyIsGood(body, i + 1, path, throws, cycle, first.state, first.kids, first.done);
        RunBodyEnters(body, i + 1, path, throws, cycle, first.state, first.kids, first.done);
        EntersThenEnters(path, kids, first, RunBody(body, i + 1, path, throws, cycle, first.state, first.kids, first.done));
      }
    }
  }

  lemma EntersThenEnters(path: Path, kids: seq<Tracker>, first: Pass, rest: Pass)
    requires EntersNewLeaf(path, kids, first) && EntersNewLeaf(path, first.kids, rest)
    requires first.entered == [] || rest.entered == []
    ensures EntersNewLeaf(path, kids, rest.(entered := first.entered + rest.entered))
  {
    assert first.entered + [] == first.entered;
  }

  // ---------- whole runs ----------

  datatype RunLog = RunLog(cycles: nat, entered: seq<Path>, kids: seq<Tracker>)

  function Cycle(program: seq<Section>, throws: Throws, cycle: nat, kids: seq<Tracker>): Pass {
    RunBody(program, 0, [], throws, cycle, Executing, kids, false)
  }

  /** Cycles until the test case's own tracker is complete; `cycles` counts them all. */
  function Run(program: seq<Section>, throws: Throws, cycle: nat, kids: seq<Tracker>): (log: RunLog)
    requires Shape(program, kids)
    ensures cycle < log.cycles <= cycle + SectionCount(program) + 1 - Done(kids)
    decreases SectionCount(program) - Done(kids)
  {
    var r := Cycle(program, throws, cycle, kids);
    CycleAdvances(program, throws, cycle, kids);
    if Closed(r.state, r.kids) == CompletedSuccessfully then RunLog(cycle + 1, r.entered, r.kids)
    else
      var rest := Run(program, throws, cycle + 1, r.kids);
      rest.(entered := r.entered + rest.entered)
  }

  /** Each cycle completes a section that was not complete, or else the test case itself. */
  lemma CycleAdvances(program: seq<Section>, throws: Throws, cycle: nat, kids: seq<Tracker>)
    requires Shape(program, kids)
    ensures var r := Cycle(program, throws, cycle, kids);
            && Shape(program, r.kids)
            && r.state != NotStarted && !IsComplete(r.state)
            && Done(kids) <= Done(r.kids) <= SectionCount(program)
            && (Done(kids) < Done(r.kids) || Closed(r.state, r.kids) == CompletedSuccessfully)
  {
    var r := Cycle(program, throws, cycle, kids);
    RunBodyIsGood(program, 0, [], throws, cycle, Executing, kids, false);
    RunBodyAdvances(program, 0, [], throws, cycle, Executing, kids, false);
    DoneAtMostSections(program, r.kids);
  }

  ghost predicate NoRepeats(log: seq<Path>) {
    forall i, j :: 0 <= i < j < |log| ==> log[i] != log[j]
  }

  ghost predicate EntersOnce(kids: seq<Tracker>, log: RunLog) {
    && NoRepeats(log.entered)
    && Keeps(kids, log.kids)
    && forall p :: p in log.entered ==> NewlyDone([], kids, log.kids, p)
  }

  lemma {:induction false} RunEntersOnce(program: seq<Section>, throws: Throws, cycle: nat, kids: seq<Tracker>)
    requires Shape(program, kids)
    ensures EntersOnce(kids, Run(program, throws, cycle, kids))
    decreases SectionCount(program) - Done(kids)
  {
    var r := Cycle(program, throws, cycle, kids);
    CycleAdvances(program, throws, cycle, kids);
    RunBodyEnters(program, 0, [], throws, cycle, Executing, kids, false);
    if Closed(r.state, r.kids) != CompletedSuccessfully {
      RunEntersOnce(program, throws, cycle + 1, r.kids);
      CycleThenRun(kids, r, Run(program, throws, cycle + 1, r.kids));
    }
  }

  lemma CycleThenRun(kids: seq<Tracker>, r: Pass, rest: RunLog)
    requires EntersNewLeaf([], kids, r) && EntersOnce(r.kids, rest)
    ensures EntersOnce(kids, rest.(entered := r.entered + rest.entered))
  {
    var log := r.entered + rest.entered;
    forall p | p in log ensures NewlyDone([], kids, rest.kids, p) {
      assert p[0..] == p;
      assert p in r.entered || NewlyDone([], r.kids, rest.kids, p);
    }
    forall i, j | 0 <= i < j < |log| ensures log[i] != log[j] {
      assert log[j] in rest.entered && NewlyDone([], r.kids, rest.kids, log[j]);
      if i < |r.entered| {
        assert NewlyDone([], kids, r.kids, log[i]);
      }
    }
  }

  /** However sections throw, a run ends within (number of sections + 1) cycles
    * and never enters a leaf section twice.
    */
  lemma ThrowingRunsEnd(program: seq<Section>, throws: Throws)
    ensures Run(program, throws, 0, []).cycles <= SectionCount(program) + 1
    ensures NoRepeats(Run(program, throws, 0, []).entered)
  {
    RunEntersOnce(program, throws, 0, []);
  }

  // ---------- runs without exceptions ----------

  ghost predicate NeverThrows(throws: Throws) {
    forall cycle, path, i :: !throws(cycle, path, i)
  }

  /** The leaf sections from statement i on, in program order. */
  function LeafPaths(body: seq<Section>, i: nat, path: Path): seq<Path>
    requires i <= |body|
    decreases body, |body| - i
  {
    if i == |body| then []
    else (if body[i].body == [] then [path + [i]] else LeafPaths(body[i].body, 0, path + [i]))
         + LeafPaths(body, i + 1, path)
  }

  /** The leaves of a statement that its tracker still owes. */
  function Owed(s: Section, path: Path, t: Tracker): seq<Path>
    decreases s
  {
    if IsComplete(t.state) then [] else if s.body == [] then [path] else Left(s.body, 0, path, t.kids)
  }

  /** The leaves still owed from statement i on; a statement not met yet owes them all. */
  function Left(body: seq<Section>, i: nat, path: Path, kids: seq<Tracker>): seq<Path>
    requires i <= |body|
    decreases body, |body| - i
  {
    if i == |body| then []
    else Owed(body[i], path + [i], KidAt(body, i, kids)) + Left(body, i + 1, path, kids)
  }

  function KidAt(body: seq<Section>, i: nat, kids: seq<Tracker>): Tracker
    requires i < |body|
  {
    if i < |kids| then kids[i] else Tracker(body[i].key, NotStarted, [])
  }

  lemma {:induction false} AllLeftAtFirst(body: seq<Section>, i: nat, path: Path)
    requires i <= |body|
    ensures Left(body, i, path, []) == LeafPaths(body, i, path)
    decreases body, |body| - i
  {
    if i < |body| {
      AllLeftAtFirst(body[i].body, 0, path + [i]);
      AllLeftAtFirst(body, i + 1, path);
    }
  }

  lemma {:induction false} LeftDependsOnSuffix(body: seq<Section>, i: nat, path: Path, kids: seq<Tracker>, kids': seq<Tracker>)
    requires i <= |body|
    requires forall j :: i <= j < |body| ==> KidAt(body, j, kids) == KidAt(body, j, kids')
    ensures Left(body, i, path, kids) == Left(body, i, path, kids')
    decreases |body| - i
  {
    if i < |body| {
      LeftDependsOnSuffix(body, i + 1, path, kids, kids');
    }
  }

  /** Without exceptions an unfinished tracker has met every statement of its body, and its last child is incomplete. */
  predicate Clean(body: seq<Section>, kids: seq<Tracker>)
    requires |kids| <= |body|
    decreases body
  {
    forall i :: 0 <= i < |kids| ==> CleanOf(body[i], kids[i])
  }

  predicate CleanOf(s: Section, t: Tracker)
    decreases s
  {
    && t.state != NeedsAnotherRun && t.state != Failed
    && |t.kids| <= |s.body|
    && (t.state == ExecutingChildren ==> 0 < |t.kids| == |s.body| && !IsComplete(t.kids[|t.kids| - 1].state))
    && Clean(s.body, t.kids)
  }

  lemma AcquiredKeepsClean(body: seq<Section>, i: nat, kids: seq<Tracker>)
    requires |kids| <= |body| && Clean(body, kids) && i < |body| && i <= |kids|
    ensures var kids1 := Acquired(body, i, kids);
            |kids1| <= |body| && Clean(body, kids1) && CleanOf(body[i], kids1[i])
  {
  }

  lemma ReplaceKeepsClean(body: seq<Section>, i: nat, kids: seq<Tracker>, t: Tracker)
    requires |kids| <= |body| && Clean(body, kids) && i < |kids| && CleanOf(body[i], t)
    ensures Clean(body, kids[i := t])
  {
  }

  /** An incomplete statement owes a leaf. */
  lemma {:induction false} SomethingLeft(body: seq<Section>, i: nat, path: Path, kids: seq<Tracker>, k: nat)
    requires i <= k < |body| && !IsComplete(KidAt(body, k, kids).state)
    requires k < |kids| ==> ShapeOf(body[k], kids[k]) && CleanOf(body[k], kids[k])
    ensures Left(body, i, path, kids) != []
    decreases body, |body| - i
  {
    if i < k {
      SomethingLeft(body, i + 1, path, kids, k);
    } else if body[i].body != [] {
      SomethingLeft(body[i].body, 0, path + [i], KidAt(body, i, kids).kids, |body[i].body| - 1);
    }
  }

  lemma {:induction false} NothingLeft(body: seq<Section>, i: nat, path: Path, kids: seq<Tracker>)
    requires i <= |body| == |kids|
    requires forall j :: i <= j < |body| ==> IsComplete(kids[j].state)
    ensures Left(body, i, path, kids) == []
    decreases |body| - i
  {
    if i < |body| {
      NothingLeft(body, i + 1, path, kids);
    }
  }

  /** Looking at the last child only is enough to know whether a leaf is owed. */
  lemma LastChildDecides(body: seq<Section>, path: Path, kids: seq<Tracker>)
    requires 0 < |body| == |kids| && Shape(body, kids) && Clean(body, kids)
    ensures IsComplete(kids[|kids| - 1].state) <==> Left(body, 0, path, kids) == []
  {
    if IsComplete(kids[|kids| - 1].state) {
      NothingLeft(body, 0, path, kids);
    } else {
      SomethingLeft(body, 0, path, kids, |kids| - 1);
    }
  }

  /** From `before` owed, a pass that may still open a section enters the first leaf; any other enters none. */
  ghost predicate Delivered(before: seq<Path>, after: seq<Path>, done: bool, r: Pass) {
    && r.exit == Normal
    && (r.done <==> done || before != [])
    && (r.done ==> r.state == ExecutingChildren)
    && (if done || before == [] then r.entered == [] && after == before
        else r.entered == [before[0]] && after == before[1..])
  }

  lemma RunStatementIsLocal(body: seq<Section>, i: nat, path: Path, throws: Throws, cycle: nat,
                            state: CycleState, kids: seq<Tracker>, done: bool)
    requires i < |body| && i <= |kids|
    ensures var r := RunStatement(body, i, path, throws, cycle, state, kids, done);
            && i < |r.kids| && r.kids[..i] == kids[..i]
            && Left(body, i + 1, path, r.kids) == Left(body, i + 1, path, kids)
  {
    LeftDependsOnSuffix(body, i + 1, path, kids, RunStatement(body, i, path, throws, cycle, state, kids, done).kids);
  }

  lemma {:induction false} RunStatementDelivers(body: seq<Section>, i: nat, path: Path, throws: Throws, cycle: nat,
                                                state: CycleState, kids: seq<Tracker>, done: bool)
    requires Ready(body, i, kids, done) && Clean(body, kids) && i < |body| && NeverThrows(throws)
    requires done ==> state == ExecutingChildren
    ensures var r := RunStatement(body, i, path, throws, cycle, state, kids, done);
            && i < |r.kids| <= |body| && Clean(body, r.kids)
            && Delivered(Owed(body[i], path + [i], KidAt(body, i, kids)), Owed(body[i], path + [i], r.kids[i]), done, r)
    decreases body, |body| - i, 0
  {
    var kids1 := Acquired(body, i, kids);
    AcquiredKeepsShape(body, i, kids);
    AcquiredKeepsClean(body, i, kids);
    if !done && !IsComplete(kids1[i].state) {
      RunBodyIsGood(body[i].body, 0, path + [i], throws, cycle, Executing, kids1[i].kids, false);
      RunBodyDelivers(body[i].body, 0, path + [i], throws, cycle, Executing, kids1[i].kids, false);
      var sub := RunBody(body[i].body, 0, path + [i], throws, cycle, Executing, kids1[i].kids, false);
      EndedDelivers(body[i], path + [i], kids1[i], sub);
      ReplaceKeepsClean(body, i, kids1, Ended(kids1[i].key, sub));
    }
  }

  lemma EndedDelivers(s: Section, path: Path, t: Tracker, sub: Pass)
    requires ShapeOf(s, t) && CleanOf(s, t) && !IsComplete(t.state)
    requires GoodPass(s.body, t.kids, Executing, false, sub)
    requires |sub.kids| == |s.body| && Clean(s.body, sub.kids)
    requires Delivered(Left(s.body, 0, path, t.kids), Left(s.body, 0, path, sub.kids), false, sub)
    ensures var owed := Owed(s, path, t);
            && owed != []
            && (if s.body == [] then [path] else sub.entered) == [owed[0]]
            && Owed(s, path, Ended(t.key, sub)) == owed[1..]
            && CleanOf(s, Ended(t.key, sub))
  {
    if s.body != [] {
      SomethingLeft(s.body, 0, path, t.kids, |s.body| - 1);
      LastChildDecides(s.body, path, sub.kids);
    }
  }

  lemma {:induction false} RunBodyDelivers(body: seq<Section>, i: nat, path: Path, throws: Throws, cycle: nat,
                                           state: CycleState, kids: seq<Tracker>, done: bool)
    requires Ready(body, i, kids, done) && Clean(body, kids) && NeverThrows(throws)
    requires done ==> state == ExecutingChildren
    ensures var r := RunBody(body, i, path, throws, cycle, state, kids, done);
            && |r.kids| == |body| && Clean(body, r.kids)
            && r.kids[..i] == kids[..i]
            && Delivered(Left(body, i, path, kids), Left(body, i, path, r.kids), done, r)
    decreases body, |body| - i, 1
  {
    if i < |body| {
      var first := RunStatement(body, i, path, throws, cycle, state, kids, done);
      RunStatementIsGood(body, i, path, throws, cycle, state, kids, done);
      RunStatementIsLocal(body, i, path, throws, cycle, state, kids, done);
      RunStatementDelivers(body, i, path, throws, cycle, state, kids, done);
      RunBodyDelivers(body, i + 1, path, throws, cycle, first.state, first.kids, first.done);
      var rest := RunBody(body, i + 1, path, throws, cycle, first.state, first.kids, first.done);
      assert rest.kids[i] == rest.kids[..i + 1][i] == first.kids[..i + 1][i];
      assert rest.kids[..i] == rest.kids[..i + 1][..i] == first.kids[..i];
      DeliveredThenDelivered(Owed(body[i], path + [i], KidAt(body, i, kids)), Owed(body[i], path + [i], first.kids[i]),
                             Left(body, i + 1, path, kids), Left(body, i + 1, path, rest.kids), done, first, rest);
    }
  }

  lemma DeliveredThenDelivered(owed: seq<Path>, owed': seq<Path>, left: seq<Path>, left': seq<Path>,
                               done: bool, first: Pass, rest: Pass)
    requires Delivered(owed, owed', done, first) && Delivered(left, left', first.done, rest)
    ensures Delivered(owed + left, owed' + left', done, rest.(entered := first.entered + rest.entered))
  {
    if owed == [] {
      assert owed + left == left && owed' + left' == left';
    } else {
      assert (owed + left)[1..] == owed[1..] + left;
    }
  }

  lemma CycleDelivers(program: seq<Section>, throws: Throws, cycle: nat, kids: seq<Tracker>)
    requires Shape(program, kids) && Clean(program, kids) && NeverThrows(throws)
    ensures var r := Cycle(program, throws, cycle, kids);
            var before, after := Left(program, 0, [], kids), Left(program, 0, [], r.kids);
            && |r.kids| <= |program| && Clean(program, r.kids)
            && (if before == [] then r.entered == [] && after == [] else r.entered == [before[0]] && after == before[1..])
            && (Closed(r.state, r.kids) == CompletedSuccessfully <==> after == [])
  {
    var r := Cycle(program, throws, cycle, kids);
    RunBodyIsGood(program, 0, [], throws, cycle, Executing, kids, false);
    RunBodyDelivers(program, 0, [], throws, cycle, Executing, kids, false);
    if program != [] {
      LastChildDecides(program, [], r.kids);
    }
  }

  lemma {:induction false} RunDelivers(program: seq<Section>, throws: Throws, cycle: nat, kids: seq<Tracker>)
    requires Shape(program, kids) && Clean(program, kids) && NeverThrows(throws)
    ensures var log := Run(program, throws, cycle, kids);
            var left := Left(program, 0, [], kids);
            log.entered == left && log.cycles == cycle + if left == [] then 1 else |left|
    decreases SectionCount(program) - Done(kids)
  {
    hide Cycle, Left, Clean, Shape, Closed, NeverThrows;
    var r := Cycle(program, throws, cycle, kids);
    CycleAdvances(program, throws, cycle, kids);
    CycleDelivers(program, throws, cycle, kids);
    if Closed(r.state, r.kids) != CompletedSuccessfully {
      RunDelivers(program, throws, cycle + 1, r.kids);
    }
  }

  /** Without exceptions every leaf section is entered exactly once, in program
    * order, one a cycle; a test case without sections takes one cycle.
    */
  lemma CleanRunsVisitEveryLeafOnce(program: seq<Section>, throws: Throws)
    requires NeverThrows(throws)
    ensures var log := Run(program, throws, 0, []);
            var leaves := LeafPaths(program, 0, []);
            log.entered == leaves && log.cycles == if leaves == [] then 1 else |leaves|
  {
    AllLeftAtFirst(program, 0, []);
    RunDelivers(program, throws, 0, []);
  }

  // ---------- what exceptions can cost ----------

  /** In this cycle no body around the section at p throws. */
  ghost predicate Calm(throws: Throws, cycle: nat, p: Path) {
    forall q: Path, i: nat :: q < p ==> !throws(cycle, q, i)
  }

  lemma {:induction false} LeftIsBelow(body: seq<Section>, i: nat, path: Path, kids: seq<Tracker>, p: Path)
    requires i <= |body| && p in Left(body, i, path, kids)
    ensures path < p
    decreases body, |body| - i
  {
    if p !in Left(body, i + 1, path, kids) {
      if body[i].body != [] {
        LeftIsBelow(body[i].body, 0, path + [i], KidAt(body, i, kids).kids, p);
      }
      assert path < path + [i];
    } else {
      LeftIsBelow(body, i + 1, path, kids, p);
    }
  }

  /** p is still owed, or it has been entered. */
  ghost predicate NotLost(p: Path, left: seq<Path>, r: Pass) {
    p in r.entered || p in left
  }

  /** While a leaf is owed, a section that was left with an exception from below cannot be closed. */
  ghost predicate StaysOpen(r: Pass) {
    r.exit == ThrownBelow ==> r.done && !IsComplete(Closed(r.state, r.kids)) && r.kids != []
  }

  lemma {:induction false} RunStatementStaysOpen(body: seq<Section>, i: nat, path: Path, throws: Throws, cycle: nat,
                                                 state: CycleState, kids: seq<Tracker>, done: bool)
    requires Ready(body, i, kids, done) && i < |body|
    ensures StaysOpen(RunStatement(body, i, path, throws, cycle, state, kids, done))
    decreases body, |body| - i, 0
  {
    var kids1 := Acquired(body, i, kids);
    AcquiredKeepsShape(body, i, kids);
    if !done && !IsComplete(kids1[i].state) {
      RunBodyStaysOpen(body[i].body, 0, path + [i], throws, cycle, Executing, kids1[i].kids, false);
      RunStatementIsGood(body, i, path, throws, cycle, state, kids, done);
      var r := RunStatement(body, i, path, throws, cycle, state, kids, done);
      assert i < |r.kids| - 1 ==> IsComplete(r.kids[i].state) || r.kids[|r.kids| - 1].state == NotStarted;
    }
  }

  lemma {:induction false} RunBodyStaysOpen(body: seq<Section>, i: nat, path: Path, throws: Throws, cycle: nat,
                                            state: CycleState, kids: seq<Tracker>, done: bool)
    requires Ready(body, i, kids, done)
    ensures StaysOpen(RunBody(body, i, path, throws, cycle, state, kids, done))
    decreases body, |body| - i, 1
  {
    if !throws(cycle, path, i) && i < |body| {
      RunStatementIsGood(body, i, path, throws, cycle, state, kids, done);
      RunStatementStaysOpen(body, i, path, throws, cycle, state, kids, done);
      var first := RunStatement(body, i, path, throws, cycle, state, kids, done);
      if first.exit == Normal {
        RunBodyStaysOpen(body, i + 1, path, throws, cycle, first.state, first.kids, first.done);
      }
    }
  }

  lemma {:induction false} RunStatementLosesNone(body: seq<Section>, i: nat, path: Path, throws: Throws, cycle: nat,
                                                 state: CycleState, kids: seq<Tracker>, done: bool, p: Path)
    requires Ready(body, i, kids, done) && i < |body| && Calm(throws, cycle, p)
    requires p in Owed(body[i], path + [i], KidAt(body, i, kids))
    ensures var r := RunStatement(body, i, path, throws, cycle, state, kids, done);
            i < |r.kids| && r.done && NotLost(p, Owed(body[i], path + [i], r.kids[i]), r)
    decreases body, |body| - i, 0
  {
    var kids1 := Acquired(body, i, kids);
    AcquiredKeepsShape(body, i, kids);
    if !done && body[i].body != [] {
      RunBodyLosesNone(body[i].body, 0, path + [i], throws, cycle, Executing, kids1[i].kids, false, p);
      RunBodyIsGood(body[i].body, 0, path + [i], throws, cycle, Executing, kids1[i].kids, false);
      var sub := RunBody(body[i].body, 0, path + [i], throws, cycle, Executing, kids1[i].kids, false);
      if p !in sub.entered {
        StillOwed(body[i].body, path + [i], throws, cycle, kids1[i].kids, p);
      }
    }
  }

  /** A section that owes a leaf, and is not left by an exception of its own, is not complete. */
  lemma StillOwed(body: seq<Section>, path: Path, throws: Throws, cycle: nat, kids: seq<Tracker>, p: Path)
    requires Shape(body, kids) && Calm(throws, cycle, p)
    requires var r := RunBody(body, 0, path, throws, cycle, Executing, kids, false);
             r.done && r.exit != ThrownHere && p in Left(body, 0, path, r.kids)
    ensures var r := RunBody(body, 0, path, throws, cycle, Executing, kids, false);
            !IsComplete(Closed(r.state, r.kids))
  {
    hide RunBody, Left, Owed, Calm;
    var r := RunBody(body, 0, path, throws, cycle, Executing, kids, false);
    RunBodyIsGood(body, 0, path, throws, cycle, Executing, kids, false);
    RunBodyStaysOpen(body, 0, path, throws, cycle, Executing, kids, false);
    if r.exit == Normal && IsComplete(r.kids[|body| - 1].state) {
      NothingLeft(body, 0, path, r.kids);
    }
  }

  lemma {:induction false} RunBodyIsLocal(body: seq<Section>, i: nat, path: Path, throws: Throws, cycle: nat,
                                          state: CycleState, kids: seq<Tracker>, done: bool)
    requires i <= |body| && i <= |kids|
    ensures var r := RunBody(body, i, path, throws, cycle, state, kids, done);
            i <= |r.kids| && r.kids[..i] == kids[..i]
    decreases |body| - i
  {
    if !throws(cycle, path, i) && i < |body| {
      RunStatementIsLocal(body, i, path, throws, cycle, state, kids, done);
      var first := RunStatement(body, i, path, throws, cycle, state, kids, done);
      if first.exit == Normal {
        RunBodyIsLocal(body, i + 1, path, throws, cycle, first.state, first.kids, first.done);
        var rest := RunBody(body, i + 1, path, throws, cycle, first.state, first.kids, first.done);
        assert rest.kids[..i] == rest.kids[..i + 1][..i] == first.kids[..i + 1][..i] == first.kids[..i];
      }
    }
  }

  lemma {:induction false} ThrownHereThrows(body: seq<Section>, i: nat, path: Path, throws: Throws, cycle: nat,
                                            state: CycleState, kids: seq<Tracker>, done: bool)
    requires i <= |body| && i <= |kids|
    ensures RunBody(body, i, path, throws, cycle, state, kids, done).exit == ThrownHere ==>
              exists j: nat :: i <= j <= |body| && throws(cycle, path, j)
    decreases |body| - i
  {
    if !throws(cycle, path, i) && i < |body| {
      var first := RunStatement(body, i, path, throws, cycle, state, kids, done);
      if first.exit == Normal {
        ThrownHereThrows(body, i + 1, path, throws, cycle, first.state, first.kids, first.done);
      }
    }
  }

  /** p was owed by statement i or by those behind it, and is not lost by either. */
  lemma NotLostByBoth(body: seq<Section>, i: nat, path: Path, first: Pass, rest: Pass, p: Path)
    requires i < |body| && i < |first.kids| && i < |rest.kids| && rest.kids[i] == first.kids[i]
    requires p in first.entered || p in Owed(body[i], path + [i], first.kids[i])
          || p in rest.entered || p in Left(body, i + 1, path, rest.kids)
    ensures NotLost(p, Left(body, i, path, rest.kids), rest.(entered := first.entered + rest.entered))
  {
  }

  lemma {:induction false} RunBodyLosesNone(body: seq<Section>, i: nat, path: Path, throws: Throws, cycle: nat,
                                            state: CycleState, kids: seq<Tracker>, done: bool, p: Path)
    requires Ready(body, i, kids, done) && Calm(throws, cycle, p) && p in Left(body, i, path, kids)
    ensures var r := RunBody(body, i, path, throws, cycle, state, kids, done);
            r.done && r.exit != ThrownHere && NotLost(p, Left(body, i, path, r.kids), r)
    decreases body, |body| - i, 1
  {
    hide RunBody, RunStatement, Left, Owed, Shape, Ready, KidAt;
    ReadyFits(body, i, kids, done);
    LeftSplits(body, i, path, kids, p);
    LeftIsBelow(body, i, path, kids, p);
    ThrownHereThrows(body, i, path, throws, cycle, state, kids, done);
    RunBodyIsGood(body, i, path, throws, cycle, state, kids, done);
    BodyStep(body, i, path, throws, cycle, state, kids, done);
    var first := RunStatement(body, i, path, throws, cycle, state, kids, done);
    RunStatementIsGood(body, i, path, throws, cycle, state, kids, done);
    RunStatementIsLocal(body, i, path, throws, cycle, state, kids, done);
    RunStatementStaysOpen(body, i, path, throws, cycle, state, kids, done);
    if p in Owed(body[i], path + [i], KidAt(body, i, kids)) {
      RunStatementLosesNone(body, i, path, throws, cycle, state, kids, done, p);
    }
    if first.exit == Normal {
      RunBodyIsGood(body, i + 1, path, throws, cycle, first.state, first.kids, first.done);
      RunBodyIsLocal(body, i + 1, path, throws, cycle, first.state, first.kids, first.done);
      var rest := RunBody(body, i + 1, path, throws, cycle, first.state, first.kids, first.done);
      assert rest.kids[i] == rest.kids[..i + 1][i] == first.kids[..i + 1][i];
      if p in Left(body, i + 1, path, first.kids) {
        RunBodyLosesNone(body, i + 1, path, throws, cycle, first.state, first.kids, first.done, p);
      }
      NotLostByBoth(body, i, path, first, rest, p);
    } else {
      NotLostByBoth(body, i, path, first, first.(entered := []), p);
    }
  }

  lemma ReadyFits(body: seq<Section>, i: nat, kids: seq<Tracker>, done: bool)
    requires Ready(body, i, kids, done)
    ensures i <= |body| && i <= |kids|
  {
    hide Shape;
  }

  lemma LeftSplits(body: seq<Section>, i: nat, path: Path, kids: seq<Tracker>, p: Path)
    requires i <= |body| && p in Left(body, i, path, kids)
    ensures i < |body| && (p in Owed(body[i], path + [i], KidAt(body, i, kids)) || p in Left(body, i + 1, path, kids))
  {
    hide Owed, KidAt;
  }

  /** A pass over a body is one statement and the rest. */
  lemma BodyStep(body: seq<Section>, i: nat, path: Path, throws: Throws, cycle: nat,
                 state: CycleState, kids: seq<Tracker>, done: bool)
    requires i < |body| && i <= |kids|
    ensures var (r, first) := (RunBody(body, i, path, throws, cycle, state, kids, done),
                               RunStatement(body, i, path, throws, cycle, state, kids, done));
            && first.exit != ThrownHere && i < |first.kids|
            && (throws(cycle, path, i) ==> r.exit == ThrownHere)
            && (!throws(cycle, path, i) && first.exit != Normal ==> r == first)
            && (!throws(cycle, path, i) && first.exit == Normal ==>
                  var rest := RunBody(body, i + 1, path, throws, cycle, first.state, first.kids, first.done);
                  r == rest.(entered := first.entered + rest.entered))
  {
  }

  /** From any state of the trackers, a leaf that is owed is entered, unless a body around it throws. */
  lemma {:induction false} RunLosesNone(program: seq<Section>, throws: Throws, cycle: nat, kids: seq<Tracker>, p: Path)
    requires Shape(program, kids) && p in Left(program, 0, [], kids)
    requires forall c :: cycle <= c < Run(program, throws, cycle, kids).cycles ==> Calm(throws, c, p)
    ensures p in Run(program, throws, cycle, kids).entered
    decreases SectionCount(program) - Done(kids)
  {
    var r := Cycle(program, throws, cycle, kids);
    CycleAdvances(program, throws, cycle, kids);
    RunBodyLosesNone(program, 0, [], throws, cycle, Executing, kids, false, p);
    if p !in r.entered {
      StillOwed(program, [], throws, cycle, kids, p);
      RunLosesNone(program, throws, cycle + 1, r.kids, p);
    }
  }

  /** However sections throw, every leaf section is entered, unless in some cycle a body around it throws. */
  lemma ThrowingRunsDeliver(program: seq<Section>, throws: Throws)
    ensures var log := Run(program, throws, 0, []);
            forall p :: p in LeafPaths(program, 0, []) ==> p in log.entered || !CalmUpTo(throws, log.cycles, p)
  {
    var log := Run(program, throws, 0, []);
    AllLeftAtFirst(program, 0, []);
    forall p | p in LeafPaths(program, 0, []) && CalmUpTo(throws, log.cycles, p) ensures p in log.entered {
      RunLosesNone(program, throws, 0, [], p);
    }
  }

  /** In none of the first cycles does a body around the section at p throw. */
  ghost predicate CalmUpTo(throws: Throws, cycles: nat, p: Path) {
    forall c :: 0 <= c < cycles ==> Calm(throws, c, p)
  }

  // ---------- what the final states say ----------

  /** In the first cycles, the trackers that failed did so by an exception of their own bodies, and a
    * leaf that completed did not throw.
    */
  predicate Accounted(body: seq<Section>, path: Path, kids: seq<Tracker>, throws: Throws, cycles: nat)
    decreases body
  {
    |kids| <= |body| && forall i :: 0 <= i < |kids| ==> AccountedFor(body[i], path + [i], kids[i], throws, cycles)
  }

  predicate AccountedFor(s: Section, path: Path, t: Tracker, throws: Throws, cycles: nat)
    decreases s
  {
    && (t.state == Failed ==> exists c: nat, j: nat :: c < cycles && j <= |s.body| && throws(c, path, j))
    && (t.state == CompletedSuccessfully && s.body == [] ==> exists c: nat :: c < cycles && !throws(c, path, 0))
    && Accounted(s.body, path, t.kids, throws, cycles)
  }

  lemma {:induction false} AccountedLater(body: seq<Section>, path: Path, kids: seq<Tracker>, throws: Throws, cycles: nat, later: nat)
    requires Accounted(body, path, kids, throws, cycles) && cycles <= later
    ensures Accounted(body, path, kids, throws, later)
    decreases body
  {
    forall i | 0 <= i < |kids| ensures AccountedFor(body[i], path + [i], kids[i], throws, later) {
      assert AccountedFor(body[i], path + [i], kids[i], throws, cycles);
      AccountedLater(body[i].body, path + [i], kids[i].kids, throws, cycles, later);
    }
  }

  lemma {:induction false} RunStatementAccounts(body: seq<Section>, i: nat, path: Path, throws: Throws, cycle: nat,
                                                state: CycleState, kids: seq<Tracker>, done: bool)
    requires Ready(body, i, kids, done) && i < |body| && Accounted(body, path, kids, throws, cycle + 1)
    ensures Accounted(body, path, RunStatement(body, i, path, throws, cycle, state, kids, done).kids, throws, cycle + 1)
    decreases body, |body| - i, 0
  {
    var kids1 := Acquired(body, i, kids);
    AcquiredKeepsShape(body, i, kids);
    if !done && !IsComplete(kids1[i].state) {
      assert AccountedFor(body[i], path + [i], kids1[i], throws, cycle + 1);
      RunBodyAccounts(body[i].body, 0, path + [i], throws, cycle, Executing, kids1[i].kids, false);
      RunBodyIsGood(body[i].body, 0, path + [i], throws, cycle, Executing, kids1[i].kids, false);
      ThrownHereThrows(body[i].body, 0, path + [i], throws, cycle, Executing, kids1[i].kids, false);
      var sub := RunBody(body[i].body, 0, path + [i], throws, cycle, Executing, kids1[i].kids, false);
      assert AccountedFor(body[i], path + [i], Ended(kids1[i].key, sub), throws, cycle + 1);
    }
  }

  lemma {:induction false} RunBodyAccounts(body: seq<Section>, i: nat, path: Path, throws: Throws, cycle: nat,
                                           state: CycleState, kids: seq<Tracker>, done: bool)
    requires Ready(body, i, kids, done) && Accounted(body, path, kids, throws, cycle + 1)
    ensures Accounted(body, path, RunBody(body, i, path, throws, cycle, state, kids, done).kids, throws, cycle + 1)
    decreases body, |body| - i, 1
  {
    if !throws(cycle, path, i) && i < |body| {
      RunStatementIsGood(body, i, path, throws, cycle, state, kids, done);
      RunStatementAccounts(body, i, path, throws, cycle, state, kids, done);
      var first := RunStatement(body, i, path, throws, cycle, state, kids, done);
      if first.exit == Normal {
        RunBodyAccounts(body, i + 1, path, throws, cycle, first.state, first.kids, first.done);
      }
    }
  }

  lemma {:induction false} RunAccounts(program: seq<Section>, throws: Throws, cycle: nat, kids: seq<Tracker>)
    requires Shape(program, kids) && Accounted(program, [], kids, throws, cycle)
    ensures var log := Run(program, throws, cycle, kids); Accounted(program, [], log.kids, throws, log.cycles)
    decreases SectionCount(program) - Done(kids)
  {
    var r := Cycle(program, throws, cycle, kids);
    CycleAdvances(program, throws, cycle, kids);
    AccountedLater(program, [], kids, throws, cycle, cycle + 1);
    RunBodyAccounts(program, 0, [], throws, cycle, Executing, kids, false);
    if Closed(r.state, r.kids) != CompletedSuccessfully {
      RunAccounts(program, throws, cycle + 1, r.kids);
    }
  }

  /** After a run, a section has failed only by an exception of its own, and a leaf completed only without one. */
  lemma RunsAreAccounted(program: seq<Section>, throws: Throws)
    ensures var log := Run(program, throws, 0, []); Accounted(program, [], log.kids, throws, log.cycles)
  {
    RunAccounts(program, throws, 0, []);
  }

  // ---------- an exception leaves every body around it ----------

  /** If the leaf that was entered throws, so do all bodies around it, and nothing behind it is reached. */
  ghost predicate LeavesAll(i: nat, path: Path, throws: Throws, cycle: nat, kids: seq<Tracker>, r: Pass) {
    r.entered != [] ==>
      var p := r.entered[0];
      && path < p && i <= p[|path|]
      && (throws(cycle, p, 0) ==> r.exit == ThrownBelow && (|r.kids| <= |kids| || |r.kids| <= p[|path|] + 1))
  }

  lemma {:induction false} RunStatementLeavesAll(body: seq<Section>, i: nat, path: Path, throws: Throws, cycle: nat,
                                                 state: CycleState, kids: seq<Tracker>, done: bool)
    requires i < |body| && i <= |kids|
    ensures LeavesAll(i, path, throws, cycle, kids, RunStatement(body, i, path, throws, cycle, state, kids, done))
    decreases body, |body| - i, 0
  {
    var kids1 := Acquired(body, i, kids);
    if !done && !IsComplete(kids1[i].state) {
      RunBodyLeavesAll(body[i].body, 0, path + [i], throws, cycle, Executing, kids1[i].kids, false);
      assert path < path + [i] && (path + [i])[|path|] == i;
    }
  }

  lemma {:induction false} RunBodyLeavesAll(body: seq<Section>, i: nat, path: Path, throws: Throws, cycle: nat,
                                            state: CycleState, kids: seq<Tracker>, done: bool)
    requires i <= |body| && i <= |kids|
    ensures LeavesAll(i, path, throws, cycle, kids, RunBody(body, i, path, throws, cycle, state, kids, done))
    decreases body, |body| - i, 1
  {
    if !throws(cycle, path, i) && i < |body| {
      RunStatementLeavesAll(body, i, path, throws, cycle, state, kids, done);
      var first := RunStatement(body, i, path, throws, cycle, state, kids, done);
      if first.exit == Normal {
        RunBodyLeavesAll(body, i + 1, path, throws, cycle, first.state, first.kids, first.done);
      }
    }
  }
}
