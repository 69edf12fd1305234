/** Catch's run loop over its trackers: TrackerContext, SectionTracker and the
  * section callbacks of RunContext, executing a program of nested sections.
  */
module RunContexts {
  import opened SectionRuns
  import opened TrackerArena

  class RunContext {
    var trackers: Arena
    var currentTracker: nat
    var completedCycle: bool
    var activeSections: seq<nat>
    var unfinishedSections: nat
    var internalError: bool    // a close met a tracker in an illogical state
    var entered: seq<Path>     // the leaf bodies entered, for the record
    var cycles: nat

    ghost predicate Valid()
      reads this
    {
      WellFormed(trackers) && currentTracker < |trackers|
    }

    /** A new run: only the root tracker exists. */
    constructor (root: NameAndLocation)
      ensures Valid() && trackers == [Node(root, 0, [], NotStarted)] && currentTracker == 0
      ensures !completedCycle && activeSections == [] && unfinishedSections == 0 && !internalError
      ensures entered == [] && cycles == 0
    {
      trackers := [Node(root, 0, [], NotStarted)];
      currentTracker, completedCycle, activeSections, unfinishedSections := 0, false, [], 0;
      internalError, entered, cycles := false, [], 0;
    }

    method FindChild(key: NameAndLocation) returns (x: nat)
      requires Valid()
      ensures x == ChildWithKey(trackers, currentTracker, key, 0)
    {
      x := 0;
      var kids := trackers[currentTracker].kids;
      while x < |kids| && trackers[kids[x]].key != key
        invariant x <= |kids|
        invariant ChildWithKey(trackers, currentTracker, key, 0) == ChildWithKey(trackers, currentTracker, key, x)
      {
        x := x + 1;
      }
    }

    method OpenChild(i: nat)
      requires Valid() && i < |trackers|
      modifies this`trackers
      ensures Valid() && trackers == OpenedChild(old(trackers), i)
      decreases i
    {
      if trackers[i].state != ExecutingChildren {
        SetStateIsWellFormed(trackers, i, ExecutingChildren);
        trackers := SetState(trackers, i, ExecutingChildren);
        if i != 0 {
          OpenChild(trackers[i].parent);
        }
      }
    }

    method Open(i: nat)
      requires Valid() && i < |trackers|
      modifies this`trackers, this`currentTracker
      ensures Valid() && trackers == Opened(old(trackers), i) && currentTracker == i
    {
      SetStateIsWellFormed(trackers, i, Executing);
      trackers := SetState(trackers, i, Executing);
      currentTracker := i;
      if i != 0 {
        OpenChild(trackers[i].parent);
      }
    }

    /** `acquire`: find or create the child, and open it if it can still run in this cycle. */
    method Acquire(key: NameAndLocation) returns (id: nat)
      requires Valid()
      modifies this`trackers, this`currentTracker
      ensures Valid()
      ensures var a1, id1 := TrackerArena.Acquire(old(trackers), old(currentTracker), key), AcquiredChild(old(trackers), old(currentTracker), key);
              && id == id1 < |a1| && WellFormed(a1)
              && (if completedCycle || IsComplete(a1[id].state)
                  then trackers == a1 && currentTracker == old(currentTracker)
                  else trackers == Opened(a1, id) && currentTracker == id)
    {
      var x := FindChild(key);
      if x < |trackers[currentTracker].kids| {
        id := trackers[currentTracker].kids[x];
      } else {
        id := |trackers|;
        CreatedIsWellFormed(trackers, currentTracker, key);
        trackers := Created(trackers, currentTracker, key);
      }
      if !completedCycle && !IsComplete(trackers[id].state) {
        Open(id);
      }
    }

    /** The part of `close` for the tracker that is current. */
    method CloseCurrent()
      requires Valid() && currentTracker != 0
      modifies this`trackers, this`currentTracker, this`completedCycle, this`internalError
      ensures Valid()
      ensures var c, a := old(currentTracker), old(trackers);
              if a[c].state == NotStarted || IsComplete(a[c].state) then
                internalError && trackers == a && currentTracker == c && completedCycle == old(completedCycle)
              else
                && internalError == old(internalError) && completedCycle
                && trackers == SetState(a, c, Closed(a[c].state, Kids(a, c)))
                && currentTracker == a[c].parent
    {
      var c := currentTracker;
      match trackers[c].state {
        case NeedsAnotherRun =>
          assert SetState(trackers, c, NeedsAnotherRun) == trackers;
        case Executing =>
          SetStateIsWellFormed(trackers, c, CompletedSuccessfully);
          trackers := SetState(trackers, c, CompletedSuccessfully);
        case ExecutingChildren =>
          var kids := trackers[c].kids;
          if kids == [] || IsComplete(trackers[kids[|kids| - 1]].state) {
            SetStateIsWellFormed(trackers, c, CompletedSuccessfully);
            trackers := SetState(trackers, c, CompletedSuccessfully);
          } else {
            assert SetState(trackers, c, ExecutingChildren) == trackers;
          }
        case _ =>
          internalError := true;
          return;
      }
      currentTracker := trackers[c].parent;
      completedCycle := true;
    }

    /** `close`: whatever is still open below tracker i is closed first, innermost first. */
    method Close(i: nat)
      requires Valid() && 0 < i < |trackers| && Under(trackers, i, currentTracker) && !internalError
      modifies this`trackers, this`currentTracker, this`completedCycle, this`internalError
      ensures Valid()
      ensures var r := ClosedUpTo(old(trackers), old(currentTracker), i, old(completedCycle));
              && trackers == r.arena && currentTracker == r.current
              && completedCycle == r.closedAny && internalError == r.error
    {
      ghost var r := ClosedUpTo(trackers, currentTracker, i, completedCycle);
      while currentTracker != i && !internalError
        invariant Valid() && i < |trackers| && Under(trackers, i, currentTracker)
        invariant if internalError then r == Closing(trackers, currentTracker, completedCycle, true)
                  else ClosedUpTo(trackers, currentTracker, i, completedCycle) == r
        decreases currentTracker, !internalError
      {
        ghost var a := trackers;
        UnderIsLater(trackers, i, currentTracker);
        ghost var c := currentTracker;
        CloseCurrent();
        if !internalError {
          UnderSameParents(a, trackers, i, a[c].parent);
        }
      }
      if !internalError {
        CloseCurrent();
      }
    }

    /** `fail`, for the tracker that is current. */
    method Fail()
      requires Valid() && currentTracker != 0
      modifies this`trackers, this`currentTracker, this`completedCycle
      ensures Valid() && completedCycle
      ensures var c, a := old(currentTracker), old(trackers);
              currentTracker == a[c].parent && trackers == SetState(SetState(a, c, Failed), a[c].parent, NeedsAnotherRun)
    {
      var c := currentTracker;
      SetStateIsWellFormed(trackers, c, Failed);
      trackers := SetState(trackers, c, Failed);
      SetStateIsWellFormed(trackers, trackers[c].parent, NeedsAnotherRun);
      trackers := SetState(trackers, trackers[c].parent, NeedsAnotherRun);
      currentTracker := trackers[c].parent;
      completedCycle := true;
    }

    method SectionStarted(key: NameAndLocation) returns (included: bool)
      requires Valid()
      modifies this`trackers, this`currentTracker, this`activeSections
      ensures Valid()
      ensures var a1, id := TrackerArena.Acquire(old(trackers), old(currentTracker), key), AcquiredChild(old(trackers), old(currentTracker), key);
              && WellFormed(a1) && id < |a1|
              && (if completedCycle || IsComplete(a1[id].state)
                  then trackers == a1 && currentTracker == old(currentTracker)
                  else trackers == Opened(a1, id) && currentTracker == id)
              && included == (trackers[id].state != NotStarted && !IsComplete(trackers[id].state))
              && activeSections == old(activeSections) + if included then [id] else []
    {
      var id := Acquire(key);
      included := trackers[id].state != NotStarted && !IsComplete(trackers[id].state);
      if included {
        activeSections := activeSections + [id];
      }
    }

    method SectionEnded()
      requires Valid() && !internalError
      requires activeSections != [] ==>
                 var i := activeSections[|activeSections| - 1];
                 0 < i == currentTracker && trackers[i].state != NotStarted && !IsComplete(trackers[i].state)
      modifies this`trackers, this`currentTracker, this`completedCycle, this`internalError, this`activeSections
      ensures Valid() && !internalError
      ensures var a, i := old(trackers), old(currentTracker);
              if old(activeSections) == [] then
                trackers == a && currentTracker == i && completedCycle == old(completedCycle) && activeSections == []
              else
                && trackers == SetState(a, i, Closed(a[i].state, Kids(a, i)))
                && currentTracker == a[i].parent && completedCycle
                && activeSections == old(activeSections)[..|old(activeSections)| - 1]
    {
      if activeSections != [] {
        Close(activeSections[|activeSections| - 1]);
        activeSections := activeSections[..|activeSections| - 1];
      }
    }

    /** A section left by an exception: the innermost one fails, those around it are closed. */
    method SectionEndedEarly()
      requires Valid() && !internalError && activeSections != []
      requires var i := activeSections[|activeSections| - 1];
               0 < i == currentTracker && trackers[i].state != NotStarted && !IsComplete(trackers[i].state)
      modifies this`trackers, this`currentTracker, this`completedCycle, this`internalError
      modifies this`activeSections, this`unfinishedSections
      ensures Valid() && !internalError && completedCycle
      ensures var a, i := old(trackers), old(currentTracker);
              && trackers == (if old(unfinishedSections) == 0
                              then SetState(SetState(a, i, Failed), a[i].parent, NeedsAnotherRun)
                              else SetState(a, i, Closed(a[i].state, Kids(a, i))))
              && currentTracker == a[i].parent
      ensures activeSections == old(activeSections)[..|old(activeSections)| - 1]
      ensures unfinishedSections == old(unfinishedSections) + 1
    {
      if unfinishedSections == 0 {
        Fail();
      } else {
        Close(activeSections[|activeSections| - 1]);
      }
      activeSections := activeSections[..|activeSections| - 1];
      unfinishedSections := unfinishedSections + 1;
    }

    /** A body is executing, about to reach its i-th statement. */
    ghost predicate InBody(body: seq<Section>, i: nat)
      reads this
    {
      && Valid() && currentTracker != 0
      && DistinctKeys(body)
      && Ready(body, i, Kids(trackers, currentTracker), completedCycle)
      && (trackers[currentTracker].state == Executing || trackers[currentTracker].state == ExecutingChildren)
      && MarkedAbove(trackers, currentTracker)
      && !internalError && unfinishedSections == 0
    }

    /** The cycle flag, the exception in flight and the unfinished sections are as after the pass r. */
    ghost predicate Matches(r: Pass, thrown: bool)
      reads this
    {
      && completedCycle == r.done
      && thrown == (r.exit != Normal)
      && (unfinishedSections > 0 <==> r.exit == ThrownBelow)
    }

    /** Control reaches the i-th SECTION statement: its section is included exactly
      * when it can be opened now; it is never one left open by an earlier cycle.
      */
    method ReachStatement(body: seq<Section>, i: nat) returns (included: bool)
      requires i < |body| && InBody(body, i)
      modifies this`trackers, this`currentTracker, this`activeSections
      ensures Valid()
      ensures var c, a := old(currentTracker), old(trackers);
              var a1, id := TrackerArena.Acquire(a, c, body[i].key), AcquiredChild(a, c, body[i].key);
              && WellFormed(a1) && id < |a1|
              && included == (!completedCycle && !IsComplete(a1[id].state))
              && (if included then
                    && trackers == Opened(a1, id) && currentTracker == id
                    && trackers[id].state == Executing && trackers[id].parent == c
                    && trackers[c].state == ExecutingChildren
                    && activeSections == old(activeSections) + [id]
                    && InBody(body[i].body, 0)
                  else trackers == a1 && currentTracker == c && activeSections == old(activeSections))
    {
      hide SectionRuns.Shape, TrackerArena.WellFormed, TrackerArena.Kids;
      ghost var a, c := trackers, currentTracker;
      ghost var a1, id := TrackerArena.Acquire(a, c, body[i].key), AcquiredChild(a, c, body[i].key);
      StatementFinds(a, c, body, i, completedCycle);
      AcquiredKeepsShape(body, i, Kids(a, c));
      if !completedCycle {
        SectionOpens(a1, c, body, i);
      }
      ConcatEmpty(activeSections);
      included := SectionStarted(body[i].key);
    }

    /** One SECTION statement of the body that is executing. */
    method RunStatement(body: seq<Section>, i: nat, path: Path, throws: Throws, cycle: nat) returns (thrown: bool)
      requires i < |body| && InBody(body, i)
      modifies this
      ensures Valid() && currentTracker == old(currentTracker) && !internalError
      ensures activeSections == old(activeSections) && cycles == old(cycles)
      ensures var c, a := currentTracker, old(trackers);
              var r := SectionRuns.RunStatement(body, i, path, throws, cycle, a[c].state, Kids(a, c), old(completedCycle));
              Ran(a, trackers, c, r) && Matches(r, thrown) && entered == old(entered) + r.entered
      decreases body, |body| - i, 0
    {
      hide SectionRuns.RunBody, SectionRuns.Shape, TrackerArena.WellFormed, TrackerArena.Kids;
      ghost var a, c, active := trackers, currentTracker, activeSections;
      var included := ReachStatement(body, i);
      thrown := false;
      if !included {
        SkippedStatementRan(a, c, body, i, path, throws, cycle, completedCycle);
        ConcatEmpty(entered);
      } else {
        ghost var a3;
        PopPush(active, currentTracker);
        thrown, a3 := RunSection(body[i], path + [i], throws, cycle);
        OpenedStatementRan(a, a3, c, body, i, path, throws, cycle);
      }
    }

    /** A section that has just been opened: its body, and then the end of the section, early or not. */
    method RunSection(s: Section, path: Path, throws: Throws, cycle: nat) returns (thrown: bool, ghost a3: Arena)
      requires InBody(s.body, 0) && trackers[currentTracker].state == Executing && !completedCycle
      requires activeSections != [] && activeSections[|activeSections| - 1] == currentTracker
      requires trackers[trackers[currentTracker].parent].state == ExecutingChildren
      modifies this
      ensures Valid() && !internalError && completedCycle && cycles == old(cycles)
      ensures currentTracker == old(trackers[currentTracker].parent)
      ensures activeSections == old(activeSections)[..|old(activeSections)| - 1]
      ensures var id, a2 := old(currentTracker), old(trackers);
              var sub := SectionRuns.RunBody(s.body, 0, path, throws, cycle, Executing, Kids(a2, id), false);
              && Ran(a2, a3, id, sub) && trackers == SectionLeft(a3, id, currentTracker, sub)
              && thrown == (sub.exit != Normal) && (unfinishedSections > 0 <==> thrown)
              && entered == old(entered) + if s.body == [] then [path] else sub.entered
      decreases s, 0
    {
      hide SectionRuns.RunBody, SectionRuns.Shape;
      ghost var a2, id, logged := trackers, currentTracker, entered;
      ghost var sub := SectionRuns.RunBody(s.body, 0, path, throws, cycle, Executing, Kids(a2, id), false);
      RunBodyIsGood(s.body, 0, path, throws, cycle, Executing, Kids(a2, id), false);
      if s.body == [] {
        entered := entered + [path];
        ConcatEmpty(entered);
      }
      thrown := RunBody(s.body, 0, path, throws, cycle);
      a3 := trackers;
      ParentIsOutside(a2, a3, id);
      EndSection(thrown, sub);
    }

    /** The Section object goes out of scope, with or without an exception in flight. */
    method EndSection(thrown: bool, ghost sub: Pass)
      requires Valid() && !internalError && 0 < currentTracker
      requires activeSections != [] && activeSections[|activeSections| - 1] == currentTracker
      requires trackers[trackers[currentTracker].parent].state == ExecutingChildren
      requires trackers[currentTracker].state == sub.state && Kids(trackers, currentTracker) == sub.kids
      requires sub.state != NotStarted && !IsComplete(sub.state)
      requires thrown == (sub.exit != Normal) && (unfinishedSections > 0 <==> sub.exit == ThrownBelow)
      modifies this`trackers, this`currentTracker, this`completedCycle, this`internalError
      modifies this`activeSections, this`unfinishedSections
      ensures Valid() && !internalError && completedCycle
      ensures currentTracker == old(trackers[currentTracker].parent)
      ensures trackers == SectionLeft(old(trackers), old(currentTracker), currentTracker, sub)
      ensures activeSections == old(activeSections)[..|old(activeSections)| - 1]
      ensures unfinishedSections > 0 <==> thrown
    {
      SectionLeftClosed(trackers, currentTracker, trackers[currentTracker].parent, sub);
      if thrown {
        SectionEndedEarly();
      } else {
        SectionEnded();
      }
    }

    /** The body from statement i on, as the test's own control flow runs it. */
    method RunBody(body: seq<Section>, i: nat, path: Path, throws: Throws, cycle: nat) returns (thrown: bool)
      requires InBody(body, i)
      modifies this
      ensures Valid() && currentTracker == old(currentTracker) && !internalError
      ensures activeSections == old(activeSections) && cycles == old(cycles)
      ensures var c, a := currentTracker, old(trackers);
              var r := SectionRuns.RunBody(body, i, path, throws, cycle, a[c].state, Kids(a, c), old(completedCycle));
              Ran(a, trackers, c, r) && Matches(r, thrown) && entered == old(entered) + r.entered
      decreases body, |body| - i, 1
    {
      hide SectionRuns.Shape, TrackerArena.WellFormed, TrackerArena.Kids;
      ghost var c, a, done, logged := currentTracker, trackers, completedCycle, entered;
      thrown := throws(cycle, path, i);
      if !thrown && i < |body| {
        RunStatementIsGood(body, i, path, throws, cycle, a[c].state, Kids(a, c), done);
        ghost var first := SectionRuns.RunStatement(body, i, path, throws, cycle, a[c].state, Kids(a, c), done);
        thrown := RunStatement(body, i, path, throws, cycle);
        if !thrown {
          ghost var a1 := trackers;
          ParentIsOutside(a, a1, c);
          thrown := RunBody(body, i + 1, path, throws, cycle);
          ghost var rest := SectionRuns.RunBody(body, i + 1, path, throws, cycle, first.state, first.kids, first.done);
          RanThenRan(a, a1, trackers, c, first, rest);
          ConcatAssociative(logged, first.entered, rest.entered);
        }
      }
    }

    /** With no active section left, `sectionEnded` closes nothing any more. */
    method HandleUnfinishedSections()
      requires Valid() && !internalError && activeSections == []
      modifies this`trackers, this`currentTracker, this`completedCycle, this`internalError
      modifies this`activeSections, this`unfinishedSections
      ensures Valid() && !internalError && activeSections == [] && unfinishedSections == 0
      ensures trackers == old(trackers) && currentTracker == old(currentTracker) && completedCycle == old(completedCycle)
    {
      while unfinishedSections > 0
        invariant Valid() && !internalError && activeSections == []
        invariant trackers == old(trackers) && currentTracker == old(currentTracker) && completedCycle == old(completedCycle)
      {
        SectionEnded();
        unfinishedSections := unfinishedSections - 1;
      }
    }

    /** One cycle of the test case whose tracker is current: an exception that reaches it is swallowed. */
    method RunCurrentTest(program: seq<Section>, throws: Throws)
      requires InBody(program, 0) && trackers[currentTracker].state == Executing && !completedCycle && activeSections == []
      modifies this
      ensures Valid() && !internalError && activeSections == [] && unfinishedSections == 0 && cycles == old(cycles)
      ensures var test, a := old(currentTracker), old(trackers);
              var r := Cycle(program, throws, cycles, Kids(a, test));
              && SameOutside(a, trackers, test) && trackers[test].key == a[test].key && trackers[test].parent == a[test].parent
              && trackers[test].state == Closed(r.state, r.kids) && Kids(trackers, test) == r.kids
              && entered == old(entered) + r.entered
    {
      ghost var a := trackers;
      var test := currentTracker;
      RunBodyIsGood(program, 0, [], throws, cycles, Executing, Kids(a, test), false);
      var thrown := RunBody(program, 0, [], throws, cycles);
      ghost var a1 := trackers;
      Close(test);
      SetStateKids(a1, test, trackers[test].state, test);
      HandleUnfinishedSections();
    }

    /** The children of the test case's tracker, which does not exist before the first cycle. */
    ghost function TestKids(): seq<Tracker>
      reads this
      requires Valid()
    {
      if |trackers| == 1 then [] else Kids(trackers, 1)
    }

    /** Between two cycles of a run of `program`. */
    ghost predicate BetweenCycles(program: seq<Section>, test: NameAndLocation)
      reads this
    {
      && Valid() && !internalError && activeSections == [] && unfinishedSections == 0
      && trackers[0].kids == (if |trackers| == 1 then [] else [1])
      && (|trackers| > 1 ==> trackers[1].key == test && !IsComplete(trackers[1].state))
      && Shape(program, TestKids())
    }

    /** `startCycle`, and the test case's own tracker acquired under the root. */
    method StartCycle(ghost program: seq<Section>, test: NameAndLocation)
      requires BetweenCycles(program, test) && DistinctKeys(program)
      modifies this`trackers, this`currentTracker, this`completedCycle
      ensures currentTracker == 1 && InBody(program, 0) && !completedCycle
      ensures trackers[0].kids == [1] && trackers[1].key == test && trackers[1].parent == 0
      ensures trackers[1].state == Executing && Kids(trackers, 1) == old(TestKids())
    {
      hide WellFormed, Kids, MarkedAbove, Shape, DistinctKeys, TrackerArena.Acquire, AcquiredChild, Opened;
      OnlyChildOpens(trackers, test);
      currentTracker := 0;
      completedCycle := false;
      var _ := Acquire(test);
    }

    /** One turn of the run loop. */
    method RunCycle(program: seq<Section>, test: NameAndLocation, throws: Throws) returns (completed: bool)
      requires BetweenCycles(program, test) && DistinctKeys(program)
      modifies this
      ensures Valid() && !internalError && cycles == old(cycles) + 1
      ensures var r := Cycle(program, throws, old(cycles), old(TestKids()));
              && TestKids() == r.kids && entered == old(entered) + r.entered
              && completed == (Closed(r.state, r.kids) == CompletedSuccessfully)
      ensures completed || BetweenCycles(program, test)
    {
      hide WellFormed, Kids, Shape, DistinctKeys, Cycle, Ready, MarkedAbove, Under;
      CycleAdvances(program, throws, cycles, TestKids());
      StartCycle(program, test);
      RootIsNotUnder(trackers, 1);
      RunCurrentTest(program, throws);
      completed := trackers[1].state == CompletedSuccessfully;
      cycles := cycles + 1;
    }

    lemma NoTrackersYet(program: seq<Section>, test: NameAndLocation)
      requires Valid() && |trackers| == 1 && trackers[0].kids == [] && !internalError
      requires activeSections == [] && unfinishedSections == 0
      ensures BetweenCycles(program, test) && TestKids() == []
    {
      hide Valid;
    }

    /** `runTest`: cycle after cycle until the test case's tracker is successfully completed. */
    method RunTest(program: seq<Section>, test: NameAndLocation, throws: Throws)
      requires DistinctKeys(program)
      requires Valid() && |trackers| == 1 && trackers[0].kids == [] && !internalError
      requires activeSections == [] && unfinishedSections == 0 && entered == [] && cycles == 0
      modifies this
      ensures Valid() && !internalError
      ensures var log := Run(program, throws, 0, []);
              entered == log.entered && cycles == log.cycles && TestKids() == log.kids
      ensures cycles <= SectionCount(program) + 1 && NoRepeats(entered)
      ensures forall p :: p in LeafPaths(program, 0, []) ==> p in entered || !CalmUpTo(throws, cycles, p)
      ensures Accounted(program, [], TestKids(), throws, cycles)
      ensures NeverThrows(throws) ==>
        var leaves := LeafPaths(program, 0, []); entered == leaves && cycles == if leaves == [] then 1 else |leaves|
    {
      hide *;
      RunCycles(program, test, throws);
      RunLaws(program, throws);
    }

    /** The loop. */
    method RunCycles(program: seq<Section>, test: NameAndLocation, throws: Throws)
      requires DistinctKeys(program)
      requires Valid() && |trackers| == 1 && trackers[0].kids == [] && !internalError
      requires activeSections == [] && unfinishedSections == 0 && entered == [] && cycles == 0
      modifies this
      ensures Valid() && !internalError
      ensures var log := Run(program, throws, 0, []);
              entered == log.entered && cycles == log.cycles && TestKids() == log.kids
    {
      hide *;
      NoTrackersYet(program, test);
      RunStarts(program, throws);
      ghost var log := Run(program, throws, 0, []);
      var completed := false;
      while !completed
        invariant Valid() && !internalError && (completed || BetweenCycles(program, test))
        invariant completed ==> entered == log.entered && cycles == log.cycles && TestKids() == log.kids
        invariant !completed ==> Shape(program, TestKids()) && LeadsTo(log, Run(program, throws, cycles, TestKids()), entered)
        decreases !completed, SectionCount(program) - Done(TestKids())
      {
        ghost var kids, logged := TestKids(), entered;
        CycleAdvances(program, throws, cycles, kids);
        RunStep(program, throws, cycles, kids, log, logged);
        completed := RunCycle(program, test, throws);
      }
    }
  }

  /** From here, with what was entered so far, the rest of a run is this. */
  ghost predicate LeadsTo(log: RunLog, rest: RunLog, logged: seq<Path>) {
    rest.cycles == log.cycles && rest.kids == log.kids && logged + rest.entered == log.entered
  }

  lemma RunStarts(program: seq<Section>, throws: Throws)
    ensures Shape(program, []) && var log := Run(program, throws, 0, []); LeadsTo(log, log, [])
  {
    hide Run;
  }

  /** One cycle of a run, and the rest. */
  lemma RunStep(program: seq<Section>, throws: Throws, cycle: nat, kids: seq<Tracker>, log: RunLog, logged: seq<Path>)
    requires Shape(program, kids) && LeadsTo(log, Run(program, throws, cycle, kids), logged)
    ensures var r := Cycle(program, throws, cycle, kids);
            && Shape(program, r.kids)
            && (Closed(r.state, r.kids) == CompletedSuccessfully ==>
                  logged + r.entered == log.entered && cycle + 1 == log.cycles && r.kids == log.kids)
            && (Closed(r.state, r.kids) != CompletedSuccessfully ==>
                  LeadsTo(log, Run(program, throws, cycle + 1, r.kids), logged + r.entered))
  {
    var r := Cycle(program, throws, cycle, kids);
    CycleAdvances(program, throws, cycle, kids);
    hide SectionRuns.Cycle, Shape, SectionRuns.Closed;
    if Closed(r.state, r.kids) != CompletedSuccessfully {
      ConcatAssociative(logged, r.entered, Run(program, throws, cycle + 1, r.kids).entered);
    }
  }

  /** What is proved of all runs, in one place. */
  lemma RunLaws(program: seq<Section>, throws: Throws)
    ensures var log := Run(program, throws, 0, []);
            && log.cycles <= SectionCount(program) + 1 && NoRepeats(log.entered)
            && (forall p :: p in LeafPaths(program, 0, []) ==> p in log.entered || !CalmUpTo(throws, log.cycles, p))
            && Accounted(program, [], log.kids, throws, log.cycles)
            && (NeverThrows(throws) ==>
                  var leaves := LeafPaths(program, 0, []);
                  log.entered == leaves && log.cycles == if leaves == [] then 1 else |leaves|)
  {
    ThrowingRunsEnd(program, throws);
    ThrowingRunsDeliver(program, throws);
    RunsAreAccounted(program, throws);
    if NeverThrows(throws) {
      CleanRunsVisitEveryLeafOnce(program, throws);
    }
  }
}
