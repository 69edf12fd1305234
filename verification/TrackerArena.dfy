/** The tracker objects of one run.  Trackers are created one after the other
  * and never deleted while the run lasts, so a pointer to a tracker is its
  * creation index; index 0 is the root tracker, the only one without a parent.
  */
module TrackerArena {
  import opened SectionRuns

  datatype Node = Node(key: NameAndLocation, parent: nat, kids: seq<nat>, state: CycleState)

  type Arena = seq<Node>

  /** Parents are older than their children, and the two pointers agree. */
  ghost predicate WellFormed(a: Arena) {
    && a != []
    && (forall i :: 0 < i < |a| ==> a[i].parent < i)
    && (forall i, x :: 0 <= i < |a| && 0 <= x < |a[i].kids| ==>
          i < a[i].kids[x] < |a| && a[a[i].kids[x]].parent == i)
    && (forall i {:trigger Increasing(a[i].kids)} :: 0 <= i < |a| ==> Increasing(a[i].kids))
  }

  ghost predicate Increasing(kids: seq<nat>) {
    forall x, y :: 0 <= x < y < |kids| ==> kids[x] < kids[y]
  }

  /** The tracker tree below index i. */
  ghost function Tree(a: Arena, i: nat): Tracker
    requires WellFormed(a) && i < |a|
    decreases |a| - i, 1
  {
    Tracker(a[i].key, a[i].state, Kids(a, i))
  }

  ghost function Kids(a: Arena, i: nat): seq<Tracker>
    requires WellFormed(a) && i < |a|
    decreases |a| - i, 0
  {
    seq(|a[i].kids|, x requires 0 <= x < |a[i].kids| => Tree(a, a[i].kids[x]))
  }

  /** j is `top` or one of its descendants. */
  ghost predicate Under(a: Arena, top: nat, j: nat)
    requires WellFormed(a) && j < |a|
    decreases j
  {
    j == top || (j > 0 && Under(a, top, a[j].parent))
  }

  lemma {:induction false} UnderIsLater(a: Arena, top: nat, j: nat)
    requires WellFormed(a) && j < |a| && Under(a, top, j)
    ensures top <= j
    decreases j
  {
    if j != top {
      UnderIsLater(a, top, a[j].parent);
    }
  }

  lemma {:induction false} UnderTransitive(a: Arena, top: nat, mid: nat, j: nat)
    requires WellFormed(a) && j < |a| && mid < |a| && Under(a, mid, j) && Under(a, top, mid)
    ensures Under(a, top, j)
    decreases j
  {
    if j != mid {
      UnderTransitive(a, top, mid, a[j].parent);
    }
  }

  lemma {:induction false} SiblingsApart(a: Arena, k: nat, k': nat, j: nat)
    requires WellFormed(a) && 0 < k < |a| && 0 < k' < |a| && k != k' && a[k].parent == a[k'].parent
    requires j < |a| && Under(a, k, j)
    ensures !Under(a, k', j)
    decreases j
  {
    if j == k {
      if Under(a, k', j) {
        UnderIsLater(a, k', a[k].parent);
      }
    } else {
      if j == k' {
        UnderIsLater(a, k, a[k'].parent);
      }
      SiblingsApart(a, k, k', a[j].parent);
    }
  }

  /** Every record that existed is unchanged, except below `top`. */
  ghost predicate SameOutside(a: Arena, a': Arena, top: nat)
    requires WellFormed(a)
  {
    |a| <= |a'| && forall j :: 0 <= j < |a| && !Under(a, top, j) ==> a'[j] == a[j]
  }

  lemma {:induction false} TreeFrame(a: Arena, a': Arena, k: nat)
    requires WellFormed(a) && WellFormed(a') && k < |a| <= |a'|
    requires forall j :: 0 <= j < |a| && Under(a, k, j) ==> a'[j] == a[j]
    ensures Tree(a', k) == Tree(a, k)
    decreases |a| - k
  {
    assert Under(a, k, k);
    forall x | 0 <= x < |a[k].kids| ensures Tree(a', a'[k].kids[x]) == Tree(a, a[k].kids[x]) {
      var c := a[k].kids[x];
      assert Under(a, k, c);
      forall j | 0 <= j < |a| && Under(a, c, j) ensures a'[j] == a[j] {
        UnderTransitive(a, k, c, j);
      }
      TreeFrame(a, a', c);
    }
  }

  /** When only what lies below the x-th child of c changed (and c's state), only that child's tree did. */
  lemma KidsAfterChange(a: Arena, a': Arena, c: nat, x: nat)
    requires WellFormed(a) && WellFormed(a') && c < |a| <= |a'| && x < |a[c].kids|
    requires a'[c].kids == a[c].kids
    requires forall j :: 0 <= j < |a| && j != c && !Under(a, a[c].kids[x], j) ==> a'[j] == a[j]
    ensures Kids(a', c) == Kids(a, c)[x := Tree(a', a[c].kids[x])]
  {
    assert Increasing(a[c].kids);
    forall y | 0 <= y < |a[c].kids| && y != x ensures Kids(a', c)[y] == Kids(a, c)[y] {
      var k := a[c].kids[y];
      forall j | 0 <= j < |a| && Under(a, k, j) ensures a'[j] == a[j] {
        SiblingsApart(a, k, a[c].kids[x], j);
        UnderIsLater(a, k, j);
      }
      TreeFrame(a, a', k);
    }
  }

  // ---------- the tracker operations on records ----------

  function SetState(a: Arena, i: nat, state: CycleState): Arena
    requires i < |a|
  {
    a[i := a[i].(state := state)]
  }

  /** `openChild`: mark i and its ancestors, up to the first one already marked. */
  function OpenedChild(a: Arena, i: nat): (a': Arena)
    requires WellFormed(a) && i < |a|
    ensures |a'| == |a|
    decreases i
  {
    if a[i].state == ExecutingChildren then a
    else
      var a1 := SetState(a, i, ExecutingChildren);
      SetStateIsWellFormed(a, i, ExecutingChildren);
      if i == 0 then a1 else OpenedChild(a1, a[i].parent)
  }

  function Created(a: Arena, parent: nat, key: NameAndLocation): Arena
    requires parent < |a|
  {
    a[parent := a[parent].(kids := a[parent].kids + [|a|])] + [Node(key, parent, [], NotStarted)]
  }

  /** `findChild`: the position of the first child with this key, or the number of children. */
  function ChildWithKey(a: Arena, c: nat, key: NameAndLocation, x: nat): (y: nat)
    requires WellFormed(a) && c < |a| && x <= |a[c].kids|
    ensures x <= y <= |a[c].kids|
    ensures forall z :: x <= z < y ==> a[a[c].kids[z]].key != key
    ensures y < |a[c].kids| ==> a[a[c].kids[y]].key == key
    decreases |a[c].kids| - x
  {
    if x == |a[c].kids| || a[a[c].kids[x]].key == key then x else ChildWithKey(a, c, key, x + 1)
  }

  /** The arena in which c has a child with this key. */
  ghost function Acquire(a: Arena, c: nat, key: NameAndLocation): Arena
    requires WellFormed(a) && c < |a|
  {
    if ChildWithKey(a, c, key, 0) < |a[c].kids| then a else Created(a, c, key)
  }

  /** That child. */
  ghost function AcquiredChild(a: Arena, c: nat, key: NameAndLocation): nat
    requires WellFormed(a) && c < |a|
  {
    var x := ChildWithKey(a, c, key, 0);
    if x < |a[c].kids| then a[c].kids[x] else |a|
  }

  /** With distinct keys, statement i finds the i-th tracker. */
  lemma FoundInOrder(a: Arena, c: nat, body: seq<Section>, i: nat)
    requires WellFormed(a) && c < |a| && i < |body| && i <= |a[c].kids| <= |body| && DistinctKeys(body)
    requires forall x :: 0 <= x < |a[c].kids| ==> Kids(a, c)[x].key == body[x].key
    ensures var a1, id := Acquire(a, c, body[i].key), AcquiredChild(a, c, body[i].key);
            && WellFormed(a1) && i < |a1[c].kids| && id == a1[c].kids[i]
            && Kids(a1, c) == Acquired(body, i, Kids(a, c))
  {
    var x := ChildWithKey(a, c, body[i].key, 0);
    assert forall z :: 0 <= z < |a[c].kids| ==> a[a[c].kids[z]].key == Kids(a, c)[z].key;
    if x == |a[c].kids| {
      CreatedIsWellFormed(a, c, body[i].key);
      CreatedKids(a, c, body[i].key);
    }
  }

  lemma SetStateIsWellFormed(a: Arena, i: nat, state: CycleState)
    requires WellFormed(a) && i < |a|
    ensures WellFormed(SetState(a, i, state))
  {
    var a' := SetState(a, i, state);
    forall j | 0 <= j < |a'| ensures Increasing(a'[j].kids) {
      assert Increasing(a[j].kids);
    }
  }

  lemma CreatedIsWellFormed(a: Arena, parent: nat, key: NameAndLocation)
    requires WellFormed(a) && parent < |a|
    ensures WellFormed(Created(a, parent, key))
  {
    var a' := Created(a, parent, key);
    forall i, x | 0 <= i < |a'| && 0 <= x < |a'[i].kids|
      ensures i < a'[i].kids[x] < |a'| && a'[a'[i].kids[x]].parent == i
    {
      assert i < |a| && (x < |a[i].kids| ==> a'[i].kids[x] == a[i].kids[x]);
    }
    forall i | 0 <= i < |a'| ensures Increasing(a'[i].kids) {
      assert i < |a| ==> Increasing(a[i].kids);
    }
  }

  lemma CreatedKids(a: Arena, c: nat, key: NameAndLocation)
    requires WellFormed(a) && c < |a| && WellFormed(Created(a, c, key))
    ensures Kids(Created(a, c, key), c) == Kids(a, c) + [Tracker(key, NotStarted, [])]
  {
    var a' := Created(a, c, key);
    forall y | 0 <= y < |a[c].kids| ensures Kids(a', c)[y] == Kids(a, c)[y] {
      var k := a[c].kids[y];
      forall j | 0 <= j < |a| && Under(a, k, j) ensures a'[j] == a[j] {
        UnderIsLater(a, k, j);
      }
      TreeFrame(a, a', k);
    }
    assert Kids(a', |a|) == [];
    assert Tree(a', |a|) == Tracker(key, NotStarted, []);
  }

  lemma {:induction false} UnderSameParents(a: Arena, a': Arena, top: nat, j: nat)
    requires WellFormed(a) && WellFormed(a') && j < |a| <= |a'|
    requires forall x :: 0 <= x < |a| ==> a'[x].parent == a[x].parent
    ensures Under(a', top, j) == Under(a, top, j)
    decreases j
  {
    if j > 0 {
      UnderSameParents(a, a', top, a[j].parent);
    }
  }

  /** A state change at i is invisible among the children of j >= i. */
  lemma SetStateKids(a: Arena, i: nat, state: CycleState, j: nat)
    requires WellFormed(a) && i <= j < |a| && WellFormed(SetState(a, i, state))
    ensures Kids(SetState(a, i, state), j) == Kids(a, j)
  {
    var a' := SetState(a, i, state);
    forall x | 0 <= x < |a[j].kids| ensures Kids(a', j)[x] == Kids(a, j)[x] {
      var k := a[j].kids[x];
      forall y | 0 <= y < |a| && Under(a, k, y) ensures a'[y] == a[y] {
        UnderIsLater(a, k, y);
      }
      TreeFrame(a, a', k);
    }
  }

  /** `open` of a child of c, when what lies above c is already marked. */
  function Opened(a: Arena, id: nat): Arena
    requires WellFormed(a) && id < |a|
  {
    var a1 := SetState(a, id, Executing);
    SetStateIsWellFormed(a, id, Executing);
    if id == 0 then a1 else OpenedChild(a1, a[id].parent)
  }

  ghost predicate MarkedAbove(a: Arena, c: nat)
    requires WellFormed(a) && c < |a|
  {
    c > 0 ==> a[a[c].parent].state == ExecutingChildren
  }

  lemma OpenedIsWellFormed(a: Arena, c: nat, id: nat)
    requires WellFormed(a) && 0 < id < |a| && a[id].parent == c && MarkedAbove(a, c)
    ensures WellFormed(Opened(a, id)) && MarkedAbove(Opened(a, id), id)
    ensures Opened(a, id) == SetState(SetState(a, id, Executing), c, ExecutingChildren)
  {
    var a1 := SetState(a, id, Executing);
    var a2 := SetState(a1, c, ExecutingChildren);
    if a1[c].state == ExecutingChildren {
      assert a2 == a1;
    } else if c > 0 {
      assert OpenedChild(a2, a[c].parent) == a2;
    }
    SetStateIsWellFormed(a, id, Executing);
    SetStateIsWellFormed(a1, c, ExecutingChildren);
  }

  /** What is left when trackers are closed one after the other, or one of them cannot be. */
  datatype Closing = Closing(arena: Arena, current: nat, closedAny: bool, error: bool)

  /** Closing c and then its ancestors up to top, each by its own state and last child. */
  ghost function ClosedUpTo(a: Arena, c: nat, top: nat, closedAny: bool): (r: Closing)
    requires WellFormed(a) && 0 < top && c < |a| && Under(a, top, c)
    ensures WellFormed(r.arena) && |r.arena| == |a|
    decreases c
  {
    UnderIsLater(a, top, c);
    if a[c].state == NotStarted || IsComplete(a[c].state) then Closing(a, c, closedAny, true)
    else
      var a' := SetState(a, c, Closed(a[c].state, Kids(a, c)));
      SetStateIsWellFormed(a, c, Closed(a[c].state, Kids(a, c)));
      if c == top then Closing(a', a[c].parent, true, false)
      else
        UnderSameParents(a, a', top, a[c].parent);
        ClosedUpTo(a', a[c].parent, top, true)
  }

  /** Acquiring the only tracker below the root, new or from earlier cycles, opens it. */
  lemma OnlyChildOpens(a: Arena, key: NameAndLocation)
    requires WellFormed(a) && a[0].kids == (if |a| == 1 then [] else [1])
    requires |a| > 1 ==> a[1].key == key && !IsComplete(a[1].state)
    ensures var a1 := Acquire(a, 0, key);
            && AcquiredChild(a, 0, key) == 1 < |a1| && WellFormed(a1) && !IsComplete(a1[1].state)
            && var a2 := Opened(a1, 1);
            && WellFormed(a2) && |a2| == |a1| && MarkedAbove(a2, 1) && a2[0].kids == [1]
            && a2[1].key == key && a2[1].parent == 0 && a2[1].state == Executing
            && Kids(a2, 1) == if |a| == 1 then [] else Kids(a, 1)
  {
    var a1 := Acquire(a, 0, key);
    if |a| == 1 {
      CreatedIsWellFormed(a, 0, key);
      assert Kids(a1, 1) == [];
    }
    OpenedIsWellFormed(a1, 0, 1);
    SetStateIsWellFormed(a1, 1, Executing);
    SetStateKids(a1, 1, Executing, 1);
    SetStateKids(SetState(a1, 1, Executing), 0, ExecutingChildren, 1);
  }

  lemma RootIsNotUnder(a: Arena, i: nat)
    requires WellFormed(a) && 0 < i < |a|
    ensures !Under(a, i, 0)
  {
  }

  /** What a whole section does: c's child `id` was opened (a1 to a2), its body
    * ran (a2 to a3, touching only what is below id), and it was left (a3 to a4).
    */
  lemma SectionEffect(a1: Arena, a2: Arena, a3: Arena, a4: Arena, c: nat, x: nat, state: CycleState, end: CycleState)
    requires WellFormed(a1) && WellFormed(a2) && WellFormed(a3) && WellFormed(a4)
    requires c < |a1| && x < |a1[c].kids| && state != Executing
    requires var id := a1[c].kids[x];
             && a2 == SetState(SetState(a1, id, Executing), c, ExecutingChildren)
             && SameOutside(a2, a3, id) && a3[id].key == a1[id].key && a3[id].parent == c
             && a4 == SetState(SetState(a3, id, end), c, state)
    ensures Kids(a4, c) == Kids(a1, c)[x := Tracker(a1[a1[c].kids[x]].key, end, Kids(a3, a1[c].kids[x]))]
    ensures SameOutside(a1, a4, c) && a4[c] == a1[c].(state := state)
  {
    var id := a1[c].kids[x];
    assert !Under(a2, id, c) by {
      if Under(a2, id, c) { UnderIsLater(a2, id, c); }
    }
    forall j | 0 <= j < |a1| && j != c && !Under(a1, id, j) ensures a4[j] == a1[j] {
      UnderSameParents(a1, a2, id, j);
    }
    KidsAfterChange(a1, a4, c, x);
    var a5 := SetState(a3, id, end);
    SetStateIsWellFormed(a3, id, end);
    SetStateKids(a3, id, end, id);
    SetStateKids(a5, c, state, id);
    forall j | 0 <= j < |a1| && !Under(a1, c, j) ensures a4[j] == a1[j] {
      if Under(a1, id, j) {
        assert Under(a1, c, c);
        UnderTransitive(a1, c, id, j);
      }
    }
  }

  lemma ParentIsOutside(a: Arena, a': Arena, c: nat)
    requires WellFormed(a) && WellFormed(a') && 0 < c < |a|
    requires SameOutside(a, a', c) && a'[c].parent == a[c].parent
    ensures a'[a[c].parent] == a[a[c].parent]
  {
    if Under(a, c, a[c].parent) {
      UnderIsLater(a, c, a[c].parent);
    }
  }

  lemma SameOutsideTransitive(a: Arena, a': Arena, a'': Arena, c: nat)
    requires WellFormed(a) && WellFormed(a') && c < |a|
    requires SameOutside(a, a', c) && SameOutside(a', a'', c) && a'[c].parent == a[c].parent
    ensures SameOutside(a, a'', c)
  {
    forall j | 0 <= j < |a| && !Under(a, c, j) ensures a''[j] == a[j] {
      StillOutside(a, a', c, j);
    }
  }

  lemma {:induction false} StillOutside(a: Arena, a': Arena, c: nat, j: nat)
    requires WellFormed(a) && WellFormed(a') && c < |a|
    requires SameOutside(a, a', c) && j < |a| && !Under(a, c, j)
    ensures !Under(a', c, j)
    decreases j
  {
    if j > 0 {
      StillOutside(a, a', c, a[j].parent);
    }
  }

  /** Reaching statement i below tracker c: what is found, and what a section that can run finds open. */
  lemma StatementFinds(a: Arena, c: nat, body: seq<Section>, i: nat, done: bool)
    requires WellFormed(a) && c < |a| && i < |body| && DistinctKeys(body)
    requires Ready(body, i, Kids(a, c), done)
    ensures var a1, id := Acquire(a, c, body[i].key), AcquiredChild(a, c, body[i].key);
            && WellFormed(a1) && i < |a1[c].kids| && id == a1[c].kids[i]
            && Kids(a1, c) == Acquired(body, i, Kids(a, c))
            && SameOutside(a, a1, c) && a1[c] == a[c].(kids := a1[c].kids)
            && a1[id].state == Kids(a1, c)[i].state && a1[id].key == Kids(a1, c)[i].key
            && (done ==> a1[id].state == NotStarted || IsComplete(a1[id].state))
  {
    forall x | 0 <= x < |a[c].kids| ensures Kids(a, c)[x].key == body[x].key {
      assert ShapeOf(body[x], Kids(a, c)[x]);
    }
    FoundInOrder(a, c, body, i);
    var a1, id := Acquire(a, c, body[i].key), AcquiredChild(a, c, body[i].key);
    assert Kids(a1, c)[i] == Tree(a1, id);
    assert Under(a, c, c);
  }

  lemma SectionOpens(a1: Arena, c: nat, body: seq<Section>, i: nat)
    requires WellFormed(a1) && c < |a1| && i < |a1[c].kids| && i < |body| && DistinctKeys(body)
    requires Shape(body, Kids(a1, c)) && MarkedAbove(a1, c)
    ensures var id := a1[c].kids[i];
            var a2 := Opened(a1, id);
            && a2 == SetState(SetState(a1, id, Executing), c, ExecutingChildren)
            && WellFormed(a2) && MarkedAbove(a2, id)
            && a2[id].state == Executing && a2[id].parent == c && a2[c].state == ExecutingChildren
            && Kids(a2, id) == Kids(a1, c)[i].kids
            && Ready(body[i].body, 0, Kids(a2, id), false) && DistinctKeys(body[i].body)
  {
    var id := a1[c].kids[i];
    OpenedIsWellFormed(a1, c, id);
    var a3 := SetState(a1, id, Executing);
    SetStateIsWellFormed(a1, id, Executing);
    SetStateKids(a1, id, Executing, id);
    SetStateKids(a3, c, ExecutingChildren, id);
    assert Kids(a1, c)[i] == Tree(a1, id);
    assert ShapeOf(body[i], Kids(a1, c)[i]);
  }

  /** From arena a to arena a', the tracker c has had the pass r, and nothing outside it changed. */
  ghost predicate Ran(a: Arena, a': Arena, c: nat, r: Pass)
    requires WellFormed(a) && c < |a|
  {
    && WellFormed(a') && SameOutside(a, a', c)
    && a'[c].key == a[c].key && a'[c].parent == a[c].parent
    && a'[c].state == r.state && Kids(a', c) == r.kids
  }

  /** The statement whose section cannot be opened now. */
  lemma SkippedStatementRan(a: Arena, c: nat, body: seq<Section>, i: nat, path: Path, throws: Throws, cycle: nat, done: bool)
    requires WellFormed(a) && c < |a| && i < |body| && DistinctKeys(body) && Ready(body, i, Kids(a, c), done)
    requires done || IsComplete(Acquire(a, c, body[i].key)[AcquiredChild(a, c, body[i].key)].state)
    ensures var r := RunStatement(body, i, path, throws, cycle, a[c].state, Kids(a, c), done);
            Ran(a, Acquire(a, c, body[i].key), c, r) && r.exit == Normal && r.done == done && r.entered == []
  {
    StatementFinds(a, c, body, i, done);
  }

  /** The statement whose section is opened, run (to a3, by the pass sub) and left. */
  lemma OpenedStatementRan(a: Arena, a3: Arena, c: nat, body: seq<Section>, i: nat, path: Path, throws: Throws, cycle: nat)
    requires WellFormed(a) && c < |a| && i < |body| && DistinctKeys(body)
    requires Ready(body, i, Kids(a, c), false) && MarkedAbove(a, c)
    requires var a1, id := Acquire(a, c, body[i].key), AcquiredChild(a, c, body[i].key);
             && WellFormed(a1) && id < |a1| && !IsComplete(a1[id].state)
             && WellFormed(Opened(a1, id))
             && Ran(Opened(a1, id), a3, id, RunBody(body[i].body, 0, path + [i], throws, cycle, Executing, Kids(Opened(a1, id), id), false))
    ensures var a1, id := Acquire(a, c, body[i].key), AcquiredChild(a, c, body[i].key);
            var sub := RunBody(body[i].body, 0, path + [i], throws, cycle, Executing, Kids(Opened(a1, id), id), false);
            var r := RunStatement(body, i, path, throws, cycle, a[c].state, Kids(a, c), false);
            && c < |a3| && id < |a3|
            && Ran(a, SectionLeft(a3, id, c, sub), c, r)
            && r.done && (r.exit == Normal <==> sub.exit == Normal)
            && r.exit != ThrownHere
            && r.entered == if body[i].body == [] then [path + [i]] else sub.entered
  {
    var a1, id := Acquire(a, c, body[i].key), AcquiredChild(a, c, body[i].key);
    StatementFinds(a, c, body, i, false);
    AcquiredKeepsShape(body, i, Kids(a, c));
    SectionOpens(a1, c, body, i);
    var sub := RunBody(body[i].body, 0, path + [i], throws, cycle, Executing, Kids(Opened(a1, id), id), false);
    SetStateIsWellFormed(a3, id, Ended(a3[id].key, sub).state);
    SetStateIsWellFormed(SetState(a3, id, Ended(a3[id].key, sub).state), c, ExecutingChildren);
    SetStateIsWellFormed(SetState(a3, id, Ended(a3[id].key, sub).state), c, NeedsAnotherRun);
    SectionEffect(a1, Opened(a1, id), a3, SectionLeft(a3, id, c, sub), c, i,
                  if sub.exit == ThrownHere then NeedsAnotherRun else ExecutingChildren, Ended(a3[id].key, sub).state);
    SameOutsideTransitive(a, a1, SectionLeft(a3, id, c, sub), c);
  }

  /** The arena once section `id` below c, whose body ran as `sub`, has ended. */
  function SectionLeft(a3: Arena, id: nat, c: nat, sub: Pass): Arena
    requires c < |a3| && id < |a3|
  {
    SetState(SetState(a3, id, Ended(a3[id].key, sub).state), c,
             if sub.exit == ThrownHere then NeedsAnotherRun else ExecutingChildren)
  }

  lemma SectionLeftClosed(a3: Arena, id: nat, c: nat, sub: Pass)
    requires WellFormed(a3) && c < id < |a3| && a3[c].state == ExecutingChildren
    requires a3[id].state == sub.state && Kids(a3, id) == sub.kids
    ensures SectionLeft(a3, id, c, sub) ==
            if sub.exit == ThrownHere then SetState(SetState(a3, id, Failed), c, NeedsAnotherRun)
            else SetState(a3, id, Closed(a3[id].state, Kids(a3, id)))
  {
    var a4 := SetState(a3, id, Closed(a3[id].state, Kids(a3, id)));
    assert SetState(a4, c, ExecutingChildren) == a4;
  }

  lemma RanThenRan(a: Arena, a1: Arena, a2: Arena, c: nat, first: Pass, rest: Pass)
    requires WellFormed(a) && c < |a| && Ran(a, a1, c, first) && Ran(a1, a2, c, rest)
    ensures Ran(a, a2, c, rest.(entered := first.entered + rest.entered))
  {
    SameOutsideTransitive(a, a1, a2, c);
  }

  lemma ConcatAssociative<T>(a: seq<T>, b: seq<T>, c: seq<T>)
    ensures a + b + c == a + (b + c)
  {
  }

  lemma ConcatEmpty<T>(a: seq<T>)
    ensures a + [] == a
  {
  }

  lemma PopPush<T>(a: seq<T>, x: T)
    ensures (a + [x])[..|a + [x]| - 1] == a
  {
  }
}
