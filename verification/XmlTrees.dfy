/** Deleting and copying whole subtrees of tinyxml2's DOM. */
module XmlTrees {
  import opened XmlDom

  /** A node with the trees below it. */
  datatype Tree = Tree(root: XMLNode, below: seq<Tree>)

  /** What a tree says apart from its nodes. */
  datatype Value = Value(value: string, below: seq<Value>)

  ghost function Roots(ts: seq<Tree>): (r: seq<XMLNode>)
    ensures |r| == |ts|
    ensures forall i :: 0 <= i < |ts| ==> r[i] == ts[i].root
  {
    if ts == [] then [] else [ts[0].root] + Roots(ts[1..])
  }

  ghost function NodesOf(ts: seq<Tree>): set<XMLNode> {
    if ts == [] then {} else {ts[0].root} + NodesOf(ts[0].below) + NodesOf(ts[1..])
  }

  ghost function ValuesOf(ts: seq<Tree>): seq<Value> {
    if ts == [] then [] else [Value(ts[0].root.value, ValuesOf(ts[0].below))] + ValuesOf(ts[1..])
  }

  /** The trees are there, and no node is in two places. */
  ghost predicate Planted(dom: Dom, ts: seq<Tree>) {
    ts == [] ||
    (&& ts[0].root in dom && dom[ts[0].root].kids == Roots(ts[0].below)
     && Planted(dom, ts[0].below) && Planted(dom, ts[1..])
     && ts[0].root !in NodesOf(ts[0].below) + NodesOf(ts[1..])
     && NodesOf(ts[0].below) !! NodesOf(ts[1..]))
  }

  lemma {:induction false} PlantedStays(dom: Dom, dom': Dom, ts: seq<Tree>)
    requires Planted(dom, ts)
    requires forall n :: n in NodesOf(ts) ==> n in dom && n in dom' && dom'[n].kids == dom[n].kids
    ensures Planted(dom', ts)
  {
    if ts != [] {
      PlantedStays(dom, dom', ts[0].below);
      PlantedStays(dom, dom', ts[1..]);
    }
  }

  lemma {:induction false} PlantedThere(dom: Dom, ts: seq<Tree>)
    requires Planted(dom, ts)
    ensures NodesOf(ts) <= dom.Keys
  {
    if ts != [] {
      PlantedThere(dom, ts[0].below);
      PlantedThere(dom, ts[1..]);
    }
  }

  // ---------- deleting ----------

  /** The order in which nodes go back to the pool: children before their parent. */
  ghost function PostOrder(ts: seq<Tree>): seq<XMLNode> {
    if ts == [] then [] else PostOrder(ts[0].below) + [ts[0].root] + PostOrder(ts[1..])
  }

  lemma DistinctJoin<T>(a: seq<T>, x: T, b: seq<T>)
    requires Distinct(a) && Distinct(b) && x !in a && x !in b && forall y :: y in a ==> y !in b
    ensures Distinct(a + [x] + b)
  {
    var s := a + [x] + b;
    assert forall i :: 0 <= i < |s| ==> s[i] == if i < |a| then a[i] else if i == |a| then x else b[i - |a| - 1];
    forall i, j | 0 <= i < j < |s| ensures s[i] != s[j] {
      if i < |a| && |a| < j {
        assert a[i] in a && b[j - |a| - 1] in b;
      }
    }
  }

  lemma {:induction false} PostOrderHas(ts: seq<Tree>, n: XMLNode)
    ensures n in PostOrder(ts) <==> n in NodesOf(ts)
  {
    if ts != [] {
      PostOrderHas(ts[0].below, n);
      PostOrderHas(ts[1..], n);
    }
  }

  /** No node goes back twice, and all of them do. */
  lemma {:induction false} PostOrderFreesOnce(dom: Dom, ts: seq<Tree>)
    requires Planted(dom, ts)
    ensures Distinct(PostOrder(ts))
    ensures forall n :: n in PostOrder(ts) <==> n in NodesOf(ts)
  {
    forall n ensures n in PostOrder(ts) <==> n in NodesOf(ts) {
      PostOrderHas(ts, n);
    }
    if ts != [] {
      PostOrderFreesOnce(dom, ts[0].below);
      PostOrderFreesOnce(dom, ts[1..]);
      var a, x, b := PostOrder(ts[0].below), ts[0].root, PostOrder(ts[1..]);
      assert x !in a && x !in b && forall y :: y in a ==> y !in b by {
        PostOrderHas(ts[0].below, x);
        PostOrderHas(ts[1..], x);
        forall y | y in a ensures y !in b {
          PostOrderHas(ts[0].below, y);
          PostOrderHas(ts[1..], y);
        }
      }
      DistinctJoin(a, x, b);
    }
  }

  const Blank := Links(null, null, null, null, null, [])

  /** All below n is blank, and n has no children. */
  ghost function Cleared(dom: Dom, n: XMLNode, ts: seq<Tree>): (dom': Dom)
    ensures dom'.Keys == dom.Keys
  {
    map m | m in dom ::
      if m in NodesOf(ts) then Blank
      else if m == n then dom[m].(firstChild := null, lastChild := null, kids := [])
      else dom[m]
  }

  /** d is dom with the trees below n cleared, except for rest. */
  ghost predicate Clearing(dom: Dom, n: XMLNode, ts: seq<Tree>, d: Dom, rest: seq<Tree>) {
    && n in dom && d.Keys == dom.Keys && n !in NodesOf(ts)
    && NodesOf(rest) <= NodesOf(ts) && d[n].kids == Roots(rest)
    && d[n].parent == dom[n].parent && d[n].prev == dom[n].prev && d[n].next == dom[n].next
    && (forall m :: m in dom ==> ClearedSoFar(dom, n, ts, d, rest, m))
  }

  ghost predicate ClearedSoFar(dom: Dom, n: XMLNode, ts: seq<Tree>, d: Dom, rest: seq<Tree>, m: XMLNode)
    requires m in dom && d.Keys == dom.Keys
  {
    && (m in NodesOf(ts) && m !in NodesOf(rest) ==> d[m] == Blank)
    && (m !in NodesOf(ts) && m != n ==> d[m] == dom[m])
  }

  /** The first child is unlinked from n, and then itself cleared. */
  ghost function FirstDeleted(d: Dom, rest: seq<Tree>): (d': Dom)
    requires rest != [] && rest[0].root in d && d[rest[0].root].parent != null
    ensures d'.Keys == d.Keys
  {
    Cleared(Unlinked(d, rest[0].root), rest[0].root, rest[0].below)
  }

  lemma FirstIsChild(dom: Dom, n: XMLNode, ts: seq<Tree>, d: Dom, rest: seq<Tree>)
    requires Clearing(dom, n, ts, d, rest) && Family(d) && Planted(d, rest)
    ensures ChildrenLinked(d, n)
    ensures rest == [] <==> d[n].firstChild == null
    ensures rest != [] ==> rest[0].root != n && n !in NodesOf(rest[0].below) && rest[0].root !in NodesOf(rest[0].below)
    ensures rest != [] ==> Planted(d, rest[0].below) && d[rest[0].root].kids == Roots(rest[0].below)
    ensures rest != [] ==> rest[0].root == d[n].firstChild && d[n].firstChild in d && d[d[n].firstChild].parent == n
  {
    assert ChildrenLinked(d, n);
    if rest != [] {
      Neighbours(d, n, 0);
    }
  }

  /** What unlinking its first child does to the nodes around n. */
  lemma UnlinkFirst(d: Dom, n: XMLNode, rest: seq<Tree>, m: XMLNode)
    requires n in d && ChildrenLinked(d, n) && d[n].kids == Roots(rest) && n !in NodesOf(rest) && rest != [] && m in d
    ensures rest[0].root in d && d[rest[0].root].parent == n
    ensures var c := rest[0].root; var a := AfterUnlink(d, c, m);
            && a.kids == (if m == n then Roots(rest[1..]) else d[m].kids)
            && (m == c ==> a.parent == null && a.prev == null && a.next == null)
            && (m == n ==> a.parent == d[n].parent && a.prev == d[n].prev && a.next == d[n].next)
            && (m != c && m != n && m !in NodesOf(rest[1..]) ==> a == d[m])
  {
    Neighbours(d, n, 0);
    hide ChildrenLinked;
    WithoutAt(d[n].kids, 0);
    assert rest[0].root in NodesOf(rest);
    if |rest| > 1 {
      assert rest[1] == rest[1..][0];
      assert rest[1].root in NodesOf(rest[1..]);
    }
  }

  lemma FirstDeletedKids(d: Dom, n: XMLNode, rest: seq<Tree>)
    requires n in d && ChildrenLinked(d, n) && Planted(d, rest) && n !in NodesOf(rest) && d[n].kids == Roots(rest)
    requires rest != [] && rest[0].root in d && d[rest[0].root].parent == n
    ensures Planted(FirstDeleted(d, rest), rest[1..])
  {
    var d' := FirstDeleted(d, rest);
    hide ChildrenLinked, AfterUnlink;
    PlantedThere(d, rest[1..]);
    forall m | m in NodesOf(rest[1..]) ensures d'[m].kids == d[m].kids {
      UnlinkFirst(d, n, rest, m);
    }
    PlantedStays(d, d', rest[1..]);
  }

  /** One round of `DeleteChildren`. */
  lemma ClearingGoesOn(dom: Dom, n: XMLNode, ts: seq<Tree>, d: Dom, rest: seq<Tree>)
    requires Clearing(dom, n, ts, d, rest) && ChildrenLinked(d, n) && Planted(d, rest)
    requires rest != [] && rest[0].root in d && d[rest[0].root].parent == n
    ensures Clearing(dom, n, ts, FirstDeleted(d, rest), rest[1..]) && Planted(FirstDeleted(d, rest), rest[1..])
  {
    var c, d' := rest[0].root, FirstDeleted(d, rest);
    FirstDeletedKids(d, n, rest);
    assert c in NodesOf(rest) && n !in NodesOf(rest[0].below) && n != c;
    hide ChildrenLinked, AfterUnlink, Planted;
    forall m | m in dom ensures ClearedSoFar(dom, n, ts, d', rest[1..], m) {
      assert ClearedSoFar(dom, n, ts, d, rest, m);
      UnlinkFirst(d, n, rest, m);
    }
    UnlinkFirst(d, n, rest, n);
  }

  lemma ClearingStarts(dom: Dom, n: XMLNode, ts: seq<Tree>)
    requires n in dom && n !in NodesOf(ts) && dom[n].kids == Roots(ts)
    ensures Clearing(dom, n, ts, dom, ts)
  {
    forall m | m in dom ensures ClearedSoFar(dom, n, ts, dom, ts, m) {
    }
  }

  /** When all children are gone. */
  lemma ClearingEnds(dom: Dom, n: XMLNode, ts: seq<Tree>, d: Dom)
    requires Clearing(dom, n, ts, d, []) && ChildrenLinked(d, n)
    ensures EndsSet(d, n, null, null, d[n].kids) == d && d == Cleared(dom, n, ts)
  {
    assert d[n] == Links(dom[n].parent, null, null, dom[n].prev, dom[n].next, []);
    forall m | m in dom ensures d[m] == Cleared(dom, n, ts)[m] {
      assert ClearedSoFar(dom, n, ts, d, [], m);
    }
  }

  /** Unlinking a child keeps what is below it. */
  lemma BelowStays(dom: Dom, child: XMLNode, below: seq<Tree>)
    requires child in dom && dom[child].parent in dom && dom[child].parent != child
    requires Planted(dom, below) && dom[child].parent !in NodesOf(below)
    ensures Planted(Unlinked(dom, child), below) && Unlinked(dom, child)[child].kids == dom[child].kids
  {
    hide Without;
    PlantedThere(dom, below);
    PlantedStays(dom, Unlinked(dom, child), below);
  }

  /** The first i trees below n are gone, rest is not, and freed went back. */
  ghost predicate Halfway(dom: Dom, n: XMLNode, ts: seq<Tree>, i: nat, d: Dom, freed: seq<XMLNode>) {
    && i <= |ts| && Clearing(dom, n, ts, d, ts[i..]) && Family(d) && Planted(d, ts[i..])
    && PostOrder(ts) == freed + PostOrder(ts[i..])
  }

  lemma HalfwayThere(dom: Dom, n: XMLNode, ts: seq<Tree>, i: nat, d: Dom, freed: seq<XMLNode>)
    requires Halfway(dom, n, ts, i, d, freed)
    ensures n in d && (i == |ts| <==> d[n].firstChild == null)
    ensures i < |ts| ==>
      var c := ts[i].root;
      && d[n].firstChild == c && c in d && d[c].parent == n && c != n && d[c].kids == Roots(ts[i].below)
      && Planted(d, ts[i].below) && c !in NodesOf(ts[i].below) && n !in NodesOf(ts[i].below)
    ensures i == |ts| ==> freed == PostOrder(ts) && EndsSet(d, n, null, null, d[n].kids) == d && d == Cleared(dom, n, ts)
  {
    FirstIsChild(dom, n, ts, d, ts[i..]);
    hide Family;
    if i == |ts| {
      ClearingEnds(dom, n, ts, d);
    }
  }

  lemma HalfwayOn(dom: Dom, n: XMLNode, ts: seq<Tree>, i: nat, d: Dom, freed: seq<XMLNode>)
    requires Halfway(dom, n, ts, i, d, freed) && i < |ts| && ts[i].root in d && d[ts[i].root].parent == n
    ensures var d' := Cleared(Unlinked(d, ts[i].root), ts[i].root, ts[i].below);
            Family(d') ==> Halfway(dom, n, ts, i + 1, d', freed + (PostOrder(ts[i].below) + [ts[i].root]))
  {
    FirstIsChild(dom, n, ts, d, ts[i..]);
    OneOn(ts, i);
    PostOrderSplits(freed, ts[i..]);
    hide Family, ChildrenLinked, Planted, Clearing, Cleared, Unlinked, PostOrder;
    ClearingGoesOn(dom, n, ts, d, ts[i..]);
  }

  /** Deletes what is below n; `freed` is what goes back to the pool, in order. */
  method DeleteChildren(n: XMLNode, ghost ts: seq<Tree>, ghost nodes: set<XMLNode>) returns (freed: seq<XMLNode>)
    requires Family(Snapshot(nodes)) && n in nodes && n.kids == Roots(ts)
    requires Planted(Snapshot(nodes), ts) && n !in NodesOf(ts)
    modifies nodes
    ensures Family(Snapshot(nodes)) && Snapshot(nodes) == Cleared(old(Snapshot(nodes)), n, ts)
    ensures freed == PostOrder(ts)
    decreases ts, 0
  {
    freed := [];
    ghost var dom, i := Snapshot(nodes), 0;
    assert dom[n] == n.Pointers();
    ClearingStarts(dom, n, ts);
    assert ts[0..] == ts && freed + PostOrder(ts) == PostOrder(ts);
    assert Halfway(dom, n, ts, i, dom, freed);
    hide Snapshot, Family, Planted, Halfway, Cleared, Roots, NodesOf, Unlinked, EndsSet, PostOrder;
    while n.firstChild != null
      invariant Family(Snapshot(nodes)) && Halfway(dom, n, ts, i, Snapshot(nodes), freed)
      invariant i <= |ts|
      decreases |ts| - i
    {
      ghost var d := Snapshot(nodes);
      assert d[n] == n.Pointers();
      HalfwayThere(dom, n, ts, i, d, freed);
      HalfwayOn(dom, n, ts, i, d, freed);
      assert d[n.firstChild] == n.firstChild.Pointers();
      var below := DeleteChild(n, n.firstChild, ts[i].below, nodes);
      freed, i := freed + below, i + 1;
    }
    ghost var d := Snapshot(nodes);
    assert d[n] == n.Pointers();
    HalfwayThere(dom, n, ts, i, d, freed);
    n.SetEnds(null, null, n.kids, nodes);
  }

  lemma OneOn<T>(s: seq<T>, i: nat)
    requires i < |s|
    ensures s[i..][0] == s[i] && s[i..][1..] == s[i + 1..]
  {
  }

  lemma PostOrderSplits(freed: seq<XMLNode>, rest: seq<Tree>)
    requires rest != []
    ensures freed + PostOrder(rest) == freed + (PostOrder(rest[0].below) + [rest[0].root]) + PostOrder(rest[1..])
  {
  }

  /** Unlinks child and destroys it, first deleting what is below it. */
  method DeleteChild(n: XMLNode, child: XMLNode, ghost below: seq<Tree>, ghost nodes: set<XMLNode>)
    returns (freed: seq<XMLNode>)
    requires Family(Snapshot(nodes)) && n in nodes && child in nodes && child.parent == n && child != n
    requires Planted(Snapshot(nodes), below) && child.kids == Roots(below) && child !in NodesOf(below) && n !in NodesOf(below)
    modifies nodes
    ensures Family(Snapshot(nodes)) && Snapshot(nodes) == Cleared(Unlinked(old(Snapshot(nodes)), child), child, below)
    ensures freed == PostOrder(below) + [child]
    decreases below, 1
  {
    ghost var dom := Snapshot(nodes);
    assert dom[child] == child.Pointers();
    assert dom[child].parent == n;
    hide *;
    BelowStays(dom, child, below);
    n.Unlink(child, nodes);
    ghost var d := Snapshot(nodes);
    assert d[child] == child.Pointers();
    freed := DeleteChildren(child, below, nodes);
    freed := freed + [child];
  }

  // ---------- copying ----------

  /** The nodes of d are clone and, below it, the trees of copy. */
  ghost predicate Copied(d: Dom, clone: XMLNode, copy: seq<Tree>) {
    && Free(d, clone) && d[clone].kids == Roots(copy) && Planted(d, copy)
    && clone !in NodesOf(copy) && d.Keys == {clone} + NodesOf(copy)
  }

  lemma {:induction false} OneMore(dom: Dom, ts: seq<Tree>, t: Tree)
    ensures NodesOf(ts + [t]) == NodesOf(ts) + NodesOf([t])
    ensures ValuesOf(ts + [t]) == ValuesOf(ts) + ValuesOf([t])
    ensures Planted(dom, ts) && Planted(dom, [t]) && NodesOf(ts) !! NodesOf([t]) ==> Planted(dom, ts + [t])
  {
    if ts == [] {
      assert ts + [t] == [t];
    } else {
      assert (ts + [t])[0] == ts[0] && (ts + [t])[1..] == ts[1..] + [t];
      OneMore(dom, ts[1..], t);
    }
  }

  lemma FamiliesJoin(d1: Dom, d2: Dom)
    requires Family(d1) && Family(d2) && d1.Keys !! d2.Keys
    ensures Family(d1 + d2)
  {
    var d := d1 + d2;
    forall n | n in d ensures ChildrenLinked(d, n) && ParentLinked(d, n) {
      var part := if n in d1 then d1 else d2;
      assert ChildrenLinked(part, n) && ParentLinked(part, n);
      forall i | 0 <= i < |d[n].kids| ensures LinkedAt(d, n, d[n].kids, i) {
        assert LinkedAt(part, n, part[n].kids, i);
      }
    }
  }

  /** Appending a free node to clone. */
  lemma CopyAppends(dom: Dom, clone: XMLNode, c: XMLNode, m: XMLNode)
    requires clone in dom && Free(dom, c) && Free(dom, clone) && c != clone && m in dom
    ensures Appended(dom, clone, c)[m].kids == dom[m].kids + (if m == clone then [c] else [])
    ensures (dom[clone].kids == [] || dom[clone].kids[|dom[clone].kids| - 1] != clone) ==> Free(Appended(dom, clone, c), clone)
  {
    AtEitherEnd(dom[clone].kids, c);
  }

  lemma {:induction false} RootIn(ts: seq<Tree>, i: nat)
    requires i < |ts|
    ensures ts[i].root in NodesOf(ts)
  {
    if i > 0 {
      RootIn(ts[1..], i - 1);
    }
  }

  lemma OneTree(dom: Dom, d: Dom, c: XMLNode, below: seq<Tree>)
    requires Copied(dom, c, below) && forall m :: m in dom ==> m in d && d[m].kids == dom[m].kids
    ensures Planted(d, [Tree(c, below)]) && NodesOf([Tree(c, below)]) == dom.Keys
  {
    hide Free;
    PlantedStays(dom, d, below);
    var ts := [Tree(c, below)];
    assert ts[1..] == [] && NodesOf(ts[1..]) == {} && Planted(d, ts[1..]);
  }

  lemma CloneStaysFree(d1: Dom, clone: XMLNode, copy: seq<Tree>, d2: Dom, c: XMLNode, m: XMLNode)
    requires Copied(d1, clone, copy) && Free(d2, c) && d1.Keys !! d2.Keys && m in d1.Keys + d2.Keys
    ensures var d := Appended(d1 + d2, clone, c);
            Free(d, clone) && d[m].kids == (d1 + d2)[m].kids + (if m == clone then [c] else [])
  {
    if copy != [] {
      RootIn(copy, |copy| - 1);
    }
    hide Planted, NodesOf;
    CopyAppends(d1 + d2, clone, c, clone);
    CopyAppends(d1 + d2, clone, c, m);
  }

  lemma CopyIsPlanted(d: Dom, d1: Dom, copy: seq<Tree>, d2: Dom, c: XMLNode, below: seq<Tree>)
    requires Planted(d1, copy) && Copied(d2, c, below) && NodesOf(copy) !! d2.Keys
    requires forall m :: m in NodesOf(copy) ==> m in d1 && m in d && d[m].kids == d1[m].kids
    requires forall m :: m in d2 ==> m in d && d[m].kids == d2[m].kids
    ensures Planted(d, copy + [Tree(c, below)]) && NodesOf(copy + [Tree(c, below)]) == NodesOf(copy) + d2.Keys
    ensures Roots(copy + [Tree(c, below)]) == Roots(copy) + [c]
  {
    OneTree(d2, d, c, below);
    PlantedStays(d1, d, copy);
    hide Planted, NodesOf, Copied;
    OneMore(d, copy, Tree(c, below));
  }

  /** A finished copy of a child becomes the last child of clone. */
  lemma CopyGrows(d1: Dom, clone: XMLNode, copy: seq<Tree>, d2: Dom, c: XMLNode, below: seq<Tree>)
    requires Copied(d1, clone, copy) && Copied(d2, c, below) && d1.Keys !! d2.Keys
    ensures Copied(Appended(d1 + d2, clone, c), clone, copy + [Tree(c, below)])
  {
    hide Appended, Free, Planted, NodesOf, Roots;
    var d := Appended(d1 + d2, clone, c);
    forall m | m in d
      ensures Free(d, clone) && d[m].kids == (d1 + d2)[m].kids + (if m == clone then [c] else [])
    {
      CloneStaysFree(d1, clone, copy, d2, c, m);
    }
    CopyIsPlanted(d, d1, copy, d2, c, below);
  }

  lemma {:induction false} PlantedAt(dom: Dom, ts: seq<Tree>, i: nat)
    requires Planted(dom, ts) && i < |ts|
    ensures ts[i].root in dom && dom[ts[i].root].kids == Roots(ts[i].below) && Planted(dom, ts[i].below)
  {
    if i > 0 {
      PlantedAt(dom, ts[1..], i - 1);
    }
  }

  ghost function RootOrNull(ts: seq<Tree>, i: nat): XMLNode? {
    if i < |ts| then ts[i].root else null
  }

  /** The walk along the children of n. */
  lemma KidAfter(dom: Dom, n: XMLNode, ts: seq<Tree>, i: nat)
    requires Family(dom) && n in dom && dom[n].kids == Roots(ts) && Planted(dom, ts) && RootOrNull(ts, i) != null
    ensures i < |ts| && ts[i].root == RootOrNull(ts, i)
    ensures ts[i].root in dom && dom[ts[i].root].kids == Roots(ts[i].below) && Planted(dom, ts[i].below)
    ensures dom[ts[i].root].next == RootOrNull(ts, i + 1)
  {
    assert ChildrenLinked(dom, n);
    hide Family;
    Neighbours(dom, n, i);
    PlantedAt(dom, ts, i);
  }

  lemma FirstKid(nodes: set<XMLNode>, n: XMLNode, ts: seq<Tree>)
    requires Family(Snapshot(nodes)) && n in nodes && n.kids == Roots(ts)
    ensures n.firstChild == RootOrNull(ts, 0) && Snapshot(nodes)[n].kids == Roots(ts)
  {
    assert ChildrenLinked(Snapshot(nodes), n);
  }

  ghost predicate OfDocument(nodes: set<XMLNode>, document: nat) {
    forall n :: n in nodes ==> n.document == document
  }

  lemma ValuesGrow(copy: seq<Tree>, t: Tree, ts: seq<Tree>, i: nat)
    requires i < |ts| && ValuesOf(copy) == ValuesOf(ts[..i])
    requires t.root.value == ts[i].root.value && ValuesOf(t.below) == ValuesOf(ts[i].below)
    ensures ValuesOf(copy + [t]) == ValuesOf(ts[..i + 1])
  {
    assert ts[..i + 1] == ts[..i] + [ts[i]];
    OneMore(map[], copy, t);
    OneMore(map[], ts[..i], ts[i]);
  }

  lemma CopyStarts(d: Dom, clone: XMLNode)
    requires d.Keys == {clone} && d[clone] == Blank
    ensures Family(d) && Copied(d, clone, [])
  {
  }

  lemma SnapshotsJoin(made: set<XMLNode>, others: set<XMLNode>)
    ensures Snapshot(made + others) == Snapshot(made) + Snapshot(others)
  {
  }

  /** The copy so far: of the first i children. */
  ghost predicate CopiedSoFar(clone: XMLNode, made: set<XMLNode>, copy: seq<Tree>, target: nat, ts: seq<Tree>, i: nat)
    reads made
  {
    && i <= |ts| && clone in made && Family(Snapshot(made)) && Copied(Snapshot(made), clone, copy)
    && ValuesOf(copy) == ValuesOf(ts[..i]) && OfDocument(made, target)
  }

  /** A copy of n and all below it for document target; nothing that was there changes. */
  method DeepClone(n: XMLNode, target: nat, ghost ts: seq<Tree>, ghost nodes: set<XMLNode>)
    returns (clone: XMLNode, ghost made: set<XMLNode>, ghost copy: seq<Tree>)
    requires Family(Snapshot(nodes)) && n in nodes && n.kids == Roots(ts) && Planted(Snapshot(nodes), ts)
    ensures fresh(made) && clone in made && Family(Snapshot(made)) && Copied(Snapshot(made), clone, copy)
    ensures clone.value == n.value && ValuesOf(copy) == ValuesOf(ts) && OfDocument(made, target)
    decreases ts, 2
  {
    clone := new XMLNode(target, n.value);
    CopyStarts(Snapshot({clone}), clone);
    assert ts[..0] == [];
    hide Family, Copied, Planted, ValuesOf, Roots;
    made, copy := CloneChildren(n, clone, target, ts, nodes);
    CopiedAll(clone, made, copy, target, ts);
  }

  /** The loop of `DeepClone`. */
  method CloneChildren(n: XMLNode, clone: XMLNode, target: nat, ghost ts: seq<Tree>, ghost nodes: set<XMLNode>)
    returns (ghost made: set<XMLNode>, ghost copy: seq<Tree>)
    requires Family(Snapshot(nodes)) && n in nodes && n.kids == Roots(ts) && Planted(Snapshot(nodes), ts)
    requires clone !in nodes && CopiedSoFar(clone, {clone}, [], target, ts, 0)
    modifies clone
    ensures fresh(made - {clone}) && CopiedSoFar(clone, made, copy, target, ts, |ts|)
    decreases ts, 1
  {
    made, copy := {clone}, [];
    ghost var dom, i := Snapshot(nodes), 0;
    hide *;
    FirstKid(nodes, n, ts);
    var child := n.firstChild;
    while child != null
      invariant fresh(made - {clone}) && CopiedSoFar(clone, made, copy, target, ts, i)
      invariant i <= |ts| && child == RootOrNull(ts, i)
      decreases |ts| - i
    {
      KidAfter(dom, n, ts, i);
      assert Snapshot(nodes) == dom;
      assert child.kids == Roots(ts[i].below) && child.next == RootOrNull(ts, i + 1) by {
        SnapshotAt(nodes, child);
      }
      made, copy := CloneNext(clone, child, target, ts, i, nodes, made, copy);
      child := child.next;
      i := i + 1;
    }
    WalkEnds(ts, i);
  }

  lemma SnapshotAt(nodes: set<XMLNode>, n: XMLNode)
    requires n in nodes
    ensures Snapshot(nodes)[n].kids == n.kids && Snapshot(nodes)[n].next == n.next
  {
  }

  lemma WalkEnds(ts: seq<Tree>, i: nat)
    requires i <= |ts| && RootOrNull(ts, i) == null
    ensures i == |ts|
  {
  }

  lemma CopiedAll(clone: XMLNode, made: set<XMLNode>, copy: seq<Tree>, target: nat, ts: seq<Tree>)
    requires CopiedSoFar(clone, made, copy, target, ts, |ts|)
    ensures clone in made && Family(Snapshot(made)) && Copied(Snapshot(made), clone, copy)
    ensures ValuesOf(copy) == ValuesOf(ts) && OfDocument(made, target)
  {
    assert ts[..|ts|] == ts;
  }

  /** The i-th child is copied and put at the end. */
  method CloneNext(clone: XMLNode, child: XMLNode, target: nat, ghost ts: seq<Tree>, ghost i: nat,
                   ghost nodes: set<XMLNode>, ghost made: set<XMLNode>, ghost copy: seq<Tree>)
    returns (ghost all: set<XMLNode>, ghost grown: seq<Tree>)
    requires Family(Snapshot(nodes)) && i < |ts| && child in nodes && ts[i].root == child
    requires child.kids == Roots(ts[i].below) && Planted(Snapshot(nodes), ts[i].below)
    requires CopiedSoFar(clone, made, copy, target, ts, i) && made !! nodes
    modifies made
    ensures fresh(all - made) && CopiedSoFar(clone, all, grown, target, ts, i + 1)
    decreases ts, 0
  {
    hide Snapshot, Family, Copied, Planted, ValuesOf, Roots;
    var childClone, others, below := DeepClone(child, target, ts[i].below, nodes);
    ValuesGrow(copy, Tree(childClone, below), ts, i);
    all, grown := CopyChild(clone, made, copy, childClone, others, below);
  }

  method CopyChild(clone: XMLNode, ghost made: set<XMLNode>, ghost copy: seq<Tree>,
                   childClone: XMLNode, ghost others: set<XMLNode>, ghost below: seq<Tree>)
    returns (ghost all: set<XMLNode>, ghost grown: seq<Tree>)
    requires clone in made && Family(Snapshot(made)) && Copied(Snapshot(made), clone, copy)
    requires childClone in others && Family(Snapshot(others)) && Copied(Snapshot(others), childClone, below)
    requires made !! others && clone.document == childClone.document
    modifies made + others
    ensures all == made + others && grown == copy + [Tree(childClone, below)]
    ensures Family(Snapshot(all)) && Copied(Snapshot(all), clone, grown)
  {
    hide *;
    FamiliesJoin(Snapshot(made), Snapshot(others));
    CopyGrows(Snapshot(made), clone, copy, Snapshot(others), childClone, below);
    SnapshotsJoin(made, others);
    all, grown := made + others, copy + [Tree(childClone, below)];
    var _ := clone.InsertEndChild(childClone, made + others);
  }
}
