/** The sibling lists of tinyxml2's DOM: five pointers a node, rewired in place. */
module XmlDom {

  /** s without its (only) occurrence of x. */
  ghost function Without<T>(s: seq<T>, x: T): seq<T> {
    if s == [] then [] else if s[0] == x then s[1..] else [s[0]] + Without(s[1..], x)
  }

  ghost predicate Distinct<T>(s: seq<T>) {
    forall i, j :: 0 <= i < j < |s| ==> s[i] != s[j]
  }

  lemma {:induction false} WithoutAt<T>(s: seq<T>, k: nat)
    requires k < |s| && Distinct(s)
    ensures Without(s, s[k]) == s[..k] + s[k + 1..]
    decreases k
  {
    if k > 0 {
      assert s[0] != s[k];
      WithoutAt(s[1..], k - 1);
      assert s[1..][..k - 1] == s[1..k] && s[1..][k..] == s[k + 1..];
      assert [s[0]] + s[1..k] == s[..k];
    }
  }

  lemma {:induction false} WithoutAbsent<T>(s: seq<T>, x: T)
    requires x !in s
    ensures Without(s, x) == s
  {
    if s != [] {
      assert s[0] in s;
      WithoutAbsent(s[1..], x);
    }
  }

  /** Where x is in s. */
  ghost function Position<T>(s: seq<T>, x: T): (k: nat)
    requires x in s
    ensures k < |s| && s[k] == x
  {
    if s[0] == x then 0 else 1 + Position(s[1..], x)
  }

  /** The pointers of one node, and its children in order. */
  datatype Links = Links(parent: XMLNode?, firstChild: XMLNode?, lastChild: XMLNode?,
                         prev: XMLNode?, next: XMLNode?, kids: seq<XMLNode>)

  type Dom = map<XMLNode, Links>

  /** The i-th of the children of n points to its neighbours and to n. */
  ghost predicate LinkedAt(dom: Dom, n: XMLNode, kids: seq<XMLNode>, i: nat)
    requires i < |kids|
  {
    && kids[i] in dom && dom[kids[i]].parent == n
    && dom[kids[i]].prev == (if i == 0 then null else kids[i - 1])
    && dom[kids[i]].next == (if i == |kids| - 1 then null else kids[i + 1])
  }

  /** First, last, prev, next and parent are those of the list of n's children. */
  ghost predicate ChildrenLinked(dom: Dom, n: XMLNode)
    requires n in dom
  {
    var kids := dom[n].kids;
    && Distinct(kids)
    && (forall i :: 0 <= i < |kids| ==> LinkedAt(dom, n, kids, i))
    && dom[n].firstChild == (if kids == [] then null else kids[0])
    && dom[n].lastChild == (if kids == [] then null else kids[|kids| - 1])
  }

  /** n is among its parent's children, or stands alone. */
  ghost predicate ParentLinked(dom: Dom, n: XMLNode)
    requires n in dom
  {
    if dom[n].parent == null then dom[n].prev == null && dom[n].next == null
    else dom[n].parent in dom && n in dom[dom[n].parent].kids
  }

  /** Every list is well formed, and no pointer leaves the set of nodes. */
  ghost predicate Family(dom: Dom) {
    forall n :: n in dom ==> ChildrenLinked(dom, n) && ParentLinked(dom, n)
  }

  // ---------- unlinking ----------

  /** What the pointer assignments of `Unlink` make of node n. */
  ghost function AfterUnlink(dom: Dom, child: XMLNode, n: XMLNode): Links
    requires child in dom && dom[child].parent != null && n in dom
  {
    var c := dom[child];
    Links(
      if n == child then null else dom[n].parent,
      if n == c.parent && dom[n].firstChild == child then c.next else dom[n].firstChild,
      if n == c.parent && dom[n].lastChild == child then c.prev else dom[n].lastChild,
      if n == child then null else if n == c.next then c.prev else dom[n].prev,
      if n == child then null else if n == c.prev then c.next else dom[n].next,
      if n == c.parent then Without(dom[n].kids, child) else dom[n].kids)
  }

  ghost function Unlinked(dom: Dom, child: XMLNode): (dom': Dom)
    requires child in dom && dom[child].parent != null
    ensures dom'.Keys == dom.Keys
    ensures forall n :: n in dom ==> dom'[n] == AfterUnlink(dom, child, n)
  {
    map n | n in dom :: AfterUnlink(dom, child, n)
  }

  /** The neighbours of the k-th child. */
  lemma Neighbours(dom: Dom, p: XMLNode, k: nat)
    requires p in dom && ChildrenLinked(dom, p) && k < |dom[p].kids|
    ensures var kids, child := dom[p].kids, dom[p].kids[k];
            && child in dom && dom[child].parent == p
            && dom[child].prev == (if k == 0 then null else kids[k - 1])
            && dom[child].next == (if k == |kids| - 1 then null else kids[k + 1])
            && (forall i :: 0 <= i < |kids| && i != k ==> kids[i] != child)
            && (forall i :: 0 <= i < |kids| && kids[i] == dom[child].prev ==> i == k - 1)
            && (forall i :: 0 <= i < |kids| && kids[i] == dom[child].next ==> i == k + 1)
            && (dom[child].prev != null ==> dom[child].prev in dom && dom[dom[child].prev].parent == p)
            && (dom[child].next != null ==> dom[child].next in dom && dom[dom[child].next].parent == p)
  {
    assert LinkedAt(dom, p, dom[p].kids, k);
    assert k > 0 ==> LinkedAt(dom, p, dom[p].kids, k - 1);
    assert k + 1 < |dom[p].kids| ==> LinkedAt(dom, p, dom[p].kids, k + 1);
  }

  lemma {:induction false} WithoutKeeps<T>(s: seq<T>, x: T, y: T)
    requires y in s && x != y
    ensures y in Without(s, x)
  {
    if s[0] != x && s[0] != y {
      WithoutKeeps(s[1..], x, y);
    }
  }

  /** The pointers of the j-th child once the k-th is unlinked. */
  lemma UnlinkedLinks(dom: Dom, p: XMLNode, k: nat, j: nat)
    requires p in dom && ChildrenLinked(dom, p) && k < |dom[p].kids| && j < |dom[p].kids| && j != k
    ensures var was, child := dom[p].kids, dom[p].kids[k];
            && child in dom && dom[child].parent == p && was[j] in dom
            && var a := AfterUnlink(dom, child, was[j]);
            && a.parent == p
            && a.prev == (if j == k + 1 then (if k == 0 then null else was[k - 1]) else if j == 0 then null else was[j - 1])
            && a.next == (if j + 1 == k then (if k + 1 == |was| then null else was[k + 1])
                          else if j + 1 == |was| then null else was[j + 1])
  {
    hide ChildrenLinked;
    Neighbours(dom, p, k);
    Neighbours(dom, p, j);
  }

  lemma UnlinkedChild(dom: Dom, child: XMLNode, p: XMLNode, k: nat, i: nat)
    requires p in dom && ChildrenLinked(dom, p) && k < |dom[p].kids| && dom[p].kids[k] == child
    requires i < |dom[p].kids| - 1
    ensures child in dom && dom[child].parent == p
    ensures LinkedAt(Unlinked(dom, child), p, dom[p].kids[..k] + dom[p].kids[k + 1..], i)
  {
    hide ChildrenLinked, Unlinked, AfterUnlink;
    UnlinkedLinks(dom, p, k, if i < k then i else i + 1);
    LeftOut(dom[p].kids, k);
  }

  lemma LeftOut<T>(s: seq<T>, k: nat)
    requires k < |s|
    ensures var now := s[..k] + s[k + 1..];
            |now| == |s| - 1 && forall i :: 0 <= i < |now| ==> now[i] == if i < k then s[i] else s[i + 1]
  {
  }

  lemma DistinctWithout<T>(s: seq<T>, k: nat)
    requires k < |s| && Distinct(s)
    ensures Distinct(s[..k] + s[k + 1..])
  {
    var now := s[..k] + s[k + 1..];
    assert forall i :: 0 <= i < |now| ==> now[i] == s[if i < k then i else i + 1];
  }

  lemma UnlinkedKids(dom: Dom, child: XMLNode, p: XMLNode, k: nat)
    requires p in dom && ChildrenLinked(dom, p) && k < |dom[p].kids| && dom[p].kids[k] == child
    ensures child in dom && dom[child].parent == p
    ensures Unlinked(dom, child)[p].kids == dom[p].kids[..k] + dom[p].kids[k + 1..]
    ensures Distinct(Unlinked(dom, child)[p].kids)
  {
    Neighbours(dom, p, k);
    WithoutAt(dom[p].kids, k);
    DistinctWithout(dom[p].kids, k);
  }

  lemma UnlinkedParent(dom: Dom, child: XMLNode, p: XMLNode, k: nat)
    requires p in dom && ChildrenLinked(dom, p) && k < |dom[p].kids| && dom[p].kids[k] == child
    ensures child in dom && dom[child].parent == p && ChildrenLinked(Unlinked(dom, child), p)
  {
    hide Distinct, Unlinked, LinkedAt, AfterUnlink;
    UnlinkedKids(dom, child, p, k);
    var dom' := Unlinked(dom, child);
    forall i | 0 <= i < |dom'[p].kids| ensures LinkedAt(dom', p, dom'[p].kids, i) {
      UnlinkedChild(dom, child, p, k, i);
    }
    UnlinkedEnds(dom, child, p, k);
  }

  lemma UnlinkedEnds(dom: Dom, child: XMLNode, p: XMLNode, k: nat)
    requires p in dom && ChildrenLinked(dom, p) && k < |dom[p].kids| && dom[p].kids[k] == child
    requires child in dom && dom[child].parent == p
    ensures var p' := Unlinked(dom, child)[p];
            && p'.firstChild == (if p'.kids == [] then null else p'.kids[0])
            && p'.lastChild == (if p'.kids == [] then null else p'.kids[|p'.kids| - 1])
  {
    hide ChildrenLinked, Without, Distinct;
    Neighbours(dom, p, k);
    KidsEnds(dom, p);
    KidsAreDistinct(dom, p);
    WithoutAt(dom[p].kids, k);
    LeftOut(dom[p].kids, k);
  }

  lemma KidsEnds(dom: Dom, p: XMLNode)
    requires p in dom && ChildrenLinked(dom, p)
    ensures var n := dom[p];
            && n.firstChild == (if n.kids == [] then null else n.kids[0])
            && n.lastChild == (if n.kids == [] then null else n.kids[|n.kids| - 1])
  {
  }

  lemma KidsAreDistinct(dom: Dom, p: XMLNode)
    requires p in dom && ChildrenLinked(dom, p)
    ensures Distinct(dom[p].kids)
  {
  }

  lemma UnlinkedOther(dom: Dom, child: XMLNode, n: XMLNode)
    requires Family(dom) && child in dom && dom[child].parent != null && n in dom && n != dom[child].parent
    ensures ChildrenLinked(Unlinked(dom, child), n)
  {
    var p := dom[child].parent;
    assert ChildrenLinked(dom, n) && ParentLinked(dom, child) && ChildrenLinked(dom, p);
    assert p in dom && child in dom[p].kids;
    var dom', kids := Unlinked(dom, child), dom[n].kids;
    NotTheParent(dom, child, n);
    hide Family, ParentLinked, AfterUnlink, Unlinked;
    forall i | 0 <= i < |kids| ensures LinkedAt(dom', n, kids, i) {
      assert LinkedAt(dom, n, kids, i);
      OutsiderStays(dom, child, kids[i]);
    }
  }

  lemma NotTheParent(dom: Dom, child: XMLNode, n: XMLNode)
    requires child in dom && dom[child].parent != null && n in dom && n != dom[child].parent
    ensures var a := AfterUnlink(dom, child, n);
            a.kids == dom[n].kids && a.firstChild == dom[n].firstChild && a.lastChild == dom[n].lastChild
  {
  }

  /** Unlinking touches only children of the same parent. */
  lemma OutsiderStays(dom: Dom, child: XMLNode, x: XMLNode)
    requires child in dom && x in dom && dom[child].parent in dom && dom[x].parent != dom[child].parent
    requires ChildrenLinked(dom, dom[child].parent) && child in dom[dom[child].parent].kids
    ensures var a := AfterUnlink(dom, child, x);
            a.parent == dom[x].parent && a.prev == dom[x].prev && a.next == dom[x].next
  {
    var p := dom[child].parent;
    Neighbours(dom, p, Position(dom[p].kids, child));
  }

  lemma UnlinkedSelf(dom: Dom, child: XMLNode, n: XMLNode)
    requires Family(dom) && child in dom && dom[child].parent != null && n in dom
    ensures ParentLinked(Unlinked(dom, child), n)
  {
    var p := dom[child].parent;
    assert ParentLinked(dom, n) && ParentLinked(dom, child) && ChildrenLinked(dom, p);
    Neighbours(dom, p, Position(dom[p].kids, child));
    if dom[n].parent == p && n != child {
      WithoutKeeps(dom[p].kids, child, n);
    }
  }

  lemma UnlinkedIsFamily(dom: Dom, child: XMLNode)
    requires Family(dom) && child in dom && dom[child].parent != null
    ensures Family(Unlinked(dom, child))
  {
    var p := dom[child].parent;
    assert ParentLinked(dom, child) && ChildrenLinked(dom, p);
    UnlinkedParent(dom, child, p, Position(dom[p].kids, child));
    forall n | n in dom ensures ChildrenLinked(Unlinked(dom, child), n) && ParentLinked(Unlinked(dom, child), n) {
      UnlinkedSelf(dom, child, n);
      if n != p {
        UnlinkedOther(dom, child, n);
      }
    }
  }

  /** What `Unlink` dereferences is there. */
  lemma PointersStay(dom: Dom, child: XMLNode)
    requires Family(dom) && child in dom && dom[child].parent != null
    ensures var c := dom[child];
            && c.parent in dom && dom[c.parent].firstChild != null && dom[c.parent].lastChild != null
            && (c.prev != null ==> c.prev in dom && c.prev != child) && (c.next != null ==> c.next in dom && c.next != child)
            && (c.prev != null ==> c.prev != c.next)
  {
    var p := dom[child].parent;
    assert ParentLinked(dom, child) && ChildrenLinked(dom, p);
    Neighbours(dom, p, Position(dom[p].kids, child));
  }

  // ---------- inserting ----------

  /** The k-th of the children, or null past the last. */
  ghost function KidAt(dom: Dom, p: XMLNode, k: nat): XMLNode?
    requires p in dom && k <= |dom[p].kids|
  {
    if k < |dom[p].kids| then dom[p].kids[k] else null
  }

  ghost function KidBefore(dom: Dom, p: XMLNode, k: nat): XMLNode?
    requires p in dom && k <= |dom[p].kids|
  {
    if k == 0 then null else dom[p].kids[k - 1]
  }

  /** What becomes of node n when x is put in front of the k-th child of p. */
  ghost function AfterInsert(dom: Dom, p: XMLNode, x: XMLNode, k: nat, n: XMLNode): Links
    requires p in dom && k <= |dom[p].kids| && n in dom
  {
    var before, after := KidBefore(dom, p, k), KidAt(dom, p, k);
    Links(
      if n == x then p else dom[n].parent,
      if n == p && k == 0 then x else dom[n].firstChild,
      if n == p && k == |dom[p].kids| then x else dom[n].lastChild,
      if n == x then before else if n == after then x else dom[n].prev,
      if n == x then after else if n == before then x else dom[n].next,
      if n == p then dom[p].kids[..k] + [x] + dom[p].kids[k..] else dom[n].kids)
  }

  ghost function Inserted(dom: Dom, p: XMLNode, x: XMLNode, k: nat): (dom': Dom)
    requires p in dom && k <= |dom[p].kids|
    ensures dom'.Keys == dom.Keys
    ensures forall n :: n in dom ==> dom'[n] == AfterInsert(dom, p, x, k, n)
  {
    map n | n in dom :: AfterInsert(dom, p, x, k, n)
  }

  /** x belongs to no list. */
  ghost predicate Free(dom: Dom, x: XMLNode) {
    x in dom && dom[x].parent == null && dom[x].prev == null && dom[x].next == null
  }

  lemma FreeIsNoKid(dom: Dom, p: XMLNode, x: XMLNode)
    requires p in dom && ChildrenLinked(dom, p) && Free(dom, x)
    ensures x !in dom[p].kids
  {
    if x in dom[p].kids {
      Neighbours(dom, p, Position(dom[p].kids, x));
    }
  }

  lemma InsertedChild(dom: Dom, p: XMLNode, x: XMLNode, k: nat, i: nat)
    requires p in dom && ChildrenLinked(dom, p) && k <= |dom[p].kids| && Free(dom, x) && x !in dom[p].kids
    requires i < |dom[p].kids| + 1
    ensures LinkedAt(Inserted(dom, p, x, k), p, dom[p].kids[..k] + [x] + dom[p].kids[k..], i)
  {
    hide ChildrenLinked, Inserted;
    if i != k {
      Neighbours(dom, p, if i < k then i else i - 1);
    }
    PutBetween(dom[p].kids, x, k);
  }

  lemma PutBetween<T>(s: seq<T>, x: T, k: nat)
    requires k <= |s|
    ensures var now := s[..k] + [x] + s[k..];
            |now| == |s| + 1 && forall j :: 0 <= j < |now| ==> now[j] == if j < k then s[j] else if j == k then x else s[j - 1]
  {
  }

  lemma InsertedKids(dom: Dom, p: XMLNode, x: XMLNode, k: nat)
    requires p in dom && ChildrenLinked(dom, p) && k <= |dom[p].kids| && Free(dom, x)
    ensures x !in dom[p].kids && Distinct(dom[p].kids[..k] + [x] + dom[p].kids[k..])
  {
    FreeIsNoKid(dom, p, x);
    PutBetween(dom[p].kids, x, k);
  }

  lemma InsertedEnds(dom: Dom, p: XMLNode, x: XMLNode, k: nat)
    requires p in dom && ChildrenLinked(dom, p) && k <= |dom[p].kids|
    ensures var p' := AfterInsert(dom, p, x, k, p);
            && p'.kids == dom[p].kids[..k] + [x] + dom[p].kids[k..] && p'.kids != []
            && p'.firstChild == p'.kids[0] && p'.lastChild == p'.kids[|p'.kids| - 1]
  {
    hide KidAt, KidBefore;
    PutBetween(dom[p].kids, x, k);
  }

  lemma InsertedParent(dom: Dom, p: XMLNode, x: XMLNode, k: nat)
    requires p in dom && ChildrenLinked(dom, p) && k <= |dom[p].kids| && Free(dom, x)
    ensures ChildrenLinked(Inserted(dom, p, x, k), p)
  {
    hide Distinct, Inserted, AfterInsert, LinkedAt, Free;
    InsertedKids(dom, p, x, k);
    InsertedEnds(dom, p, x, k);
    var dom' := Inserted(dom, p, x, k);
    forall i | 0 <= i < |dom'[p].kids| ensures LinkedAt(dom', p, dom'[p].kids, i) {
      InsertedChild(dom, p, x, k, i);
    }
  }

  /** Inserting touches only children of p, and x. */
  lemma InsertedStays(dom: Dom, p: XMLNode, x: XMLNode, k: nat, y: XMLNode)
    requires p in dom && ChildrenLinked(dom, p) && k <= |dom[p].kids|
    requires y in dom && y != x && dom[y].parent != p
    ensures var a := AfterInsert(dom, p, x, k, y);
            a.parent == dom[y].parent && a.prev == dom[y].prev && a.next == dom[y].next
  {
    if k < |dom[p].kids| {
      Neighbours(dom, p, k);
    }
    if k > 0 {
      Neighbours(dom, p, k - 1);
    }
  }

  lemma InsertedOther(dom: Dom, p: XMLNode, x: XMLNode, k: nat, n: XMLNode)
    requires Family(dom) && p in dom && k <= |dom[p].kids| && Free(dom, x) && n in dom && n != p
    ensures ChildrenLinked(Inserted(dom, p, x, k), n)
  {
    assert ChildrenLinked(dom, n) && ChildrenLinked(dom, p);
    var dom', kids := Inserted(dom, p, x, k), dom[n].kids;
    assert dom'[n].kids == kids && dom'[n].firstChild == dom[n].firstChild && dom'[n].lastChild == dom[n].lastChild;
    FreeIsNoKid(dom, n, x);
    hide Family, ParentLinked, AfterInsert, Inserted;
    forall i | 0 <= i < |kids| ensures LinkedAt(dom', n, kids, i) {
      assert LinkedAt(dom, n, kids, i);
      assert kids[i] in kids;
      InsertedStays(dom, p, x, k, kids[i]);
    }
  }

  lemma InsertedSelf(dom: Dom, p: XMLNode, x: XMLNode, k: nat, n: XMLNode)
    requires Family(dom) && p in dom && k <= |dom[p].kids| && Free(dom, x) && n in dom
    ensures ParentLinked(Inserted(dom, p, x, k), n)
  {
    assert ParentLinked(dom, n) && ChildrenLinked(dom, p);
    if n == x {
      assert (dom[p].kids[..k] + [x] + dom[p].kids[k..])[k] == x;
    } else if dom[n].parent == p {
      var j := Position(dom[p].kids, n);
      assert (dom[p].kids[..k] + [x] + dom[p].kids[k..])[if j < k then j else j + 1] == n;
    } else {
      InsertedStays(dom, p, x, k, n);
    }
  }

  lemma InsertedIsFamily(dom: Dom, p: XMLNode, x: XMLNode, k: nat)
    requires Family(dom) && p in dom && k <= |dom[p].kids| && Free(dom, x)
    ensures Family(Inserted(dom, p, x, k))
  {
    forall n | n in dom
      ensures ChildrenLinked(Inserted(dom, p, x, k), n) && ParentLinked(Inserted(dom, p, x, k), n)
    {
      assert ChildrenLinked(dom, p);
      InsertedSelf(dom, p, x, k, n);
      if n == p {
        InsertedParent(dom, p, x, k);
      } else {
        InsertedOther(dom, p, x, k, n);
      }
    }
  }

  // ---------- the assignments, one node at a time ----------

  ghost function NextSet(dom: Dom, n: XMLNode?, x: XMLNode?): (dom': Dom)
    requires n in dom.Keys + {null}
    ensures dom'.Keys == dom.Keys
  {
    if n == null then dom else dom[n := dom[n].(next := x)]
  }

  ghost function PrevSet(dom: Dom, n: XMLNode?, x: XMLNode?): (dom': Dom)
    requires n in dom.Keys + {null}
    ensures dom'.Keys == dom.Keys
  {
    if n == null then dom else dom[n := dom[n].(prev := x)]
  }

  ghost function EndsSet(dom: Dom, p: XMLNode, first: XMLNode?, last: XMLNode?, kids: seq<XMLNode>): (dom': Dom)
    requires p in dom
    ensures dom'.Keys == dom.Keys
  {
    dom[p := dom[p].(firstChild := first, lastChild := last, kids := kids)]
  }

  ghost function KidsSet(dom: Dom, p: XMLNode, kids: seq<XMLNode>): (dom': Dom)
    requires p in dom
    ensures dom'.Keys == dom.Keys
  {
    dom[p := dom[p].(kids := kids)]
  }

  ghost function ParentSet(dom: Dom, x: XMLNode, p: XMLNode?): (dom': Dom)
    requires x in dom
    ensures dom'.Keys == dom.Keys
  {
    dom[x := dom[x].(parent := p)]
  }

  ghost function EndsSkipped(dom: Dom, p: XMLNode, child: XMLNode): (dom': Dom)
    requires p in dom && child in dom
    ensures dom'.Keys == dom.Keys
  {
    EndsSet(dom, p, if dom[p].firstChild == child then dom[child].next else dom[p].firstChild,
            if dom[p].lastChild == child then dom[child].prev else dom[p].lastChild, Without(dom[p].kids, child))
  }

  ghost function BetweenSkipped(dom: Dom, child: XMLNode): (dom': Dom)
    requires child in dom && dom[child].prev in dom.Keys + {null} && dom[child].next in dom.Keys + {null}
    ensures dom'.Keys == dom.Keys
  {
    PrevSet(NextSet(dom, dom[child].prev, dom[child].next), dom[child].next, dom[child].prev)
  }

  ghost function LetGo(dom: Dom, child: XMLNode): (dom': Dom)
    requires child in dom
    ensures dom'.Keys == dom.Keys
  {
    ParentSet(PrevSet(NextSet(dom, child, null), child, null), child, null)
  }

  lemma StepsStay(dom: Dom, p: XMLNode, child: XMLNode)
    requires Family(dom) && p in dom && child in dom && dom[child].parent == p
    ensures var c := EndsSkipped(dom, p, child)[child];
            && c.prev == dom[child].prev && c.next == dom[child].next
            && c.parent == p && c.prev in dom.Keys + {null} && c.next in dom.Keys + {null}
            && c.prev != child && c.next != child
  {
    PointersStay(dom, child);
  }

  lemma UnlinkStepsAt(dom: Dom, p: XMLNode, child: XMLNode, n: XMLNode)
    requires p in dom && child in dom && dom[child].parent == p && n in dom
    requires dom[child].prev in dom.Keys + {null} && dom[child].next in dom.Keys + {null}
    requires var c := EndsSkipped(dom, p, child)[child];
             c.prev == dom[child].prev && c.next == dom[child].next && c.parent == p
    requires dom[child].prev != child && dom[child].next != child
    ensures LetGo(BetweenSkipped(EndsSkipped(dom, p, child), child), child)[n] == AfterUnlink(dom, child, n)
  {
    hide Without;
    var dom1 := EndsSkipped(dom, p, child);
    var half := NextSet(dom1, dom[child].prev, dom[child].next);
    assert half[n] == if n == dom[child].prev then dom1[n].(next := dom[child].next) else dom1[n];
    var dom2 := PrevSet(half, dom[child].next, dom[child].prev);
    assert dom2[n] == if n == dom[child].next then half[n].(prev := dom[child].prev) else half[n];
    assert dom2 == BetweenSkipped(dom1, child);
  }

  /** The assignments of `Unlink`, one after the other. */
  lemma UnlinkSteps(dom: Dom, p: XMLNode, child: XMLNode)
    requires Family(dom) && p in dom && child in dom && dom[child].parent == p
    ensures var c := EndsSkipped(dom, p, child)[child]; c.prev in dom.Keys + {null} && c.next in dom.Keys + {null}
    ensures LetGo(BetweenSkipped(EndsSkipped(dom, p, child), child), child) == Unlinked(dom, child)
  {
    hide *;
    StepsStay(dom, p, child);
    var dom' := LetGo(BetweenSkipped(EndsSkipped(dom, p, child), child), child);
    forall n | n in dom ensures dom'[n] == AfterUnlink(dom, child, n) {
      UnlinkStepsAt(dom, p, child, n);
    }
  }

  /** The assignments of `InsertEndChild`. */
  ghost function LinkedLast(dom: Dom, p: XMLNode, x: XMLNode): (dom': Dom)
    requires p in dom && x in dom && dom[p].lastChild in dom.Keys + {null}
    ensures dom'.Keys == dom.Keys
  {
    var last, kids := dom[p].lastChild, dom[p].kids + [x];
    var linked := if last == null then NextSet(PrevSet(EndsSet(dom, p, x, x, kids), x, null), x, null)
      else
        var beside := PrevSet(NextSet(dom, last, x), x, last);
        NextSet(EndsSet(beside, p, beside[p].firstChild, x, kids), x, null);
    ParentSet(linked, x, p)
  }

  /** The assignments of `InsertFirstChild`. */
  ghost function LinkedFirst(dom: Dom, p: XMLNode, x: XMLNode): (dom': Dom)
    requires p in dom && x in dom && dom[p].firstChild in dom.Keys + {null}
    ensures dom'.Keys == dom.Keys
  {
    var first, kids := dom[p].firstChild, [x] + dom[p].kids;
    var linked := if first == null then NextSet(PrevSet(EndsSet(dom, p, x, x, kids), x, null), x, null)
      else
        var beside := NextSet(PrevSet(dom, first, x), x, first);
        PrevSet(EndsSet(beside, p, x, beside[p].lastChild, kids), x, null);
    ParentSet(linked, x, p)
  }

  /** The assignments of `InsertAfterChild`. */
  ghost function LinkedBetween(dom: Dom, p: XMLNode, a: XMLNode, x: XMLNode, k: nat): (dom': Dom)
    requires p in dom && a in dom && x in dom && dom[a].next in dom.Keys + {null} && k <= |dom[p].kids|
    ensures dom'.Keys == dom.Keys
  {
    var b := dom[a].next;
    var beside := NextSet(PrevSet(NextSet(PrevSet(dom, x, a), x, b), b, x), a, x);
    var kids := dom[p].kids[..k] + [x] + dom[p].kids[k..];
    KidsSet(ParentSet(beside, x, p), p, kids)
  }

  lemma EndsStay(dom: Dom, p: XMLNode)
    requires Family(dom) && p in dom
    ensures dom[p].firstChild in dom.Keys + {null} && dom[p].lastChild in dom.Keys + {null}
    ensures (dom[p].lastChild == null <==> dom[p].kids == []) && (dom[p].firstChild == null <==> dom[p].kids == [])
    ensures dom[p].kids != [] ==> dom[p].lastChild == dom[p].kids[|dom[p].kids| - 1] && dom[p].firstChild == dom[p].kids[0]
  {
    assert ChildrenLinked(dom, p);
    if dom[p].kids != [] {
      Neighbours(dom, p, 0);
      Neighbours(dom, p, |dom[p].kids| - 1);
    }
  }

  lemma LinkedLastAt(dom: Dom, p: XMLNode, x: XMLNode, n: XMLNode)
    requires Family(dom) && p in dom && Free(dom, x) && n in dom && x !in dom[p].kids
    requires dom[p].lastChild in dom.Keys + {null}
    ensures LinkedLast(dom, p, x)[n] == AfterInsert(dom, p, x, |dom[p].kids|, n)
  {
    EndsStay(dom, p);
    hide Family;
    AtEitherEnd(dom[p].kids, x);
  }

  lemma LinkedFirstAt(dom: Dom, p: XMLNode, x: XMLNode, n: XMLNode)
    requires Family(dom) && p in dom && Free(dom, x) && n in dom && x !in dom[p].kids
    requires dom[p].firstChild in dom.Keys + {null}
    ensures LinkedFirst(dom, p, x)[n] == AfterInsert(dom, p, x, 0, n)
  {
    EndsStay(dom, p);
    hide Family;
    AtEitherEnd(dom[p].kids, x);
  }

  lemma BetweenNeighbours(dom: Dom, p: XMLNode, k: nat)
    requires p in dom && ChildrenLinked(dom, p) && 0 < k < |dom[p].kids|
    ensures var a, b := dom[p].kids[k - 1], dom[p].kids[k]; a in dom && dom[a].next == b && b in dom && a != b
    ensures KidBefore(dom, p, k) == dom[p].kids[k - 1] && KidAt(dom, p, k) == dom[p].kids[k]
  {
    Neighbours(dom, p, k - 1);
    Neighbours(dom, p, k);
  }

  lemma LinkedBetweenAt(dom: Dom, p: XMLNode, x: XMLNode, k: nat, n: XMLNode)
    requires Family(dom) && p in dom && Free(dom, x) && n in dom && x !in dom[p].kids
    requires 0 < k < |dom[p].kids|
    requires dom[p].kids[k - 1] in dom && dom[dom[p].kids[k - 1]].next in dom.Keys + {null}
    ensures LinkedBetween(dom, p, dom[p].kids[k - 1], x, k)[n] == AfterInsert(dom, p, x, k, n)
  {
    assert ChildrenLinked(dom, p);
    hide Family, ChildrenLinked, KidAt, KidBefore;
    BetweenNeighbours(dom, p, k);
    var a, b := dom[p].kids[k - 1], dom[p].kids[k];
    var own := NextSet(PrevSet(dom, x, a), x, b);
    assert own[n] == if n == x then dom[n].(prev := a, next := b) else dom[n];
    var beside := NextSet(PrevSet(own, b, x), a, x);
    assert beside[n] == if n == b then own[n].(prev := x) else if n == a then own[n].(next := x) else own[n];
    assert beside[p].kids == dom[p].kids;
  }

  /** x out of the list it is in, if any. */
  ghost function TakenOut(dom: Dom, x: XMLNode): (dom': Dom)
    requires x in dom
    ensures dom'.Keys == dom.Keys
  {
    if dom[x].parent == null then dom else Unlinked(dom, x)
  }

  lemma TakenOutIsFree(dom: Dom, x: XMLNode)
    requires Family(dom) && x in dom
    ensures Family(TakenOut(dom, x)) && Free(TakenOut(dom, x), x)
  {
    assert ParentLinked(dom, x);
    if dom[x].parent != null {
      UnlinkedIsFamily(dom, x);
    }
  }

  // ---------- what the insertions make of the lists ----------

  ghost function Appended(dom: Dom, p: XMLNode, x: XMLNode): (dom': Dom)
    requires p in dom && x in dom
    ensures dom'.Keys == dom.Keys
  {
    var d := TakenOut(dom, x);
    Inserted(d, p, x, |d[p].kids|)
  }

  ghost function Prepended(dom: Dom, p: XMLNode, x: XMLNode): (dom': Dom)
    requires p in dom && x in dom
    ensures dom'.Keys == dom.Keys
  {
    Inserted(TakenOut(dom, x), p, x, 0)
  }

  /** x right behind a. */
  ghost function Placed(dom: Dom, p: XMLNode, a: XMLNode, x: XMLNode): (dom': Dom)
    requires p in dom && x in dom
    ensures dom'.Keys == dom.Keys
  {
    var d := TakenOut(dom, x);
    if a in d[p].kids then Inserted(d, p, x, Position(d[p].kids, a) + 1) else d
  }

  lemma FreeIsOutside(dom: Dom, p: XMLNode, x: XMLNode)
    requires Family(dom) && p in dom && Free(dom, x)
    ensures x in dom && x !in dom[p].kids
  {
    assert ChildrenLinked(dom, p);
    FreeIsNoKid(dom, p, x);
  }

  lemma AppendSteps(dom: Dom, p: XMLNode, x: XMLNode)
    requires Family(dom) && p in dom && Free(dom, x)
    ensures x in dom && dom[p].lastChild in dom.Keys + {null}
    ensures LinkedLast(dom, p, x) == Inserted(dom, p, x, |dom[p].kids|)
    ensures Family(Inserted(dom, p, x, |dom[p].kids|))
  {
    hide *;
    FreeIsOutside(dom, p, x);
    EndsStay(dom, p);
    InsertedIsFamily(dom, p, x, |dom[p].kids|);
    forall n | n in dom ensures LinkedLast(dom, p, x)[n] == AfterInsert(dom, p, x, |dom[p].kids|, n) {
      LinkedLastAt(dom, p, x, n);
    }
  }

  lemma PrependSteps(dom: Dom, p: XMLNode, x: XMLNode)
    requires Family(dom) && p in dom && Free(dom, x)
    ensures x in dom && dom[p].firstChild in dom.Keys + {null}
    ensures LinkedFirst(dom, p, x) == Inserted(dom, p, x, 0)
    ensures Family(Inserted(dom, p, x, 0))
  {
    hide *;
    FreeIsOutside(dom, p, x);
    EndsStay(dom, p);
    InsertedIsFamily(dom, p, x, 0);
    forall n | n in dom ensures LinkedFirst(dom, p, x)[n] == AfterInsert(dom, p, x, 0, n) {
      LinkedFirstAt(dom, p, x, n);
    }
  }

  /** A free x behind a, which has a successor. */
  lemma PlaceStays(dom: Dom, p: XMLNode, a: XMLNode, x: XMLNode)
    requires Family(dom) && p in dom && Free(dom, x) && a in dom[p].kids && a in dom && dom[a].next != null
    ensures var k := Position(dom[p].kids, a) + 1;
            && dom[a].parent == p && x !in dom[p].kids && k < |dom[p].kids| && dom[p].kids[k - 1] == a && dom[a].next in dom.Keys
            && Placed(dom, p, a, x) == Inserted(dom, p, x, k)
  {
    assert ChildrenLinked(dom, p);
    FreeIsNoKid(dom, p, x);
    Neighbours(dom, p, Position(dom[p].kids, a));
    hide Family, ChildrenLinked, Inserted;
  }

  lemma PlaceSteps(dom: Dom, p: XMLNode, x: XMLNode, k: nat)
    requires Family(dom) && p in dom && x in dom && x !in dom[p].kids && Free(dom, x) && 0 < k < |dom[p].kids|
    requires dom[p].kids[k - 1] in dom && dom[dom[p].kids[k - 1]].next in dom.Keys
    ensures LinkedBetween(dom, p, dom[p].kids[k - 1], x, k) == Inserted(dom, p, x, k)
    ensures Family(Inserted(dom, p, x, k))
  {
    hide *;
    InsertedIsFamily(dom, p, x, k);
    forall n | n in dom ensures LinkedBetween(dom, p, dom[p].kids[k - 1], x, k)[n] == AfterInsert(dom, p, x, k, n) {
      LinkedBetweenAt(dom, p, x, k, n);
    }
  }

  lemma PlaceFree(dom: Dom, p: XMLNode, a: XMLNode, x: XMLNode)
    requires Family(dom) && p in dom && Free(dom, x) && a in dom[p].kids && a in dom && dom[a].next != null
    ensures var k := Position(dom[p].kids, a) + 1;
            && x in dom && k < |dom[p].kids| && dom[a].next in dom.Keys
            && LinkedBetween(dom, p, a, x, k) == Placed(dom, p, a, x)
    ensures Family(Placed(dom, p, a, x))
  {
    hide Family, Placed, Inserted, LinkedBetween;
    PlaceStays(dom, p, a, x);
    PlaceSteps(dom, p, x, Position(dom[p].kids, a) + 1);
  }

  /** Behind a, x can still be put once it is out of its old place. */
  lemma StillThere(dom: Dom, p: XMLNode, a: XMLNode, x: XMLNode)
    requires Family(dom) && p in dom && x in dom && a in dom && dom[a].parent == p && a != x
    ensures a in TakenOut(dom, x)[p].kids && a in dom[p].kids && ChildrenLinked(dom, p) && ChildrenLinked(TakenOut(dom, x), p)
  {
    var d := TakenOut(dom, x);
    TakenOutIsFree(dom, x);
    assert ParentLinked(dom, a) && ParentLinked(d, a) && ChildrenLinked(dom, p) && ChildrenLinked(d, p);
    assert d[a].parent == p;
  }

  /** Taking out first changes nothing. */
  lemma PlacedFree(dom: Dom, p: XMLNode, a: XMLNode, x: XMLNode)
    requires p in dom && x in dom
    ensures Placed(TakenOut(dom, x), p, a, x) == Placed(dom, p, a, x)
  {
    hide Placed;
    var d := TakenOut(dom, x);
    assert d[x].parent == null;
    assert TakenOut(d, x) == d;
    PlacedTwice(dom, p, a, x);
  }

  lemma PlacedTwice(dom: Dom, p: XMLNode, a: XMLNode, x: XMLNode)
    requires p in dom && x in dom && TakenOut(TakenOut(dom, x), x) == TakenOut(dom, x)
    ensures Placed(TakenOut(dom, x), p, a, x) == Placed(dom, p, a, x)
  {
    hide Inserted, TakenOut, Position;
  }

  /** Behind the last child is at the end. */
  lemma PlacedLast(dom: Dom, p: XMLNode, a: XMLNode, x: XMLNode)
    requires Family(dom) && p in dom && x in dom && a in dom && dom[a].parent == p && a != x && dom[a].next == null
    ensures Placed(dom, p, a, x) == Appended(dom, p, x)
  {
    hide Family, ChildrenLinked, TakenOut, Inserted;
    var d := TakenOut(dom, x);
    StillThere(dom, p, a, x);
    PlacedBefore(dom, p, a, x);
    Neighbours(d, p, Position(d[p].kids, a));
  }

  /** What follows a once x is out of its old place. */
  lemma PlacedBefore(dom: Dom, p: XMLNode, a: XMLNode, x: XMLNode)
    requires Family(dom) && p in dom && x in dom && a in dom && dom[a].parent == p && a != x
    ensures TakenOut(dom, x)[a].next == if dom[a].next == x then dom[x].next else dom[a].next
  {
    StillThere(dom, p, a, x);
    assert ParentLinked(dom, x);
    var q := dom[x].parent;
    assert q != null ==> q in dom && ChildrenLinked(dom, q);
    hide Family, ChildrenLinked, ParentLinked;
    Neighbours(dom, p, Position(dom[p].kids, a));
    if q != null {
      Neighbours(dom, q, Position(dom[q].kids, x));
    }
  }

  /** The children of a node in terms of those before: x leaves its list and ends p's. */
  lemma AppendedKids(dom: Dom, p: XMLNode, x: XMLNode, n: XMLNode)
    requires Family(dom) && p in dom && x in dom && n in dom
    ensures Appended(dom, p, x)[n].kids == Without(dom[n].kids, x) + if n == p then [x] else []
  {
    hide Family, Without, TakenOut, KidAt, KidBefore, Inserted;
    TakenOutKids(dom, x, p);
    TakenOutKids(dom, x, n);
    AtEitherEnd(TakenOut(dom, x)[p].kids, x);
  }

  lemma AtEitherEnd<T>(s: seq<T>, x: T)
    ensures s[..|s|] + [x] + s[|s|..] == s + [x] && s[..0] + [x] + s[0..] == [x] + s
  {
  }

  lemma PrependedKids(dom: Dom, p: XMLNode, x: XMLNode, n: XMLNode)
    requires Family(dom) && p in dom && x in dom && n in dom
    ensures Prepended(dom, p, x)[n].kids == (if n == p then [x] else []) + Without(dom[n].kids, x)
  {
    hide Family, Without, TakenOut, KidAt, KidBefore, Inserted;
    TakenOutKids(dom, x, p);
    TakenOutKids(dom, x, n);
    AtEitherEnd(TakenOut(dom, x)[p].kids, x);
  }

  /** s with x right behind a. */
  ghost function WithBehind<T>(s: seq<T>, a: T, x: T): seq<T> {
    if s == [] then [] else if s[0] == a then [a, x] + s[1..] else [s[0]] + WithBehind(s[1..], a, x)
  }

  lemma {:induction false} BehindAt<T>(s: seq<T>, a: T, x: T)
    requires a in s
    ensures var k := Position(s, a) + 1; s[..k] + [x] + s[k..] == WithBehind(s, a, x)
  {
    var k := Position(s, a) + 1;
    if s[0] != a {
      BehindAt(s[1..], a, x);
      assert s[..k] == [s[0]] + s[1..][..k - 1];
      assert s[k..] == s[1..][k - 1..];
    }
  }

  lemma PlacedKids(dom: Dom, p: XMLNode, a: XMLNode, x: XMLNode, n: XMLNode)
    requires Family(dom) && p in dom && x in dom && n in dom && a in dom && dom[a].parent == p && a != x
    ensures Placed(dom, p, a, x)[n].kids
         == if n == p then WithBehind(Without(dom[p].kids, x), a, x) else Without(dom[n].kids, x)
  {
    StillThere(dom, p, a, x);
    TakenOutKids(dom, x, p);
    TakenOutKids(dom, x, n);
    hide Family, Without, TakenOut;
    BehindAt(TakenOut(dom, x)[p].kids, a, x);
  }

  lemma TakenOutKids(dom: Dom, x: XMLNode, n: XMLNode)
    requires Family(dom) && x in dom && n in dom
    ensures TakenOut(dom, x)[n].kids == Without(dom[n].kids, x)
  {
    assert ChildrenLinked(dom, n) && ParentLinked(dom, x);
    hide Family;
    if dom[x].parent == null || n != dom[x].parent {
      if x in dom[n].kids {
        Neighbours(dom, n, Position(dom[n].kids, x));
      }
      WithoutAbsent(dom[n].kids, x);
    }
  }

  class XMLNode {
    const value: string
    const document: nat
    var parent: XMLNode?
    var firstChild: XMLNode?
    var lastChild: XMLNode?
    var prev: XMLNode?
    var next: XMLNode?
    ghost var kids: seq<XMLNode>   // the children, in order

    constructor (document: nat, value: string)
      ensures this.document == document && this.value == value
      ensures Pointers() == Links(null, null, null, null, null, [])
    {
      this.document, this.value := document, value;
      parent, firstChild, lastChild, prev, next := null, null, null, null, null;
      kids := [];
    }

    ghost function Pointers(): Links
      reads this
    {
      Links(parent, firstChild, lastChild, prev, next, kids)
    }

    // The assignments, each with what it makes of the snapshot.

    method SetNext(x: XMLNode?, ghost nodes: set<XMLNode>)
      requires this in nodes
      modifies this`next
      ensures Snapshot(nodes) == NextSet(old(Snapshot(nodes)), this, x)
    {
      next := x;
    }

    method SetPrev(x: XMLNode?, ghost nodes: set<XMLNode>)
      requires this in nodes
      modifies this`prev
      ensures Snapshot(nodes) == PrevSet(old(Snapshot(nodes)), this, x)
    {
      prev := x;
    }

    method SetParent(x: XMLNode?, ghost nodes: set<XMLNode>)
      requires this in nodes
      modifies this`parent
      ensures Snapshot(nodes) == ParentSet(old(Snapshot(nodes)), this, x)
    {
      parent := x;
    }

    method SetEnds(first: XMLNode?, last: XMLNode?, ghost newKids: seq<XMLNode>, ghost nodes: set<XMLNode>)
      requires this in nodes
      modifies this`firstChild, this`lastChild, this`kids
      ensures Snapshot(nodes) == EndsSet(old(Snapshot(nodes)), this, first, last, newKids)
    {
      firstChild, lastChild, kids := first, last, newKids;
    }

    ghost method SetKids(newKids: seq<XMLNode>, nodes: set<XMLNode>)
      requires this in nodes
      modifies this`kids
      ensures Snapshot(nodes) == KidsSet(old(Snapshot(nodes)), this, newKids)
    {
      kids := newKids;
    }

    /** The ends of the list step over child. */
    method SkipAtEnds(child: XMLNode, ghost nodes: set<XMLNode>)
      requires this in nodes && child in nodes
      modifies this
      ensures Snapshot(nodes) == EndsSkipped(old(Snapshot(nodes)), this, child)
    {
      hide Without;
      var first, last := firstChild, lastChild;
      if child == firstChild {
        first := firstChild.next;
      }
      if child == lastChild {
        last := lastChild.prev;
      }
      SetEnds(first, last, Without(kids, child), nodes);
    }

    /** The neighbours of child step over it. */
    method SkipBetween(child: XMLNode, ghost nodes: set<XMLNode>)
      requires child in nodes && child.prev in nodes + {null} && child.next in nodes + {null}
      requires child.prev != child && child.next != child
      modifies nodes
      ensures Snapshot(nodes) == BetweenSkipped(old(Snapshot(nodes)), child)
    {
      ghost var dom := Snapshot(nodes);
      assert dom[child] == child.Pointers();
      hide Snapshot, XMLNode.Pointers;
      if child.prev != null {
        child.prev.SetNext(child.next, nodes);
      }
      if child.next != null {
        child.next.SetPrev(child.prev, nodes);
      }
    }

    /** child stands alone. */
    static method Release(child: XMLNode, ghost nodes: set<XMLNode>)
      requires child in nodes
      modifies child
      ensures Snapshot(nodes) == LetGo(old(Snapshot(nodes)), child)
    {
      child.SetNext(null, nodes);
      child.SetPrev(null, nodes);
      child.SetParent(null, nodes);
    }

    method Unlink(child: XMLNode, ghost nodes: set<XMLNode>)
      requires Family(Snapshot(nodes)) && this in nodes && child in nodes && child.parent == this
      modifies nodes
      ensures Family(Snapshot(nodes)) && Snapshot(nodes) == Unlinked(old(Snapshot(nodes)), child)
    {
      ghost var dom := Snapshot(nodes);
      UnlinkedIsFamily(dom, child);
      StepsStay(dom, this, child);
      UnlinkSteps(dom, this, child);
      assert dom[child] == child.Pointers();
      SkipAtEnds(child, nodes);
      assert EndsSkipped(dom, this, child)[child] == child.Pointers();
      hide *;
      SkipBetween(child, nodes);
      Release(child, nodes);
    }

    method InsertChildPreamble(insertThis: XMLNode, ghost nodes: set<XMLNode>)
      requires Family(Snapshot(nodes)) && insertThis in nodes
      modifies nodes
      ensures Snapshot(nodes) == TakenOut(old(Snapshot(nodes)), insertThis)
      ensures Family(Snapshot(nodes)) && Free(Snapshot(nodes), insertThis)
    {
      ghost var dom := Snapshot(nodes);
      TakenOutIsFree(dom, insertThis);
      assert dom[insertThis] == insertThis.Pointers();
      assert insertThis.parent != null ==> insertThis.parent in nodes by {
        assert ParentLinked(dom, insertThis);
      }
      hide Family, Free, Unlinked;
      if insertThis.parent != null {
        insertThis.parent.Unlink(insertThis, nodes);
      }
    }

    /** addThis, in no list, becomes the last child: the assignments of `InsertEndChild`. */
    method LinkLast(addThis: XMLNode, ghost nodes: set<XMLNode>)
      requires Family(Snapshot(nodes)) && this in nodes && Free(Snapshot(nodes), addThis)
      modifies nodes
      ensures Family(Snapshot(nodes))
      ensures Snapshot(nodes) == Inserted(old(Snapshot(nodes)), this, addThis, |old(Snapshot(nodes))[this].kids|)
    {
      hide Family, Free, Inserted;
      AppendSteps(Snapshot(nodes), this, addThis);
      assert Snapshot(nodes)[this] == Pointers();
      AssignLast(addThis, nodes);
    }

    method AssignLast(addThis: XMLNode, ghost nodes: set<XMLNode>)
      requires this in nodes && addThis in nodes && lastChild in nodes + {null}
      modifies nodes
      ensures Snapshot(nodes) == LinkedLast(old(Snapshot(nodes)), this, addThis)
    {
      ghost var dom := Snapshot(nodes);
      assert dom[this] == Pointers();
      hide Snapshot, NextSet, PrevSet, EndsSet, ParentSet;
      ghost var was := kids;
      if lastChild != null {
        lastChild.SetNext(addThis, nodes);
        addThis.SetPrev(lastChild, nodes);
        assert Snapshot(nodes)[this] == Pointers();
        SetEnds(firstChild, addThis, was + [addThis], nodes);
        addThis.SetNext(null, nodes);
      } else {
        SetEnds(addThis, addThis, was + [addThis], nodes);
        addThis.SetPrev(null, nodes);
        addThis.SetNext(null, nodes);
      }
      addThis.SetParent(this, nodes);
    }

    /** addThis, in no list, becomes the first child: the assignments of `InsertFirstChild`. */
    method LinkFirst(addThis: XMLNode, ghost nodes: set<XMLNode>)
      requires Family(Snapshot(nodes)) && this in nodes && Free(Snapshot(nodes), addThis)
      modifies nodes
      ensures Family(Snapshot(nodes)) && Snapshot(nodes) == Inserted(old(Snapshot(nodes)), this, addThis, 0)
    {
      hide Family, Free, Inserted;
      PrependSteps(Snapshot(nodes), this, addThis);
      assert Snapshot(nodes)[this] == Pointers();
      AssignFirst(addThis, nodes);
    }

    method AssignFirst(addThis: XMLNode, ghost nodes: set<XMLNode>)
      requires this in nodes && addThis in nodes && firstChild in nodes + {null}
      modifies nodes
      ensures Snapshot(nodes) == LinkedFirst(old(Snapshot(nodes)), this, addThis)
    {
      ghost var dom := Snapshot(nodes);
      assert dom[this] == Pointers();
      hide Snapshot, NextSet, PrevSet, EndsSet, ParentSet;
      ghost var was := kids;
      if firstChild != null {
        firstChild.SetPrev(addThis, nodes);
        addThis.SetNext(firstChild, nodes);
        assert Snapshot(nodes)[this] == Pointers();
        SetEnds(addThis, lastChild, [addThis] + was, nodes);
        addThis.SetPrev(null, nodes);
      } else {
        SetEnds(addThis, addThis, [addThis] + was, nodes);
        addThis.SetPrev(null, nodes);
        addThis.SetNext(null, nodes);
      }
      addThis.SetParent(this, nodes);
    }

    /** addThis, in no list, is put right behind afterThis, which is not the last: the assignments
        of `InsertAfterChild`. */
    method LinkBetween(afterThis: XMLNode, addThis: XMLNode, ghost nodes: set<XMLNode>)
      requires Family(Snapshot(nodes)) && this in nodes && afterThis in nodes && Free(Snapshot(nodes), addThis)
      requires afterThis != addThis && afterThis in Snapshot(nodes)[this].kids && afterThis.next != null
      modifies nodes
      ensures Family(Snapshot(nodes)) && Snapshot(nodes) == Placed(old(Snapshot(nodes)), this, afterThis, addThis)
    {
      hide Family, Placed, Inserted, LinkedBetween;
      ghost var dom := Snapshot(nodes);
      assert dom[this] == Pointers() && dom[afterThis] == afterThis.Pointers();
      PlaceFree(dom, this, afterThis, addThis);
      ghost var k := Position(dom[this].kids, afterThis) + 1;
      assert k <= |dom[this].kids| && afterThis.next in nodes && addThis in nodes;
      AssignBetween(afterThis, addThis, k, nodes);
    }

    method AssignBetween(afterThis: XMLNode, addThis: XMLNode, ghost k: nat, ghost nodes: set<XMLNode>)
      requires this in nodes && afterThis in nodes && addThis in nodes && afterThis != addThis
      requires afterThis.next in nodes && k <= |kids|
      modifies nodes
      ensures Snapshot(nodes) == LinkedBetween(old(Snapshot(nodes)), this, afterThis, addThis, k)
    {
      ghost var dom := Snapshot(nodes);
      assert dom[this] == Pointers() && dom[afterThis] == afterThis.Pointers();
      ghost var newKids := dom[this].kids[..k] + [addThis] + dom[this].kids[k..];
      hide Snapshot, KidsSet, NextSet, PrevSet, EndsSet, ParentSet;
      addThis.SetPrev(afterThis, nodes);
      addThis.SetNext(afterThis.next, nodes);
      afterThis.next.SetPrev(addThis, nodes);
      afterThis.SetNext(addThis, nodes);
      addThis.SetParent(this, nodes);
      SetKids(newKids, nodes);
    }

    /** addThis becomes the last child, out of any list it was in. */
    method InsertEndChild(addThis: XMLNode, ghost nodes: set<XMLNode>) returns (r: XMLNode?)
      requires Family(Snapshot(nodes)) && this in nodes && addThis in nodes
      modifies nodes
      ensures Family(Snapshot(nodes))
      ensures addThis.document != document ==> r == null && Snapshot(nodes) == old(Snapshot(nodes))
      ensures addThis.document == document ==>
        r == addThis && Snapshot(nodes) == Appended(old(Snapshot(nodes)), this, addThis)
    {
      if addThis.document != document {
        return null;
      }
      hide Family, Free, TakenOut, Inserted, Snapshot;
      InsertChildPreamble(addThis, nodes);
      LinkLast(addThis, nodes);
      return addThis;
    }

    /** addThis becomes the first child, out of any list it was in. */
    method InsertFirstChild(addThis: XMLNode, ghost nodes: set<XMLNode>) returns (r: XMLNode?)
      requires Family(Snapshot(nodes)) && this in nodes && addThis in nodes
      modifies nodes
      ensures Family(Snapshot(nodes))
      ensures addThis.document != document ==> r == null && Snapshot(nodes) == old(Snapshot(nodes))
      ensures addThis.document == document ==>
        r == addThis && Snapshot(nodes) == Prepended(old(Snapshot(nodes)), this, addThis)
    {
      if addThis.document != document {
        return null;
      }
      hide Family, Free, TakenOut, Inserted, Snapshot;
      InsertChildPreamble(addThis, nodes);
      LinkFirst(addThis, nodes);
      return addThis;
    }

    /** addThis is put behind afterThis. `crashed`: the source would dereference a null
        pointer, which happens exactly when addThis already is the last child, right
        behind afterThis. */
    method InsertAfterChild(afterThis: XMLNode, addThis: XMLNode, ghost nodes: set<XMLNode>)
      returns (r: XMLNode?, crashed: bool)
      requires Family(Snapshot(nodes)) && this in nodes && afterThis in nodes && addThis in nodes
      modifies nodes
      ensures crashed == (addThis.document == document && old(afterThis.parent) == this && afterThis != addThis
                          && old(afterThis.next) == addThis && old(addThis.next) == null)
      ensures addThis.document != document || old(afterThis.parent) != this ==>
        r == null && Snapshot(nodes) == old(Snapshot(nodes))
      ensures addThis.document == document && old(afterThis.parent) == this && afterThis == addThis ==>
        r == addThis && Snapshot(nodes) == old(Snapshot(nodes))
      ensures !crashed ==> Family(Snapshot(nodes))
      ensures addThis.document == document && old(afterThis.parent) == this && afterThis != addThis && !crashed ==>
        r == addThis && Snapshot(nodes) == Placed(old(Snapshot(nodes)), this, afterThis, addThis)
    {
      if addThis.document != document || afterThis.parent != this {
        return null, false;
      }
      if afterThis == addThis {
        return addThis, false;
      }
      r := addThis;
      crashed := InsertBehind(afterThis, addThis, nodes);
    }

    /** `InsertAfterChild` of another node of the same document. */
    method InsertBehind(afterThis: XMLNode, addThis: XMLNode, ghost nodes: set<XMLNode>) returns (crashed: bool)
      requires Family(Snapshot(nodes)) && this in nodes && afterThis in nodes && addThis in nodes
      requires addThis.document == document && afterThis.parent == this && afterThis != addThis
      modifies nodes
      ensures crashed == (old(afterThis.next) == addThis && old(addThis.next) == null)
      ensures !crashed ==> Family(Snapshot(nodes))
      ensures !crashed ==> Snapshot(nodes) == Placed(old(Snapshot(nodes)), this, afterThis, addThis)
    {
      ghost var was := Snapshot(nodes);
      assert was[addThis] == addThis.Pointers() && was[afterThis] == afterThis.Pointers();
      PlacedBefore(was, this, afterThis, addThis);
      StillThere(was, this, afterThis, addThis);
      if afterThis.next == null {
        PlacedLast(was, this, afterThis, addThis);
        hide *;
        var _ := InsertEndChild(addThis, nodes);
        return false;
      }
      PlacedFree(was, this, afterThis, addThis);
      assert afterThis.next == addThis && addThis.next == null <==> TakenOut(was, addThis)[afterThis].next == null;
      hide *;
      InsertChildPreamble(addThis, nodes);
      crashed := PutBehind(afterThis, addThis, nodes);
    }

    /** addThis, in no list, is put between afterThis and its successor. */
    method PutBehind(afterThis: XMLNode, addThis: XMLNode, ghost nodes: set<XMLNode>) returns (crashed: bool)
      requires Family(Snapshot(nodes)) && this in nodes && afterThis in nodes && Free(Snapshot(nodes), addThis)
      requires afterThis != addThis && afterThis in Snapshot(nodes)[this].kids
      modifies nodes
      ensures crashed == (old(Snapshot(nodes))[afterThis].next == null)
      ensures !crashed ==> Family(Snapshot(nodes))
      ensures !crashed ==> Snapshot(nodes) == Placed(old(Snapshot(nodes)), this, afterThis, addThis)
    {
      hide Family, Placed, Free;
      if afterThis.next == null {
        return true;
      }
      LinkBetween(afterThis, addThis, nodes);
      return false;
    }
  }

  ghost function Snapshot(nodes: set<XMLNode>): (dom: Dom)
    reads nodes
    ensures dom.Keys == nodes
    ensures forall n :: n in nodes ==> dom[n] == n.Pointers()
  {
    map n | n in nodes :: n.Pointers()
  }
}
