/** How the JSON library equates and orders values. A number that is not negative is kept unsigned,
  * any other signed; to compare one of each, the unsigned one is cast to signed.
  */
module JsonOrder {
  import opened JsonValues

  const Two63 := 0x8000_0000_0000_0000
  const Two64 := 0x1_0000_0000_0000_0000

  /** The two's complement image of a number in 64 bits. */
  function Signed64(n: int): int {
    (n + 0x8000_0000_0000_0000) % 0x1_0000_0000_0000_0000 - 0x8000_0000_0000_0000
  }

  lemma ImageIs(n: JsonInt)
    ensures Signed64(n) == if n < Two63 then n else n - Two64
  {
  }

  // ---------- equality ----------

  predicate SameNumber(a: JsonInt, b: JsonInt) {
    if (a < 0) == (b < 0) then a == b else Signed64(a) == Signed64(b)
  }

  /** `operator==` */
  predicate Equal(a: Json, b: Json)
    decreases a, 1
  {
    match a
    case Null => b.Null?
    case Bool(x) => b == a
    case Int(n) => b.Int? && SameNumber(n, b.n)
    case Str(s) => b == a
    case Arr(items) => b.Arr? && EqualItems(items, b.items)
    case Obj(members) => b.Obj? && EqualMembers(members, b.members)
  }

  predicate EqualItems(xs: seq<Json>, ys: seq<Json>)
    decreases xs, 0
  {
    if xs == [] || ys == [] then xs == ys else Equal(xs[0], ys[0]) && EqualItems(xs[1..], ys[1..])
  }

  predicate EqualMembers(ms: seq<Member>, ns: seq<Member>)
    decreases ms, 0
  {
    if ms == [] || ns == [] then ms == ns
    else ms[0].key == ns[0].key && Equal(ms[0].value, ns[0].value) && EqualMembers(ms[1..], ns[1..])
  }

  // ---------- order ----------

  /** Which of two values is less, if either is. */
  datatype Order = Before | Neither | After

  /** The order of the types. */
  function Rank(a: Json): nat {
    match a case Null => 0 case Bool(_) => 1 case Int(_) => 2 case Obj(_) => 3 case Arr(_) => 4 case Str(_) => 5
  }

  function ByNumber(a: int, b: int): Order {
    if a < b then Before else if a == b then Neither else After
  }

  function ByText(s: string, t: string): Order {
    if s == "" || t == "" then ByNumber(|s|, |t|)
    else if s[0] != t[0] then (if s[0] < t[0] then Before else After)
    else ByText(s[1..], t[1..])
  }

  /** `operator<`, both ways round. */
  function Compare(a: Json, b: Json): Order
    decreases a, 1
  {
    if Rank(a) != Rank(b) then ByNumber(Rank(a), Rank(b))
    else
      match a
      case Null => Neither
      case Bool(x) => if x == b.b then Neither else if b.b then Before else After
      case Int(n) => if (n < 0) == (b.n < 0) then ByNumber(n, b.n) else ByNumber(Signed64(n), Signed64(b.n))
      case Str(s) => ByText(s, b.s)
      case Arr(items) => CompareItems(items, b.items)
      case Obj(members) => CompareMembers(members, b.members)
  }

  /** Lexicographic. */
  function CompareItems(xs: seq<Json>, ys: seq<Json>): Order
    decreases xs, 0
  {
    if xs == [] || ys == [] then ByNumber(|xs|, |ys|)
    else match Compare(xs[0], ys[0]) case Neither => CompareItems(xs[1..], ys[1..]) case order => order
  }

  /** Lexicographic, each member by its key and then by its value. */
  function CompareMembers(ms: seq<Member>, ns: seq<Member>): Order
    decreases ms, 0
  {
    if ms == [] || ns == [] then ByNumber(|ms|, |ns|)
    else
      match ByText(ms[0].key, ns[0].key)
      case Neither =>
        (match Compare(ms[0].value, ns[0].value) case Neither => CompareMembers(ms[1..], ns[1..]) case order => order)
      case order => order
  }

  lemma {:induction false} SameText(s: string, t: string)
    ensures ByText(s, t) == Neither <==> s == t
  {
    if s != "" && t != "" {
      SameText(s[1..], t[1..]);
      assert s == [s[0]] + s[1..] && t == [t[0]] + t[1..];
    }
  }

  /** Neither of two values is less exactly when they are equal. */
  lemma {:induction false} NeitherIsEqual(a: Json, b: Json)
    ensures Compare(a, b) == Neither <==> Equal(a, b)
    decreases a, 1
  {
    if Rank(a) == Rank(b) {
      match a {
        case Str(s) => SameText(s, b.s);
        case Arr(items) => NeitherIsEqualItems(items, b.items);
        case Obj(members) => NeitherIsEqualMembers(members, b.members);
        case _ =>
      }
    }
  }

  lemma {:induction false} NeitherIsEqualItems(xs: seq<Json>, ys: seq<Json>)
    ensures CompareItems(xs, ys) == Neither <==> EqualItems(xs, ys)
    decreases xs, 0
  {
    if xs != [] && ys != [] {
      NeitherIsEqual(xs[0], ys[0]);
      NeitherIsEqualItems(xs[1..], ys[1..]);
    }
  }

  lemma {:induction false} NeitherIsEqualMembers(ms: seq<Member>, ns: seq<Member>)
    ensures CompareMembers(ms, ns) == Neither <==> EqualMembers(ms, ns)
    decreases ms, 0
  {
    if ms != [] && ns != [] {
      SameText(ms[0].key, ns[0].key);
      NeitherIsEqual(ms[0].value, ns[0].value);
      NeitherIsEqualMembers(ms[1..], ns[1..]);
    }
  }

  // ---------- what a value is equal to ----------

  /** The values that the library takes for a: itself, and those that have the same 64 bits in a
    * number of the other kind. */
  function Twins(a: Json): set<Json>
    decreases a, 1
  {
    match a
    case Int(n) =>
      {a} + (if n < 0 then {Int(n + Two64)} else if n >= Two63 then {Int(n - Two64)} else {})
    case Arr(items) => set xs | xs in TwinsOfItems(items) :: Arr(xs)
    case Obj(members) => set ms | ms in TwinsOfMembers(members) :: Obj(ms)
    case _ => {a}
  }

  function TwinsOfItems(xs: seq<Json>): set<seq<Json>>
    decreases xs, 0
  {
    if xs == [] then {[]}
    else set y, ys | y in Twins(xs[0]) && ys in TwinsOfItems(xs[1..]) :: [y] + ys
  }

  function TwinsOfMembers(ms: seq<Member>): set<seq<Member>>
    decreases ms, 0
  {
    if ms == [] then {[]}
    else set y, ns | y in Twins(ms[0].value) && ns in TwinsOfMembers(ms[1..]) :: [Member(ms[0].key, y)] + ns
  }

  lemma {:induction false} EqualIsTwin(a: Json, b: Json)
    ensures Equal(a, b) <==> b in Twins(a)
    decreases a, 1
  {
    match a {
      case Int(n) =>
        if b.Int? {
          ImageIs(n);
          ImageIs(b.n);
        }
      case Arr(items) =>
        if b.Arr? {
          EqualItemsAreTwins(items, b.items);
        }
      case Obj(members) =>
        if b.Obj? {
          EqualMembersAreTwins(members, b.members);
        }
      case _ =>
    }
  }

  lemma {:induction false} EqualItemsAreTwins(xs: seq<Json>, ys: seq<Json>)
    ensures EqualItems(xs, ys) <==> ys in TwinsOfItems(xs)
    decreases xs, 0
  {
    if xs != [] && ys != [] {
      EqualIsTwin(xs[0], ys[0]);
      EqualItemsAreTwins(xs[1..], ys[1..]);
      assert ys == [ys[0]] + ys[1..];
    }
  }

  lemma {:induction false} EqualMembersAreTwins(ms: seq<Member>, ns: seq<Member>)
    ensures EqualMembers(ms, ns) <==> ns in TwinsOfMembers(ms)
    decreases ms, 0
  {
    if ms != [] && ns != [] {
      EqualIsTwin(ms[0].value, ns[0].value);
      EqualMembersAreTwins(ms[1..], ns[1..]);
      assert ns == [Member(ns[0].key, ns[0].value)] + ns[1..];
    }
  }

  lemma {:induction false} OwnTwin(a: Json)
    ensures Equal(a, a)
    decreases a, 1
  {
    match a {
      case Arr(items) => OwnTwins(items);
      case Obj(members) => OwnTwinMembers(members);
      case _ =>
    }
  }

  lemma {:induction false} OwnTwins(xs: seq<Json>)
    ensures EqualItems(xs, xs)
    decreases xs, 0
  {
    if xs != [] {
      OwnTwin(xs[0]);
      OwnTwins(xs[1..]);
    }
  }

  lemma {:induction false} OwnTwinMembers(ms: seq<Member>)
    ensures EqualMembers(ms, ms)
    decreases ms, 0
  {
    if ms != [] {
      OwnTwin(ms[0].value);
      OwnTwinMembers(ms[1..]);
    }
  }

  predicate Contains(seen: seq<Json>, v: Json) {
    exists i :: 0 <= i < |seen| && Equal(seen[i], v)
  }

  /** Everything equal to a listed value is listed. */
  predicate ListsTwins(es: seq<Json>) {
    forall e, t :: e in es && t in Twins(e) ==> t in es
  }

  /** Exactly then, a value is in the list if the library finds it there. */
  lemma ContainsIsIn(es: seq<Json>)
    ensures (forall x :: Contains(es, x) <==> x in es) <==> ListsTwins(es)
  {
    hide Twins, Equal;
    forall x | x in es ensures Contains(es, x) {
      OwnTwin(x);
      var i :| 0 <= i < |es| && es[i] == x;
    }
    forall e, t | e in es && t in Twins(e) ensures Contains(es, t) {
      EqualIsTwin(e, t);
      var i :| 0 <= i < |es| && es[i] == e;
    }
    forall x | Contains(es, x) ensures exists e :: e in es && x in Twins(e) {
      var i :| 0 <= i < |es| && Equal(es[i], x);
      EqualIsTwin(es[i], x);
    }
  }

  // ---------- values with numbers of one kind ----------

  /** All numbers, at any depth, are small enough to be signed, or all are unsigned. */
  predicate OfKind(a: Json, signed: bool)
    decreases a, 1
  {
    match a
    case Int(n) => if signed then n < Two63 else n >= 0
    case Arr(items) => OfKindItems(items, signed)
    case Obj(members) => forall i :: 0 <= i < |members| ==> OfKind(members[i].value, signed)
    case _ => true
  }

  predicate OfKindItems(xs: seq<Json>, signed: bool)
    decreases xs, 0
  {
    forall i :: 0 <= i < |xs| ==> OfKind(xs[i], signed)
  }

  predicate OneKind(a: Json) {
    OfKind(a, true) || OfKind(a, false)
  }

  /** There, the library's equality is equality. */
  lemma {:induction false} EqualOfKind(a: Json, b: Json, signed: bool)
    requires OfKind(a, signed) && OfKind(b, signed)
    ensures Equal(a, b) <==> a == b
    decreases a, 1
  {
    match a {
      case Int(n) =>
        if b.Int? {
          ImageIs(n);
          ImageIs(b.n);
        }
      case Arr(items) =>
        if b.Arr? {
          EqualItemsOfKind(items, b.items, signed);
        }
      case Obj(members) =>
        if b.Obj? {
          EqualMembersOfKind(members, b.members, signed);
        }
      case _ =>
    }
  }

  lemma {:induction false} EqualItemsOfKind(xs: seq<Json>, ys: seq<Json>, signed: bool)
    requires forall i :: 0 <= i < |xs| ==> OfKind(xs[i], signed)
    requires forall i :: 0 <= i < |ys| ==> OfKind(ys[i], signed)
    ensures EqualItems(xs, ys) <==> xs == ys
    decreases xs, 0
  {
    if xs != [] && ys != [] {
      EqualOfKind(xs[0], ys[0], signed);
      EqualItemsOfKind(xs[1..], ys[1..], signed);
      assert xs == [xs[0]] + xs[1..] && ys == [ys[0]] + ys[1..];
    }
  }

  lemma {:induction false} EqualMembersOfKind(ms: seq<Member>, ns: seq<Member>, signed: bool)
    requires forall i :: 0 <= i < |ms| ==> OfKind(ms[i].value, signed)
    requires forall i :: 0 <= i < |ns| ==> OfKind(ns[i].value, signed)
    ensures EqualMembers(ms, ns) <==> ms == ns
    decreases ms, 0
  {
    if ms != [] && ns != [] {
      EqualOfKind(ms[0].value, ns[0].value, signed);
      EqualMembersOfKind(ms[1..], ns[1..], signed);
      assert ms == [ms[0]] + ms[1..] && ns == [ns[0]] + ns[1..];
    }
  }

  lemma {:induction false} TextTransitive(s: string, t: string, u: string)
    requires ByText(s, t) == Before && ByText(t, u) == Before
    ensures ByText(s, u) == Before
  {
    if s != "" && t != "" && u != "" && s[0] == t[0] == u[0] {
      TextTransitive(s[1..], t[1..], u[1..]);
    }
  }

  /** And its order is transitive. */
  lemma {:induction false} OrderOfKind(a: Json, b: Json, c: Json, signed: bool)
    requires OfKind(a, signed) && OfKind(b, signed) && OfKind(c, signed)
    requires Compare(a, b) == Before && Compare(b, c) == Before
    ensures Compare(a, c) == Before
    decreases a, 1
  {
    if Rank(a) == Rank(b) == Rank(c) {
      match a {
        case Int(n) =>
          ImageIs(n);
          ImageIs(b.n);
          ImageIs(c.n);
        case Str(s) => TextTransitive(s, b.s, c.s);
        case Arr(items) => ItemsOfKind(items, b.items, c.items, signed);
        case Obj(members) => MembersOfKind(members, b.members, c.members, signed);
        case _ =>
      }
    }
  }

  lemma {:induction false} ItemsOfKind(xs: seq<Json>, ys: seq<Json>, zs: seq<Json>, signed: bool)
    requires forall i :: 0 <= i < |xs| ==> OfKind(xs[i], signed)
    requires forall i :: 0 <= i < |ys| ==> OfKind(ys[i], signed)
    requires forall i :: 0 <= i < |zs| ==> OfKind(zs[i], signed)
    requires CompareItems(xs, ys) == Before && CompareItems(ys, zs) == Before
    ensures CompareItems(xs, zs) == Before
    decreases xs, 0
  {
    if xs != [] && ys != [] && zs != [] {
      NeitherOfKind(xs[0], ys[0], signed);
      NeitherOfKind(ys[0], zs[0], signed);
      if Compare(xs[0], ys[0]) == Before && Compare(ys[0], zs[0]) == Before {
        OrderOfKind(xs[0], ys[0], zs[0], signed);
      } else if Compare(xs[0], ys[0]) == Neither && Compare(ys[0], zs[0]) == Neither {
        ItemsOfKind(xs[1..], ys[1..], zs[1..], signed);
      }
    }
  }

  lemma {:induction false} MembersOfKind(ms: seq<Member>, ns: seq<Member>, os: seq<Member>, signed: bool)
    requires forall i :: 0 <= i < |ms| ==> OfKind(ms[i].value, signed)
    requires forall i :: 0 <= i < |ns| ==> OfKind(ns[i].value, signed)
    requires forall i :: 0 <= i < |os| ==> OfKind(os[i].value, signed)
    requires CompareMembers(ms, ns) == Before && CompareMembers(ns, os) == Before
    ensures CompareMembers(ms, os) == Before
    decreases ms, 0
  {
    if ms != [] && ns != [] && os != [] {
      SameText(ms[0].key, ns[0].key);
      SameText(ns[0].key, os[0].key);
      NeitherOfKind(ms[0].value, ns[0].value, signed);
      NeitherOfKind(ns[0].value, os[0].value, signed);
      if ByText(ms[0].key, ns[0].key) == Before && ByText(ns[0].key, os[0].key) == Before {
        TextTransitive(ms[0].key, ns[0].key, os[0].key);
      } else if ms[0].key == ns[0].key == os[0].key {
        if Compare(ms[0].value, ns[0].value) == Before && Compare(ns[0].value, os[0].value) == Before {
          OrderOfKind(ms[0].value, ns[0].value, os[0].value, signed);
        } else if Compare(ms[0].value, ns[0].value) == Neither && Compare(ns[0].value, os[0].value) == Neither {
          MembersOfKind(ms[1..], ns[1..], os[1..], signed);
        }
      }
    }
  }

  lemma NeitherOfKind(a: Json, b: Json, signed: bool)
    requires OfKind(a, signed) && OfKind(b, signed)
    ensures Compare(a, b) == Neither <==> a == b
  {
    NeitherIsEqual(a, b);
    EqualOfKind(a, b, signed);
  }

  function Reversed(order: Order): Order {
    match order case Before => After case Neither => Neither case After => Before
  }

  lemma {:induction false} TextReversed(s: string, t: string)
    ensures ByText(t, s) == Reversed(ByText(s, t))
  {
    if s != "" && t != "" && s[0] == t[0] {
      TextReversed(s[1..], t[1..]);
    }
  }

  /** Compared the other way round, the other value is less. */
  lemma {:induction false} CompareReversed(a: Json, b: Json)
    ensures Compare(b, a) == Reversed(Compare(a, b))
    decreases a, 1
  {
    if Rank(a) == Rank(b) {
      match a {
        case Str(s) => TextReversed(s, b.s);
        case Arr(items) => ItemsReversed(items, b.items);
        case Obj(members) => MembersReversed(members, b.members);
        case _ =>
      }
    }
  }

  lemma {:induction false} ItemsReversed(xs: seq<Json>, ys: seq<Json>)
    ensures CompareItems(ys, xs) == Reversed(CompareItems(xs, ys))
    decreases xs, 0
  {
    if xs != [] && ys != [] {
      CompareReversed(xs[0], ys[0]);
      ItemsReversed(xs[1..], ys[1..]);
    }
  }

  lemma {:induction false} MembersReversed(ms: seq<Member>, ns: seq<Member>)
    ensures CompareMembers(ns, ms) == Reversed(CompareMembers(ms, ns))
    decreases ms, 0
  {
    if ms != [] && ns != [] {
      TextReversed(ms[0].key, ns[0].key);
      CompareReversed(ms[0].value, ns[0].value);
      MembersReversed(ms[1..], ns[1..]);
    }
  }

  // ---------- sets ----------

  /** On these values, `operator<` is an order such as a set requires of it. */
  predicate Ordered(xs: seq<Json>) {
    forall a, b, c :: a in xs && b in xs && c in xs ==> Transitive(a, b, c)
  }

  predicate Transitive(a: Json, b: Json, c: Json) {
    && (Compare(a, b) == Before && Compare(b, c) == Before ==> Compare(a, c) == Before)
    && (Equal(a, b) && Equal(b, c) ==> Equal(a, c))
  }

  /** Whether a set that was filled with the first values refuses the last: promised is only that,
    * where `operator<` is an order, it does so exactly if neither of it and one of them is less. */
  ghost predicate Lawful(refuses: (seq<Json>, Json) -> bool) {
    forall seen: seq<Json>, v: Json :: Ordered(seen + [v]) ==> (refuses(seen, v) <==> Contains(seen, v))
  }

  /** No value is refused by the set of those before it. */
  predicate Unique(xs: seq<Json>, refuses: (seq<Json>, Json) -> bool) {
    forall i :: 0 <= i < |xs| ==> !refuses(xs[..i], xs[i])
  }

  predicate AllDistinct(xs: seq<Json>) {
    forall i, j :: 0 <= i < j < |xs| ==> xs[i] != xs[j]
  }

  /** Where `operator<` is an order, a set tells whether two values are equal to the library. */
  lemma UniqueWhereOrdered(xs: seq<Json>, refuses: (seq<Json>, Json) -> bool)
    requires Lawful(refuses) && Ordered(xs)
    ensures Unique(xs, refuses) <==> forall i, j :: 0 <= i < j < |xs| ==> !Equal(xs[i], xs[j])
  {
    hide Ordered, Equal;
    forall i | 0 <= i < |xs| ensures refuses(xs[..i], xs[i]) <==> exists j :: 0 <= j < i && Equal(xs[j], xs[i]) {
      OrderedBefore(xs, i);
      assert refuses(xs[..i], xs[i]) <==> Contains(xs[..i], xs[i]);
      assert forall j :: 0 <= j < i ==> xs[..i][j] == xs[j];
    }
  }

  lemma OrderedBefore(xs: seq<Json>, i: nat)
    requires Ordered(xs) && i < |xs|
    ensures Ordered(xs[..i] + [xs[i]])
  {
    hide Transitive;
    assert forall a :: a in xs[..i] + [xs[i]] ==> a in xs;
  }

  lemma OrderedOfKind(xs: seq<Json>, signed: bool)
    requires OfKindItems(xs, signed)
    ensures Ordered(xs)
  {
    forall a, b, c | a in xs && b in xs && c in xs ensures Transitive(a, b, c) {
      hide Compare;
      if Compare(a, b) == Before && Compare(b, c) == Before {
        OrderOfKind(a, b, c, signed);
      }
      EqualOfKind(a, b, signed);
      EqualOfKind(b, c, signed);
    }
  }

  /** No two different values are equal to the library, unless two are the same. */
  predicate Tells(xs: seq<Json>) {
    AllDistinct(xs) ==> forall i, j :: 0 <= i < j < |xs| ==> !Equal(xs[i], xs[j])
  }

  /** Where `operator<` is an order, a set tells whether values are distinct exactly if so. */
  lemma UniqueTells(xs: seq<Json>, refuses: (seq<Json>, Json) -> bool)
    requires Lawful(refuses) && Ordered(xs)
    ensures Unique(xs, refuses) == AllDistinct(xs) <==> Tells(xs)
  {
    hide Unique, Ordered, Equal;
    UniqueWhereOrdered(xs, refuses);
    if i, j :| 0 <= i < j < |xs| && xs[i] == xs[j] {
      OwnTwin(xs[i]);
    }
  }

  /** Sets tell distinct values in every array of a. */
  predicate Settled(a: Json)
    decreases a, 1
  {
    match a
    case Arr(items) => Ordered(items) && Tells(items) && SettledItems(items)
    case Obj(members) => forall i :: 0 <= i < |members| ==> Settled(members[i].value)
    case _ => true
  }

  predicate SettledItems(xs: seq<Json>)
    decreases xs, 0
  {
    forall i :: 0 <= i < |xs| ==> Settled(xs[i])
  }

  /** They do where numbers are of one kind. */
  lemma {:induction false} KindIsSettled(a: Json, signed: bool)
    requires OfKind(a, signed)
    ensures Settled(a)
    decreases a, 1
  {
    match a {
      case Arr(items) =>
        OrderedOfKind(items, signed);
        KindTells(items, signed);
        KindItemsAreSettled(items, signed);
      case Obj(members) =>
        forall i | 0 <= i < |members| ensures Settled(members[i].value) {
          KindIsSettled(members[i].value, signed);
        }
      case _ =>
    }
  }

  lemma {:induction false} KindItemsAreSettled(xs: seq<Json>, signed: bool)
    requires OfKindItems(xs, signed)
    ensures SettledItems(xs)
    decreases xs, 0
  {
    forall i | 0 <= i < |xs| ensures Settled(xs[i]) {
      KindIsSettled(xs[i], signed);
    }
  }

  lemma KindTells(xs: seq<Json>, signed: bool)
    requires OfKindItems(xs, signed)
    ensures Tells(xs)
  {
    forall i, j | 0 <= i < j < |xs| ensures Equal(xs[i], xs[j]) <==> xs[i] == xs[j] {
      EqualOfKind(xs[i], xs[j], signed);
    }
  }

  /** Of -1 and 2^64 - 1 neither is less, so that a set takes only one of them. */
  lemma TwinsAreRefused(refuses: (seq<Json>, Json) -> bool)
    requires Lawful(refuses)
    ensures var xs := [Int(-1), Int(Two64 - 1)]; AllDistinct(xs) && !Unique(xs, refuses)
  {
    var xs := [Int(-1), Int(Two64 - 1)];
    assert Ordered(xs) by {
      TwinsAreOrdered(xs[0], xs[1]);
    }
    assert Equal(xs[0], xs[1]);
    hide Equal, Ordered;
    UniqueWhereOrdered(xs, refuses);
  }

  lemma TwinsAreOrdered(a: Json, b: Json)
    requires Equal(a, b) && Equal(b, a)
    ensures Ordered([a, b])
  {
    OwnTwin(a);
    OwnTwin(b);
    NeitherIsEqual(a, a);
    NeitherIsEqual(b, b);
    NeitherIsEqual(a, b);
    NeitherIsEqual(b, a);
    hide Equal, Compare;
  }

  /** Nor is `operator<` an order on all numbers: -1 is less than 1, 1 than 2^63, and 2^63 than -1. */
  lemma NoOrderOnMixedNumbers()
    ensures !Ordered([Int(-1), Int(1), Int(Two63)])
  {
    var xs := [Int(-1), Int(1), Int(Two63)];
    assert xs[0] in xs && xs[1] in xs && xs[2] in xs;
    assert !Transitive(xs[0], xs[1], xs[2]);
  }
}
