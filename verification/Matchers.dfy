/** Matching two vectors as multisets. */
module Matchers {

  /** `Detail::count` on a range. */
  method Count<T(==)>(s: seq<T>, first: nat, last: nat, item: T) returns (n: nat)
    requires first <= last <= |s|
    ensures n == multiset(s[first..last])[item]
  {
    n := 0;
    for i := first to last
      invariant n == multiset(s[first..i])[item]
    {
      assert s[first..i + 1] == s[first..i] + [s[i]];
      if s[i] == item {
        n := n + 1;
      }
    }
  }

  /** `Detail::contains` on a range. */
  method Contains<T(==)>(s: seq<T>, first: nat, last: nat, item: T) returns (found: bool)
    requires first <= last <= |s|
    ensures found == (item in s[first..last])
  {
    for i := first to last
      invariant item !in s[first..i]
    {
      if s[i] == item {
        return true;
      }
      assert s[first..i + 1] == s[first..i] + [s[i]];
    }
    return false;
  }

  /** One multiset within another of the same size is the same. */
  lemma SameSizeWithin<T>(a: multiset<T>, b: multiset<T>)
    requires a <= b && |a| == |b|
    ensures a == b
  {
    assert b == a + (b - a);
  }

  lemma CommonPrefix<T>(s: seq<T>, t: seq<T>, n: nat)
    requires n <= |s| && n <= |t| && s[..n] == t[..n]
    ensures multiset(s) == multiset(t) <==> multiset(s[n..]) == multiset(t[n..])
  {
    assert s == s[..n] + s[n..] && t == t[..n] + t[n..];
    var p, a, b := multiset(s[..n]), multiset(s[n..]), multiset(t[n..]);
    assert multiset(s) == p + a && multiset(t) == p + b;
    assert a == (p + a) - p && b == (p + b) - p;
  }

  lemma CountsDecide<T>(a: seq<T>, b: seq<T>)
    requires |a| == |b| && forall x :: x in a ==> multiset(a)[x] == multiset(b)[x]
    ensures multiset(a) == multiset(b)
  {
    assert multiset(a) <= multiset(b);
    SameSizeWithin(multiset(a), multiset(b));
  }

  /** `UnorderedEqualsMatcher::match`: true exactly for permutations. */
  method UnorderedEquals<T(==)>(target: seq<T>, vec: seq<T>) returns (r: bool)
    ensures r == (multiset(target) == multiset(vec))
  {
    if |target| != |vec| {
      assert |multiset(target)| != |multiset(vec)|;
      return false;
    }
    var n := 0;
    while n < |target| && target[n] == vec[n]
      invariant n <= |target| && target[..n] == vec[..n]
    {
      n := n + 1;
    }
    CommonPrefix(target, vec, n);
    if n == |target| {
      return true;
    }
    ghost var left, right := target[n..], vec[n..];
    assert target[n..|target|] == left && vec[n..|vec|] == right;
    for mid := n to |target|
      invariant forall x :: x in target[n..mid] ==> multiset(left)[x] == multiset(right)[x]
    {
      assert target[n..mid + 1] == target[n..mid] + [target[mid]];
      var counted := Contains(target, n, mid, target[mid]);
      if counted {
        continue;
      }
      assert target[mid] == left[mid - n];
      var inVec := Count(vec, n, |vec|, target[mid]);
      var inTarget := Count(target, n, |target|, target[mid]);
      if inVec == 0 || inTarget != inVec {
        return false;
      }
    }
    CountsDecide(left, right);
    return true;
  }
}
