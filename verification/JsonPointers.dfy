/** Escaping of JSON pointers: passes over a string against one simultaneous substitution. */
module JsonPointers {

  datatype Option<T> = None | Some(value: T)

  // ---------- what the passes are to compute ----------

  /** s with every c replaced by r. */
  function Replaced(s: string, c: char, r: string): string {
    if s == "" then "" else (if s[0] == c then r else [s[0]]) + Replaced(s[1..], c, r)
  }

  function EscapedChar(c: char): (r: string) {
    if c == '~' then "~0" else if c == '/' then "~1" else if c == '%' then "%25" else [c]
  }

  /** Every character escaped on its own (RFC 6901, sections 3 and 6). */
  function Escaped(s: string): string {
    if s == "" then "" else EscapedChar(s[0]) + Escaped(s[1..])
  }

  /** Every escape sequence decoded on its own, from left to right (RFC 6901, section 4). */
  function Decoded(s: string): string {
    if s == "" then ""
    else if s[0] == '~' && |s| > 1 && s[1] == '0' then "~" + Decoded(s[2..])
    else if s[0] == '~' && |s| > 1 && s[1] == '1' then "/" + Decoded(s[2..])
    else [s[0]] + Decoded(s[1..])
  }

  // ---------- lemmas on replacing ----------

  lemma {:induction false} ReplacedJoins(a: string, b: string, c: char, r: string)
    ensures Replaced(a + b, c, r) == Replaced(a, c, r) + Replaced(b, c, r)
  {
    if a == "" {
      assert a + b == b;
    } else {
      assert (a + b)[0] == a[0] && (a + b)[1..] == a[1..] + b;
      ReplacedJoins(a[1..], b, c, r);
    }
  }

  lemma {:induction false} NothingReplaced(s: string, c: char, r: string)
    requires c !in s
    ensures Replaced(s, c, r) == s
  {
    if s != "" {
      assert s[0] in s;
      NothingReplaced(s[1..], c, r);
    }
  }

  lemma OneReplaced(c: char, d: char, r: string)
    ensures Replaced([c], d, r) == if c == d then r else [c]
  {
    assert [c][1..] == "";
  }

  /** The three passes, one after the other, are the one substitution: no pass meets a character
      that an earlier one has put in. */
  lemma {:induction false} PassesAreOne(s: string)
    ensures Replaced(Replaced(Replaced(s, '~', "~0"), '/', "~1"), '%', "%25") == Escaped(s)
  {
    if s != "" {
      var head := if s[0] == '~' then "~0" else [s[0]];
      ReplacedJoins(head, Replaced(s[1..], '~', "~0"), '/', "~1");
      var slashed := Replaced(head, '/', "~1");
      assert slashed == if s[0] == '~' then "~0" else if s[0] == '/' then "~1" else [s[0]] by {
        if s[0] == '~' {
          NothingReplaced("~0", '/', "~1");
        } else {
          OneReplaced(s[0], '/', "~1");
        }
      }
      ReplacedJoins(slashed, Replaced(Replaced(s[1..], '~', "~0"), '/', "~1"), '%', "%25");
      assert Replaced(slashed, '%', "%25") == EscapedChar(s[0]) by {
        if s[0] == '~' || s[0] == '/' {
          NothingReplaced(slashed, '%', "%25");
        } else {
          OneReplaced(s[0], '%', "%25");
        }
      }
      PassesAreOne(s[1..]);
    }
  }

  // ---------- escaping in place ----------

  /** `find`: the first c from pos on. */
  method FindChar(s: string, c: char, pos: nat) returns (at: Option<nat>)
    requires pos <= |s|
    ensures at == None ==> c !in s[pos..]
    ensures at.Some? ==> pos <= at.value < |s| && s[at.value] == c && c !in s[pos..at.value]
  {
    for i := pos to |s|
      invariant c !in s[pos..i]
    {
      if s[i] == c {
        return Some(i);
      }
      assert s[pos..i + 1] == s[pos..i] + [s[i]];
    }
    assert s[pos..|s|] == s[pos..];
    return None;
  }

  lemma PassStep(l: string, pos: nat, i: nat, c: char, r: string)
    requires pos <= i < |l| && l[i] == c && c !in l[pos..i]
    ensures l[..pos] + Replaced(l[pos..], c, r) == (l[..i] + r) + Replaced(l[i + 1..], c, r)
  {
    hide Replaced;
    var skipped, after := l[pos..i], l[i + 1..];
    AroundOne(l, pos, i);
    ReplacedJoins(skipped, [c] + after, c, r);
    NothingReplaced(skipped, c, r);
    FirstReplaced(c, after, r);
    assert l[..pos] + (skipped + (r + Replaced(after, c, r))) == (l[..pos] + skipped) + r + Replaced(after, c, r);
  }

  lemma AroundOne(s: string, pos: nat, i: nat)
    requires pos <= i < |s|
    ensures s[pos..] == s[pos..i] + ([s[i]] + s[i + 1..]) && s[..i] == s[..pos] + s[pos..i]
  {
  }

  lemma FirstReplaced(c: char, after: string, r: string)
    ensures Replaced([c] + after, c, r) == r + Replaced(after, c, r)
  {
    assert ([c] + after)[1..] == after;
  }

  /** One pass: `find`, `replace`, and on behind what was put in. */
  method ReplaceAll(s: string, c: char, r: string) returns (l: string)
    ensures l == Replaced(s, c, r)
  {
    hide Replaced;
    l := s;
    var pos := 0;
    while true
      invariant pos <= |l| && l[..pos] + Replaced(l[pos..], c, r) == Replaced(s, c, r)
      decreases |l| - pos
    {
      var at := FindChar(l, c, pos);
      if at == None {
        NothingReplaced(l[pos..], c, r);
        assert l == l[..pos] + l[pos..];
        return;
      }
      var i := at.value;
      PassStep(l, pos, i, c, r);
      ghost var before, after := l[..i] + r, l[i + 1..];
      l := l[..i] + r + l[i + 1..];
      pos := i + |r|;
      assert l[..pos] == before && l[pos..] == after;
    }
  }

  method Escape(src: string) returns (l: string)
    ensures l == Escaped(src)
  {
    var chars := [('~', "~0"), ('/', "~1"), ('%', "%25")];
    l := src;
    l := ReplaceAll(l, chars[0].0, chars[0].1);
    l := ReplaceAll(l, chars[1].0, chars[1].1);
    l := ReplaceAll(l, chars[2].0, chars[2].1);
    PassesAreOne(src);
  }

  // ---------- unescaping in place ----------

  /** A character in front of what is decoded already. */
  function DecodeStep(c: char, r: string): string {
    if c == '~' && r != "" && r[0] == '0' then "~" + r[1..]
    else if c == '~' && r != "" && r[0] == '1' then "/" + r[1..]
    else [c] + r
  }

  /** The same from right to left: a tilde looks at what has become of the character behind it. */
  function DecodedFromRight(s: string): string {
    if s == "" then "" else DecodeStep(s[0], DecodedFromRight(s[1..]))
  }

  /** The direction does not matter. */
  lemma {:induction false} DirectionsAgree(s: string)
    ensures DecodedFromRight(s) == Decoded(s)
  {
    if s != "" {
      DirectionsAgree(s[1..]);
      if |s| > 1 {
        DirectionsAgree(s[2..]);
        assert s[1..][1..] == s[2..];
        assert s[1..][0] == s[1];
      }
    }
  }

  /** `rfind`: the last c at pos or before. */
  method FindLastChar(s: string, c: char, pos: nat) returns (at: Option<nat>)
    ensures at == None ==> forall k :: 0 <= k < |s| && k <= pos ==> s[k] != c
    ensures at.Some? ==> at.value < |s| && at.value <= pos && s[at.value] == c
    ensures at.Some? ==> forall k :: at.value < k < |s| && k <= pos ==> s[k] != c
  {
    var i: nat := if pos < |s| then pos + 1 else |s|;
    while i > 0
      invariant i <= |s| && i <= pos + 1 && forall k :: i <= k < |s| && k <= pos ==> s[k] != c
    {
      i := i - 1;
      if s[i] == c {
        return Some(i);
      }
    }
    return None;
  }

  const Npos: nat := 0xFFFF_FFFF_FFFF_FFFF

  lemma {:induction false} NoTildeFromRight(s: string, r: string)
    requires '~' !in s
    ensures DecodedFromRight(s + r) == s + DecodedFromRight(r)
  {
    if s == "" {
      assert s + r == r;
    } else {
      assert s[0] in s;
      assert (s + r)[0] == s[0] && (s + r)[1..] == s[1..] + r;
      NoTildeFromRight(s[1..], r);
    }
  }

  /** From the last tilde to the first; the position wraps for the empty string. */
  method Unescape(src: string) returns (l: string)
    requires |src| < Npos
    ensures l == Decoded(src)
  {
    l := src;
    var pos: nat := if |src| == 0 then Npos else |src| - 1;
    ghost var todo: nat := |src|;
    hide *;
    NothingDecoded(src);
    AllDecoded(src);
    while true
      invariant todo <= |src| && todo <= |l| && l == src[..todo] + DecodedFromRight(src[todo..])
      invariant if todo == 0 then src == "" && pos == Npos else pos == todo - 1
      decreases todo
    {
      var at := FindLastChar(l, '~', pos);
      if at == None {
        Rest(src, l, 0, todo);
        return;
      }
      var i := at.value;
      Rest(src, l, i + 1, todo);
      Tilde(src, l, i);
      l := DecodeAt(l, i);
      todo := i;
      if i == 0 {
        return;
      }
      pos := i - 1;
    }
  }

  lemma NothingDecoded(src: string)
    ensures src[..|src|] + DecodedFromRight(src[|src|..]) == src
  {
  }

  lemma AllDecoded(src: string)
    ensures src[..0] + DecodedFromRight(src[0..]) == Decoded(src)
  {
    DirectionsAgree(src);
    hide DecodedFromRight, Decoded;
    assert src[..0] + Decoded(src) == Decoded(src) && src[0..] == src;
  }

  /** Without a tilde in between, more of src is decoded already. */
  lemma Rest(src: string, l: string, from: nat, todo: nat)
    requires from <= todo <= |src| && l == src[..todo] + DecodedFromRight(src[todo..])
    requires forall k :: from <= k < todo ==> l[k] != '~'
    ensures l == src[..from] + DecodedFromRight(src[from..])
  {
    hide DecodedFromRight;
    var between, r := src[from..todo], DecodedFromRight(src[todo..]);
    InTwo(src, from, todo);
    assert forall k :: 0 <= k < |between| ==> between[k] == l[from + k];
    NoTildeFromRight(between, src[todo..]);
    assert (src[..from] + between) + r == src[..from] + (between + r);
  }

  lemma InTwo(s: string, from: nat, to: nat)
    requires from <= to <= |s|
    ensures s[from..to] + s[to..] == s[from..] && s[..from] + s[from..to] == s[..to]
  {
  }

  lemma Tilde(src: string, l: string, i: nat)
    requires i < |src| && l == src[..i + 1] + DecodedFromRight(src[i + 1..])
    ensures i < |l| && l[..i] + DecodeStep(l[i], l[i + 1..]) == src[..i] + DecodedFromRight(src[i..])
  {
    assert src[i..][1..] == src[i + 1..];
    assert l[i + 1..] == DecodedFromRight(src[i + 1..]);
    assert l[..i] == src[..i];
  }

  method DecodeAt(l: string, pos: nat) returns (r: string)
    requires pos < |l| && l[pos] == '~'
    ensures r == l[..pos] + DecodeStep(l[pos], l[pos + 1..])
  {
    r := l;
    if pos < |l| - 1 {
      match l[pos + 1] {
        case '0' => r := l[..pos] + "~" + l[pos + 2..];
        case '1' => r := l[..pos] + "/" + l[pos + 2..];
        case _ =>
      }
    }
  }

  // ---------- laws ----------

  /** Percent signs stay coded: `unescape` leaves them to a later version. */
  function PercentCoded(s: string): string {
    Replaced(s, '%', "%25")
  }

  lemma {:induction false} NoTildeDecoded(s: string, r: string)
    requires '~' !in s
    ensures Decoded(s + r) == s + Decoded(r)
  {
    if s == "" {
      assert s + r == r;
    } else {
      assert s[0] in s;
      assert (s + r)[0] == s[0] && (s + r)[1..] == s[1..] + r;
      NoTildeDecoded(s[1..], r);
    }
  }

  lemma {:induction false} DecodedEscaped(s: string)
    ensures Decoded(Escaped(s)) == PercentCoded(s)
  {
    if s != "" {
      var head, rest := EscapedChar(s[0]), Escaped(s[1..]);
      DecodedEscaped(s[1..]);
      if s[0] == '~' || s[0] == '/' {
        assert (head + rest)[0] == '~' && (head + rest)[1] == head[1] && (head + rest)[2..] == rest;
      } else {
        NoTildeDecoded(head, rest);
      }
    }
  }

  lemma {:induction false} ReplacedGrows(s: string)
    ensures |PercentCoded(s)| >= |s| && ('%' in s ==> |PercentCoded(s)| > |s|)
  {
    if s != "" {
      ReplacedGrows(s[1..]);
      assert s == [s[0]] + s[1..];
    }
  }

  /** Unescaping undoes escaping exactly where there is no percent sign. */
  lemma UnescapeUndoesEscape(s: string)
    ensures Decoded(Escaped(s)) == s <==> '%' !in s
  {
    DecodedEscaped(s);
    if '%' in s {
      ReplacedGrows(s);
    } else {
      NothingReplaced(s, '%', "%25");
    }
  }

  /** What is escaped has no slash, so that tokens of a pointer cannot run together. */
  lemma {:induction false} EscapedHasNoSlash(s: string)
    ensures '/' !in Escaped(s)
  {
    if s != "" {
      EscapedHasNoSlash(s[1..]);
      assert '/' !in EscapedChar(s[0]);
    }
  }

  lemma {:induction false} EscapedIsInjective(s: string, t: string)
    requires Escaped(s) == Escaped(t)
    ensures s == t
  {
    hide *;
    EscapedStep(s);
    EscapedStep(t);
    if s != "" && t != "" {
      FirstCharTells(s[0], t[0], Escaped(s[1..]), Escaped(t[1..]));
      var a := EscapedChar(s[0]);
      assert Escaped(s[1..]) == Escaped(s)[|a|..] == Escaped(t)[|a|..] == Escaped(t[1..]);
      EscapedIsInjective(s[1..], t[1..]);
      assert s == [s[0]] + s[1..] && t == [t[0]] + t[1..];
    }
  }

  lemma EscapedStep(s: string)
    ensures Escaped(s) == if s == "" then "" else EscapedChar(s[0]) + Escaped(s[1..])
    ensures Escaped(s) == "" <==> s == ""
  {
  }

  lemma FirstCharTells(c: char, d: char, s: string, t: string)
    requires EscapedChar(c) + s == EscapedChar(d) + t
    ensures c == d
  {
    var a, b := EscapedChar(c) + s, EscapedChar(d) + t;
    assert a[0] == b[0];
    if (c == '~' || c == '/') && (d == '~' || d == '/') {
      assert a[1] == EscapedChar(c)[1] && b[1] == EscapedChar(d)[1];
      assert a[1] == b[1];
    }
  }

  // ---------- a pointer is kept as it is written ----------

  /** The loop that copies a pointer token by token keeps every character. */
  method FromString(r: string) returns (str: Option<string>)
    ensures r == "" ==> str == Some("#")
    ensures r != "" && r[0] != '#' ==> str == None
    ensures r != "" && r[0] == '#' ==> str == Some(r)
  {
    var s := "#";
    if |r| == 0 {
      return Some(s);
    }
    if r[0] != '#' {
      return None;
    }
    if |r| == 1 {
      assert r == [r[0]];
      return Some(s);
    }
    var pos := 1;
    while pos < |r|
      invariant 1 <= pos <= |r| && s == r[..pos]
    {
      var next := FindChar(r, '/', pos + 1);
      var end := if next.Some? then next.value else |r|;
      s := s + r[pos..end];
      pos := end;
      assert s == r[..pos];
    }
    assert r[..|r|] == r;
    return Some(s);
  }

  // ---------- pointers tell paths apart ----------

  /** The pointer to a place: a slash and the escaped token for each step. */
  function PointerOf(path: seq<string>): string {
    if path == [] then "" else "/" + Escaped(path[0]) + PointerOf(path[1..])
  }

  /** What comes before the first slash. */
  function Token(s: string): string {
    if s == "" || s[0] == '/' then "" else [s[0]] + Token(s[1..])
  }

  lemma {:induction false} TokenIsFound(x: string, p: string)
    requires '/' !in x && (p == "" || p[0] == '/')
    ensures Token(x + p) == x
  {
    if x == "" {
      assert x + p == p;
    } else {
      assert x[0] in x;
      assert (x + p)[0] == x[0] && (x + p)[1..] == x[1..] + p;
      TokenIsFound(x[1..], p);
    }
  }

  lemma TokensSplit(x: string, y: string, p: string, q: string)
    requires '/' !in x && '/' !in y && (p == "" || p[0] == '/') && (q == "" || q[0] == '/') && x + p == y + q
    ensures x == y && p == q
  {
    TokenIsFound(x, p);
    TokenIsFound(y, q);
    assert p == (x + p)[|x|..] && q == (y + q)[|y|..];
  }

  lemma PointerHead(path: seq<string>)
    requires path != []
    ensures PointerOf(path) != "" && PointerOf(path)[1..] == Escaped(path[0]) + PointerOf(path[1..])
    ensures PointerOf(path[1..]) == "" || PointerOf(path[1..])[0] == '/'
  {
    assert PointerOf(path) == "/" + (Escaped(path[0]) + PointerOf(path[1..]));
  }

  /** Different paths have different pointers. */
  lemma {:induction false} PointersTellPaths(a: seq<string>, b: seq<string>)
    requires PointerOf(a) == PointerOf(b)
    ensures a == b
  {
    if a == [] || b == [] {
      NoPointer(a);
      NoPointer(b);
    } else {
      hide PointerOf, Escaped;
      PointerHead(a);
      PointerHead(b);
      EscapedHasNoSlash(a[0]);
      EscapedHasNoSlash(b[0]);
      TokensSplit(Escaped(a[0]), Escaped(b[0]), PointerOf(a[1..]), PointerOf(b[1..]));
      EscapedIsInjective(a[0], b[0]);
      PointersTellPaths(a[1..], b[1..]);
      assert a == [a[0]] + a[1..] && b == [b[0]] + b[1..];
    }
  }

  lemma NoPointer(path: seq<string>)
    ensures PointerOf(path) == "" <==> path == []
  {
  }

  lemma {:induction false} PointerOfJoins(a: seq<string>, b: seq<string>)
    ensures PointerOf(a + b) == PointerOf(a) + PointerOf(b)
  {
    if a == [] {
      assert a + b == b;
    } else {
      assert (a + b)[0] == a[0] && (a + b)[1..] == a[1..] + b;
      PointerOfJoins(a[1..], b);
    }
  }

  lemma {:induction false} EscapedJoins(s: string, t: string)
    ensures Escaped(s + t) == Escaped(s) + Escaped(t)
  {
    hide EscapedChar;
    if s == "" {
      assert s + t == t;
    } else {
      assert (s + t)[0] == s[0] && (s + t)[1..] == s[1..] + t;
      EscapedJoins(s[1..], t);
    }
  }

  lemma {:induction false} NothingToEscape(s: string)
    requires '~' !in s && '/' !in s && '%' !in s
    ensures Escaped(s) == s
  {
    if s != "" {
      assert s[0] in s;
      NothingToEscape(s[1..]);
    }
  }

  /** As RFC 6901 writes the characters that have a meaning, in sections 3 and 6, anywhere in a key. */
  lemma EscapedAs(before: string, after: string)
    ensures Escaped(before + "~" + after) == Escaped(before) + "~0" + Escaped(after)
    ensures Escaped(before + "/" + after) == Escaped(before) + "~1" + Escaped(after)
    ensures Escaped(before + "%" + after) == Escaped(before) + "%25" + Escaped(after)
  {
    assert "~"[1..] == "" && "/"[1..] == "" && "%"[1..] == "";
    assert Escaped("~") == "~0" && Escaped("/") == "~1" && Escaped("%") == "%25";
    hide *;
    EscapedJoins(before + "~", after);
    EscapedJoins(before + "/", after);
    EscapedJoins(before + "%", after);
    EscapedJoins(before, "~");
    EscapedJoins(before, "/");
    EscapedJoins(before, "%");
  }
}
