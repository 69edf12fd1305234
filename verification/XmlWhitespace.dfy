/** Collapsing whitespace in place: the other way in which a StrPair's text is changed. */
module XmlWhitespace {
  import opened XmlText

  function SkipSpace(s: string): (r: string)
    ensures |r| <= |s| && (r != "" ==> !IsWhiteSpace(r[0]))
  {
    if s != "" && IsWhiteSpace(s[0]) then SkipSpace(s[1..]) else s
  }

  /** Runs of whitespace become one space each, and none at the end. */
  function Collapse(s: string): string
    decreases |s|
  {
    if s == "" then ""
    else if IsWhiteSpace(s[0]) then
      var r := SkipSpace(s);
      if r == "" then "" else [' ', r[0]] + Collapse(r[1..])
    else [s[0]] + Collapse(s[1..])
  }

  function Collapsed(s: string): string {
    Collapse(SkipSpace(s))
  }

  // ---------- what collapsing means ----------

  /** The words of a text: what stands between whitespace, word being the one begun already. */
  function Words(s: string, word: string): seq<string> {
    if s == "" then (if word == "" then [] else [word])
    else if IsWhiteSpace(s[0]) then (if word == "" then [] else [word]) + Words(s[1..], "")
    else Words(s[1..], word + [s[0]])
  }

  function Joined(words: seq<string>): string {
    if words == [] then "" else if |words| == 1 then words[0] else words[0] + " " + Joined(words[1..])
  }

  lemma {:induction false} WordsSkip(s: string)
    ensures Words(s, "") == Words(SkipSpace(s), "")
  {
    if s != "" && IsWhiteSpace(s[0]) {
      WordsSkip(s[1..]);
    }
  }

  lemma {:induction false} SomeWord(s: string, word: string)
    requires word != ""
    ensures Words(s, word) != []
  {
    if s != "" && !IsWhiteSpace(s[0]) {
      SomeWord(s[1..], word + [s[0]]);
    }
  }

  lemma {:induction false} CollapseJoins(s: string, word: string)
    requires word != ""
    ensures word + Collapse(s) == Joined(Words(s, word))
    decreases |s|
  {
    hide IsWhiteSpace;
    if s != "" && !IsWhiteSpace(s[0]) {
      CollapseJoins(s[1..], word + [s[0]]);
      assert word + ([s[0]] + Collapse(s[1..])) == word + [s[0]] + Collapse(s[1..]);
    } else if s != "" {
      var r := SkipSpace(s);
      WordsSkip(s);
      assert Words(s, word) == [word] + Words(s, "");
      if r != "" {
        CollapseJoins(r[1..], [r[0]]);
        SomeWord(r[1..], [r[0]]);
        assert Words(r, "") == Words(r[1..], [r[0]]) by {
          assert "" + [r[0]] == [r[0]];
        }
        assert word + ([' ', r[0]] + Collapse(r[1..])) == word + " " + ([r[0]] + Collapse(r[1..]));
        assert ([word] + Words(r, ""))[1..] == Words(r, "");
      }
    }
  }

  /** A collapsed text is its words, one space between each two. */
  lemma CollapsedIsWords(s: string)
    ensures Collapsed(s) == Joined(Words(s, ""))
  {
    hide IsWhiteSpace;
    var r := SkipSpace(s);
    WordsSkip(s);
    if r != "" {
      CollapseJoins(r[1..], [r[0]]);
      assert "" + [r[0]] == [r[0]];
    }
  }

  // ---------- in place ----------

  lemma SkipSpaceAt(s: string, k: nat)
    requires k < |s| && IsWhiteSpace(s[k])
    ensures SkipSpace(s[k..]) == SkipSpace(s[k + 1..])
  {
    assert s[k..][1..] == s[k + 1..];
  }

  /** `SkipWhiteSpace` in a text that ends at end. */
  method SkipFrom(buffer: array<char>, start: nat, end: nat) returns (p: nat)
    requires start <= end < buffer.Length && buffer[end] == NUL
    ensures start <= p <= end && buffer[p..end] == SkipSpace(buffer[start..end])
    ensures p < end ==> !IsWhiteSpace(buffer[p])
    ensures start < end && IsWhiteSpace(buffer[start]) ==> start < p
  {
    ghost var s := buffer[start..end];
    p := start;
    while p < end && IsWhiteSpace(buffer[p])
      invariant start <= p <= end && SkipSpace(s[p - start..]) == SkipSpace(s) && s[p - start..] == buffer[p..end]
    {
      SkipSpaceAt(s, p - start);
      p := p + 1;
    }
  }

  lemma SpaceFirst(s: string)
    requires s != "" && IsWhiteSpace(s[0])
    ensures var r := SkipSpace(s); Collapse(s) == if r == "" then "" else [' '] + Collapse(r)
  {
    hide SkipSpace;
    var r := SkipSpace(s);
    if r != "" {
      assert Collapse(r) == [r[0]] + Collapse(r[1..]);
      assert Collapse(s) == [' '] + ([r[0]] + Collapse(r[1..]));
    }
  }

  lemma CharFirst(s: string)
    requires s != "" && !IsWhiteSpace(s[0])
    ensures Collapse(s) == [s[0]] + Collapse(s[1..])
  {
  }

  /** What is written so far, and what is still to be read, make up the whole. */
  ghost predicate Midway(buffer: array<char>, begin: nat, q: nat, p: nat, end: nat, whole: string)
    reads buffer
  {
    begin <= q <= p <= end < buffer.Length && buffer[begin..q] + Collapse(buffer[p..end]) == whole
  }

  /** Writes the next character c at q, which is before what is still to be read. */
  method Write(buffer: array<char>, begin: nat, q: nat, p: nat, end: nat, c: char, ghost whole: string)
    requires begin <= q < p <= end < buffer.Length && buffer[begin..q] + ([c] + Collapse(buffer[p..end])) == whole
    modifies buffer
    ensures Midway(buffer, begin, q + 1, p, end, whole) && buffer[p..end] == old(buffer[p..end])
    ensures forall i :: 0 <= i < buffer.Length && i != q ==> buffer[i] == old(buffer[i])
  {
    hide Collapse;
    ghost var out, rest := buffer[begin..q], buffer[p..end];
    buffer[q] := c;
    assert buffer[begin..q + 1] == out + [c] && buffer[p..end] == rest;
    assert out + [c] + Collapse(rest) == out + ([c] + Collapse(rest));
  }

  /** The write pointer never passes the read pointer, and the text that is left is the collapsed one. */
  method CollapseWhitespace(buffer: array<char>, start: nat, end: nat) returns (begin: nat)
    requires start <= end < buffer.Length && buffer[end] == NUL
    modifies buffer
    ensures start <= begin <= end
    ensures var text := Collapsed(old(buffer[start..end]));
            && |text| <= end - begin && buffer[begin..begin + |text|] == text && buffer[begin + |text|] == NUL
    ensures forall i :: 0 <= i < buffer.Length && (i < start || i > end) ==> buffer[i] == old(buffer[i])
  {
    begin := SkipFrom(buffer, start, end);
    var q := CollapseFrom(buffer, begin, end);
    if begin < end {
      buffer[q] := NUL;
    }
  }

  lemma NothingLeft()
    ensures Collapse("") == ""
  {
  }

  /** One turn of the loop: white space, and the character behind it. */
  method CollapseStep(buffer: array<char>, begin: nat, q: nat, p: nat, end: nat, ghost whole: string)
    returns (q': nat, p': nat)
    requires Midway(buffer, begin, q, p, end, whole) && p < end && buffer[end] == NUL
    modifies buffer
    ensures Midway(buffer, begin, q', p', end, whole) && p < p'
    ensures forall i :: 0 <= i < buffer.Length && (i < begin || i >= end) ==> buffer[i] == old(buffer[i])
  {
    hide IsWhiteSpace, Collapse, SkipSpace;
    q', p' := q, p;
    if IsWhiteSpace(buffer[p]) {
      SpaceFirst(buffer[p..end]);
      p' := SkipFrom(buffer, p, end);
      if p' == end {
        assert buffer[end..end] == "";
        NothingLeft();
        return;
      }
      Write(buffer, begin, q, p', end, ' ', whole);
      q' := q + 1;
      assert buffer[p'] == buffer[p'..end][0];
    }
    CharFirst(buffer[p'..end]);
    assert buffer[p'..end][1..] == buffer[p' + 1..end];
    p' := p' + 1;
    Write(buffer, begin, q', p', end, buffer[p' - 1], whole);
    q' := q' + 1;
  }

  /** The loop with its two pointers. */
  method CollapseFrom(buffer: array<char>, begin: nat, end: nat) returns (q: nat)
    requires begin <= end < buffer.Length && buffer[end] == NUL
    modifies buffer
    ensures begin <= q <= end && buffer[begin..q] == Collapse(old(buffer[begin..end])) && buffer[end] == NUL
    ensures forall i :: 0 <= i < buffer.Length && (i < begin || i >= end) ==> buffer[i] == old(buffer[i])
  {
    hide *;
    q := begin;
    var p := begin;
    ghost var whole := Collapse(buffer[begin..end]);
    Untouched(buffer, begin, end);
    while p < end
      invariant p <= end && Midway(buffer, begin, q, p, end, whole)
      invariant forall i :: 0 <= i < buffer.Length && (i < begin || i >= end) ==> buffer[i] == old(buffer[i])
      decreases end - p
    {
      q, p := CollapseStep(buffer, begin, q, p, end, whole);
      Bounds(buffer, begin, q, p, end, whole);
    }
    Finished(buffer, begin, q, end, whole);
  }

  lemma Untouched(buffer: array<char>, begin: nat, end: nat)
    requires begin <= end < buffer.Length
    ensures Midway(buffer, begin, begin, begin, end, Collapse(buffer[begin..end]))
  {
    hide Collapse;
    assert [] + Collapse(buffer[begin..end]) == Collapse(buffer[begin..end]);
  }

  lemma Bounds(buffer: array<char>, begin: nat, q: nat, p: nat, end: nat, whole: string)
    requires Midway(buffer, begin, q, p, end, whole)
    ensures begin <= q <= p <= end
  {
  }

  lemma Finished(buffer: array<char>, begin: nat, q: nat, end: nat, whole: string)
    requires Midway(buffer, begin, q, end, end, whole)
    ensures begin <= q <= end < buffer.Length && buffer[begin..q] == whole
  {
    NothingLeft();
    assert buffer[end..end] == "";
    assert buffer[begin..q] + "" == buffer[begin..q];
  }
}
