/** Wrapping a text into lines: the column iterator. */
module TextFlow {

  predicate IsWhitespace(c: char) {
    c in " \t\n\r"
  }

  predicate IsBreakableBefore(c: char) {
    c in "[({<|"
  }

  predicate IsBreakableAfter(c: char) {
    c in "])}>.,:;*+-=&/\\"
  }

  predicate Blank(s: string) {
    forall i :: 0 <= i < |s| ==> IsWhitespace(s[i])
  }

  function Spaces(n: nat): string {
    seq(n, _ => ' ')
  }

  /** A line may end before position at. */
  predicate IsBoundary(line: string, at: nat)
    requires 0 < at <= |line|
  {
    || at == |line|
    || (IsWhitespace(line[at]) && !IsWhitespace(line[at - 1]))
    || IsBreakableBefore(line[at])
    || IsBreakableAfter(line[at - 1])
  }

  /** The end of the line that begins at pos: its newline, or the end of the text. */
  function EndOfLine(line: string, pos: nat): (end: nat)
    requires pos <= |line|
    ensures pos <= end <= |line| && (end < |line| ==> line[end] == '\n')
    ensures forall k :: pos <= k < end ==> line[k] != '\n'
    decreases |line| - pos
  {
    if pos < |line| && line[pos] != '\n' then EndOfLine(line, pos + 1) else pos
  }

  /** The largest boundary at most len behind pos, or 0. */
  function LastBoundary(line: string, pos: nat, len: nat): (r: nat)
    requires pos + len <= |line|
    ensures r <= len && (r > 0 ==> IsBoundary(line, pos + r))
    ensures forall at :: pos + r < at <= pos + len ==> !IsBoundary(line, at)
  {
    if len == 0 || IsBoundary(line, pos + len) then len else LastBoundary(line, pos, len - 1)
  }

  /** len without the whitespace at its end. */
  function Trimmed(line: string, pos: nat, len: nat): (r: nat)
    requires pos + len <= |line|
    ensures r <= len && (r > 0 ==> !IsWhitespace(line[pos + r - 1])) && Blank(line[pos + r..pos + len])
  {
    if len > 0 && IsWhitespace(line[pos + len - 1]) then
      var r := Trimmed(line, pos, len - 1);
      assert line[pos + r..pos + len] == line[pos + r..pos + len - 1] + [line[pos + len - 1]];
      r
    else len
  }

  /** How much of the text goes into a line of some width; a word too long is cut for a hyphen. */
  function LineLength(line: string, pos: nat, width: nat): (r: (nat, bool))
    requires pos <= |line| && width > 0
    ensures pos + r.0 <= EndOfLine(line, pos) && r.0 + (if r.1 then 1 else 0) <= width
  {
    var end := EndOfLine(line, pos);
    if end < pos + width then (end - pos, false)
    else
      var len := Trimmed(line, pos, LastBoundary(line, pos, width));
      if len > 0 then (len, false) else (width - 1, true)
  }

  /** Where the next line begins: behind a newline, or else behind whitespace. */
  function NextStart(line: string, at: nat): (pos: nat)
    requires at <= |line|
    ensures at <= pos <= |line| && Blank(line[at..pos])
  {
    if at < |line| && line[at] == '\n' then at + 1 else SkipBlank(line, at)
  }

  function SkipBlank(line: string, at: nat): (pos: nat)
    requires at <= |line|
    ensures at <= pos <= |line| && Blank(line[at..pos]) && (pos < |line| ==> !IsWhitespace(line[pos]))
    decreases |line| - at
  {
    if at < |line| && IsWhitespace(line[at]) then
      var pos := SkipBlank(line, at + 1);
      assert line[at..pos] == [line[at]] + line[at + 1..pos];
      pos
    else at
  }

  lemma LineLengthIs(line: string, pos: nat, width: nat)
    requires pos <= |line| && width > 0
    ensures var end := EndOfLine(line, pos);
            LineLength(line, pos, width) == if end < pos + width then (end - pos, false)
              else var n := Trimmed(line, pos, LastBoundary(line, pos, width)); if n > 0 then (n, false) else (width - 1, true)
  {
  }

  /** The first loop of `calcLength`. */
  method FindEnd(line: string, pos: nat) returns (end: nat)
    requires pos <= |line|
    ensures end == EndOfLine(line, pos)
  {
    end := pos;
    while end < |line| && line[end] != '\n'
      invariant pos <= end <= |line| && EndOfLine(line, end) == EndOfLine(line, pos)
    {
      end := end + 1;
    }
  }

  /** The other two: back to a boundary, and then off its whitespace. */
  method FindBreak(line: string, pos: nat, width: nat) returns (n: nat)
    requires pos + width <= |line|
    ensures n == Trimmed(line, pos, LastBoundary(line, pos, width))
  {
    n := width;
    while n > 0 && !IsBoundary(line, pos + n)
      invariant n <= width && LastBoundary(line, pos, n) == LastBoundary(line, pos, width)
    {
      n := n - 1;
    }
    assert n == LastBoundary(line, pos, width);
    while n > 0 && IsWhitespace(line[pos + n - 1])
      invariant n <= width && Trimmed(line, pos, n) == Trimmed(line, pos, LastBoundary(line, pos, width))
    {
      n := n - 1;
    }
  }

  /** `operator++`: over a newline, or else over whitespace. */
  method FindStart(line: string, at: nat) returns (pos: nat)
    requires at <= |line|
    ensures pos == NextStart(line, at)
  {
    pos := at;
    if pos < |line| && line[pos] == '\n' {
      pos := pos + 1;
    } else {
      while pos < |line| && IsWhitespace(line[pos])
        invariant at <= pos <= |line| && SkipBlank(line, pos) == SkipBlank(line, at)
      {
        pos := pos + 1;
      }
    }
  }

  const NoIndent: nat := 0xFFFF_FFFF_FFFF_FFFF

  class Column {
    const text: string
    const width: nat
    const indent: nat
    const initialIndent: nat

    /** What the iterator asserts of a column. */
    predicate Wide(columns: nat) {
      && indent + columns <= width && |text| < NoIndent
      && (initialIndent == NoIndent || initialIndent + columns <= width)
    }

    function IndentAt(pos: nat): nat {
      if pos == 0 && initialIndent != NoIndent then initialIndent else indent
    }

    constructor (text: string, width: nat, indent: nat, initialIndent: nat)
      ensures this.text == text && this.width == width && this.indent == indent && this.initialIndent == initialIndent
    {
      this.text, this.width, this.indent, this.initialIndent := text, width, indent, initialIndent;
    }
  }

  /** A word is cut with a hyphen only where the line cannot end at any boundary behind something. */
  lemma HyphenOnlyWhenNeeded(line: string, pos: nat, width: nat)
    requires 0 < width && pos <= |line| && pos + width <= EndOfLine(line, pos)
    ensures LineLength(line, pos, width).1
       <==> forall at :: pos < at <= pos + width && IsBoundary(line, at) ==> Blank(line[pos..at])
  {
    hide IsBoundary;
    LineLengthIs(line, pos, width);
    var last := LastBoundary(line, pos, width);
    var len := Trimmed(line, pos, last);
    if len == 0 {
      forall at | pos < at <= pos + width && IsBoundary(line, at) ensures Blank(line[pos..at]) {
        assert at <= pos + last;
        assert line[pos..at] == line[pos..pos + last][..at - pos];
      }
    } else {
      assert line[pos..pos + last][len - 1] == line[pos + len - 1];
    }
  }

  /** A line: its indent, its piece of the text, whether it got a hyphen, and what is dropped behind it. */
  datatype Cut = Cut(indent: nat, piece: string, hyphen: bool, gap: string)

  function LineOf(c: Cut): string {
    Spaces(c.indent) + c.piece + (if c.hyphen then "-" else "")
  }

  function LengthAt(column: Column, pos: nat): (r: (nat, bool))
    requires column.Wide(1) && pos <= |column.text|
    ensures pos + r.0 <= |column.text|
  {
    LineLength(column.text, pos, column.width - column.IndentAt(pos))
  }

  /** Where the line behind the one at pos begins. */
  function After(column: Column, pos: nat): (next: nat)
    requires column.Wide(1) && pos <= |column.text|
    ensures pos + LengthAt(column, pos).0 <= next <= |column.text|
    ensures Blank(column.text[pos + LengthAt(column, pos).0..next])
  {
    NextStart(column.text, pos + LengthAt(column, pos).0)
  }

  function CutAt(column: Column, pos: nat): Cut
    requires column.Wide(1) && pos <= |column.text|
  {
    var (len, hyphen) := LengthAt(column, pos);
    Cut(column.IndentAt(pos), column.text[pos..pos + len], hyphen, column.text[pos + len..After(column, pos)])
  }

  class ColumnIterator {
    const column: Column
    var stringIndex: nat
    var pos: nat
    var len: nat
    var end: nat
    var suffix: bool

    /** Either past the only string, or at a line whose length is known. */
    ghost predicate Valid()
      reads this
    {
      && column.Wide(1) && stringIndex <= 1
      && (stringIndex == 0 ==>
            pos <= |column.text| && (len, suffix) == LengthAt(column, pos)
            && end == EndOfLine(column.text, pos))
      && (stringIndex == 1 ==> pos == 0)
    }

    method CalcLength()
      requires column.Wide(1) && stringIndex == 0 && pos <= |column.text|
      modifies this`len, this`end, this`suffix
      ensures Valid()
    {
      hide LineLength, IsBoundary, IsWhitespace;
      var line := column.text;
      suffix := false;
      var width := column.width - column.IndentAt(pos);
      LineLengthIs(line, pos, width);
      end := FindEnd(line, pos);
      if end < pos + width {
        len := end - pos;
      } else {
        var n := FindBreak(line, pos, width);
        if n > 0 {
          len := n;
        } else {
          suffix := true;
          len := width - 1;
        }
      }
    }

    constructor (column: Column)
      requires column.Wide(1)
      ensures Valid() && this.column == column && pos == 0
      ensures stringIndex == if LengthAt(column, 0).0 == 0 then 1 else 0
    {
      this.column := column;
      stringIndex, pos, len, end, suffix := 0, 0, 0, 0, false;
      new;
      CalcLength();
      if len == 0 {
        stringIndex := stringIndex + 1;
      }
    }

    method Current() returns (line: string)
      requires Valid() && stringIndex == 0
      ensures line == LineOf(CutAt(column, pos))
      ensures |line| <= column.width && '\n' !in line
    {
      var plain := column.text[pos..pos + len];
      line := Spaces(column.IndentAt(pos)) + plain + (if suffix then "-" else "");
    }

    method Next()
      requires Valid() && stringIndex == 0
      modifies this
      ensures Valid()
      ensures var at := After(column, old(pos));
              if at == |column.text| then stringIndex == 1 else stringIndex == 0 && pos == at
    {
      hide LineLength, EndOfLine;
      pos := FindStart(column.text, pos + len);
      if pos == |column.text| {
        pos := 0;
        stringIndex := stringIndex + 1;
      }
      if stringIndex < 1 {
        CalcLength();
      }
    }
  }

  // ---------- whole texts ----------

  /** The iterator stays where it is exactly when one column is left for a word of two or more. */
  lemma StuckIff(text: string, pos: nat, width: nat)
    requires pos < |text| && width > 0
    ensures NextStart(text, pos + LineLength(text, pos, width).0) == pos
       <==> width == 1 && !IsWhitespace(text[pos]) && !IsBoundary(text, pos + 1)
  {
    hide IsBoundary;
    LineLengthIs(text, pos, width);
    if width == 1 {
      assert pos + 1 <= |text|;
      assert EndOfLine(text, pos) == pos <==> text[pos] == '\n';
      assert LastBoundary(text, pos, 1) == (if IsBoundary(text, pos + 1) then 1 else LastBoundary(text, pos, 0));
      assert Trimmed(text, pos, 1) == (if IsWhitespace(text[pos]) then Trimmed(text, pos, 0) else 1);
    }
  }

  /** From pos on, no line has to begin with a word of two or more in one column. */
  predicate Unstuck(column: Column, pos: nat) {
    column.indent + 2 <= column.width
    || forall q :: pos <= q < |column.text| && !IsWhitespace(column.text[q]) ==> IsBoundary(column.text, q + 1)
  }

  /** The iterator, at a line that begins at pos, comes to the end of the text. */
  predicate Flows(column: Column, pos: nat)
    requires column.Wide(1) && pos <= |column.text|
  {
    if pos == 0 then LengthAt(column, 0).0 > 0 && Unstuck(column, After(column, 0)) else Unstuck(column, pos)
  }

  /** The iterator comes to an end: at once, for a text whose first line is empty, or line after line. */
  predicate Ends(column: Column)
    requires column.Wide(1)
  {
    LengthAt(column, 0).0 == 0 || Flows(column, 0)
  }

  lemma FlowsOn(column: Column, pos: nat)
    requires column.Wide(1) && pos < |column.text| && Flows(column, pos)
    ensures pos < After(column, pos) <= |column.text| && Flows(column, After(column, pos))
  {
    if pos > 0 {
      StuckIff(column.text, pos, column.width - column.IndentAt(pos));
    }
    hide IsBoundary;
  }

  function Cuts(column: Column, pos: nat): seq<Cut>
    requires column.Wide(1) && pos <= |column.text| && (pos == |column.text| || Flows(column, pos))
    decreases |column.text| - pos
  {
    if pos == |column.text| then []
    else
      FlowsOn(column, pos);
      [CutAt(column, pos)] + Cuts(column, After(column, pos))
  }

  /** All lines of a text; one whose first line is empty is taken for an empty text. */
  function Wrapped(column: Column): seq<Cut>
    requires column.Wide(1) && Ends(column)
  {
    if LengthAt(column, 0).0 == 0 then [] else Cuts(column, 0)
  }

  function LinesOf(cuts: seq<Cut>): (r: seq<string>)
    ensures |r| == |cuts| && forall i :: 0 <= i < |cuts| ==> r[i] == LineOf(cuts[i])
  {
    if cuts == [] then [] else [LineOf(cuts[0])] + LinesOf(cuts[1..])
  }

  /** The lines from pos on. */
  function LinesFrom(column: Column, pos: nat): seq<string>
    requires column.Wide(1) && pos <= |column.text| && (pos == |column.text| || Flows(column, pos))
  {
    LinesOf(Cuts(column, pos))
  }

  lemma LinesStep(column: Column, pos: nat, before: seq<string>)
    requires column.Wide(1) && pos < |column.text| && Flows(column, pos)
    ensures pos < After(column, pos) && Flows(column, After(column, pos))
    ensures before + [LineOf(CutAt(column, pos))] + LinesFrom(column, After(column, pos)) == before + LinesFrom(column, pos)
  {
    hide After, CutAt, LineOf, Flows;
    FlowsOn(column, pos);
    var rest := Cuts(column, After(column, pos));
    assert Cuts(column, pos) == [CutAt(column, pos)] + rest;
    assert ([CutAt(column, pos)] + rest)[1..] == rest;
  }

  lemma NoMoreLines(column: Column, before: seq<string>)
    requires column.Wide(1)
    ensures before + LinesFrom(column, |column.text|) == before && LinesOf([]) == []
  {
  }

  /** The texts that are dropped as a whole. */
  lemma EmptyStart(text: string, width: nat)
    requires width > 0
    ensures LineLength(text, 0, width).0 == 0
       <==> text == "" || text[0] == '\n' || (width == 1 && (IsWhitespace(text[0]) || !IsBoundary(text, 1)))
  {
    LineLengthIs(text, 0, width);
    hide IsBoundary;
    if width == 1 && text != "" {
      assert LastBoundary(text, 0, 1) == (if IsBoundary(text, 1) then 1 else LastBoundary(text, 0, 0));
      assert Trimmed(text, 0, 1) == (if IsWhitespace(text[0]) then Trimmed(text, 0, 0) else 1);
    }
  }

  /** The loop over a column, wherever it ends. */
  method Wrap(column: Column) returns (lines: seq<string>)
    requires column.Wide(1) && Ends(column)
    ensures lines == LinesOf(Wrapped(column))
  {
    hide LengthAt, After, CutAt, LineOf, LinesFrom, Flows;
    ghost var all := LinesOf(Wrapped(column));
    WrappedIs(column);
    lines := [];
    var it := new ColumnIterator(column);
    hide *;
    while it.stringIndex != 1
      invariant it.Valid() && it.column == column && it.stringIndex <= 1
      invariant it.stringIndex == 0 ==> it.pos < |column.text| && Flows(column, it.pos)
      invariant it.stringIndex == 0 ==> lines + LinesFrom(column, it.pos) == all
      invariant it.stringIndex == 1 ==> lines == all
      decreases 1 - it.stringIndex, |column.text| - it.pos
    {
      LinesStep(column, it.pos, lines);
      var line := it.Current();
      lines := lines + [line];
      NoMoreLines(column, lines);
      it.Next();
    }
  }

  lemma WrappedIs(column: Column)
    requires column.Wide(1) && Ends(column)
    ensures LengthAt(column, 0).0 != 0 ==> column.text != "" && Flows(column, 0)
    ensures LinesOf(Wrapped(column)) == if LengthAt(column, 0).0 == 0 then [] else LinesFrom(column, 0)
    ensures LengthAt(column, 0).0 != 0 ==> [] + LinesFrom(column, 0) == LinesFrom(column, 0)
  {
    hide LineLength, Cuts;
  }

  // ---------- whether the loop ends ----------

  /** Where the n-th line after the one at pos begins. */
  function StartAfter(column: Column, pos: nat, n: nat): (start: nat)
    requires column.Wide(1) && pos <= |column.text|
    ensures pos <= start <= |column.text|
    decreases n
  {
    if n == 0 then pos else StartAfter(column, After(column, pos), n - 1)
  }

  lemma {:induction false} OneStart(column: Column, pos: nat, n: nat)
    requires column.Wide(1) && pos <= |column.text|
    ensures StartAfter(column, pos, n + 1) == After(column, StartAfter(column, pos, n))
    decreases n
  {
    hide After;
    if n > 0 {
      OneStart(column, After(column, pos), n - 1);
    }
  }

  /** The iterator after n rounds, or when it has come to the end before. */
  method Rounds(column: Column, n: nat) returns (it: ColumnIterator)
    requires column.Wide(1)
    ensures fresh(it) && it.Valid() && it.column == column
    ensures it.stringIndex == 1 <==> LengthAt(column, 0).0 == 0 || StartAfter(column, 0, n) == |column.text|
    ensures it.stringIndex == 0 ==> it.pos == StartAfter(column, 0, n)
  {
    hide LengthAt, After;
    it := new ColumnIterator(column);
    SomeText(column);
    for i := 0 to n
      invariant fresh(it) && it.Valid() && it.column == column && it.stringIndex <= 1
      invariant it.stringIndex == 1 <==> LengthAt(column, 0).0 == 0 || StartAfter(column, 0, i) == |column.text|
      invariant it.stringIndex == 0 ==> it.pos == StartAfter(column, 0, i)
    {
      OneStart(column, 0, i);
      if it.stringIndex == 0 {
        it.Next();
      } else {
        StaysAtEnd(column);
      }
    }
  }

  lemma SomeText(column: Column)
    requires column.Wide(1)
    ensures column.text == "" ==> LengthAt(column, 0).0 == 0
  {
  }

  lemma StaysAtEnd(column: Column)
    requires column.Wide(1)
    ensures After(column, |column.text|) == |column.text|
  {
  }

  lemma {:induction false} FlowsToEnd(column: Column, pos: nat) returns (n: nat)
    requires column.Wide(1) && pos <= |column.text| && (pos == |column.text| || Flows(column, pos))
    ensures StartAfter(column, pos, n) == |column.text|
    decreases |column.text| - pos
  {
    hide After, Flows;
    n := 0;
    if pos < |column.text| {
      FlowsOn(column, pos);
      n := FlowsToEnd(column, After(column, pos));
      n := n + 1;
    }
  }

  /** In one column, no line begins behind a place where a word of two or more begins. */
  lemma NotPast(column: Column, pos: nat, q: nat)
    requires column.Wide(1) && column.width == column.indent + 1 && 0 < pos <= q < |column.text|
    requires !IsWhitespace(column.text[q]) && !IsBoundary(column.text, q + 1)
    ensures After(column, pos) <= q
  {
    hide IsBoundary;
    if pos == q {
      StuckIff(column.text, pos, 1);
    } else {
      var at := pos + LengthAt(column, pos).0;
      assert at <= pos + 1;
      SkipStops(column.text, at, q);
    }
  }

  lemma {:induction false} SkipStops(line: string, at: nat, q: nat)
    requires at <= q < |line| && !IsWhitespace(line[q])
    ensures SkipBlank(line, at) <= q
    decreases q - at
  {
    if at < q && IsWhitespace(line[at]) {
      SkipStops(line, at + 1, q);
    }
  }

  lemma {:induction false} NeverPast(column: Column, pos: nat, q: nat, n: nat)
    requires column.Wide(1) && column.width == column.indent + 1 && 0 < pos <= q < |column.text|
    requires !IsWhitespace(column.text[q]) && !IsBoundary(column.text, q + 1)
    ensures StartAfter(column, pos, n) <= q
    decreases n
  {
    hide After, IsBoundary;
    if n > 0 {
      NotPast(column, pos, q);
      NeverPast(column, After(column, pos), q, n - 1);
    }
  }

  /** The loop over a column ends exactly when its text is dropped at once, or there are two columns
      beside the indent, or no word of two or more is left behind the first line. */
  lemma EndsIff(column: Column)
    requires column.Wide(1)
    ensures Ends(column) <==> LengthAt(column, 0).0 == 0 || exists n: nat :: StartAfter(column, 0, n) == |column.text|
  {
    hide LengthAt, After, IsBoundary;
    SomeText(column);
    if Flows(column, 0) {
      var n := FlowsToEnd(column, 0);
    } else if LengthAt(column, 0).0 != 0 {
      var p := After(column, 0);
      var q :| p <= q < |column.text| && !IsWhitespace(column.text[q]) && !IsBoundary(column.text, q + 1);
      forall n: nat ensures StartAfter(column, 0, n) != |column.text| {
        if n > 0 {
          NeverPast(column, p, q, n - 1);
        }
      }
    }
  }

  /** A text that wraps for ever: behind its first line, a word of two in one column. */
  lemma EndlessExample(column: Column)
    requires column.text == "a bc" && column.width == 1 && column.indent == 0 && column.initialIndent == NoIndent
    ensures column.Wide(1) && !Ends(column) && forall n: nat :: StartAfter(column, 0, n) < |column.text|
  {
    var text := column.text;
    EmptyStart(text, 1);
    assert IsBoundary(text, 1) && !IsBoundary(text, 3);
    assert LengthAt(column, 0) == LineLength(text, 0, 1);
    assert After(column, 0) == 2 by {
      assert LengthAt(column, 0).0 == 1;
      assert SkipBlank(text, 1) == SkipBlank(text, 2) == 2;
    }
    assert !Unstuck(column, 2);
    EndsIff(column);
  }

  /** A text that is dropped as a whole, though it does not begin with a newline. */
  lemma DroppedExample(column: Column)
    requires column.text == "ab" && column.width == 1 && column.indent == 0 && column.initialIndent == NoIndent
    ensures column.Wide(1) && Ends(column) && Wrapped(column) == []
  {
    EmptyStart(column.text, 1);
  }

  function Woven(cuts: seq<Cut>): string {
    if cuts == [] then "" else cuts[0].piece + cuts[0].gap + Woven(cuts[1..])
  }

  /** The pieces are the text in order, and only whitespace is dropped between them. */
  lemma {:induction false} CutsAreTheText(column: Column, pos: nat)
    requires column.Wide(1) && pos <= |column.text| && (pos == |column.text| || Flows(column, pos))
    ensures var cuts := Cuts(column, pos);
            Woven(cuts) == column.text[pos..] && forall i :: 0 <= i < |cuts| ==> Blank(cuts[i].gap)
    decreases |column.text| - pos
  {
    hide LengthAt, After, Blank, Flows;
    if pos < |column.text| {
      var next := After(column, pos);
      FlowsOn(column, pos);
      CutsAreTheText(column, next);
      assert Cuts(column, pos)[1..] == Cuts(column, next);
      Sliced(column.text, pos, pos + LengthAt(column, pos).0, next);
    }
  }

  lemma Sliced(s: string, a: nat, b: nat, c: nat)
    requires a <= b <= c <= |s|
    ensures s[a..b] + s[b..c] + s[c..] == s[a..]
  {
  }

  /** Every line keeps to the width, and has no newline in it. */
  lemma {:induction false} LinesFit(column: Column, pos: nat, i: nat)
    requires column.Wide(1) && pos <= |column.text| && (pos == |column.text| || Flows(column, pos))
    requires i < |Cuts(column, pos)|
    ensures |LineOf(Cuts(column, pos)[i])| <= column.width && '\n' !in LineOf(Cuts(column, pos)[i])
    decreases |column.text| - pos
  {
    hide Flows;
    if pos < |column.text| {
      FlowsOn(column, pos);
      if i > 0 {
        LinesFit(column, After(column, pos), i - 1);
      }
    }
  }

  /** A text whose first line is empty is lost as a whole; any other is kept but for whitespace. */
  lemma WrappedKeepsText(column: Column)
    requires column.Wide(1) && Ends(column)
    ensures Woven(Wrapped(column)) == column.text <==> column.text == "" || !IsDropped(column)
    ensures forall i :: 0 <= i < |Wrapped(column)| ==>
      && Blank(Wrapped(column)[i].gap) && |LineOf(Wrapped(column)[i])| <= column.width
      && '\n' !in LineOf(Wrapped(column)[i])
  {
    hide Flows, LineOf, Blank;
    SomeText(column);
    DroppedIs(column);
    if LengthAt(column, 0).0 != 0 {
      CutsAreTheText(column, 0);
      assert column.text[0..] == column.text;
      forall i | 0 <= i < |Cuts(column, 0)|
        ensures |LineOf(Cuts(column, 0)[i])| <= column.width && '\n' !in LineOf(Cuts(column, 0)[i])
      {
        LinesFit(column, 0, i);
      }
    }
  }

  /** The text begins with a newline, or with whitespace or a word of two or more where the first line has one column. */
  predicate IsDropped(column: Column)
    requires column.Wide(1)
  {
    var text := column.text;
    text != "" && (text[0] == '\n'
      || (column.width - column.IndentAt(0) == 1 && (IsWhitespace(text[0]) || !IsBoundary(text, 1))))
  }

  lemma DroppedIs(column: Column)
    requires column.Wide(1)
    ensures LengthAt(column, 0).0 == 0 <==> column.text == "" || IsDropped(column)
  {
    EmptyStart(column.text, column.width - column.IndentAt(0));
    hide LineLength, IsBoundary;
  }

  // ---------- which line it is ----------

  /** Between two characters a line may end before white space, before an opening bracket or a bar, and behind
    * a closing bracket, a mark of punctuation or an operator.
    */
  lemma BoundariesAre(line: string, at: nat)
    requires 0 < at < |line|
    ensures var (a, b) := (line[at - 1], line[at]);
            IsBoundary(line, at) <==>
              || (!(a == ' ' || a == '\t' || a == '\n' || a == '\r') && (b == ' ' || b == '\t' || b == '\n' || b == '\r'))
              || b == '[' || b == '(' || b == '{' || b == '<' || b == '|'
              || a == ']' || a == ')' || a == '}' || a == '>' || a == '.' || a == ',' || a == ':' || a == ';'
              || a == '*' || a == '+' || a == '-' || a == '=' || a == '&' || a == '/' || a == '\\'
  {
  }

  /** The newline of this line is within the width. */
  predicate EndsAt(line: string, pos: nat, end: nat) {
    && pos <= end <= |line| && (end < |line| ==> line[end] == '\n')
    && forall k :: pos <= k < end ==> line[k] != '\n'
  }

  lemma {:induction false} OneEnd(line: string, pos: nat, end: nat)
    requires EndsAt(line, pos, end)
    ensures EndOfLine(line, pos) == end
    decreases end - pos
  {
    if pos < end {
      OneEnd(line, pos + 1, end);
    }
  }

  /** A line that ends within the width is taken as a whole. */
  lemma ShortLine(line: string, pos: nat, width: nat, end: nat)
    requires width > 0 && EndsAt(line, pos, end) && end < pos + width
    ensures LineLength(line, pos, width) == (end - pos, false)
  {
    OneEnd(line, pos, end);
  }

  /** Of any other, as much is taken as fits up to a boundary, without the white space there; if nothing is before
    * any boundary, all but a hyphen.
    */
  lemma LongestLine(line: string, pos: nat, width: nat)
    requires width > 0 && pos + width <= |line| && forall k :: pos <= k < pos + width ==> line[k] != '\n'
    ensures var (len, hyphen) := LineLength(line, pos, width);
            && (hyphen ==> len == width - 1)
            && (!hyphen ==>
                  && 0 < len <= width && !IsWhitespace(line[pos + len - 1])
                  && (exists at :: pos + len <= at <= pos + width && IsBoundary(line, at) && Blank(line[pos + len..at]))
                  && (forall at :: pos + len < at <= pos + width && IsBoundary(line, at) ==> Blank(line[pos + len..at])))
  {
    hide IsBoundary;
    LineLengthIs(line, pos, width);
    LineIsLong(line, pos, width);
    var last := LastBoundary(line, pos, width);
    var len := Trimmed(line, pos, last);
    if len > 0 {
      assert IsBoundary(line, pos + last) && Blank(line[pos + len..pos + last]);
      forall at | pos + len < at <= pos + width && IsBoundary(line, at) ensures Blank(line[pos + len..at]) {
        assert at <= pos + last;
        assert line[pos + len..at] == line[pos + len..pos + last][..at - pos - len];
      }
    }
  }

  lemma {:induction false} LineIsLong(line: string, pos: nat, width: nat)
    requires pos + width <= |line| && forall k :: pos <= k < pos + width ==> line[k] != '\n'
    ensures EndOfLine(line, pos) >= pos + width
    decreases width
  {
    if width > 0 {
      LineIsLong(line, pos + 1, width - 1);
    }
  }

  /** The next line begins behind the newline, or else at the next character that is not white space. */
  lemma NextLine(column: Column, pos: nat)
    requires column.Wide(1) && pos <= |column.text|
    ensures var (text, at, next) := (column.text, pos + LengthAt(column, pos).0, After(column, pos));
            && (at < |text| && text[at] == '\n' ==> next == at + 1)
            && (at == |text| || text[at] != '\n' ==> Blank(text[at..next]) && (next < |text| ==> !IsWhitespace(text[next])))
  {
    hide LineLength;
  }

  /** The first line has the indent that is said for it, and all others the other. */
  lemma IndentsAre(column: Column, i: nat)
    requires column.Wide(1) && Ends(column) && i < |Wrapped(column)|
    ensures Wrapped(column)[i].indent == if i == 0 && column.initialIndent != NoIndent then column.initialIndent else column.indent
  {
    hide LengthAt, After, Flows;
    FlowsOn(column, 0);
    if i > 0 {
      LaterIndents(column, After(column, 0), i - 1);
    }
  }

  lemma {:induction false} LaterIndents(column: Column, pos: nat, i: nat)
    requires column.Wide(1) && 0 < pos <= |column.text| && (pos == |column.text| || Flows(column, pos))
    requires i < |Cuts(column, pos)|
    ensures Cuts(column, pos)[i].indent == column.indent
    decreases i
  {
    hide LengthAt, After, Flows;
    FlowsOn(column, pos);
    if i > 0 {
      LaterIndents(column, After(column, pos), i - 1);
    }
  }
}
