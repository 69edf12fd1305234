/** tinyxml2's StrPair: a slice of the document's own character buffer that is
  * decoded in place when it is first asked for.
  */
module XmlStrPair {
  import opened XmlText

  lemma DecodedAtEnd(s: string, out: string, f: Flags)
    requires |out| <= |s|
    ensures DecodeInPlace(s, |s|, out, f) == out
  {
  }

  class StrPair {
    const buffer: array<char>
    const start: nat
    const end: nat
    const flags: Flags
    var needsFlush: bool

    /** A slice fresh from the parser. */
    constructor (buffer: array<char>, start: nat, end: nat, flags: Flags)
      requires start <= end < buffer.Length
      ensures this.buffer == buffer && this.start == start && this.end == end && this.flags == flags && needsFlush
      ensures Valid()
    {
      this.buffer, this.start, this.end, this.flags, needsFlush := buffer, start, end, flags, true;
    }

    ghost predicate Valid() {
      start <= end < buffer.Length
    }

    /** The slice's characters, while it has not been flushed. */
    ghost function Raw(): string
      requires Valid()
      reads buffer
    {
      buffer[start..end]
    }

    /** The buffer holds the C string `text`, with its terminator, at the start of the slice. */
    ghost predicate Holds(text: string)
      requires Valid()
      reads buffer
    {
      && |text| <= end - start
      && buffer[start..start + |text|] == text
      && buffer[start + |text|] == NUL
    }

    /** The entity or reference at p, found as the source finds it. */
    method ReadStep(p: nat) returns (step: Step)
      requires Valid() && start <= p < end && buffer[end] == NUL && NUL !in buffer[p..end]
      ensures step == StepAt(buffer[p..end], flags)
    {
      ghost var t := buffer[p..end];
      assert At(t, 1) == buffer[p + 1];
      if flags.newlines && buffer[p] == CR {
        step := Consume(if buffer[p + 1] == LF then 2 else 1, [LF]);
      } else if flags.newlines && buffer[p] == LF {
        step := Consume(if buffer[p + 1] == CR then 2 else 1, [LF]);
      } else if flags.entities && buffer[p] == '&' {
        if buffer[p + 1] == '#' {
          var r := GetCharacterRef(p);
          step := if r.Reference? then Consume(r.length, r.text) else Consume(1, "&");
        } else {
          var r := FindEntity(p);
          step := if r.Reference? then Consume(r.length, r.text) else StrayAmpersand;
        }
      } else {
        step := Consume(1, [buffer[p]]);
      }
    }

    method FindEntity(p: nat) returns (r: Reference)
      requires Valid() && start <= p < end
      ensures r == EntityAt(buffer[p..end], 0)
    {
      var i := 0;
      while i < |ENTITIES|
        invariant i <= |ENTITIES|
        invariant EntityAt(buffer[p..end], 0) == EntityAt(buffer[p..end], i)
      {
        if "&" + ENTITIES[i].pattern + ";" <= buffer[p..end] {
          return Reference(|ENTITIES[i].pattern| + 2, [ENTITIES[i].value]);
        }
        i := i + 1;
      }
      r := NoReference;
    }

    /** strchr, from a position on. */
    method FindChar(p: nat, from: nat, c: char) returns (k: nat)
      requires Valid() && start <= p <= from <= end
      ensures k - p == IndexOf(buffer[p..end], c, from - p) && from <= k
    {
      ghost var t := buffer[p..end];
      k := from;
      while k < end && buffer[k] != c
        invariant from <= k <= end
        invariant IndexOf(t, c, from - p) == IndexOf(t, c, k - p)
      {
        k := k + 1;
      }
    }

    /** The digits of a numeric reference, from position q back to the mark. */
    method ScanBackwards(p: nat, semicolon: nat, mark: char, base: nat, ghost first: nat) returns (scan: Scan)
      requires Valid() && start <= p && p + first < semicolon < end && buffer[p + first] == mark
      ensures buffer[p..end][first] == mark
      ensures scan == ScanDigits(buffer[p..end], semicolon - p, mark, base, 1)
    {
      ghost var t := buffer[p..end];
      assert t[first] == mark;
      var q, ucs: nat, mult: nat := semicolon, 0, 1;
      while buffer[q - 1] != mark
        invariant p + first < q <= semicolon
        invariant ScanDigits(t, semicolon - p, mark, base, 1) == Plus(ucs, ScanDigits(t, q - p, mark, base, mult))
        decreases q
      {
        var digit := DigitValue(buffer[q - 1]);
        if digit >= base {
          return BadDigit;
        }
        ucs, mult := ucs + mult * digit % TWO32, mult * base % TWO32;
        q := q - 1;
      }
      scan := Value(ucs);
    }

    method GetCharacterRef(p: nat) returns (r: Reference)
      requires Valid() && start <= p && p + 1 < end && buffer[p] == '&' && buffer[p + 1] == '#'
      requires buffer[end] == NUL && NUL !in buffer[p..end]
      ensures r == CharacterRef(buffer[p..end])
    {
      hide IndexOf, ScanDigits, Utf8Text;
      ghost var t := buffer[p..end];
      assert At(t, 2) == buffer[p + 2];
      if buffer[p + 2] == NUL {
        return Reference(1, []);
      }
      assert p + 2 < end;
      var hex := buffer[p + 2] == 'x';
      var from := if hex then p + 3 else p + 2;
      assert At(t, from - p) == buffer[from];
      if buffer[from] == NUL {
        return NoReference;
      }
      var semicolon := FindChar(p, from, ';');
      if semicolon == end {
        return NoReference;
      }
      var mark, base := if hex then 'x' else '#', if hex then 16 else 10;
      var scan := ScanBackwards(p, semicolon, mark, base, from - p - 1);
      r := if scan.Value? then Reference(semicolon - p + 1, Utf8Text(scan.ucs)) else NoReference;
    }

    static function Plus(ucs: nat, scan: Scan): Scan {
      match scan
      case BadDigit => BadDigit
      case Value(more) => Value(ucs + more)
    }

    /** memcpy of a decoded reference to the write position. */
    method Copy(text: string, q: nat)
      requires q + |text| <= buffer.Length
      modifies buffer
      ensures forall i :: 0 <= i < |text| ==> buffer[q + i] == text[i]
      ensures forall i :: 0 <= i < buffer.Length && !(q <= i < q + |text|) ==> buffer[i] == old(buffer[i])
    {
      for i := 0 to |text|
        invariant forall j :: 0 <= j < i ==> buffer[q + j] == text[j]
        invariant forall j :: 0 <= j < buffer.Length && !(q <= j < q + i) ==> buffer[j] == old(buffer[j])
      {
        buffer[q + i] := text[i];
      }
    }

    /** Midway through decoding s: `out` is written before q, everything from q on is still as it was. */
    ghost predicate Decoding(s: string, p: nat, q: nat, out: string)
      requires Valid()
      reads buffer
    {
      && start <= q <= p <= end && |s| == end - start && NUL !in s && |out| == q - start
      && (forall i :: 0 <= i < |out| ==> buffer[start + i] == out[i])
      && (forall i :: q <= i < end ==> buffer[i] == s[i - start])
      && buffer[end] == NUL
    }

    method Advance(ghost s: string, p: nat, q: nat, ghost out: string) returns (p': nat, q': nat, ghost out': string)
      requires Valid() && Decoding(s, p, q, out) && p < end
      modifies buffer
      ensures Decoding(s, p', q', out') && p < p'
      ensures DecodeInPlace(s, p' - start, out', flags) == DecodeInPlace(s, p - start, out, flags)
      ensures forall i :: 0 <= i < buffer.Length && !(start <= i <= end) ==> buffer[i] == old(buffer[i])
    {
      hide StepAt;
      assert buffer[p..end] == s[p - start..];
      var step := ReadStep(p);
      match step {
        case Consume(length, text) =>
          Copy(text, q);
          p', q', out' := p + length, q + |text|, out + text;
        case StrayAmpersand =>
          p', q', out' := p + 1, q + 1, out + [s[|out|]];
      }
    }

    /** Decode on the first call, with a write position that never passes the
      * read position; later calls find the result in the buffer.
      */
    method GetStr()
      requires Valid() && (needsFlush ==> NUL !in Raw())
      modifies this`needsFlush, buffer
      ensures !needsFlush
      ensures old(needsFlush) ==> Holds(DecodeInPlace(old(Raw()), 0, "", flags))
      ensures !old(needsFlush) ==> buffer[..] == old(buffer[..])
      ensures forall i :: 0 <= i < buffer.Length && !(start <= i <= end) ==> buffer[i] == old(buffer[i])
    {
      hide DecodeInPlace;
      if needsFlush {
        ghost var s := Raw();
        buffer[end] := NUL;
        needsFlush := false;
        var p, q := start, start;
        ghost var out := "";
        while p < end
          invariant Decoding(s, p, q, out)
          invariant DecodeInPlace(s, p - start, out, flags) == DecodeInPlace(s, 0, "", flags)
          invariant !needsFlush
          invariant forall i :: 0 <= i < buffer.Length && !(start <= i <= end) ==> buffer[i] == old(buffer[i])
        {
          p, q, out := Advance(s, p, q, out);
        }
        DecodedAtEnd(s, out, flags);
        buffer[q] := NUL;
        assert buffer[start..start + |out|] == out;
      }
    }
  }
}
