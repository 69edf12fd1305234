/** UTF-8 as tinyxml2 writes it for numeric character references (the 21-bit
  * range of RFC 2279, a superset of RFC 3629), and the length count of the
  * JSON validator.
  */
module XmlUtf8 {

  const MAX_ENCODABLE: bv32 := 0x200000

  function EncodedLength(input: bv32): nat {
    if input < 0x80 then 1
    else if input < 0x800 then 2
    else if input < 0x10000 then 3
    else if input < MAX_ENCODABLE then 4
    else 0
  }

  /** The byte that carries the low six bits. */
  function Continuation(input: bv32): bv32 {
    (input | 0x80) & 0xBF
  }

  function Rest(input: bv32): bv32 {
    input >> 6
  }

  function Lead(input: bv32, length: nat): bv32 {
    match length
    case 2 => input | 0xC0
    case 3 => input | 0xE0
    case 4 => input | 0xF0
    case _ => input
  }

  /** What is written for a value; nothing for one that needs more than 21 bits. */
  function Encode(input: bv32): (bytes: seq<bv32>) {
    match EncodedLength(input)
    case 1 => [Lead(input, 1)]
    case 2 => [Lead(Rest(input), 2), Continuation(input)]
    case 3 => [Lead(Rest(Rest(input)), 3), Continuation(Rest(input)), Continuation(input)]
    case 4 => [Lead(Rest(Rest(Rest(input))), 4),
               Continuation(Rest(Rest(input))), Continuation(Rest(input)), Continuation(input)]
    case _ => []
  }

  /** The bytes are written back to front, as the source's falling-through switch does. */
  method ConvertUTF32ToUTF8(input: bv32, output: array<bv32>) returns (length: nat)
    requires output.Length >= 4
    modifies output
    ensures length <= 4 && output[..length] == Encode(input)
    ensures output[length..] == old(output[length..])
  {
    hide Continuation, Rest, Lead;
    length := EncodedLength(input);
    var rest, p := input, length;
    if length >= 4 {
      p := p - 1;
      output[p] := Continuation(rest);
      rest := Rest(rest);
    }
    if length >= 3 {
      p := p - 1;
      output[p] := Continuation(rest);
      rest := Rest(rest);
    }
    if length >= 2 {
      p := p - 1;
      output[p] := Continuation(rest);
      rest := Rest(rest);
    }
    if length >= 1 {
      p := p - 1;
      output[p] := Lead(rest, length);
    }
  }

  // ---------- an independent reading of the format (RFC 3629, section 3) ----------

  predicate IsContinuation(b: bv32) {
    b & 0xC0 == 0x80
  }

  /** How many bytes the sequence starting with lead byte b has; 0 if b cannot lead. */
  function SequenceLength(b: bv32): nat {
    if b < 0x80 then 1
    else if b & 0xE0 == 0xC0 then 2
    else if b & 0xF0 == 0xE0 then 3
    else if b & 0xF8 == 0xF0 then 4
    else 0
  }

  /** The value of one complete sequence. */
  function Decode(bytes: seq<bv32>): bv32
    requires bytes != [] && |bytes| == SequenceLength(bytes[0])
  {
    match |bytes|
    case 1 => bytes[0]
    case 2 => ((bytes[0] & 0x1F) << 6) | (bytes[1] & 0x3F)
    case 3 => ((bytes[0] & 0x0F) << 12) | ((bytes[1] & 0x3F) << 6) | (bytes[2] & 0x3F)
    case _ => ((bytes[0] & 0x07) << 18) | ((bytes[1] & 0x3F) << 12) | ((bytes[2] & 0x3F) << 6) | (bytes[3] & 0x3F)
  }

  predicate WellFormed(bytes: seq<bv32>) {
    && bytes != [] && |bytes| == SequenceLength(bytes[0])
    && (forall i :: 0 <= i < |bytes| ==> bytes[i] < 0x100)
    && (forall i :: 1 <= i < |bytes| ==> IsContinuation(bytes[i]))
  }

  lemma ContinuationBits(x: bv32)
    ensures Continuation(x) < 0x100 && IsContinuation(Continuation(x)) && Continuation(x) & 0x3F == x & 0x3F
  {
  }

  lemma TwoByteBits(x: bv32)
    requires x < 0x800
    ensures var b := Lead(Rest(x), 2);
            b < 0x100 && SequenceLength(b) == 2 && ((b & 0x1F) << 6) | (x & 0x3F) == x
  {
  }

  lemma ThreeByteBits(x: bv32)
    requires x < 0x10000
    ensures var b := Lead(Rest(Rest(x)), 3);
            b < 0x100 && SequenceLength(b) == 3 && ((b & 0x0F) << 12) | ((Rest(x) & 0x3F) << 6) | (x & 0x3F) == x
  {
  }

  lemma FourByteBits(x: bv32)
    requires x < MAX_ENCODABLE
    ensures var b := Lead(Rest(Rest(Rest(x))), 4);
            && b < 0x100 && SequenceLength(b) == 4
            && ((b & 0x07) << 18) | ((Rest(Rest(x)) & 0x3F) << 12) | ((Rest(x) & 0x3F) << 6) | (x & 0x3F) == x
  {
  }

  lemma OneByte(x: bv32)
    requires x < 0x80
    ensures WellFormed([x]) && Decode([x]) == x
  {
  }

  lemma TwoBytes(b: bv32, c: bv32)
    requires b < 0x100 && SequenceLength(b) == 2 && c < 0x100 && IsContinuation(c)
    ensures WellFormed([b, c]) && Decode([b, c]) == ((b & 0x1F) << 6) | (c & 0x3F)
  {
  }

  lemma ThreeBytes(b: bv32, c: bv32, d: bv32)
    requires b < 0x100 && SequenceLength(b) == 3
    requires c < 0x100 && IsContinuation(c) && d < 0x100 && IsContinuation(d)
    ensures WellFormed([b, c, d]) && Decode([b, c, d]) == ((b & 0x0F) << 12) | ((c & 0x3F) << 6) | (d & 0x3F)
  {
  }

  lemma FourBytes(b: bv32, c: bv32, d: bv32, e: bv32)
    requires b < 0x100 && SequenceLength(b) == 4
    requires c < 0x100 && IsContinuation(c) && d < 0x100 && IsContinuation(d) && e < 0x100 && IsContinuation(e)
    ensures WellFormed([b, c, d, e])
    ensures Decode([b, c, d, e]) == ((b & 0x07) << 18) | ((c & 0x3F) << 12) | ((d & 0x3F) << 6) | (e & 0x3F)
  {
  }

  lemma RoundTripTwo(x: bv32)
    requires x < 0x800
    ensures var bytes := [Lead(Rest(x), 2), Continuation(x)];
            WellFormed(bytes) && Decode(bytes) == x
  {
    hide Continuation, Rest, Lead, WellFormed, Decode;
    ContinuationBits(x);
    TwoByteBits(x);
    TwoBytes(Lead(Rest(x), 2), Continuation(x));
  }

  lemma RoundTripThree(x: bv32)
    requires x < 0x10000
    ensures var bytes := [Lead(Rest(Rest(x)), 3), Continuation(Rest(x)), Continuation(x)];
            WellFormed(bytes) && Decode(bytes) == x
  {
    hide Continuation, Rest, Lead, WellFormed, Decode;
    ContinuationBits(x);
    ContinuationBits(Rest(x));
    ThreeByteBits(x);
    ThreeBytes(Lead(Rest(Rest(x)), 3), Continuation(Rest(x)), Continuation(x));
  }

  lemma RoundTripFour(x: bv32)
    requires x < MAX_ENCODABLE
    ensures var bytes := [Lead(Rest(Rest(Rest(x))), 4), Continuation(Rest(Rest(x))), Continuation(Rest(x)), Continuation(x)];
            WellFormed(bytes) && Decode(bytes) == x
  {
    hide Continuation, Rest, Lead, WellFormed, Decode;
    ContinuationBits(x);
    ContinuationBits(Rest(x));
    ContinuationBits(Rest(Rest(x)));
    FourByteBits(x);
    FourBytes(Lead(Rest(Rest(Rest(x))), 4), Continuation(Rest(Rest(x))), Continuation(Rest(x)), Continuation(x));
  }

  /** Every encodable value is written as a well-formed sequence that reads back as the value. */
  lemma DecodeEncode(input: bv32)
    requires input < MAX_ENCODABLE
    ensures WellFormed(Encode(input)) && Decode(Encode(input)) == input
  {
    hide Continuation, Rest, WellFormed, Decode;
    match EncodedLength(input)
    case 1 => OneByte(input);
    case 2 => RoundTripTwo(input);
    case 3 => RoundTripThree(input);
    case _ => RoundTripFour(input);
  }

  /** No well-formed sequence with the same value is shorter. */
  lemma EncodeIsShortest(input: bv32, bytes: seq<bv32>)
    requires input < MAX_ENCODABLE && WellFormed(bytes) && Decode(bytes) == input
    ensures |Encode(input)| <= |bytes|
  {
    assert bytes[0] < 0x100;
    if |bytes| == 1 {
      assert input < 0x80;
    } else if |bytes| == 2 {
      assert input < 0x800;
    } else if |bytes| == 3 {
      assert input < 0x10000;
    }
  }

  // ---------- counting code points ----------

  /** `utf8_length` of the JSON validator. */
  function Utf8Length(bytes: seq<bv32>): nat {
    if bytes == [] then 0
    else Utf8Length(bytes[..|bytes| - 1]) + if IsContinuation(bytes[|bytes| - 1]) then 0 else 1
  }

  method CountUtf8(bytes: seq<bv32>) returns (len: nat)
    ensures len == Utf8Length(bytes)
  {
    len := 0;
    for i := 0 to |bytes|
      invariant len == Utf8Length(bytes[..i])
    {
      assert bytes[..i + 1][..i] == bytes[..i];
      if bytes[i] & 0xC0 != 0x80 {
        len := len + 1;
      }
    }
    assert bytes[..|bytes|] == bytes;
  }

  function EncodeAll(points: seq<bv32>): seq<bv32> {
    if points == [] then [] else EncodeAll(points[..|points| - 1]) + Encode(points[|points| - 1])
  }

  lemma {:induction false} Utf8LengthAppend(a: seq<bv32>, b: seq<bv32>)
    ensures Utf8Length(a + b) == Utf8Length(a) + Utf8Length(b)
  {
    if b == [] {
      assert a + b == a;
    } else {
      Utf8LengthAppend(a, b[..|b| - 1]);
      assert (a + b)[..|a + b| - 1] == a + b[..|b| - 1];
    }
  }

  /** A concatenation of encodings has as many counted bytes as code points. */
  lemma {:induction false} Utf8LengthCountsPoints(points: seq<bv32>)
    requires forall i :: 0 <= i < |points| ==> points[i] < MAX_ENCODABLE
    ensures Utf8Length(EncodeAll(points)) == |points|
  {
    hide Encode, Decode, IsContinuation;
    if points != [] {
      var n := |points| - 1;
      Utf8LengthCountsPoints(points[..n]);
      Utf8LengthAppend(EncodeAll(points[..n]), Encode(points[n]));
      DecodeEncode(points[n]);
      LeadIsNoContinuation(Encode(points[n])[0]);
      LeadThenContinuations(Encode(points[n]));
    }
  }

  lemma LeadIsNoContinuation(b: bv32)
    requires SequenceLength(b) > 0
    ensures !IsContinuation(b)
  {
  }

  lemma {:induction false} LeadThenContinuations(bytes: seq<bv32>)
    requires bytes != [] && !IsContinuation(bytes[0])
    requires forall i :: 1 <= i < |bytes| ==> IsContinuation(bytes[i])
    ensures Utf8Length(bytes) == 1
  {
    if |bytes| == 1 {
      assert Utf8Length(bytes[..0]) == 0;
    } else {
      LeadThenContinuations(bytes[..|bytes| - 1]);
    }
  }
}
