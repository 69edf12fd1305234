/** When comparing 64-bit images is comparing numbers. */
module JsonNumbers {
  import opened JsonValues
  import opened JsonOrder
  import opened JsonSchemas

  function OneIf(b: bool): int {
    if b then 1 else 0
  }

  /** The least image above a minimum, and the greatest below a maximum. */
  function Least(bound: int, exclusive: bool): int {
    bound + OneIf(exclusive)
  }

  function Greatest(bound: int, exclusive: bool): int {
    bound - OneIf(exclusive)
  }

  /** The schemas whose bounds are compared rightly with every number. */
  predicate BoundsAreRead(s: Schema) {
    match s.minimum
    case None => s.maximum.Some? ==> s.maximum.value == -Two63 && s.exclusiveMaximum
    case Some(m) =>
      var least := Least(m, s.exclusiveMinimum);
      match s.maximum
      case None => if m < 0 then least == -Two63 else m < Two63
      case Some(n) =>
        var greatest := Greatest(n, s.exclusiveMaximum);
        if m < 0 then n < Two63 && (least > greatest || least == 0)
        else
          && (n >= 0 || least > greatest + Two64)
          && (m < Two63 || least - Two64 > Greatest(Signed64(n), s.exclusiveMaximum))
  }

  /** A number that is compared wrongly if any is. */
  function Witness(s: Schema): int {
    match s.minimum
    case None => if s.maximum.Some? && s.maximum.value < Two63 then Two63 else 0
    case Some(m) =>
      var least := Least(m, s.exclusiveMinimum);
      if m < 0 then (if s.maximum.Some? && s.maximum.value >= Two63 then 0 else if s.maximum.Some? then least + Two64 else Two63)
      else if s.maximum.Some? && s.maximum.value < 0 && least <= Greatest(s.maximum.value, s.exclusiveMaximum) + Two64 then least
      else if least == Two64 then 0 else least - Two64
  }

  lemma ImagesAre(n: JsonInt)
    ensures Signed64(n) == if n < Two63 then n else n - Two64
    ensures Unsigned64(n) == if n >= 0 then n else n + Two64
  {
  }

  lemma RightWhereRead(n: JsonInt, s: Schema)
    requires BoundsAreRead(s)
    ensures NumberHolds(n, s) == WithinBounds(n, s)
  {
    BoundImages(n, s);
    hide Signed64, Unsigned64;
  }

  lemma WrongAtWitness(s: Schema)
    requires !BoundsAreRead(s)
    ensures -Two63 <= Witness(s) < Two64 && NumberHolds(Witness(s), s) != WithinBounds(Witness(s), s)
  {
    BoundImages(if -Two63 <= Witness(s) < Two64 then Witness(s) else 0, s);
    hide Signed64, Unsigned64;
  }

  lemma BoundImages(n: JsonInt, s: Schema)
    ensures Signed64(n) == if n < Two63 then n else n - Two64
    ensures Unsigned64(n) == if n >= 0 then n else n + Two64
    ensures s.maximum.Some? ==>
      var b := s.maximum.value; Signed64(b) == (if b < Two63 then b else b - Two64) && Unsigned64(b) == if b >= 0 then b else b + Two64
    ensures s.minimum.Some? ==>
      var b := s.minimum.value; Signed64(b) == (if b < Two63 then b else b - Two64) && Unsigned64(b) == if b >= 0 then b else b + Two64
  {
    ImagesAre(n);
    if s.maximum.Some? {
      ImagesAre(s.maximum.value);
    }
    if s.minimum.Some? {
      ImagesAre(s.minimum.value);
    }
  }

  /** The validator compares every number rightly with the bounds of a schema exactly when they
      are such that no image can be taken for another number. */
  lemma NumbersAreReadIff(s: Schema)
    ensures (forall n: JsonInt :: NumberHolds(n, s) == WithinBounds(n, s)) <==> BoundsAreRead(s)
  {
    if BoundsAreRead(s) {
      forall n: JsonInt ensures NumberHolds(n, s) == WithinBounds(n, s) {
        RightWhereRead(n, s);
      }
    } else {
      WrongAtWitness(s);
      var n: JsonInt := Witness(s);
      assert NumberHolds(n, s) != WithinBounds(n, s);
    }
  }

  /** 2^63 passes a maximum of 10, and 5 a maximum of -1 beside a minimum of 0. */
  lemma WrongNumbersPass()
    ensures var s := Empty.(maximum := Some(10)); NumberHolds(Two63, s) && !WithinBounds(Two63, s)
    ensures var s := Empty.(minimum := Some(0), maximum := Some(-1)); NumberHolds(5, s) && !WithinBounds(5, s)
  {
  }
}
