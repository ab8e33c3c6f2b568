/** Range-based proofs that an integer operation cannot overflow, or that a truncation
    must lose bits. */
module OverflowBoxes {
  import opened Options
  import opened MachineInt
  import opened IntRanges

  datatype Opcode = Add | Sub | Mul | OtherOpcode

  /** What is known about an operand: a constant of some width, or a range, or nothing. */
  datatype Operand = ConstantOperand(width: nat, value: int) | RangedOperand(range: IntRange) | UnknownOperand

  datatype Interval = Interval(lower: int, upper: int)

  ghost predicate InInterval(x: int, i: Interval) {
    i.lower <= x <= i.upper
  }

  function TryGetSignedRange(operand: Operand): Option<Interval> {
    match operand
    case ConstantOperand(width, value) => if width == 0 || width > 63 then None else Some(Interval(value, value))
    case RangedOperand(range) =>
      if !range.hasLower || !range.hasUpper then None else Some(Interval(range.lower, range.upper))
    case UnknownOperand => None
  }

  function SignedMin(width: nat): int
    requires width >= 1
  {
    -(Pow2(width - 1) as int)
  }

  function SignedMax(width: nat): int
    requires width >= 1
  {
    Pow2(width - 1) - 1
  }

  function Min(x: int, y: int): int {
    if x < y then x else y
  }

  function Max(x: int, y: int): int {
    if x < y then y else x
  }

  /** The extreme results over the box, computed from its corners. */
  function ResultRange(op: Opcode, lhs: Interval, rhs: Interval): Option<Interval> {
    match op
    case Add => Some(Interval(lhs.lower + rhs.lower, lhs.upper + rhs.upper))
    case Sub => Some(Interval(lhs.lower - rhs.upper, lhs.upper - rhs.lower))
    case Mul =>
      var c1 := lhs.lower * rhs.lower;
      var c2 := lhs.lower * rhs.upper;
      var c3 := lhs.upper * rhs.lower;
      var c4 := lhs.upper * rhs.upper;
      Some(Interval(Min(Min(c1, c2), Min(c3, c4)), Max(Max(c1, c2), Max(c3, c4))))
    case OtherOpcode => None
  }

  predicate ProvenNoSignedOverflow(op: Opcode, width: nat, lhs: Operand, rhs: Operand) {
    if width == 0 || width > 63 then false
    else
      match (TryGetSignedRange(lhs), TryGetSignedRange(rhs))
      case (Some(l), Some(r)) =>
        (match ResultRange(op, l, r)
         case None => false
         case Some(result) => result.lower >= SignedMin(width) && result.upper <= SignedMax(width))
      case _ => false
  }

  // Meaning

  ghost function Evaluate(op: Opcode, a: int, b: int): int
    requires op != OtherOpcode
  {
    match op
    case Add => a + b
    case Sub => a - b
    case Mul => a * b
  }

  ghost predicate FitsSigned(width: nat, x: int)
    requires width >= 1
  {
    -(Pow2(width - 1) as int) <= x < Pow2(width - 1)
  }

  ghost predicate NoPairOverflows(op: Opcode, width: nat, l: Interval, r: Interval)
    requires op != OtherOpcode && width >= 1
  {
    forall a, b :: InInterval(a, l) && InInterval(b, r) ==> FitsSigned(width, Evaluate(op, a, b))
  }

  ghost predicate EmptyInterval(i: Interval) {
    i.lower > i.upper
  }

  lemma TimesMonotone(x: int, y: int, k: int)
    requires x <= y
    ensures k >= 0 ==> x * k <= y * k
    ensures k <= 0 ==> y * k <= x * k
  {
    var d, p, q := y - x, x * k, y * k;
    assert d * k == q - p;
    if k >= 0 {
      assert d * k >= 0;
    } else {
      assert d * k <= 0;
    }
  }

  lemma ScaledBetween(x: int, i: Interval, k: int)
    requires InInterval(x, i)
    ensures Min(i.lower * k, i.upper * k) <= x * k <= Max(i.lower * k, i.upper * k)
  {
    TimesMonotone(i.lower, x, k);
    TimesMonotone(x, i.upper, k);
  }

  lemma BetweenScaled(k: int, x: int, i: Interval)
    requires InInterval(x, i)
    ensures Min(k * i.lower, k * i.upper) <= k * x <= Max(k * i.lower, k * i.upper)
  {
    ScaledBetween(x, i, k);
    Commutes(k, x);
    Commutes(k, i.lower);
    Commutes(k, i.upper);
  }

  lemma Commutes(x: int, y: int)
    ensures x * y == y * x
  {
  }

  /** Between two values that lie between the corners. */
  lemma BetweenCorners(p: int, q1: int, q2: int, c1: int, c2: int, c3: int, c4: int)
    requires Min(q1, q2) <= p <= Max(q1, q2)
    requires Min(c1, c2) <= q1 <= Max(c1, c2) && Min(c3, c4) <= q2 <= Max(c3, c4)
    ensures Min(Min(c1, c2), Min(c3, c4)) <= p <= Max(Max(c1, c2), Max(c3, c4))
  {
  }

  lemma ProductWithinCorners(a: int, b: int, l: Interval, r: Interval)
    requires InInterval(a, l) && InInterval(b, r)
    ensures InInterval(a * b, ResultRange(Mul, l, r).value)
  {
    ScaledBetween(a, l, b);
    BetweenScaled(l.lower, b, r);
    BetweenScaled(l.upper, b, r);
    BetweenCorners(a * b, l.lower * b, l.upper * b,
                   l.lower * r.lower, l.lower * r.upper, l.upper * r.lower, l.upper * r.upper);
  }

  /** Both ends of the result range are results of some pair in a non-empty box. */
  lemma ExtremesAttained(op: Opcode, l: Interval, r: Interval)
    requires op != OtherOpcode && !EmptyInterval(l) && !EmptyInterval(r)
    ensures var result := ResultRange(op, l, r).value;
      && (exists a, b :: InInterval(a, l) && InInterval(b, r) && Evaluate(op, a, b) == result.lower)
      && (exists a, b :: InInterval(a, l) && InInterval(b, r) && Evaluate(op, a, b) == result.upper)
  {
    assert InInterval(l.lower, l) && InInterval(l.upper, l) && InInterval(r.lower, r) && InInterval(r.upper, r);
    var c1, c2 := Evaluate(op, l.lower, r.lower), Evaluate(op, l.lower, r.upper);
    var c3, c4 := Evaluate(op, l.upper, r.lower), Evaluate(op, l.upper, r.upper);
    var result := ResultRange(op, l, r).value;
    assert result.lower == c1 || result.lower == c2 || result.lower == c3 || result.lower == c4;
    assert result.upper == c1 || result.upper == c2 || result.upper == c3 || result.upper == c4;
  }

  /** The operand is known to be between the ends of i: a constant of 1 to 63 bits, or a value with
      a bound on either side. */
  ghost predicate KnownBetween(operand: Operand, i: Interval) {
    match operand
    case ConstantOperand(width, value) => 1 <= width <= 63 && forall x :: InInterval(x, i) <==> x == value
    case RangedOperand(range) => range == IntRange(true, i.lower, true, i.upper)
    case UnknownOperand => false
  }

  /** The values the operand of a width-bit operation can have, as far as is known: one-sided
      ranges leave the other side open. */
  ghost predicate MayTake(operand: Operand, width: nat, x: int)
    requires width >= 1
  {
    match operand
    case ConstantOperand(_, value) => x == value
    case RangedOperand(range) => FitsSigned(width, x) && Contains(range, x)
    case UnknownOperand => FitsSigned(width, x)
  }

  lemma SignedRangeMeans(operand: Operand, i: Interval)
    ensures TryGetSignedRange(operand) == Some(i) <==> KnownBetween(operand, i)
  {
    match operand {
      case ConstantOperand(_, value) =>
        if KnownBetween(operand, i) {
          assert InInterval(value, i) && !InInterval(value - 1, i) && !InInterval(value + 1, i);
        }
      case RangedOperand(range) =>
        if TryGetSignedRange(operand) == Some(i) {
          assert range == IntRange(true, i.lower, true, i.upper);
        }
      case UnknownOperand =>
    }
  }

  /** For every operation, width and pair of operands: a yes means that both are known between two
      ends, and that no pair of values they can have overflows. */
  lemma ProvenIsSound(op: Opcode, width: nat, lhs: Operand, rhs: Operand)
    requires ProvenNoSignedOverflow(op, width, lhs, rhs)
    ensures 1 <= width <= 63 && op != OtherOpcode
    ensures (exists l :: KnownBetween(lhs, l)) && (exists r :: KnownBetween(rhs, r))
    ensures forall a, b :: MayTake(lhs, width, a) && MayTake(rhs, width, b) ==> FitsSigned(width, Evaluate(op, a, b))
  {
    var l, r := TryGetSignedRange(lhs).value, TryGetSignedRange(rhs).value;
    SignedRangeMeans(lhs, l);
    SignedRangeMeans(rhs, r);
    FittingResultIsSound(op, width, l, r);
    assert forall a :: MayTake(lhs, width, a) ==> InInterval(a, l);
    assert forall b :: MayTake(rhs, width, b) ==> InInterval(b, r);
  }

  /** With both operands known between two ends, no pair in the box overflows exactly when the
      check passes or a range is empty: there the check is complete as well. */
  lemma OverflowCheckIsExact(op: Opcode, width: nat, lhs: Operand, rhs: Operand, l: Interval, r: Interval)
    requires 1 <= width <= 63 && op != OtherOpcode
    requires KnownBetween(lhs, l) && KnownBetween(rhs, r)
    ensures NoPairOverflows(op, width, l, r) <==>
            ProvenNoSignedOverflow(op, width, lhs, rhs) || EmptyInterval(l) || EmptyInterval(r)
  {
    SignedRangeMeans(lhs, l);
    SignedRangeMeans(rhs, r);
    if ProvenNoSignedOverflow(op, width, lhs, rhs) {
      FittingResultIsSound(op, width, l, r);
    } else if !EmptyInterval(l) && !EmptyInterval(r) {
      OversizedResultIsReal(op, width, l, r);
    }
  }

  lemma FittingResultIsSound(op: Opcode, width: nat, l: Interval, r: Interval)
    requires op != OtherOpcode && width >= 1
    requires SignedMin(width) <= ResultRange(op, l, r).value.lower &&
             ResultRange(op, l, r).value.upper <= SignedMax(width)
    ensures NoPairOverflows(op, width, l, r)
  {
    forall a, b | InInterval(a, l) && InInterval(b, r) ensures FitsSigned(width, Evaluate(op, a, b)) {
      ResultInRange(op, a, b, l, r);
    }
  }

  lemma ResultInRange(op: Opcode, a: int, b: int, l: Interval, r: Interval)
    requires op != OtherOpcode && InInterval(a, l) && InInterval(b, r)
    ensures InInterval(Evaluate(op, a, b), ResultRange(op, l, r).value)
  {
    if op == Mul {
      ProductWithinCorners(a, b, l, r);
    }
  }

  lemma OversizedResultIsReal(op: Opcode, width: nat, l: Interval, r: Interval)
    requires op != OtherOpcode && width >= 1 && !EmptyInterval(l) && !EmptyInterval(r)
    requires SignedMin(width) > ResultRange(op, l, r).value.lower ||
             ResultRange(op, l, r).value.upper > SignedMax(width)
    ensures !NoPairOverflows(op, width, l, r)
  {
    var result := ResultRange(op, l, r).value;
    ExtremesAttained(op, l, r);
    var a, b :| InInterval(a, l) && InInterval(b, r) && Evaluate(op, a, b) == result.lower;
    var c, d :| InInterval(c, l) && InInterval(d, r) && Evaluate(op, c, d) == result.upper;
    assert !FitsSigned(width, Evaluate(op, a, b)) || !FitsSigned(width, Evaluate(op, c, d));
  }

  const INT128_MAX: int := 0x7FFF_FFFF_FFFF_FFFF_FFFF_FFFF_FFFF_FFFF

  ghost predicate Is64Bit(i: Interval) {
    INT64_MIN <= i.lower <= INT64_MAX && INT64_MIN <= i.upper <= INT64_MAX
  }

  lemma SmallProduct(x: int, y: int)
    requires INT64_MIN <= x <= INT64_MAX && INT64_MIN <= y <= INT64_MAX
    ensures -INT128_MAX <= x * y <= INT128_MAX
  {
    var m := Interval(INT64_MIN, -INT64_MIN);
    ScaledBetween(x, m, y);
    ScaledBetween(y, m, INT64_MIN);
    ScaledBetween(y, m, -INT64_MIN);
  }

  /** The 128-bit intermediates of the check never wrap. */
  lemma IntermediatesFit128(op: Opcode, l: Interval, r: Interval)
    requires op != OtherOpcode && Is64Bit(l) && Is64Bit(r)
    ensures var result := ResultRange(op, l, r).value;
      -INT128_MAX <= result.lower && result.upper <= INT128_MAX
    ensures op == Mul ==> forall x, y :: x in {l.lower, l.upper} && y in {r.lower, r.upper} ==>
            -INT128_MAX <= x * y <= INT128_MAX
  {
    if op == Mul {
      SmallProduct(l.lower, r.lower);
      SmallProduct(l.lower, r.upper);
      SmallProduct(l.upper, r.lower);
      SmallProduct(l.upper, r.upper);
    }
  }

  // truncationDropsKnownBits

  /** For a constant the bit pattern decides; for a range, its ends. */
  datatype TruncSource = TruncConstant(width: nat, bits: nat) | TruncRange(range: IntRange) | TruncUnknown

  predicate TruncationDropsKnownBits(source: TruncSource, target: nat) {
    match source
    case TruncConstant(width, bits) =>
      if width <= target then false else bits % Pow2(target) != bits
    case TruncRange(range) =>
      if range.hasLower && range.lower < 0 then true
      else if target >= 63 || !range.hasUpper || range.upper < 0 then false
      else range.upper > Pow2(target) - 1
    case TruncUnknown => false
  }

  ghost predicate SurvivesTruncation(target: nat, x: int) {
    0 <= x < Pow2(target)
  }

  /** Some 64-bit value of the range does not survive. */
  ghost predicate LosesBits(range: IntRange, target: nat) {
    exists x :: LostValue(range, target, x)
  }

  ghost predicate LostValue(range: IntRange, target: nat, x: int) {
    INT64_MIN <= x <= INT64_MAX && Contains(range, x) && !SurvivesTruncation(target, x)
  }

  ghost predicate RangeOf64(range: IntRange) {
    && (range.hasLower ==> INT64_MIN <= range.lower <= INT64_MAX)
    && (range.hasUpper ==> INT64_MIN <= range.upper <= INT64_MAX)
  }

  predicate EmptyRange(range: IntRange) {
    range.hasLower && range.hasUpper && range.lower > range.upper
  }

  /** When the answer for a range can be relied on. With a lower bound: if it is negative, if
      there is an upper bound too, or if nothing non-negative can be lost. Without one: only if
      the upper bound alone settles it. An empty range must not look like a lossy one. */
  predicate TruncationTrusted(range: IntRange, target: nat) {
    var upperTooBig := range.hasUpper && target < 63 && range.upper > Pow2(target) - 1;
    if EmptyRange(range) then range.lower >= 0 && !upperTooBig
    else if range.hasLower then range.lower < 0 || range.hasUpper || target >= 63
    else upperTooBig
  }

  /** For every known range, bounded or not: the answer is yes exactly when some value of the
      range does not survive the truncation, if and only if the range is one of those. Without a
      range nothing is reported. */
  lemma TruncationCheckIsExact(range: IntRange, target: nat)
    requires RangeOf64(range)
    ensures (TruncationDropsKnownBits(TruncRange(range), target) <==> LosesBits(range, target)) <==>
            TruncationTrusted(range, target)
    ensures !TruncationDropsKnownBits(TruncUnknown, target)
  {
    TargetBounds(target);
    if EmptyRange(range) {
      assert !LosesBits(range, target);
    } else if range.hasLower && range.lower >= 0 {
      NonNegativeLoses(range, target);
    } else {
      var x := if range.hasLower then range.lower else if range.hasUpper && range.upper < -1 then range.upper else -1;
      assert LostValue(range, target, x);
    }
  }

  lemma TargetBounds(target: nat)
    ensures target >= 63 ==> Pow2(target) > INT64_MAX
    ensures target < 63 ==> Pow2(target) <= INT64_MAX
  {
    Pow2Of64();
    if target >= 63 {
      Pow2Monotone(63, target);
    } else {
      Pow2Monotone(target, 62);
      assert Pow2(63) == 2 * Pow2(62);
    }
  }

  lemma NonNegativeLoses(range: IntRange, target: nat)
    requires RangeOf64(range) && range.hasLower && range.lower >= 0 && !EmptyRange(range)
    ensures LosesBits(range, target) <==> target < 63 && (range.hasUpper ==> range.upper > Pow2(target) - 1)
  {
    TargetBounds(target);
    var most := if range.hasUpper then range.upper else INT64_MAX;
    if target < 63 && most > Pow2(target) - 1 {
      assert LostValue(range, target, most);
    }
  }

  lemma RemainderUnchanged(x: nat, m: nat)
    requires m > 0
    ensures x % m == x <==> x < m
  {
  }

  lemma ConstantTruncationIsExact(width: nat, bits: nat, target: nat)
    requires bits < Pow2(width)
    ensures TruncationDropsKnownBits(TruncConstant(width, bits), target) <==> !SurvivesTruncation(target, bits)
  {
    if width <= target {
      Pow2Monotone(width, target);
    } else {
      RemainderUnchanged(bits, Pow2(target));
    }
  }
}
