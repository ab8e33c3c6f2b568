/** Value ranges read off integer comparisons, and their refinement at an access site. */
module IntRanges {
  import opened Options
  import opened MachineInt

  /** Absent bounds keep the default value 0. */
  datatype IntRange = IntRange(hasLower: bool, lower: int, hasUpper: bool, upper: int)

  ghost predicate Contains(r: IntRange, x: int) {
    (r.hasLower ==> r.lower <= x) && (r.hasUpper ==> x <= r.upper)
  }

  predicate Normal(r: IntRange) {
    (!r.hasLower ==> r.lower == 0) && (!r.hasUpper ==> r.upper == 0)
  }

  // The constraint table, which both the function-wide and the edge analysis use

  datatype Predicate = EQ | NE | UGT | UGE | ULT | ULE | SGT | SGE | SLT | SLE

  /** A ConstantInt: a bit pattern of some width. */
  datatype Constant = Constant(width: nat, bits: nat)

  ghost predicate ValidConstant(c: Constant) {
    1 <= c.width <= 64 && c.bits < Pow2(c.width)
  }

  function SExt(c: Constant): int
    requires 1 <= c.width && c.bits < Pow2(c.width)
  {
    Signed(c.width, c.bits)
  }

  function AtLeast(x: int): IntRange {
    IntRange(true, x, false, 0)
  }

  function AtMost(x: int): IntRange {
    IntRange(false, 0, true, x)
  }

  /** Constraint on V from "V pred C" (valueIsOp0) or "C pred V". */
  function DeriveConstraint(pred: Predicate, valueIsOp0: bool, constant: Constant): Option<IntRange>
    requires 1 <= constant.width && constant.bits < Pow2(constant.width)
  {
    var s := SExt(constant);
    var u := Wrap64(constant.bits);
    match pred
    case EQ => Some(IntRange(true, s, true, s))
    case NE => None
    case SLT => Some(if valueIsOp0 then AtMost(Wrap64(s - 1)) else AtLeast(Wrap64(s + 1)))
    case SLE => Some(if valueIsOp0 then AtMost(s) else AtLeast(s))
    case SGT => Some(if valueIsOp0 then AtLeast(Wrap64(s + 1)) else AtMost(Wrap64(s - 1)))
    case SGE => Some(if valueIsOp0 then AtLeast(s) else AtMost(s))
    case ULT => Some(if valueIsOp0 then AtMost(Wrap64(u - 1)) else AtLeast(Wrap64(u + 1)))
    case ULE => Some(if valueIsOp0 then AtMost(u) else AtLeast(u))
    case UGT => Some(if valueIsOp0 then AtLeast(Wrap64(u + 1)) else AtMost(Wrap64(u - 1)))
    case UGE => Some(if valueIsOp0 then AtLeast(u) else AtMost(u))
  }

  /** What the comparison "a pred b" means for width-bit patterns. */
  ghost predicate Compare(pred: Predicate, width: nat, a: nat, b: nat)
    requires 1 <= width && a < Pow2(width) && b < Pow2(width)
  {
    match pred
    case EQ => a == b
    case NE => a != b
    case UGT => a > b
    case UGE => a >= b
    case ULT => a < b
    case ULE => a <= b
    case SGT => Signed(width, a) > Signed(width, b)
    case SGE => Signed(width, a) >= Signed(width, b)
    case SLT => Signed(width, a) < Signed(width, b)
    case SLE => Signed(width, a) <= Signed(width, b)
  }

  ghost predicate Satisfies(pred: Predicate, valueIsOp0: bool, constant: Constant, v: nat)
    requires ValidConstant(constant) && v < Pow2(constant.width)
  {
    if valueIsOp0 then Compare(pred, constant.width, v, constant.bits)
    else Compare(pred, constant.width, constant.bits, v)
  }

  /** The derived range keeps the signed value of every pattern that passes the comparison. */
  ghost predicate SoundForSigned(pred: Predicate, valueIsOp0: bool, constant: Constant)
    requires ValidConstant(constant) && pred != NE
  {
    forall v: nat :: v < Pow2(constant.width) && Satisfies(pred, valueIsOp0, constant, v) ==>
      Contains(DeriveConstraint(pred, valueIsOp0, constant).value, Signed(constant.width, v))
  }

  /** Swapping the operands of a comparison. */
  function Swapped(pred: Predicate): Predicate {
    match pred
    case EQ => EQ case NE => NE
    case UGT => ULT case UGE => ULE case ULT => UGT case ULE => UGE
    case SGT => SLT case SGE => SLE case SLT => SGT case SLE => SGE
  }

  /** "C pred V" is treated exactly as the swapped comparison with V on the left, and only "differs"
      bounds nothing. */
  lemma OperandOrderIsMirrored(pred: Predicate, constant: Constant, v: nat)
    requires ValidConstant(constant) && v < Pow2(constant.width)
    ensures DeriveConstraint(pred, false, constant) == DeriveConstraint(Swapped(pred), true, constant)
    ensures Satisfies(pred, false, constant, v) <==> Satisfies(Swapped(pred), true, constant, v)
    ensures DeriveConstraint(pred, false, constant).None? <==> pred == NE
  {
  }

  /** When the table is right for signed readings: always for signed comparisons and equality;
      upper bounds from unsigned ones need a constant up to 2^63; lower bounds need a constant
      whose 64-bit reading is negative, or no pattern beyond it (for >), because patterns with
      the top bit set pass the comparison and read as negative. */
  predicate TrustedAsSigned(pred: Predicate, valueIsOp0: bool, constant: Constant)
    requires 1 <= constant.width && constant.bits < Pow2(constant.width)
  {
    match if valueIsOp0 then pred else Swapped(pred)
    case ULT => constant.bits <= INT64_MAX + 1
    case ULE => constant.bits <= INT64_MAX
    case UGT => constant.bits >= INT64_MAX || constant.bits == Pow2(constant.width) - 1
    case UGE => constant.bits > INT64_MAX
    case _ => true
  }

  lemma ConstraintSoundExactlyWhen(pred: Predicate, valueIsOp0: bool, constant: Constant)
    requires ValidConstant(constant) && pred != NE
    ensures SoundForSigned(pred, valueIsOp0, constant) <==> TrustedAsSigned(pred, valueIsOp0, constant)
  {
    var p := if valueIsOp0 then pred else Swapped(pred);
    forall v: nat | v < Pow2(constant.width) {
      OperandOrderIsMirrored(pred, constant, v);
    }
    assert SoundForSigned(pred, valueIsOp0, constant) <==> SoundForSigned(p, true, constant);
    if TrustedAsSigned(p, true, constant) {
      forall v: nat | v < Pow2(constant.width) && Satisfies(p, true, constant, v)
        ensures Contains(DeriveConstraint(p, true, constant).value, Signed(constant.width, v))
      {
        TrustedKeeps(p, constant, v);
      }
    } else {
      UntrustedExcludes(p, constant);
    }
  }

  lemma TrustedKeeps(pred: Predicate, constant: Constant, v: nat)
    requires ValidConstant(constant) && v < Pow2(constant.width) && pred != NE
    requires TrustedAsSigned(pred, true, constant) && Satisfies(pred, true, constant, v)
    ensures Contains(DeriveConstraint(pred, true, constant).value, Signed(constant.width, v))
  {
    if pred in {UGT, UGE, ULT, ULE} {
      TrustedUnsignedKeeps(pred, constant, v);
    } else {
      WidthBounds(constant.width);
    }
  }

  lemma TrustedUnsignedKeeps(pred: Predicate, constant: Constant, v: nat)
    requires ValidConstant(constant) && v < Pow2(constant.width) && pred in {UGT, UGE, ULT, ULE}
    requires TrustedAsSigned(pred, true, constant) && Satisfies(pred, true, constant, v)
    ensures Contains(DeriveConstraint(pred, true, constant).value, Signed(constant.width, v))
  {
    WidthBounds(constant.width);
  }

  lemma UntrustedExcludes(pred: Predicate, constant: Constant)
    requires ValidConstant(constant) && pred != NE && !TrustedAsSigned(pred, true, constant)
    ensures !SoundForSigned(pred, true, constant)
  {
    WidthBounds(constant.width);
    // the wrongly excluded pattern: zero, or all ones
    var u := if pred == ULT || pred == ULE then 0 else Pow2(constant.width) - 1;
    assert Satisfies(pred, true, constant, u);
    assert !Contains(DeriveConstraint(pred, true, constant).value, Signed(constant.width, u));
  }

  /** The constraint contains exactly the values that pass, read as signed numbers. */
  ghost predicate ExactForSigned(pred: Predicate, valueIsOp0: bool, constant: Constant)
    requires ValidConstant(constant) && pred != NE
  {
    forall v: nat :: v < Pow2(constant.width) ==>
      (Satisfies(pred, valueIsOp0, constant, v) <==>
       Contains(DeriveConstraint(pred, valueIsOp0, constant).value, Signed(constant.width, v)))
  }

  /** The same, read as unsigned numbers. */
  ghost predicate ExactForUnsigned(pred: Predicate, valueIsOp0: bool, constant: Constant)
    requires ValidConstant(constant) && pred != NE
  {
    forall v: nat :: v < Pow2(constant.width) ==>
      (Satisfies(pred, valueIsOp0, constant, v) <==> Contains(DeriveConstraint(pred, valueIsOp0, constant).value, v))
  }

  /** For signed comparisons nothing is lost unless the step to the neighbouring value leaves
      the 64-bit range. */
  lemma SignedConstraintIsExact(pred: Predicate, valueIsOp0: bool, constant: Constant)
    requires ValidConstant(constant) && pred in {EQ, SGT, SGE, SLT, SLE}
    ensures ExactForSigned(pred, valueIsOp0, constant) <==>
            match if valueIsOp0 then pred else Swapped(pred)
            case SLT => SExt(constant) > INT64_MIN
            case SGT => SExt(constant) < INT64_MAX
            case _ => true
  {
    WidthBounds(constant.width);
    var p := if valueIsOp0 then pred else Swapped(pred);
    forall v: nat | v < Pow2(constant.width) {
      OperandOrderIsMirrored(pred, constant, v);
    }
    assert ExactForSigned(pred, valueIsOp0, constant) <==> ExactForSigned(p, true, constant);
    assert SExt(constant) == Signed(constant.width, constant.bits);
    assert Satisfies(p, true, constant, constant.bits) <==> p != SLT && p != SGT;
  }

  /** The bound an unsigned comparison gives fits the signed 64-bit field. */
  predicate BoundFits(pred: Predicate, bits: nat) {
    match pred
    case ULT => bits <= INT64_MAX + 1
    case UGT => bits < INT64_MAX
    case _ => bits <= INT64_MAX
  }

  /** Read as unsigned values, unsigned comparisons are captured exactly when the bound fits. */
  lemma UnsignedConstraintIsExact(pred: Predicate, valueIsOp0: bool, constant: Constant)
    requires ValidConstant(constant) && pred in {UGT, UGE, ULT, ULE}
    ensures ExactForUnsigned(pred, valueIsOp0, constant) <==>
            BoundFits(if valueIsOp0 then pred else Swapped(pred), constant.bits)
  {
    var p := if valueIsOp0 then pred else Swapped(pred);
    forall v: nat | v < Pow2(constant.width)
      ensures Satisfies(pred, valueIsOp0, constant, v) <==> Satisfies(p, true, constant, v)
      ensures DeriveConstraint(pred, valueIsOp0, constant) == DeriveConstraint(p, true, constant)
    {
      OperandOrderIsMirrored(pred, constant, v);
    }
    forall v: nat | v < Pow2(constant.width) && BoundFits(p, constant.bits)
      ensures Satisfies(p, true, constant, v) <==> Contains(DeriveConstraint(p, true, constant).value, v)
    {
      FittingBoundIsExact(p, constant, v);
    }
    if !BoundFits(p, constant.bits) {
      OutsizedBoundIsWrong(p, constant);
    }
  }

  lemma FittingBoundIsExact(pred: Predicate, constant: Constant, v: nat)
    requires ValidConstant(constant) && v < Pow2(constant.width)
    requires pred in {UGT, UGE, ULT, ULE} && BoundFits(pred, constant.bits)
    ensures Satisfies(pred, true, constant, v) <==> Contains(DeriveConstraint(pred, true, constant).value, v)
  {
    if constant.bits == INT64_MAX + 1 {
      WrapAbsorbs(constant.bits, -1);
    }
  }

  /** A bound that wraps gets the value zero wrong. */
  lemma OutsizedBoundIsWrong(pred: Predicate, constant: Constant)
    requires ValidConstant(constant) && pred in {UGT, UGE, ULT, ULE} && !BoundFits(pred, constant.bits)
    ensures Satisfies(pred, true, constant, 0) != Contains(DeriveConstraint(pred, true, constant).value, 0)
  {
    WidthBounds(constant.width);
    WrapsLow(constant.bits, if pred == ULT then -1 else if pred == UGT then 1 else 0);
  }

  lemma WrapsLow(x: int, y: int)
    requires INT64_MAX < x + y <= 0x1_0000_0000_0000_0000
    ensures Wrap64(Wrap64(x) + y) <= 0 && (x + y < 0x1_0000_0000_0000_0000 ==> Wrap64(Wrap64(x) + y) < 0)
  {
    WrapAbsorbs(x, y);
  }

  // computeIntRangesFromICmps

  type Value = nat

  /** A comparison of a value with a constant; slot is the address when the value is a load. */
  datatype Comparison = Comparison(value: Value, slot: Option<Value>, pred: Predicate, valueIsOp0: bool,
                                   constant: Constant)

  ghost predicate ValidComparisons(cmps: seq<Comparison>) {
    forall i :: 0 <= i < |cmps| ==> ValidConstant(cmps[i].constant)
  }

  /** Tightening a range by another; the same update serves applyConstraint and intersectRange. */
  function Intersect(target: IntRange, incoming: IntRange): IntRange {
    var withLower :=
      if incoming.hasLower && (!target.hasLower || incoming.lower > target.lower)
      then target.(hasLower := true, lower := incoming.lower) else target;
    if incoming.hasUpper && (!target.hasUpper || incoming.upper < target.upper)
    then withLower.(hasUpper := true, upper := incoming.upper) else withLower
  }

  const UNBOUNDED := IntRange(false, 0, false, 0)

  ghost predicate Constrains(cmp: Comparison, v: Value, c: IntRange)
    requires ValidConstant(cmp.constant)
  {
    (cmp.value == v || cmp.slot == Some(v)) && DeriveConstraint(cmp.pred, cmp.valueIsOp0, cmp.constant) == Some(c)
  }

  /** c is one of the constraints the comparisons put on v. */
  ghost predicate OneOf(cmps: seq<Comparison>, v: Value, c: IntRange)
    requires ValidComparisons(cmps)
  {
    exists i :: 0 <= i < |cmps| && Constrains(cmps[i], v, c)
  }

  /** r is the greatest lower bound of all constraints on v: the tightest bounds, each of them
      contributed by some constraint. */
  ghost predicate IsMeet(cmps: seq<Comparison>, v: Value, r: IntRange)
    requires ValidComparisons(cmps)
  {
    && Normal(r)
    && (forall c :: OneOf(cmps, v, c) && c.hasLower ==> r.hasLower && c.lower <= r.lower)
    && (forall c :: OneOf(cmps, v, c) && c.hasUpper ==> r.hasUpper && r.upper <= c.upper)
    && (r.hasLower ==> exists c :: OneOf(cmps, v, c) && c.hasLower && c.lower == r.lower)
    && (r.hasUpper ==> exists c :: OneOf(cmps, v, c) && c.hasUpper && c.upper == r.upper)
  }

  type Ranges = map<Value, IntRange>

  ghost predicate MeetsAll(cmps: seq<Comparison>, ranges: Ranges)
    requires ValidComparisons(cmps)
  {
    && (forall v :: v in ranges <==> exists c :: OneOf(cmps, v, c))
    && (forall v :: v in ranges ==> IsMeet(cmps, v, ranges[v]))
  }

  lemma OneMoreComparison(cmps: seq<Comparison>, cmp: Comparison, v: Value, c: IntRange)
    requires ValidComparisons(cmps) && ValidConstant(cmp.constant)
    ensures OneOf(cmps + [cmp], v, c) <==> OneOf(cmps, v, c) || Constrains(cmp, v, c)
  {
    if OneOf(cmps, v, c) {
      var i :| 0 <= i < |cmps| && Constrains(cmps[i], v, c);
      assert Constrains((cmps + [cmp])[i], v, c);
    }
    if Constrains(cmp, v, c) {
      assert Constrains((cmps + [cmp])[|cmps|], v, c);
    }
  }

  lemma MeetStep(cmps: seq<Comparison>, cmp: Comparison, v: Value, r: IntRange, c: IntRange)
    requires ValidComparisons(cmps) && ValidConstant(cmp.constant)
    requires IsMeet(cmps, v, r) || (r == UNBOUNDED && forall d :: !OneOf(cmps, v, d))
    requires Constrains(cmp, v, c)
    ensures IsMeet(cmps + [cmp], v, Intersect(r, c))
  {
    forall d ensures OneOf(cmps + [cmp], v, d) <==> OneOf(cmps, v, d) || d == c {
      OneMoreComparison(cmps, cmp, v, d);
    }
    var m := Intersect(r, c);
    if m.hasLower && !(r.hasLower && m.lower == r.lower) {
      assert OneOf(cmps + [cmp], v, c) && c.hasLower && c.lower == m.lower;
    }
    if m.hasUpper && !(r.hasUpper && m.upper == r.upper) {
      assert OneOf(cmps + [cmp], v, c) && c.hasUpper && c.upper == m.upper;
    }
  }

  lemma MeetUnaffected(cmps: seq<Comparison>, cmp: Comparison, v: Value, r: IntRange)
    requires ValidComparisons(cmps) && ValidConstant(cmp.constant)
    requires forall c :: !Constrains(cmp, v, c)
    ensures forall c :: OneOf(cmps + [cmp], v, c) <==> OneOf(cmps, v, c)
    ensures IsMeet(cmps, v, r) ==> IsMeet(cmps + [cmp], v, r)
  {
    forall c ensures OneOf(cmps + [cmp], v, c) <==> OneOf(cmps, v, c) {
      OneMoreComparison(cmps, cmp, v, c);
    }
  }

  /** applyConstraint; ranges[V] default-constructs a missing entry. */
  function ApplyConstraint(ranges: Ranges, v: Value, c: IntRange): Ranges {
    ranges[v := Intersect(if v in ranges then ranges[v] else UNBOUNDED, c)]
  }

  /** One comparison: constrain the value and, for a load, its slot. */
  function ApplyComparison(ranges: Ranges, cmp: Comparison): Ranges
    requires 1 <= cmp.constant.width && cmp.constant.bits < Pow2(cmp.constant.width)
  {
    match DeriveConstraint(cmp.pred, cmp.valueIsOp0, cmp.constant)
    case None => ranges
    case Some(c) =>
      var updated := ApplyConstraint(ranges, cmp.value, c);
      if cmp.slot.Some? then ApplyConstraint(updated, cmp.slot.value, c) else updated
  }

  lemma IntersectTwice(r: IntRange, c: IntRange)
    ensures Intersect(Intersect(r, c), c) == Intersect(r, c)
  {
  }

  lemma ComparisonStep(cmps: seq<Comparison>, cmp: Comparison, ranges: Ranges)
    requires ValidComparisons(cmps) && ValidConstant(cmp.constant)
    requires MeetsAll(cmps, ranges)
    ensures MeetsAll(cmps + [cmp], ApplyComparison(ranges, cmp))
  {
    var after := ApplyComparison(ranges, cmp);
    forall v
      ensures v in after <==> exists c :: OneOf(cmps + [cmp], v, c)
      ensures v in after ==> IsMeet(cmps + [cmp], v, after[v])
    {
      ValueStep(cmps, cmp, ranges, v);
    }
  }

  lemma ValueStep(cmps: seq<Comparison>, cmp: Comparison, ranges: Ranges, v: Value)
    requires ValidComparisons(cmps) && ValidConstant(cmp.constant)
    requires MeetsAll(cmps, ranges)
    ensures var after := ApplyComparison(ranges, cmp);
      && (v in after <==> exists c :: OneOf(cmps + [cmp], v, c))
      && (v in after ==> IsMeet(cmps + [cmp], v, after[v]))
  {
    var after := ApplyComparison(ranges, cmp);
    var derived := DeriveConstraint(cmp.pred, cmp.valueIsOp0, cmp.constant);
    if derived.Some? && (cmp.value == v || cmp.slot == Some(v)) {
      var c := derived.value;
      var r := if v in ranges then ranges[v] else UNBOUNDED;
      IntersectTwice(r, c);
      assert after[v] == Intersect(r, c);
      MeetStep(cmps, cmp, v, r, c);
      OneMoreComparison(cmps, cmp, v, c);
    } else {
      assert v in ranges ==> after[v] == ranges[v];
      MeetUnaffected(cmps, cmp, v, if v in ranges then ranges[v] else UNBOUNDED);
    }
  }

  /** computeIntRangesFromICmps: every compared value, and every slot a compared value was
      loaded from, gets the meet of all its constraints. */
  method ComputeIntRanges(cmps: seq<Comparison>) returns (ranges: Ranges)
    requires ValidComparisons(cmps)
    ensures MeetsAll(cmps, ranges)
  {
    ranges := map[];
    for i := 0 to |cmps|
      invariant MeetsAll(cmps[..i], ranges)
    {
      ComparisonStep(cmps[..i], cmps[i], ranges);
      assert cmps[..i] + [cmps[i]] == cmps[..i + 1];
      ranges := ApplyComparison(ranges, cmps[i]);
    }
    assert cmps[..|cmps|] == cmps;
  }

  /** A meet contains exactly the values all constraints allow. */
  lemma MeetContains(cmps: seq<Comparison>, v: Value, r: IntRange, x: int)
    requires ValidComparisons(cmps) && IsMeet(cmps, v, r)
    ensures Contains(r, x) <==> forall c :: OneOf(cmps, v, c) ==> Contains(c, x)
  {
  }

  /** The table depends only on which comparisons occur, not on their order or repetition. */
  lemma InstructionOrderIsIrrelevant(cmps: seq<Comparison>, cmps': seq<Comparison>, ranges: Ranges, ranges': Ranges)
    requires ValidComparisons(cmps) && ValidComparisons(cmps')
    requires forall cmp :: cmp in cmps <==> cmp in cmps'
    requires MeetsAll(cmps, ranges) && MeetsAll(cmps', ranges')
    ensures ranges == ranges'
  {
    forall v ensures SameAt(ranges, ranges', v) {
      forall c ensures OneOf(cmps, v, c) <==> OneOf(cmps', v, c) {
        SameConstraints(cmps, cmps', v, c);
        SameConstraints(cmps', cmps, v, c);
      }
      SameEntry(cmps, cmps', ranges, ranges', v);
    }
    SameTables(ranges, ranges');
  }

  ghost predicate SameAt(ranges: Ranges, ranges': Ranges, v: Value) {
    (v in ranges <==> v in ranges') && (v in ranges ==> ranges[v] == ranges'[v])
  }

  lemma SameTables(ranges: Ranges, ranges': Ranges)
    requires forall v :: SameAt(ranges, ranges', v)
    ensures ranges == ranges'
  {
    assert forall v :: v in ranges ==> SameAt(ranges, ranges', v);
    assert forall v :: v in ranges' ==> SameAt(ranges, ranges', v);
  }

  lemma SameEntry(cmps: seq<Comparison>, cmps': seq<Comparison>, ranges: Ranges, ranges': Ranges, v: Value)
    requires ValidComparisons(cmps) && ValidComparisons(cmps')
    requires forall c :: OneOf(cmps, v, c) <==> OneOf(cmps', v, c)
    requires MeetsAll(cmps, ranges) && MeetsAll(cmps', ranges')
    ensures SameAt(ranges, ranges', v)
  {
    if v in ranges {
      MeetUnique(cmps, cmps', v, ranges[v], ranges'[v]);
    }
  }

  lemma SameConstraints(cmps: seq<Comparison>, cmps': seq<Comparison>, v: Value, c: IntRange)
    requires ValidComparisons(cmps) && ValidComparisons(cmps')
    requires forall cmp :: cmp in cmps ==> cmp in cmps'
    ensures OneOf(cmps, v, c) ==> OneOf(cmps', v, c)
  {
    if OneOf(cmps, v, c) {
      var i :| 0 <= i < |cmps| && Constrains(cmps[i], v, c);
      assert cmps[i] in cmps';
      var j :| 0 <= j < |cmps'| && cmps'[j] == cmps[i];
    }
  }

  lemma MeetUnique(cmps: seq<Comparison>, cmps': seq<Comparison>, v: Value, r: IntRange, r': IntRange)
    requires ValidComparisons(cmps) && ValidComparisons(cmps')
    requires forall c :: OneOf(cmps, v, c) <==> OneOf(cmps', v, c)
    requires IsMeet(cmps, v, r) && IsMeet(cmps', v, r')
    ensures r == r'
  {
  }

  // The range at an access site

  function Inverse(pred: Predicate): Predicate {
    match pred
    case EQ => NE case NE => EQ
    case UGT => ULE case UGE => ULT case ULT => UGE case ULE => UGT
    case SGT => SLE case SGE => SLT case SLT => SGE case SLE => SGT
  }

  /** deriveIncomingEdgeRange for a matched comparison; neLoopRange is what the "!=" loop
      heuristic offers. */
  function EdgeRange(pred: Predicate, valueIsOp0: bool, constant: Constant, takesTrueEdge: bool,
                     neLoopRange: Option<IntRange>): Option<IntRange>
    requires 1 <= constant.width && constant.bits < Pow2(constant.width)
  {
    var applied := if takesTrueEdge then pred else Inverse(pred);
    match DeriveConstraint(applied, valueIsOp0, constant)
    case Some(r) => Some(r)
    case None => if applied == NE && takesTrueEdge then neLoopRange else None
  }

  predicate IsEmpty(r: IntRange) {
    r.hasLower && r.hasUpper && r.lower > r.upper
  }

  /** refineRangeForAccessSite. */
  function RefineRange(coarse: IntRange, incoming: Option<IntRange>): IntRange {
    match incoming
    case None => coarse
    case Some(edge) =>
      var refined := Intersect(coarse, edge);
      if IsEmpty(refined) then edge else refined
  }

  lemma IntersectContains(a: IntRange, b: IntRange, x: int)
    ensures Contains(Intersect(a, b), x) <==> Contains(a, x) && Contains(b, x)
  {
  }

  lemma EmptyContainsNothing(r: IntRange)
    ensures IsEmpty(r) <==> forall x :: !Contains(r, x)
  {
    if !IsEmpty(r) {
      assert Contains(r, if r.hasLower then r.lower else r.upper);
    }
  }

  /** On the edge taken, the comparison's outcome bounds the value. */
  lemma EdgeRangeIsSound(pred: Predicate, valueIsOp0: bool, constant: Constant, takesTrueEdge: bool, v: nat)
    requires ValidConstant(constant) && v < Pow2(constant.width)
    requires Satisfies(pred, valueIsOp0, constant, v) == takesTrueEdge
    requires TrustedAsSigned(if takesTrueEdge then pred else Inverse(pred), valueIsOp0, constant)
    ensures var r := EdgeRange(pred, valueIsOp0, constant, takesTrueEdge, None);
      r.Some? ==> Contains(r.value, Signed(constant.width, v))
  {
    var applied := if takesTrueEdge then pred else Inverse(pred);
    assert Satisfies(applied, valueIsOp0, constant, v);
    if applied != NE {
      ConstraintSoundExactlyWhen(applied, valueIsOp0, constant);
      assert SoundForSigned(applied, valueIsOp0, constant);
    }
  }

  /** The edge leaves every value but one. */
  predicate OnlyDiffers(pred: Predicate, takesTrueEdge: bool) {
    if takesTrueEdge then pred == NE else pred == EQ
  }

  /** The comparison separates signed values, or whether there is just one; no step to a
      neighbouring value leaves the 64-bit range. */
  predicate CutsSigned(pred: Predicate, constant: Constant)
    requires 1 <= constant.width && constant.bits < Pow2(constant.width)
  {
    pred in {EQ, NE, SGT, SGE, SLT, SLE} && INT64_MIN < SExt(constant) < INT64_MAX
  }

  /** There is no range exactly where the edge rules out a single value; on the true edge of
      "differs" the loop heuristic is asked. For signed comparisons the range holds exactly the
      values that take the edge. */
  lemma EdgeRangeIsExact(pred: Predicate, valueIsOp0: bool, constant: Constant, takesTrueEdge: bool,
                         neLoopRange: Option<IntRange>)
    requires ValidConstant(constant)
    ensures var r := EdgeRange(pred, valueIsOp0, constant, takesTrueEdge, neLoopRange);
      && (OnlyDiffers(pred, takesTrueEdge) ==> r == if takesTrueEdge then neLoopRange else None)
      && (!OnlyDiffers(pred, takesTrueEdge) ==> r.Some?)
      && (!OnlyDiffers(pred, takesTrueEdge) && CutsSigned(pred, constant) ==>
            forall v: nat :: v < Pow2(constant.width) ==>
              ((Satisfies(pred, valueIsOp0, constant, v) == takesTrueEdge) <==>
               Contains(r.value, Signed(constant.width, v))))
  {
    var applied := if takesTrueEdge then pred else Inverse(pred);
    OperandOrderIsMirrored(applied, constant, constant.bits);
    forall v: nat | v < Pow2(constant.width)
      ensures Satisfies(applied, valueIsOp0, constant, v) <==>
              Satisfies(pred, valueIsOp0, constant, v) == takesTrueEdge
    {
    }
    if !OnlyDiffers(pred, takesTrueEdge) && CutsSigned(pred, constant) {
      SignedConstraintIsExact(applied, valueIsOp0, constant);
      assert ExactForSigned(applied, valueIsOp0, constant);
    }
  }

  /** Without an edge range nothing is refined. With one, the refined range stays within it, is empty
      only if that is, and keeps every value both inputs allow. */
  lemma RefinedRange(coarse: IntRange, edge: IntRange)
    ensures RefineRange(coarse, None) == coarse
    ensures forall x :: Contains(RefineRange(coarse, Some(edge)), x) ==> Contains(edge, x)
    ensures forall x :: Contains(coarse, x) && Contains(edge, x) ==> Contains(RefineRange(coarse, Some(edge)), x)
    ensures !IsEmpty(edge) ==> !IsEmpty(RefineRange(coarse, Some(edge)))
  {
    forall x ensures Contains(RefineRange(coarse, Some(edge)), x) ==> Contains(edge, x) {
      IntersectContains(coarse, edge, x);
    }
    forall x | Contains(coarse, x) && Contains(edge, x) ensures Contains(RefineRange(coarse, Some(edge)), x) {
      IntersectContains(coarse, edge, x);
      EmptyContainsNothing(Intersect(coarse, edge));
    }
  }

  /** No value possible on the edge is lost exactly when the coarse range covers the edge range
      or contradicts it altogether. */
  lemma RefinementKeepsEdgeExactlyWhen(coarse: IntRange, edge: IntRange)
    ensures (forall x :: Contains(edge, x) ==> Contains(RefineRange(coarse, Some(edge)), x)) <==>
            (forall x :: Contains(edge, x) ==> Contains(coarse, x)) ||
            (forall x :: !(Contains(coarse, x) && Contains(edge, x)))
  {
    EmptyContainsNothing(Intersect(coarse, edge));
    forall x ensures Contains(Intersect(coarse, edge), x) <==> Contains(coarse, x) && Contains(edge, x) {
      IntersectContains(coarse, edge, x);
    }
  }
}
