/** Which subobject the projection search settles on, and so which projections are accepted: in a
    layout whose members do not overlap, the largest one at the queried offset. */
module LargestSubobject {
  import opened Options
  import opened MachineInt
  import opened SubobjectBounds

  /** No two members of a struct share a byte, at any depth. */
  ghost predicate NoOverlap(ty: Type) {
    match ty
    case Scalar(_, _) => true
    case Array(element, _) => NoOverlap(element)
    case Struct(_, members, _) =>
      && (forall i :: 0 <= i < |members| ==> NoOverlap(members[i].ty))
      && forall i, j :: 0 <= i < j < |members| ==> Apart(members[i], members[j])
  }

  ghost predicate Apart(m: Member, m': Member) {
    AllocSize(m.ty).Some? && AllocSize(m'.ty).Some? ==>
      m.offset + AllocSize(m.ty).value <= m'.offset || m'.offset + AllocSize(m'.ty).value <= m.offset
  }

  ghost predicate Within(b: Bounds, outer: Bounds) {
    outer.begin <= b.begin && b.end <= outer.end
  }

  ghost predicate HoldsQuery(m: Member, base: nat, query: nat) {
    AllocSize(m.ty).Some? && base + m.offset <= query < base + m.offset + AllocSize(m.ty).value
  }

  lemma OneMemberHolds(ty: Type, i: nat, j: nat, base: nat, query: nat)
    requires NoOverlap(ty) && ty.Struct? && i < |ty.members| && j < |ty.members|
    requires HoldsQuery(ty.members[i], base, query) && HoldsQuery(ty.members[j], base, query)
    ensures i == j
  {
  }

  lemma ObjectInElement(ty: Type, base: nat, source: Type, query: nat, b: Bounds, n: nat) returns (k: nat)
    requires Wellformed(ty) && RealSubobject(ty, base, source, query, b) && ty.Array?
    requires ObjectAt(ty, base, source, query, b, n) && n > 0
    ensures AllocSize(ty.element).Some? && k < ty.count
    ensures RealSubobject(ty.element, ElementBase(ty, base, k), source, query, b)
  {
    k :| k < ty.count && Occurs(ty.element, ElementBase(ty, base, k), source, b.begin, n - 1);
    OccursInside(ty.element, ElementBase(ty, base, k), source, b.begin, n - 1);
    assert ObjectAt(ty.element, ElementBase(ty, base, k), source, query, b, n - 1);
  }

  lemma ArrayInElement(ty: Type, base: nat, source: Type, query: nat, b: Bounds, n: nat, count: nat) returns (k: nat)
    requires Wellformed(ty) && RealSubobject(ty, base, source, query, b) && ty.Array?
    requires ArrayAt(ty, base, source, query, b, n, count) && n > 0
    ensures AllocSize(ty.element).Some? && k < ty.count
    ensures RealSubobject(ty.element, ElementBase(ty, base, k), source, query, b)
  {
    k :| k < ty.count && Occurs(ty.element, ElementBase(ty, base, k), Array(source, count), b.begin, n - 1);
    OccursInside(ty.element, ElementBase(ty, base, k), Array(source, count), b.begin, n - 1);
    assert ArrayAt(ty.element, ElementBase(ty, base, k), source, query, b, n - 1, count);
  }

  lemma ObjectInMember(ty: Type, base: nat, source: Type, query: nat, b: Bounds, n: nat) returns (i: nat)
    requires Wellformed(ty) && RealSubobject(ty, base, source, query, b) && ty.Struct?
    requires ObjectAt(ty, base, source, query, b, n) && n > 0
    ensures i < |ty.members| && RealSubobject(ty.members[i].ty, base + ty.members[i].offset, source, query, b)
  {
    i :| i < |ty.members| && Occurs(ty.members[i].ty, base + ty.members[i].offset, source, b.begin, n - 1);
    OccursInside(ty.members[i].ty, base + ty.members[i].offset, source, b.begin, n - 1);
    assert ObjectAt(ty.members[i].ty, base + ty.members[i].offset, source, query, b, n - 1);
  }

  lemma ArrayInMember(ty: Type, base: nat, source: Type, query: nat, b: Bounds, n: nat, count: nat) returns (i: nat)
    requires Wellformed(ty) && RealSubobject(ty, base, source, query, b) && ty.Struct?
    requires ArrayAt(ty, base, source, query, b, n, count) && n > 0
    ensures i < |ty.members| && RealSubobject(ty.members[i].ty, base + ty.members[i].offset, source, query, b)
  {
    i :| i < |ty.members| &&
      Occurs(ty.members[i].ty, base + ty.members[i].offset, Array(source, count), b.begin, n - 1);
    OccursInside(ty.members[i].ty, base + ty.members[i].offset, Array(source, count), b.begin, n - 1);
    assert ArrayAt(ty.members[i].ty, base + ty.members[i].offset, source, query, b, n - 1, count);
  }

  /** The whole of ty is not itself a subobject at the query. */
  ghost predicate NotItself(ty: Type, base: nat, source: Type, query: nat) {
    !(ty == source && query == base) &&
    !(ty.Array? && ty.element == source && AllocSize(source).Some? && AllocSize(source).value > 0 &&
      base <= query && (query - base) % AllocSize(source).value == 0)
  }

  /** A real subobject other than the whole lies in one of the parts. */
  lemma LiesInPart(ty: Type, base: nat, source: Type, query: nat, b: Bounds) returns (k: nat)
    requires Wellformed(ty) && RealSubobject(ty, base, source, query, b) && NotItself(ty, base, source, query)
    ensures !ty.Scalar?
    ensures ty.Array? ==> AllocSize(ty.element).Some? && k < ty.count &&
                          RealSubobject(ty.element, ElementBase(ty, base, k), source, query, b)
    ensures ty.Struct? ==> k < |ty.members| &&
                           RealSubobject(ty.members[k].ty, base + ty.members[k].offset, source, query, b)
  {
    if n: nat :| ObjectAt(ty, base, source, query, b, n) {
      if ty.Array? {
        k := ObjectInElement(ty, base, source, query, b, n);
      } else if ty.Struct? {
        k := ObjectInMember(ty, base, source, query, b, n);
      }
    } else {
      var n: nat, count: nat :| ArrayAt(ty, base, source, query, b, n, count);
      if ty.Array? {
        k := ArrayInElement(ty, base, source, query, b, n, count);
      } else if ty.Struct? {
        k := ArrayInMember(ty, base, source, query, b, n, count);
      }
    }
  }

  /** The member is of the source type with the query at its start, or an array of that type with the
      query at an element boundary. */
  ghost predicate IsWholeMember(ty: Type, i: nat, source: Type, base: nat, query: nat)
    requires ty.Struct? && i < |ty.members| && HoldsQuery(ty.members[i], base, query)
  {
    var member := ty.members[i];
    || (member.ty == source && query == base + member.offset)
    || IsElementBoundary(member.ty, source, AllocSize(member.ty).value, query - (base + member.offset))
  }

  /** The search in a member, in exact arithmetic. */
  lemma MemberSearch(ty: Type, i: nat, source: Type, base: nat, query: nat, depth: nat)
    requires Wellformed(ty) && ty.Struct? && i < |ty.members| && AllocSize(ty).Some?
    requires base + AllocSize(ty).value <= UINT64_MAX
    ensures var member := ty.members[i]; var found := FindInMember(ty, i, source, base, query, depth);
      if !HoldsQuery(member, base, query) then found == None
      else if IsWholeMember(ty, i, source, base, query) then
        found == Some(Bounds(base + member.offset, base + member.offset + AllocSize(member.ty).value))
      else found == FindProjectionBounds(member.ty, source, base + member.offset, query, depth + 1)
  {
    var member := ty.members[i];
    if AllocSize(member.ty).Some? {
      SmallSums(base, member.offset);
      SmallSums(base + member.offset, AllocSize(member.ty).value);
    }
  }

  /** Every real subobject at the query lies within the one found. */
  lemma {:induction false} FoundIsLargest(
    current: Type, source: Type, base: nat, query: nat, depth: nat, b: Bounds)
    requires Wellformed(current) && NoOverlap(current)
    requires FindProjectionBounds(current, source, base, query, depth).Some?
    requires RealSubobject(current, base, source, query, b)
    ensures Within(b, FindProjectionBounds(current, source, base, query, depth).value)
    decreases current, 1, 0
  {
    SmallSums(base, AllocSize(current).value);
    if current == source && query == base {
    } else if current.Array? {
      ElementIsLargest(current, source, base, query, depth, b);
    } else {
      MemberIsLargest(current, 0, source, base, query, depth, b);
    }
  }

  lemma {:induction false} ElementIsLargest(
    current: Type, source: Type, base: nat, query: nat, depth: nat, b: Bounds)
    requires Wellformed(current) && NoOverlap(current) && current.Array?
    requires !(current == source && query == base) && depth <= MAX_DEPTH
    requires AllocSize(current.element).Some? && AllocSize(current.element).value > 0
    requires base <= query < base + AllocSize(current).value <= UINT64_MAX
    requires FindProjectionBounds(current, source, base, query, depth).Some?
    requires RealSubobject(current, base, source, query, b)
    ensures Within(b, FindProjectionBounds(current, source, base, query, depth).value)
    decreases current, 0, 0
  {
    ArraySearch(current, source, base, query, depth);
    if !IsElementBoundary(current, source, AllocSize(current).value, query - base) {
      var k := LiesInPart(current, base, source, query, b);
      InElement(current, base, query, k);
      FoundIsLargest(current.element, source, ElementBase(current, base, k), query, depth + 1, b);
    }
  }

  /** The member in which something is found is the one that holds every real subobject. */
  lemma FoundMemberHolds(ty: Type, i: nat, source: Type, base: nat, query: nat, depth: nat, b: Bounds)
    requires Wellformed(ty) && NoOverlap(ty) && ty.Struct? && i < |ty.members| && AllocSize(ty).Some?
    requires base + AllocSize(ty).value <= UINT64_MAX && !(ty == source && query == base)
    requires FindInMember(ty, i, source, base, query, depth).Some?
    requires RealSubobject(ty, base, source, query, b)
    ensures HoldsQuery(ty.members[i], base, query)
    ensures RealSubobject(ty.members[i].ty, base + ty.members[i].offset, source, query, b)
    ensures var found := FindInMember(ty, i, source, base, query, depth);
      if IsWholeMember(ty, i, source, base, query) then Within(b, found.value)
      else found == FindProjectionBounds(ty.members[i].ty, source, base + ty.members[i].offset, query, depth + 1)
  {
    MemberSearch(ty, i, source, base, query, depth);
    var k := LiesInPart(ty, base, source, query, b);
    OneMemberHolds(ty, i, k, base, query);
  }

  lemma {:induction false} MemberIsLargest(
    current: Type, i: nat, source: Type, base: nat, query: nat, depth: nat, b: Bounds)
    requires Wellformed(current) && NoOverlap(current) && current.Struct? && AllocSize(current).Some?
    requires i <= |current.members| && !(current == source && query == base)
    requires base + AllocSize(current).value <= UINT64_MAX
    requires FindInMembers(current, i, source, base, query, depth).Some?
    requires RealSubobject(current, base, source, query, b)
    ensures Within(b, FindInMembers(current, i, source, base, query, depth).value)
    decreases current, 0, |current.members| - i
  {
    if FindInMember(current, i, source, base, query, depth).None? {
      MemberIsLargest(current, i + 1, source, base, query, depth, b);
    } else {
      FoundMemberHolds(current, i, source, base, query, depth, b);
      if !IsWholeMember(current, i, source, base, query) {
        FoundIsLargest(current.members[i].ty, source, base + current.members[i].offset, query, depth + 1, b);
      }
    }
  }

  /** b is a real subobject at the query and every other one lies within it. */
  ghost predicate Largest(ty: Type, source: Type, query: nat, b: Bounds) {
    RealSubobject(ty, 0, source, query, b) &&
    forall other :: RealSubobject(ty, 0, source, query, other) ==> Within(other, b)
  }

  /** A non-empty source-typed object sits there at most thirteen levels deep, or fourteen deep as an
      element of a struct's array member. */
  ghost predicate NearEnough(ty: Type, source: Type, query: nat) {
    AllocSize(source).Some? && AllocSize(source).value > 0 && Near(ty, 0, source, query, 13)
  }

  /** In every layout without overlap a projection is accepted if and only if both offsets lie in
      the allocation, a source-typed object sits at the origin within the depth limit, and the largest
      subobject there ends inside the allocation and contains the result. */
  lemma AcceptedExactlyWhen(originOffset: int, resultOffset: int, allocaType: Type, allocaSize: nat, source: Type)
    requires Wellformed(allocaType) && NoOverlap(allocaType)
    ensures ProjectionStaysInside(originOffset, resultOffset, allocaType, allocaSize, source) <==>
            && 0 <= originOffset < allocaSize && 0 <= resultOffset < allocaSize
            && NearEnough(allocaType, source, originOffset)
            && exists b :: Largest(allocaType, source, originOffset, b) &&
                           b.begin <= resultOffset < b.end <= allocaSize
  {
    if 0 <= originOffset < allocaSize && 0 <= resultOffset < allocaSize && AllocSize(allocaType).Some? {
      SearchIsExact(allocaType, source, originOffset);
      if FindProjectionBounds(allocaType, source, 0, originOffset, 0).Some? {
        var found := FindProjectionBounds(allocaType, source, 0, originOffset, 0).value;
        FoundIsTheLargest(allocaType, source, originOffset, found);
        forall b | Largest(allocaType, source, originOffset, b) ensures b == found {
          assert Within(b, found) && Within(found, b);
        }
      }
    }
  }

  lemma FoundIsTheLargest(ty: Type, source: Type, query: nat, found: Bounds)
    requires Wellformed(ty) && NoOverlap(ty)
    requires FindProjectionBounds(ty, source, 0, query, 0) == Some(found)
    ensures Largest(ty, source, query, found)
  {
    SearchIsSound(ty, source, 0, query, 0);
    forall other | RealSubobject(ty, 0, source, query, other) ensures Within(other, found) {
      FoundIsLargest(ty, source, 0, query, 0, other);
    }
  }
}
