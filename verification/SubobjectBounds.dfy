/** The search for the subobject a pointer projection stays inside, over nested array and
    struct layouts with 64-bit unsigned arithmetic. */
module SubobjectBounds {
  import opened Options
  import opened MachineInt

  const MAX_DEPTH: nat := 12

  function Add64(x: nat, y: nat): nat {
    (x + y) % (UINT64_MAX + 1)
  }

  function Mul64(x: nat, y: nat): nat {
    (x * y) % (UINT64_MAX + 1)
  }

  function Quotient(x: nat, y: nat): nat
    requires y > 0
  {
    x / y
  }

  predicate IsMultiple(x: nat, y: nat)
    requires y > 0
  {
    x % y == 0
  }

  // Layouts

  datatype Member = Member(offset: nat, ty: Type)

  /** A size of None stands for a scalable type. Types are compared as LLVM compares uniqued
      types: structs by name and body, everything else by structure. */
  datatype Type =
    | Scalar(name: string, size: Option<nat>)
    | Array(element: Type, count: nat)
    | Struct(name: string, members: seq<Member>, structSize: Option<nat>)

  function AllocSize(ty: Type): Option<nat> {
    match ty
    case Scalar(_, size) => size
    case Array(element, count) =>
      (match AllocSize(element)
       case None => None
       case Some(n) => Some(n * count))
    case Struct(_, _, size) => size
  }

  /** Sizes fit 64 bits and members lie inside their struct. */
  ghost predicate Wellformed(ty: Type) {
    && (AllocSize(ty).Some? ==> AllocSize(ty).value <= UINT64_MAX)
    && match ty
       case Scalar(_, _) => true
       case Array(element, _) => Wellformed(element)
       case Struct(_, members, size) =>
         forall i :: 0 <= i < |members| ==>
           && Wellformed(members[i].ty)
           && members[i].offset <= UINT64_MAX
           && (size.Some? && AllocSize(members[i].ty).Some? ==>
                 members[i].offset + AllocSize(members[i].ty).value <= size.value)
  }

  /** An object of type sub sits at address a, n levels inside an object of type ty at base. */
  ghost predicate Occurs(ty: Type, base: nat, sub: Type, a: nat, n: nat)
    decreases n
  {
    AllocSize(ty).Some? &&
    if n == 0 then ty == sub && a == base
    else
      match ty
      case Scalar(_, _) => false
      case Array(element, count) =>
        AllocSize(element).Some? &&
        exists k: nat :: k < count && Occurs(element, ElementBase(ty, base, k), sub, a, n - 1)
      case Struct(_, members, _) =>
        exists i: nat :: i < |members| && Occurs(members[i].ty, base + members[i].offset, sub, a, n - 1)
  }

  ghost function ElementBase(ty: Type, base: nat, k: nat): nat
    requires ty.Array? && AllocSize(ty.element).Some?
  {
    base + k * AllocSize(ty.element).value
  }

  // The search

  datatype Bounds = Bounds(begin: nat, end: nat)

  function FindProjectionBounds(current: Type, source: Type, base: nat, query: nat, depth: nat): Option<Bounds>
    decreases current, 1, 0
  {
    if depth > MAX_DEPTH || AllocSize(current).None? then None else
    var currentSize := AllocSize(current).value;
    if currentSize > UINT64_MAX || base > UINT64_MAX - currentSize then None else
    var currentEnd := Add64(base, currentSize);
    if query < base || query >= currentEnd then None
    else if current == source && query == base then Some(Bounds(base, currentEnd))
    else
      match current
      case Scalar(_, _) => None
      case Array(element, count) =>
        if AllocSize(element).None? || AllocSize(element).value == 0 then None else
        var elementSize := AllocSize(element).value;
        if count > Quotient(UINT64_MAX, elementSize) then None else
        var span := Mul64(elementSize, count);
        if query < base || query >= Add64(base, span) then None else
        var rel := query - base;
        if element == source && IsMultiple(rel, elementSize) then Some(Bounds(base, Add64(base, span))) else
        var index := Quotient(rel, elementSize);
        if index >= count then None else
        FindProjectionBounds(element, source, Add64(base, Mul64(index, elementSize)), query, depth + 1)
      case Struct(_, members, _) =>
        FindInMembers(current, 0, source, base, query, depth)
  }

  /** The member loop, from member i on. */
  function FindInMembers(current: Type, i: nat, source: Type, base: nat, query: nat, depth: nat): Option<Bounds>
    requires current.Struct? && i <= |current.members|
    decreases current, 0, |current.members| - i
  {
    if i == |current.members| then None
    else
      var found := FindInMember(current, i, source, base, query, depth);
      if found.Some? then found else FindInMembers(current, i + 1, source, base, query, depth)
  }

  function FindInMember(current: Type, i: nat, source: Type, base: nat, query: nat, depth: nat): Option<Bounds>
    requires current.Struct? && i < |current.members|
    decreases current, 0, 0
  {
    var member := current.members[i];
    if AllocSize(member.ty).None? then None else
    var memberSize := AllocSize(member.ty).value;
    if member.offset > UINT64_MAX || base > UINT64_MAX - member.offset then None else
    var memberBase := Add64(base, member.offset);
    if memberSize > UINT64_MAX || memberBase > UINT64_MAX - memberSize then None else
    var memberEnd := Add64(memberBase, memberSize);
    if query < memberBase || query >= memberEnd then None
    else if member.ty == source && query == memberBase then Some(Bounds(memberBase, memberEnd))
    else if IsElementBoundary(member.ty, source, memberSize, query - memberBase) then
      Some(Bounds(memberBase, memberEnd))
    else FindProjectionBounds(member.ty, source, memberBase, query, depth + 1)
  }

  predicate IsElementBoundary(ty: Type, source: Type, size: nat, rel: nat) {
    && ty.Array? && ty.element == source
    && AllocSize(source).Some? && AllocSize(source).value > 0
    && rel < size && IsMultiple(rel, AllocSize(source).value)
  }

  // Soundness

  ghost predicate ObjectAt(ty: Type, base: nat, source: Type, query: nat, b: Bounds, n: nat)
    requires AllocSize(source).Some?
  {
    Occurs(ty, base, source, b.begin, n) && b.begin == query && b.end == b.begin + AllocSize(source).value
  }

  ghost predicate ArrayAt(ty: Type, base: nat, source: Type, query: nat, b: Bounds, n: nat, count: nat)
    requires AllocSize(source).Some?
  {
    && Occurs(ty, base, Array(source, count), b.begin, n)
    && b.end == b.begin + AllocSize(Array(source, count)).value
    && b.begin <= query && AllocSize(source).value > 0 && (query - b.begin) % AllocSize(source).value == 0
  }

  /** The bounds are those of a real subobject: a source-typed object at the query, or an array
      of source-typed elements with the query at an element boundary. */
  ghost predicate RealSubobject(ty: Type, base: nat, source: Type, query: nat, b: Bounds) {
    && AllocSize(ty).Some? && base <= b.begin <= query < b.end <= base + AllocSize(ty).value
    && AllocSize(source).Some?
    && ((exists n: nat :: ObjectAt(ty, base, source, query, b, n)) ||
        (exists n: nat, count: nat :: ArrayAt(ty, base, source, query, b, n, count)))
  }

  lemma SmallSums(x: nat, y: nat)
    requires x + y <= UINT64_MAX
    ensures Add64(x, y) == x + y
  {
  }

  lemma MulMonotone(x: nat, y: nat, z: nat)
    ensures x <= y ==> x * z <= y * z
  {
    if x <= y {
      assert (y - x) * z == y * z - x * z;
    }
  }

  lemma OneMore(k: nat, size: nat)
    ensures (k + 1) * size == k * size + size
  {
  }

  lemma ElementIndex(rel: nat, size: nat, count: nat)
    requires size > 0 && rel < size * count
    ensures rel / size < count && rel / size * size <= rel && rel == rel / size * size + rel % size
  {
    MulMonotone(count, rel / size, size);
  }

  lemma ElementFits(ty: Type, base: nat, k: nat)
    requires ty.Array? && AllocSize(ty.element).Some? && k < ty.count
    ensures base <= ElementBase(ty, base, k)
    ensures ElementBase(ty, base, k) + AllocSize(ty.element).value <= base + AllocSize(ty).value
  {
    var size := AllocSize(ty.element).value;
    MulMonotone(k + 1, ty.count, size);
    OneMore(k, size);
  }

  lemma LiftElement(ty: Type, base: nat, k: nat, source: Type, query: nat, b: Bounds)
    requires ty.Array? && AllocSize(ty.element).Some? && k < ty.count
    requires RealSubobject(ty.element, ElementBase(ty, base, k), source, query, b)
    ensures RealSubobject(ty, base, source, query, b)
  {
    ElementFits(ty, base, k);
    var eb := ElementBase(ty, base, k);
    if n: nat :| ObjectAt(ty.element, eb, source, query, b, n) {
      assert ObjectAt(ty, base, source, query, b, n + 1);
    } else {
      var n: nat, count: nat :| ArrayAt(ty.element, eb, source, query, b, n, count);
      assert ArrayAt(ty, base, source, query, b, n + 1, count);
    }
  }

  lemma LiftMember(ty: Type, base: nat, i: nat, source: Type, query: nat, b: Bounds)
    requires Wellformed(ty) && ty.Struct? && i < |ty.members| && AllocSize(ty).Some?
    requires RealSubobject(ty.members[i].ty, base + ty.members[i].offset, source, query, b)
    ensures RealSubobject(ty, base, source, query, b)
  {
    var mt, mb := ty.members[i].ty, base + ty.members[i].offset;
    if n: nat :| ObjectAt(mt, mb, source, query, b, n) {
      assert ObjectAt(ty, base, source, query, b, n + 1);
    } else {
      var n: nat, count: nat :| ArrayAt(mt, mb, source, query, b, n, count);
      assert ArrayAt(ty, base, source, query, b, n + 1, count);
    }
  }

  lemma ItselfIsSubobject(source: Type, base: nat)
    requires AllocSize(source).Some? && AllocSize(source).value > 0
    ensures RealSubobject(source, base, source, base, Bounds(base, base + AllocSize(source).value))
  {
    assert ObjectAt(source, base, source, base, Bounds(base, base + AllocSize(source).value), 0);
  }

  lemma WholeArrayIsSubobject(ty: Type, source: Type, base: nat, query: nat)
    requires ty.Array? && ty.element == source && AllocSize(source).Some? && AllocSize(source).value > 0
    requires base <= query < base + AllocSize(ty).value
    requires (query - base) % AllocSize(source).value == 0
    ensures RealSubobject(ty, base, source, query, Bounds(base, base + AllocSize(ty).value))
  {
    assert ArrayAt(ty, base, source, query, Bounds(base, base + AllocSize(ty).value), 0, ty.count);
  }

  /** An array step of the search in exact arithmetic. */
  lemma ArrayStep(ty: Type, base: nat, query: nat)
    requires ty.Array? && AllocSize(ty.element).Some? && AllocSize(ty.element).value > 0
    requires base <= query < base + AllocSize(ty).value <= UINT64_MAX
    ensures var size := AllocSize(ty.element).value; var k := (query - base) / size;
      && Add64(base, Mul64(size, ty.count)) == base + AllocSize(ty).value
      && k < ty.count
      && Add64(base, Mul64(k, size)) == ElementBase(ty, base, k)
      && ty.count <= UINT64_MAX / size
  {
    var size := AllocSize(ty.element).value;
    var k := (query - base) / size;
    ElementIndex(query - base, size, ty.count);
    ElementFits(ty, base, k);
    CountFits(ty.count, size);
    SmallProducts(base, size, ty.count);
    SmallProducts(base, k, size);
  }

  lemma SmallProducts(base: nat, x: nat, y: nat)
    requires base + x * y <= UINT64_MAX
    ensures Add64(base, Mul64(x, y)) == base + x * y
  {
    var product := x * y;
    assert product % (UINT64_MAX + 1) == product;
    SmallSums(base, product);
  }

  lemma CountFits(count: nat, size: nat)
    requires size > 0 && size * count <= UINT64_MAX
    ensures count <= UINT64_MAX / size
  {
    var q := UINT64_MAX / size;
    MulMonotone(q + 1, count, size);
    OneMore(q, size);
  }

  lemma {:induction false} SearchIsSound(current: Type, source: Type, base: nat, query: nat, depth: nat)
    requires Wellformed(current) && FindProjectionBounds(current, source, base, query, depth).Some?
    ensures RealSubobject(current, base, source, query, FindProjectionBounds(current, source, base, query, depth).value)
    decreases current, 1, 0
  {
    SmallSums(base, AllocSize(current).value);
    if current == source && query == base {
      ItselfIsSubobject(source, base);
    } else if current.Array? {
      ElementsAreSound(current, source, base, query, depth);
    } else {
      MembersAreSound(current, 0, source, base, query, depth);
    }
  }

  function ElementOf(ty: Type, base: nat, query: nat): nat
    requires ty.Array? && AllocSize(ty.element).Some? && AllocSize(ty.element).value > 0 && base <= query
  {
    (query - base) / AllocSize(ty.element).value
  }

  /** The search in an array, in exact arithmetic. */
  lemma ArraySearch(current: Type, source: Type, base: nat, query: nat, depth: nat)
    requires current.Array? && !(current == source && query == base) && depth <= MAX_DEPTH
    requires AllocSize(current.element).Some? && AllocSize(current.element).value > 0
    requires base <= query < base + AllocSize(current).value <= UINT64_MAX
    ensures ElementOf(current, base, query) < current.count
    ensures FindProjectionBounds(current, source, base, query, depth) ==
            if IsElementBoundary(current, source, AllocSize(current).value, query - base) then
              Some(Bounds(base, base + AllocSize(current).value))
            else
              FindProjectionBounds(current.element, source,
                                   ElementBase(current, base, ElementOf(current, base, query)), query, depth + 1)
  {
    SmallSums(base, AllocSize(current).value);
    ArrayStep(current, base, query);
  }

  lemma {:induction false} ElementsAreSound(current: Type, source: Type, base: nat, query: nat, depth: nat)
    requires Wellformed(current) && current.Array? && !(current == source && query == base) && depth <= MAX_DEPTH
    requires AllocSize(current.element).Some? && AllocSize(current.element).value > 0
    requires base <= query < base + AllocSize(current).value <= UINT64_MAX
    requires FindProjectionBounds(current, source, base, query, depth).Some?
    ensures RealSubobject(current, base, source, query, FindProjectionBounds(current, source, base, query, depth).value)
    decreases current, 0, 0
  {
    ArraySearch(current, source, base, query, depth);
    if IsElementBoundary(current, source, AllocSize(current).value, query - base) {
      WholeArrayIsSubobject(current, source, base, query);
    } else {
      var k := ElementOf(current, base, query);
      SearchIsSound(current.element, source, ElementBase(current, base, k), query, depth + 1);
      LiftElement(current, base, k, source, query, FindProjectionBounds(current, source, base, query, depth).value);
    }
  }

  lemma {:induction false} MembersAreSound(current: Type, i: nat, source: Type, base: nat, query: nat, depth: nat)
    requires Wellformed(current) && current.Struct? && AllocSize(current).Some? && i <= |current.members|
    requires FindInMembers(current, i, source, base, query, depth).Some?
    ensures RealSubobject(current, base, source, query, FindInMembers(current, i, source, base, query, depth).value)
    decreases current, 0, |current.members| - i
  {
    var found := FindInMember(current, i, source, base, query, depth);
    if found.None? {
      MembersAreSound(current, i + 1, source, base, query, depth);
    } else {
      var member := current.members[i];
      var memberBase := base + member.offset;
      var size := AllocSize(member.ty).value;
      SmallSums(base, member.offset);
      SmallSums(memberBase, size);
      if member.ty == source && query == memberBase {
        ItselfIsSubobject(source, memberBase);
      } else if IsElementBoundary(member.ty, source, size, query - memberBase) {
        WholeArrayIsSubobject(member.ty, source, memberBase, query);
      } else {
        SearchIsSound(member.ty, source, memberBase, query, depth + 1);
      }
      LiftMember(current, base, i, source, query, found.value);
    }
  }

  // Completeness

  lemma {:induction false} OccursInside(ty: Type, base: nat, sub: Type, a: nat, n: nat)
    requires Wellformed(ty) && Occurs(ty, base, sub, a, n)
    ensures AllocSize(sub).Some? && base <= a && a + AllocSize(sub).value <= base + AllocSize(ty).value
    decreases n
  {
    if n > 0 {
      if ty.Array? {
        var k: nat :| k < ty.count && Occurs(ty.element, ElementBase(ty, base, k), sub, a, n - 1);
        OccursInside(ty.element, ElementBase(ty, base, k), sub, a, n - 1);
        ElementFits(ty, base, k);
      } else {
        var i: nat :| i < |ty.members| && Occurs(ty.members[i].ty, base + ty.members[i].offset, sub, a, n - 1);
        OccursInside(ty.members[i].ty, base + ty.members[i].offset, sub, a, n - 1);
      }
    }
  }

  lemma IndexUnique(rel: nat, size: nat, k: nat)
    requires size > 0 && k * size <= rel < k * size + size
    ensures rel / size == k && rel % size == rel - k * size
  {
    var q := rel / size;
    assert rel == q * size + rel % size;
    MulMonotone(q + 1, k, size);
    MulMonotone(k + 1, q, size);
    OneMore(q, size);
    OneMore(k, size);
  }

  /** Every non-empty source-typed object at the query, nested at most thirteen levels deep,
      makes the search succeed. */
  lemma {:induction false} SearchIsComplete(current: Type, source: Type, base: nat, query: nat, depth: nat, n: nat)
    requires Wellformed(current) && Occurs(current, base, source, query, n)
    requires AllocSize(source).Some? && AllocSize(source).value > 0
    requires base + AllocSize(current).value <= UINT64_MAX
    requires depth <= MAX_DEPTH && depth + n <= MAX_DEPTH + 1
    ensures FindProjectionBounds(current, source, base, query, depth).Some?
    decreases n
  {
    OccursInside(current, base, source, query, n);
    SmallSums(base, AllocSize(current).value);
    if n > 0 && !(current == source && query == base) {
      if current.Array? {
        var k: nat :| k < current.count && Occurs(current.element, ElementBase(current, base, k), source, query, n - 1);
        ElementFound(current, k, source, base, query, depth, n);
      } else {
        var i: nat :| i < |current.members| &&
          Occurs(current.members[i].ty, base + current.members[i].offset, source, query, n - 1);
        MemberFound(current, i, source, base, query, depth, n);
        MembersReach(current, 0, i, source, base, query, depth);
      }
    }
  }

  lemma {:induction false} ElementFound(current: Type, k: nat, source: Type, base: nat, query: nat, depth: nat, n: nat)
    requires Wellformed(current) && current.Array? && n > 0
    requires AllocSize(current).Some? && base + AllocSize(current).value <= UINT64_MAX
    requires AllocSize(current.element).Some? && k < current.count
    requires Occurs(current.element, ElementBase(current, base, k), source, query, n - 1)
    requires AllocSize(source).Some? && AllocSize(source).value > 0
    requires !(current == source && query == base)
    requires depth <= MAX_DEPTH && depth + n <= MAX_DEPTH + 1
    ensures FindProjectionBounds(current, source, base, query, depth).Some?
    decreases n, 0
  {
    var eb := ElementBase(current, base, k);
    OccursInside(current.element, eb, source, query, n - 1);
    InElement(current, base, query, k);
    ArraySearch(current, source, base, query, depth);
    if !IsElementBoundary(current, source, AllocSize(current).value, query - base) {
      SearchIsComplete(current.element, source, eb, query, depth + 1, n - 1);
    }
  }

  /** An address inside element k is searched in element k. */
  lemma InElement(ty: Type, base: nat, query: nat, k: nat)
    requires ty.Array? && AllocSize(ty.element).Some? && k < ty.count
    requires ElementBase(ty, base, k) <= query < ElementBase(ty, base, k) + AllocSize(ty.element).value
    ensures base <= query < base + AllocSize(ty).value && ElementOf(ty, base, query) == k
    ensures query == ElementBase(ty, base, k) ==> IsMultiple(query - base, AllocSize(ty.element).value)
    ensures ElementBase(ty, base, k) + AllocSize(ty.element).value <= base + AllocSize(ty).value
  {
    ElementFits(ty, base, k);
    IndexUnique(query - base, AllocSize(ty.element).value, k);
  }

  lemma {:induction false} MemberFound(current: Type, i: nat, source: Type, base: nat, query: nat, depth: nat, n: nat)
    requires Wellformed(current) && current.Struct? && n > 0 && i < |current.members|
    requires AllocSize(current).Some? && base + AllocSize(current).value <= UINT64_MAX
    requires Occurs(current.members[i].ty, base + current.members[i].offset, source, query, n - 1)
    requires AllocSize(source).Some? && AllocSize(source).value > 0
    requires depth <= MAX_DEPTH && depth + n <= MAX_DEPTH + 1
    ensures FindInMember(current, i, source, base, query, depth).Some?
    decreases n, 0
  {
    var member := current.members[i];
    var memberBase := base + member.offset;
    OccursInside(member.ty, memberBase, source, query, n - 1);
    SmallSums(base, member.offset);
    SmallSums(memberBase, AllocSize(member.ty).value);
    if n - 1 > 0 {
      SearchIsComplete(member.ty, source, memberBase, query, depth + 1, n - 1);
    }
  }

  lemma {:induction false} MembersReach(current: Type, from: nat, i: nat, source: Type, base: nat, query: nat,
                                        depth: nat)
    requires current.Struct? && from <= i < |current.members|
    requires FindInMember(current, i, source, base, query, depth).Some?
    ensures FindInMembers(current, from, source, base, query, depth).Some?
    decreases i - from
  {
    if from < i && FindInMember(current, from, source, base, query, depth).None? {
      MembersReach(current, from + 1, i, source, base, query, depth);
    }
  }

  // The depth limit, exactly

  /** An element of an array that is a member of the struct s at base. */
  ghost predicate MemberElement(s: Type, base: nat, sub: Type, a: nat) {
    s.Struct? && exists i: nat :: i < |s.members| && ElementOfMember(s, base, i, sub, a)
  }

  ghost predicate ElementOfMember(s: Type, base: nat, i: nat, sub: Type, a: nat)
    requires s.Struct? && i < |s.members|
  {
    var member := s.members[i];
    member.ty.Array? && member.ty.element == sub && Occurs(member.ty, base + member.offset, sub, a, 1)
  }

  /** As above, with the struct n levels inside an object of type ty at base. */
  ghost predicate InArrayMember(ty: Type, base: nat, sub: Type, a: nat, n: nat) {
    exists s: Type, at: nat :: Occurs(ty, base, s, at, n) && MemberElement(s, at, sub, a)
  }

  /** At most limit levels deep, or one more as an element of a struct's array member. */
  ghost predicate Near(ty: Type, base: nat, sub: Type, a: nat, limit: nat) {
    || (exists n: nat :: n <= limit && Occurs(ty, base, sub, a, n))
    || (limit > 0 && InArrayMember(ty, base, sub, a, limit - 1))
  }

  lemma {:induction false} LastElementOccurs(ty: Type, base: nat, source: Type, count: nat, begin: nat, n: nat, k: nat)
    requires Occurs(ty, base, Array(source, count), begin, n) && AllocSize(source).Some? && k < count
    ensures Occurs(ty, base, source, ElementBase(Array(source, count), begin, k), n + 1)
    decreases n
  {
    var a := ElementBase(Array(source, count), begin, k);
    if n == 0 {
      assert Occurs(source, a, source, a, 0);
    } else if ty.Array? {
      var j: nat :| j < ty.count && Occurs(ty.element, ElementBase(ty, base, j), Array(source, count), begin, n - 1);
      LastElementOccurs(ty.element, ElementBase(ty, base, j), source, count, begin, n - 1, k);
    } else {
      var i: nat :| i < |ty.members| &&
        Occurs(ty.members[i].ty, base + ty.members[i].offset, Array(source, count), begin, n - 1);
      LastElementOccurs(ty.members[i].ty, base + ty.members[i].offset, source, count, begin, n - 1, k);
    }
  }

  lemma BoundaryOccurs(ty: Type, base: nat, source: Type, query: nat)
    requires ty.Array? && ty.element == source && AllocSize(source).Some? && AllocSize(source).value > 0 &&
             base <= query
    ensures IsElementBoundary(ty, source, AllocSize(ty).value, query - base) ==> Occurs(ty, base, source, query, 1)
  {
    if !IsElementBoundary(ty, source, AllocSize(ty).value, query - base) {
      return;
    }
    var size := AllocSize(source).value;
    ElementIndex(query - base, size, ty.count);
    LastElementOccurs(ty, base, source, ty.count, base, 0, (query - base) / size);
  }

  /** What lies near inside a part lies near inside the whole, one level deeper. */
  lemma NearInElement(ty: Type, base: nat, k: nat, sub: Type, a: nat, limit: nat)
    requires ty.Array? && AllocSize(ty.element).Some? && k < ty.count &&
             Near(ty.element, ElementBase(ty, base, k), sub, a, limit)
    ensures Near(ty, base, sub, a, limit + 1)
  {
    var part := ElementBase(ty, base, k);
    if n: nat :| n <= limit && Occurs(ty.element, part, sub, a, n) {
      assert Occurs(ty, base, sub, a, n + 1);
    } else {
      var s: Type, at: nat :| Occurs(ty.element, part, s, at, limit - 1) && MemberElement(s, at, sub, a);
      assert Occurs(ty, base, s, at, limit);
    }
  }

  lemma NearInMember(ty: Type, base: nat, i: nat, sub: Type, a: nat, limit: nat)
    requires ty.Struct? && AllocSize(ty).Some? && i < |ty.members|
    requires Near(ty.members[i].ty, base + ty.members[i].offset, sub, a, limit)
    ensures Near(ty, base, sub, a, limit + 1)
  {
    var part := base + ty.members[i].offset;
    if n: nat :| n <= limit && Occurs(ty.members[i].ty, part, sub, a, n) {
      assert Occurs(ty, base, sub, a, n + 1);
    } else {
      var s: Type, at: nat :| Occurs(ty.members[i].ty, part, s, at, limit - 1) && MemberElement(s, at, sub, a);
      assert Occurs(ty, base, s, at, limit);
    }
  }

  /** The search finds only what is near. */
  lemma {:induction false} FoundIsNear(current: Type, source: Type, base: nat, query: nat, depth: nat)
    requires Wellformed(current) && FindProjectionBounds(current, source, base, query, depth).Some?
    ensures depth <= MAX_DEPTH && AllocSize(source).Some? && AllocSize(source).value > 0
    ensures Near(current, base, source, query, MAX_DEPTH + 1 - depth)
    decreases current, 1, 0
  {
    SmallSums(base, AllocSize(current).value);
    if current == source && query == base {
      assert Occurs(current, base, source, query, 0);
    } else if current.Array? {
      FoundElementIsNear(current, source, base, query, depth);
    } else {
      FoundMemberIsNear(current, 0, source, base, query, depth);
    }
  }

  lemma {:induction false} FoundElementIsNear(current: Type, source: Type, base: nat, query: nat, depth: nat)
    requires Wellformed(current) && current.Array? && !(current == source && query == base) && depth <= MAX_DEPTH
    requires AllocSize(current.element).Some? && AllocSize(current.element).value > 0
    requires base <= query < base + AllocSize(current).value <= UINT64_MAX
    requires FindProjectionBounds(current, source, base, query, depth).Some?
    ensures AllocSize(source).Some? && AllocSize(source).value > 0
    ensures Near(current, base, source, query, MAX_DEPTH + 1 - depth)
    decreases current, 0, 0
  {
    ArraySearch(current, source, base, query, depth);
    if IsElementBoundary(current, source, AllocSize(current).value, query - base) {
      BoundaryOccurs(current, base, source, query);
    } else {
      var k := ElementOf(current, base, query);
      FoundIsNear(current.element, source, ElementBase(current, base, k), query, depth + 1);
      NearInElement(current, base, k, source, query, MAX_DEPTH - depth);
    }
  }

  lemma {:induction false} FoundMemberIsNear(current: Type, i: nat, source: Type, base: nat, query: nat, depth: nat)
    requires Wellformed(current) && current.Struct? && AllocSize(current).Some? && i <= |current.members| &&
             depth <= MAX_DEPTH
    requires FindInMembers(current, i, source, base, query, depth).Some?
    ensures AllocSize(source).Some? && AllocSize(source).value > 0
    ensures Near(current, base, source, query, MAX_DEPTH + 1 - depth)
    decreases current, 0, |current.members| - i
  {
    if FindInMember(current, i, source, base, query, depth).None? {
      FoundMemberIsNear(current, i + 1, source, base, query, depth);
    } else {
      var member := current.members[i];
      var memberBase := base + member.offset;
      var size := AllocSize(member.ty).value;
      SmallSums(base, member.offset);
      SmallSums(memberBase, size);
      if member.ty == source && query == memberBase {
        assert Occurs(member.ty, memberBase, source, query, 0);
        assert Occurs(current, base, source, query, 1);
      } else if IsElementBoundary(member.ty, source, size, query - memberBase) {
        BoundaryOccurs(member.ty, memberBase, source, query);
        MemberElementIsNear(current, i, source, base, query, MAX_DEPTH + 1 - depth);
      } else {
        FoundIsNear(member.ty, source, memberBase, query, depth + 1);
        NearInMember(current, base, i, source, query, MAX_DEPTH - depth);
      }
    }
  }

  lemma MemberElementIsNear(current: Type, i: nat, source: Type, base: nat, query: nat, limit: nat)
    requires current.Struct? && AllocSize(current).Some? && i < |current.members| && limit > 0
    requires ElementOfMember(current, base, i, source, query)
    ensures Near(current, base, source, query, limit)
  {
    if limit == 1 {
      assert Occurs(current, base, current, base, 0);
    } else {
      assert Occurs(current, base, source, query, 2);
    }
  }

  /** The last level the search looks at, from the outside in. */
  lemma {:induction false} InArrayMemberIsFound(current: Type, source: Type, base: nat, query: nat, depth: nat, n: nat,
                                                s: Type, at: nat)
    requires Wellformed(current) && Occurs(current, base, s, at, n) && MemberElement(s, at, source, query)
    requires AllocSize(source).Some? && AllocSize(source).value > 0
    requires base + AllocSize(current).value <= UINT64_MAX
    requires depth + n == MAX_DEPTH
    ensures FindProjectionBounds(current, source, base, query, depth).Some?
    decreases n
  {
    DeepInside(current, base, source, query, n, s, at);
    SmallSums(base, AllocSize(current).value);
    if !(current == source && query == base) {
      if n == 0 {
        var i: nat :| i < |s.members| && ElementOfMember(s, at, i, source, query);
        LastMemberFound(current, i, source, base, query);
        MembersReach(current, 0, i, source, base, query, depth);
      } else if current.Array? {
        var k: nat :| k < current.count && Occurs(current.element, ElementBase(current, base, k), s, at, n - 1);
        DeepElementFound(current, k, source, base, query, depth, n, s, at);
      } else {
        var i: nat :| i < |current.members| &&
          Occurs(current.members[i].ty, base + current.members[i].offset, s, at, n - 1);
        DeepMemberFound(current, i, source, base, query, depth, n, s, at);
        MembersReach(current, 0, i, source, base, query, depth);
      }
    }
  }

  lemma {:induction false} MemberElementOccurs(ty: Type, base: nat, source: Type, query: nat, n: nat, s: Type, at: nat)
    ensures Occurs(ty, base, s, at, n) && MemberElement(s, at, source, query) ==> Occurs(ty, base, source, query, n + 2)
    decreases n
  {
    if !Occurs(ty, base, s, at, n) || !MemberElement(s, at, source, query) {
      return;
    }
    if n == 0 {
      var i: nat :| i < |s.members| && ElementOfMember(s, at, i, source, query);
      assert Occurs(s.members[i].ty, at + s.members[i].offset, source, query, 1);
    } else if ty.Array? {
      var k: nat :| k < ty.count && Occurs(ty.element, ElementBase(ty, base, k), s, at, n - 1);
      MemberElementOccurs(ty.element, ElementBase(ty, base, k), source, query, n - 1, s, at);
    } else {
      var i: nat :| i < |ty.members| && Occurs(ty.members[i].ty, base + ty.members[i].offset, s, at, n - 1);
      MemberElementOccurs(ty.members[i].ty, base + ty.members[i].offset, source, query, n - 1, s, at);
    }
  }

  lemma LastMemberFound(current: Type, i: nat, source: Type, base: nat, query: nat)
    requires Wellformed(current) && current.Struct? && i < |current.members| &&
             ElementOfMember(current, base, i, source, query)
    requires AllocSize(current).Some? && base + AllocSize(current).value <= UINT64_MAX
    requires AllocSize(source).Some? && AllocSize(source).value > 0
    ensures FindInMember(current, i, source, base, query, MAX_DEPTH).Some?
  {
    var member := current.members[i];
    var memberBase := base + member.offset;
    SmallSums(base, member.offset);
    SmallSums(memberBase, AllocSize(member.ty).value);
    var k: nat :| k < member.ty.count && Occurs(source, ElementBase(member.ty, memberBase, k), source, query, 0);
    InElement(member.ty, memberBase, query, k);
  }

  lemma {:induction false} DeepElementFound(current: Type, k: nat, source: Type, base: nat, query: nat, depth: nat,
                                            n: nat, s: Type, at: nat)
    requires Wellformed(current) && current.Array? && n > 0
    requires AllocSize(current).Some? && base + AllocSize(current).value <= UINT64_MAX
    requires AllocSize(current.element).Some? && k < current.count
    requires Occurs(current.element, ElementBase(current, base, k), s, at, n - 1) && MemberElement(s, at, source, query)
    requires AllocSize(source).Some? && AllocSize(source).value > 0
    requires !(current == source && query == base)
    requires depth + n == MAX_DEPTH
    ensures FindProjectionBounds(current, source, base, query, depth).Some?
    decreases n, 0
  {
    var eb := ElementBase(current, base, k);
    DeepInside(current.element, eb, source, query, n - 1, s, at);
    InElement(current, base, query, k);
    ArraySearch(current, source, base, query, depth);
    if !IsElementBoundary(current, source, AllocSize(current).value, query - base) {
      InArrayMemberIsFound(current.element, source, eb, query, depth + 1, n - 1, s, at);
    }
  }

  lemma {:induction false} DeepMemberFound(current: Type, i: nat, source: Type, base: nat, query: nat, depth: nat,
                                           n: nat, s: Type, at: nat)
    requires Wellformed(current) && current.Struct? && n > 0 && i < |current.members|
    requires AllocSize(current).Some? && base + AllocSize(current).value <= UINT64_MAX
    requires Occurs(current.members[i].ty, base + current.members[i].offset, s, at, n - 1) &&
             MemberElement(s, at, source, query)
    requires AllocSize(source).Some? && AllocSize(source).value > 0
    requires depth + n == MAX_DEPTH
    ensures FindInMember(current, i, source, base, query, depth).Some?
    decreases n, 0
  {
    var member := current.members[i];
    var memberBase := base + member.offset;
    DeepInside(member.ty, memberBase, source, query, n - 1, s, at);
    MemberFits(current, i, base);
    InArrayMemberIsFound(member.ty, source, memberBase, query, depth + 1, n - 1, s, at);
    FoundInsideMember(current, i, source, base, query, depth);
  }

  lemma DeepInside(ty: Type, base: nat, source: Type, query: nat, n: nat, s: Type, at: nat)
    requires Wellformed(ty) && Occurs(ty, base, s, at, n) && MemberElement(s, at, source, query)
    requires AllocSize(source).Some? && AllocSize(source).value > 0
    ensures AllocSize(ty).Some? && base <= query < base + AllocSize(ty).value
  {
    MemberElementOccurs(ty, base, source, query, n, s, at);
    OccursInside(ty, base, source, query, n + 2);
  }

  lemma MemberFits(current: Type, i: nat, base: nat)
    requires Wellformed(current) && current.Struct? && i < |current.members|
    requires AllocSize(current).Some? && AllocSize(current.members[i].ty).Some?
    ensures Wellformed(current.members[i].ty)
    ensures base + current.members[i].offset + AllocSize(current.members[i].ty).value <= base + AllocSize(current).value
  {
  }

  lemma FoundInsideMember(current: Type, i: nat, source: Type, base: nat, query: nat, depth: nat)
    requires current.Struct? && i < |current.members| && AllocSize(current.members[i].ty).Some?
    requires base + current.members[i].offset <= query
    requires query < base + current.members[i].offset + AllocSize(current.members[i].ty).value <= UINT64_MAX
    requires var member := current.members[i];
             FindProjectionBounds(member.ty, source, base + member.offset, query, depth + 1).Some?
    ensures FindInMember(current, i, source, base, query, depth).Some?
  {
    var member := current.members[i];
    SmallSums(base, member.offset);
    SmallSums(base + member.offset, AllocSize(member.ty).value);
  }

  /** In every layout the search succeeds exactly when a non-empty object of the source type
      sits at the queried offset, at most thirteen levels deep, or fourteen deep as an element
      of a struct's array member. */
  lemma SearchIsExact(allocaType: Type, source: Type, query: nat)
    requires Wellformed(allocaType) && AllocSize(allocaType).Some?
    ensures FindProjectionBounds(allocaType, source, 0, query, 0).Some? <==>
            AllocSize(source).Some? && AllocSize(source).value > 0 && Near(allocaType, 0, source, query, 13)
  {
    if FindProjectionBounds(allocaType, source, 0, query, 0).Some? {
      FoundIsNear(allocaType, source, 0, query, 0);
    }
    if AllocSize(source).Some? && AllocSize(source).value > 0 && Near(allocaType, 0, source, query, MAX_DEPTH + 1) {
      if n: nat :| n <= MAX_DEPTH + 1 && Occurs(allocaType, 0, source, query, n) {
        SearchIsComplete(allocaType, source, 0, query, 0, n);
      } else {
        var s: Type, at: nat :| Occurs(allocaType, 0, s, at, MAX_DEPTH) && MemberElement(s, at, source, query);
        InArrayMemberIsFound(allocaType, source, 0, query, 0, MAX_DEPTH, s, at);
      }
    }
  }

  // The caller

  /** isProjectionWithinSourceSubobjectBounds. */
  predicate ProjectionStaysInside(originOffset: int, resultOffset: int, allocaType: Type, allocaSize: nat,
                                  source: Type) {
    if originOffset < 0 || resultOffset < 0 then false
    else if originOffset >= allocaSize || resultOffset >= allocaSize then false
    else
      match FindProjectionBounds(allocaType, source, 0, originOffset, 0)
      case None => false
      case Some(bounds) =>
        if bounds.begin > bounds.end || bounds.end > allocaSize then false
        else bounds.begin <= resultOffset < bounds.end
  }

  /** A suppressed projection starts at a source-typed object or element and lands inside the
      same subobject, which lies inside the allocation. */
  lemma AcceptedProjectionsAreConfined(originOffset: int, resultOffset: int, allocaType: Type, allocaSize: nat,
                                       source: Type)
    requires Wellformed(allocaType) && ProjectionStaysInside(originOffset, resultOffset, allocaType, allocaSize, source)
    ensures exists b :: RealSubobject(allocaType, 0, source, originOffset, b) &&
                        b.begin <= originOffset < b.end && b.begin <= resultOffset < b.end <= allocaSize
  {
    SearchIsSound(allocaType, source, 0, originOffset, 0);
    var b := FindProjectionBounds(allocaType, source, 0, originOffset, 0).value;
    assert RealSubobject(allocaType, 0, source, originOffset, b);
  }
}
