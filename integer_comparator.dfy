/** The ordering adapter the tree calls: every predicate is derived from a
    single `isLessThan`, which rejects operands that are not `Integer`s. */
module IntegerComparator {
  import opened Objects

  /** `obj instanceof Integer`. */
  predicate IsComparable(obj: Obj): (r: bool)
    ensures r <==> obj.IntObj?
  {
    obj.IntObj?
  }

  /** Strict less-than on the integer values; throws on a non-`Integer`. */
  function IsLessThan(obj1: Obj, obj2: Obj): (r: Result<bool>)
    ensures r.Err? <==> !(obj1.IntObj? && obj2.IntObj?)
    ensures r.Err? ==> r.error == InvalidObject
    ensures r.Ok? ==> (r.value <==> obj1.v < obj2.v)
  {
    if !IsComparable(obj1) || !IsComparable(obj2) then Err(InvalidObject)
    else Ok(obj1.v < obj2.v)
  }

  /** Boolean negation carried through a call that may throw. */
  function Not(r: Result<bool>): Result<bool> {
    match r
    case Ok(b) => Ok(!b)
    case Err(e) => Err(e)
  }

  /** The integer order, or the comparator's exception when an operand is not
      an `Integer`: what every derived predicate must agree with. */
  function OnIntegers(obj1: Obj, obj2: Obj, holds: bool): Result<bool> {
    if obj1.IntObj? && obj2.IntObj? then Ok(holds) else Err(InvalidObject)
  }

  function IsLessThanOrEqualTo(obj1: Obj, obj2: Obj): (r: Result<bool>)
    ensures r == OnIntegers(obj1, obj2, obj1.IntObj? && obj2.IntObj? && obj1.v <= obj2.v)
  {
    Not(IsLessThan(obj2, obj1))
  }

  function IsGreaterThan(obj1: Obj, obj2: Obj): (r: Result<bool>)
    ensures r == OnIntegers(obj1, obj2, obj1.IntObj? && obj2.IntObj? && obj1.v > obj2.v)
  {
    IsLessThan(obj2, obj1)
  }

  function IsGreaterThanOrEqualTo(obj1: Obj, obj2: Obj): (r: Result<bool>)
    ensures r == OnIntegers(obj1, obj2, obj1.IntObj? && obj2.IntObj? && obj1.v >= obj2.v)
  {
    Not(IsLessThan(obj1, obj2))
  }

  /** Neither operand is less than the other; on `Integer`s this is equality
      of the boxed objects themselves. */
  function IsEqual(obj1: Obj, obj2: Obj): (r: Result<bool>)
    ensures r == OnIntegers(obj1, obj2, obj1 == obj2)
  {
    match IsLessThan(obj1, obj2)
    case Err(e) => Err(e)
    case Ok(lt) =>
      match IsLessThan(obj2, obj1)
      case Err(e) => Err(e)
      case Ok(gt) => Ok(!lt && !gt)
  }

  /** The derived predicates are mutually consistent: less-or-equal is the
      disjunction of less-than and equality, and the converse predicates swap
      their operands. */
  lemma DerivedPredicatesAgree(a: Obj, b: Obj)
    ensures IsLessThanOrEqualTo(a, b).Ok? ==>
              IsLessThanOrEqualTo(a, b).value == (IsLessThan(a, b).value || IsEqual(a, b).value)
    ensures IsGreaterThan(a, b) == IsLessThan(b, a)
    ensures IsGreaterThanOrEqualTo(a, b) == IsLessThanOrEqualTo(b, a)
    ensures IsEqual(a, b) == IsEqual(b, a)
  {
  }

  /** `isComparable` is the guard of every comparison: each predicate throws
      exactly when one of its operands is not comparable. */
  lemma ComparableGuardsComparisons(a: Obj, b: Obj)
    ensures IsLessThan(a, b).Ok? <==> IsComparable(a) && IsComparable(b)
    ensures IsLessThanOrEqualTo(a, b).Ok? <==> IsComparable(a) && IsComparable(b)
    ensures IsGreaterThan(a, b).Ok? <==> IsComparable(a) && IsComparable(b)
    ensures IsGreaterThanOrEqualTo(a, b).Ok? <==> IsComparable(a) && IsComparable(b)
    ensures IsEqual(a, b).Ok? <==> IsComparable(a) && IsComparable(b)
  {
  }

  /** On `Integer`s, `isLessThan` is a strict total order: irreflexive,
      transitive and total, so the tree sees one linear order on its keys. */
  lemma LessThanIsStrictTotalOrder(a: Obj, b: Obj, c: Obj)
    requires IsComparable(a) && IsComparable(b) && IsComparable(c)
    ensures !IsLessThan(a, a).value
    ensures IsLessThan(a, b).value && IsLessThan(b, c).value ==> IsLessThan(a, c).value
    ensures IsLessThan(a, b).value || IsEqual(a, b).value || IsLessThan(b, a).value
  {
  }
}
