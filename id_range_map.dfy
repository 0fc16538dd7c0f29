/**
  One contiguous block of host IDs, `[first, first + count)`, optionally
  mapped onto the same-size block `[target, target + count)`.
*/
module IdRanges {
  import opened Wrappers

  /** The constructor argument that was rejected. */
  datatype Argument = First | Count | Target

  /**
    The failures of the ID-mapping layer: a rejected constructor argument
    (with its value) and a key that no range covers.
  */
  datatype Error = InvalidArgument(arg: Argument, value: int) | KeyNotFound(key: int)

  datatype IdRangeMap = IdRangeMap(first: int, count: int, target: Option<int>) {

    /** What construction guarantees of every range it returns. */
    predicate Valid() {
      first >= 0 && count >= 1 && (target.Some? ==> target.value >= 0)
    }

    /** Half-open interval test on the host IDs: exactly the members of the block pass. */
    predicate Contains(id: int)
      ensures Contains(id) <==> id in Members()
    {
      IntervalIsHalfOpen(first, if count < 0 then 0 else count);
      first <= id < first + count
    }

    /** The host IDs the range covers, as a set. */
    ghost function Members(): set<int> {
      if count < 0 then {} else Interval(first, count)
    }

    /**
      Lookup: keys outside the block fail with KeyNotFound; a key inside it
      yields no mapping when the range is unmapped, and otherwise the target
      ID at the same offset from `target` as the key is from `first`.
    */
    function Get(key: int): (r: Result<Option<int>, Error>)
      ensures r.Ok? <==> Contains(key)
      ensures r.Err? ==> r.error == KeyNotFound(key)
      ensures r.Ok? ==> (r.value.Some? <==> target.Some?)
      ensures r.Ok? && target.Some? ==>
                target.value <= r.value.value < target.value + count &&
                r.value.value - target.value == key - first
    {
      if first <= key && key < first + count then
        if target.Some? then Ok(Some(target.value + key - first)) else Ok(None)
      else
        Err(KeyNotFound(key))
    }

    /** The number of IDs in the range, at least 1 for a valid range (its block's size: see ContainsExactlyCount). */
    function Len(): (n: int)
      ensures Valid() ==> n >= 1
    {
      count
    }
  }

  /**
    Validated construction. The checks run in the order first, count, target
    and the first violated one is reported.
  */
  function New(first: int, count: int, target: Option<int> := None): (r: Result<IdRangeMap, Error>)
    ensures r.Ok? <==> IdRangeMap(first, count, target).Valid()
    ensures r.Ok? ==> r.value == IdRangeMap(first, count, target)
    ensures first < 0 ==> r == Err(InvalidArgument(First, first))
    ensures first >= 0 && count < 1 ==> r == Err(InvalidArgument(Count, count))
    ensures first >= 0 && count >= 1 && target.Some? && target.value < 0 ==>
              r == Err(InvalidArgument(Target, target.value))
  {
    if first < 0 then
      Err(InvalidArgument(First, first))
    else if count < 1 then
      Err(InvalidArgument(Count, count))
    else if target.Some? && target.value < 0 then
      Err(InvalidArgument(Target, target.value))
    else
      Ok(IdRangeMap(first, count, target))
  }

  /** The set of the `n` integers `lo, lo + 1, ..., lo + n - 1`. */
  ghost function Interval(lo: int, n: nat): set<int> {
    if n == 0 then {} else Interval(lo, n - 1) + {lo + n - 1}
  }

  /** `Interval(lo, n)` is the half-open interval `[lo, lo + n)` and holds exactly `n` integers. */
  lemma {:induction false} IntervalIsHalfOpen(lo: int, n: nat)
    ensures forall id :: id in Interval(lo, n) <==> lo <= id < lo + n
    ensures |Interval(lo, n)| == n
  {
    if n > 0 {
      IntervalIsHalfOpen(lo, n - 1);
    }
  }

  /**
    A valid range contains exactly the `count` integers of its block, and its
    length is that number, at least 1.
  */
  lemma ContainsExactlyCount(r: IdRangeMap)
    requires r.Valid()
    ensures forall id :: r.Contains(id) <==> id in r.Members()
    ensures |r.Members()| == r.Len() >= 1
  {
    IntervalIsHalfOpen(r.first, r.count);
  }

  /**
    Lookup on a mapped valid range is a bijection from the host block onto the
    target block: every target ID is reached, by exactly one key.
  */
  lemma GetIsBijection(r: IdRangeMap)
    requires r.Valid() && r.target.Some?
    ensures (set k | k in r.Members() && r.Get(k).Ok? && r.Get(k).value.Some? :: r.Get(k).value.value)
            == Interval(r.target.value, r.count)
    ensures forall a, b :: r.Contains(a) && r.Contains(b) && r.Get(a) == r.Get(b) ==> a == b
  {
    var t0 := r.target.value;
    IntervalIsHalfOpen(r.first, r.count);
    IntervalIsHalfOpen(t0, r.count);
    var image := set k | k in r.Members() && r.Get(k).Ok? && r.Get(k).value.Some? :: r.Get(k).value.value;
    forall t | t in Interval(t0, r.count)
      ensures t in image
    {
      var k := r.first + (t - t0);
      assert k in r.Members();
      assert r.Get(k).value.value == t;
    }
  }

  /** Constructing a range fails exactly when one of its arguments is out of its domain. */
  lemma NewFailsExactlyWhenOutOfDomain(first: int, count: int, target: Option<int>)
    ensures New(first, count, target).Err? <==>
              (first < 0 || count < 1 || (target.Some? && target.value < 0))
    ensures New(first, count, target).Err? ==> New(first, count, target).error.InvalidArgument?
  {
  }
}
