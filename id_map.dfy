/**
  An append-only pool of ID ranges that is queried as one map. Membership and
  lookup scan the ranges in insertion order, so the earliest-appended range
  that covers an ID decides its mapping; the length sums the ranges' counts
  and so counts overlapping IDs more than once. Nothing checks for overlap.
*/
module IdMaps {
  import opened Wrappers
  import opened IdRanges

  /** Some range of the pool covers `id`. */
  predicate PoolContains(pool: seq<IdRangeMap>, id: int) {
    exists i :: 0 <= i < |pool| && pool[i].Contains(id)
  }

  /** `i` is the position of the earliest range of the pool that covers `id`. */
  predicate IsFirstMatch(pool: seq<IdRangeMap>, id: int, i: int) {
    0 <= i < |pool| && pool[i].Contains(id) && forall j :: 0 <= j < i ==> !pool[j].Contains(id)
  }

  /**
    Lookup over the pool: the lookup of the earliest range covering `key`, or
    KeyNotFound when no range covers it.
  */
  function PoolGet(pool: seq<IdRangeMap>, key: int): (r: Result<Option<int>, Error>)
    ensures r.Err? <==> !PoolContains(pool, key)
    ensures r.Err? ==> r.error == KeyNotFound(key)
    ensures forall i :: IsFirstMatch(pool, key, i) ==> r == pool[i].Get(key)
  {
    if pool == [] then
      Err(KeyNotFound(key))
    else if pool[0].Contains(key) then
      pool[0].Get(key)
    else
      var r := PoolGet(pool[1..], key);
      assert forall i :: IsFirstMatch(pool, key, i) ==> IsFirstMatch(pool[1..], key, i - 1);
      assert PoolContains(pool[1..], key) ==> PoolContains(pool, key);
      r
  }

  /** Total number of IDs claimed by the pool: the sum of the ranges' counts. */
  function PoolLength(pool: seq<IdRangeMap>): (n: int)
    ensures AllValid(pool) ==> n >= |pool|
  {
    if pool == [] then 0 else PoolLength(pool[..|pool| - 1]) + pool[|pool| - 1].Len()
  }

  /** The distinct host IDs the pool covers. */
  ghost function Covered(pool: seq<IdRangeMap>): set<int> {
    if pool == [] then {} else Covered(pool[..|pool| - 1]) + pool[|pool| - 1].Members()
  }

  /** No two ranges of the pool share an ID. */
  ghost predicate Disjoint(pool: seq<IdRangeMap>) {
    forall i, j :: 0 <= i < j < |pool| ==> pool[i].Members() !! pool[j].Members()
  }

  /** A pool in the state its owner keeps, with every entry built by validated construction. */
  ghost predicate AllValid(pool: seq<IdRangeMap>) {
    forall i :: 0 <= i < |pool| ==> pool[i].Valid()
  }

  class IdMap {
    /** The ranges, in the order they were appended. */
    var pool: seq<IdRangeMap>

    ghost predicate Valid()
      reads this
    {
      AllValid(pool)
    }

    /** An empty pool, which contains no ID and has length 0. */
    constructor ()
      ensures Valid() && pool == []
      ensures forall id :: !PoolContains(pool, id)
      ensures PoolLength(pool) == 0
    {
      pool := [];
    }

    /** Scans the ranges in insertion order and stops at the first that covers `item`. */
    method Contains(item: int) returns (b: bool)
      ensures b <==> PoolContains(pool, item)
    {
      for i := 0 to |pool|
        invariant forall j :: 0 <= j < i ==> !pool[j].Contains(item)
      {
        if pool[i].Contains(item) {
          return true;
        }
      }
      return false;
    }

    /** Returns the lookup of the first range that covers `key`, or KeyNotFound. */
    method Get(key: int) returns (r: Result<Option<int>, Error>)
      ensures r == PoolGet(pool, key)
    {
      for i := 0 to |pool|
        invariant forall j :: 0 <= j < i ==> !pool[j].Contains(key)
      {
        if pool[i].Contains(key) {
          assert IsFirstMatch(pool, key, i);
          return pool[i].Get(key);
        }
      }
      return Err(KeyNotFound(key));
    }

    /** Accumulates the lengths of the ranges. */
    method Length() returns (n: int)
      ensures n == PoolLength(pool)
    {
      n := 0;
      for i := 0 to |pool|
        invariant n == PoolLength(pool[..i])
      {
        assert pool[..i + 1][..i] == pool[..i];
        n := n + pool[i].Len();
      }
      assert pool[..|pool|] == pool;
    }

    /**
      Builds a range from the arguments and appends it at the end of the pool;
      when construction fails the pool is left as it was.
    */
    method AppendIdRange(first: int, count: int, target: Option<int> := None) returns (o: Outcome<Error>)
      requires Valid()
      modifies this
      ensures Valid()
      ensures o.Pass? <==> New(first, count, target).Ok?
      ensures o.Pass? ==> pool == old(pool) + [IdRangeMap(first, count, target)]
      ensures o.Pass? ==> PoolLength(pool) == old(PoolLength(pool)) + count
      ensures o.Fail? ==> o.error == New(first, count, target).error && pool == old(pool)
    {
      var r := New(first, count, target);
      if r.Err? {
        return Fail(r.error);
      }
      LengthAppend(pool, r.value);
      pool := pool + [r.value];
      return Pass;
    }
  }

  /** Appending a range raises the pool's length by exactly its count, overlap or not. */
  lemma LengthAppend(pool: seq<IdRangeMap>, r: IdRangeMap)
    ensures PoolLength(pool + [r]) == PoolLength(pool) + r.count
  {
    assert (pool + [r])[..|pool|] == pool;
  }

  /** Appending a range adds exactly its IDs to the pool's membership. */
  lemma ContainsAppend(pool: seq<IdRangeMap>, r: IdRangeMap, id: int)
    ensures PoolContains(pool + [r], id) <==> PoolContains(pool, id) || r.Contains(id)
  {
    if PoolContains(pool, id) {
      var i :| 0 <= i < |pool| && pool[i].Contains(id);
      assert (pool + [r])[i] == pool[i];
    }
    if r.Contains(id) {
      assert (pool + [r])[|pool|] == r;
    }
  }

  /**
    First match wins: appending a range never changes the lookup of an ID the
    pool already covers; an ID it did not cover is looked up in the new range.
  */
  lemma {:induction false} GetAppend(pool: seq<IdRangeMap>, r: IdRangeMap, key: int)
    ensures PoolContains(pool, key) ==> PoolGet(pool + [r], key) == PoolGet(pool, key)
    ensures !PoolContains(pool, key) ==> PoolGet(pool + [r], key) == r.Get(key)
  {
    if pool == [] {
      assert [] + [r] == [r];
      assert [r][1..] == [];
    } else {
      assert (pool + [r])[1..] == pool[1..] + [r];
      GetAppend(pool[1..], r, key);
      if !pool[0].Contains(key) {
        assert PoolContains(pool, key) ==> PoolContains(pool[1..], key) by {
          if PoolContains(pool, key) {
            var i :| 0 <= i < |pool| && pool[i].Contains(key);
            assert pool[1..][i - 1] == pool[i];
          }
        }
      }
    }
  }

  /** An ID is covered by the pool exactly when some range of it contains the ID. */
  lemma {:induction false} CoveredIsContains(pool: seq<IdRangeMap>)
    requires AllValid(pool)
    ensures forall id :: id in Covered(pool) <==> PoolContains(pool, id)
  {
    if pool != [] {
      var init, last := pool[..|pool| - 1], pool[|pool| - 1];
      CoveredIsContains(init);
      ContainsExactlyCount(last);
      assert init + [last] == pool;
      forall id ensures PoolContains(pool, id) <==> PoolContains(init, id) || last.Contains(id) {
        ContainsAppend(init, last, id);
      }
    }
  }

  /**
    The length over-counts: it is at least the number of distinct IDs covered,
    equals it when the ranges are pairwise disjoint, and exceeds it as soon as
    two ranges overlap.
  */
  lemma {:induction false} LengthBoundsCovered(pool: seq<IdRangeMap>)
    requires AllValid(pool)
    ensures |Covered(pool)| <= PoolLength(pool)
    ensures Disjoint(pool) ==> |Covered(pool)| == PoolLength(pool)
    ensures !Disjoint(pool) ==> |Covered(pool)| < PoolLength(pool)
  {
    if pool != [] {
      var init, last := pool[..|pool| - 1], pool[|pool| - 1];
      LengthBoundsCovered(init);
      ContainsExactlyCount(last);
      CoveredIsContains(init);
      var a, b := Covered(init), last.Members();
      assert |a + b| + |a * b| == |a| + |b|;
      if Disjoint(pool) {
        assert Disjoint(init);
        forall id | id in a
          ensures id !in b
        {
          var i :| 0 <= i < |init| && init[i].Contains(id);
          ContainsExactlyCount(init[i]);
          assert pool[i] == init[i];
        }
        assert a * b == {};
      } else if Disjoint(init) {
        var x := LastOverlaps(pool);
        assert x in a * b;
      }
    }
  }

  /**
    When the ranges before the last are pairwise disjoint but the whole pool is
    not, the last range shares an ID with the earlier ones.
  */
  lemma LastOverlaps(pool: seq<IdRangeMap>) returns (x: int)
    requires AllValid(pool) && pool != [] && !Disjoint(pool) && Disjoint(pool[..|pool| - 1])
    ensures x in Covered(pool[..|pool| - 1]) && x in pool[|pool| - 1].Members()
  {
    var init := pool[..|pool| - 1];
    var i, j :| 0 <= i < j < |pool| && !(pool[i].Members() !! pool[j].Members());
    assert j == |pool| - 1;
    x := OverlapWitness(pool[i].Members(), pool[j].Members());
    ContainsExactlyCount(pool[i]);
    CoveredIsContains(init);
    assert init[i] == pool[i];
  }

  /** Two sets that are not disjoint share an element. */
  lemma OverlapWitness(s: set<int>, t: set<int>) returns (x: int)
    requires !(s !! t)
    ensures x in s && x in t
  {
    if forall y :: y in s ==> y !in t {
      assert false;
    }
    x :| x in s && x in t;
  }

  /** Every ID the pool contains has an earliest covering range, and is mapped as that range maps it. */
  lemma {:induction false} PoolGetFirstMatch(pool: seq<IdRangeMap>, key: int)
    requires PoolContains(pool, key)
    ensures exists i :: IsFirstMatch(pool, key, i) && PoolGet(pool, key) == pool[i].Get(key)
  {
    if pool[0].Contains(key) {
      assert IsFirstMatch(pool, key, 0);
    } else {
      var i :| 0 <= i < |pool| && pool[i].Contains(key);
      assert pool[1..][i - 1] == pool[i];
      PoolGetFirstMatch(pool[1..], key);
      var k :| IsFirstMatch(pool[1..], key, k) && PoolGet(pool[1..], key) == pool[1..][k].Get(key);
      assert IsFirstMatch(pool, key, k + 1);
    }
  }

  /** The length and the coverage of a pool of two ranges. */
  lemma TwoRangePool(earlier: IdRangeMap, later: IdRangeMap)
    ensures PoolLength([earlier, later]) == earlier.count + later.count
    ensures Covered([earlier, later]) == earlier.Members() + later.Members()
  {
    var pool := [earlier, later];
    assert pool[..1] == [earlier] && [earlier][..0] == [];
    assert PoolLength(pool) == PoolLength([earlier]) + later.Len();
    assert PoolLength([earlier]) == PoolLength([]) + earlier.Len();
    assert Covered(pool) == Covered([earlier]) + later.Members();
    assert Covered([earlier]) == Covered([]) + earlier.Members();
  }

  /** Two blocks of `n` IDs whose starts are `d <= n` apart cover `n + d` IDs together. */
  lemma {:induction false} IntervalOverlapUnion(lo: int, n: nat, d: nat)
    requires d <= n
    ensures Interval(lo, n) + Interval(lo + d, n) == Interval(lo, n + d)
    ensures |Interval(lo, n) + Interval(lo + d, n)| == n + d
  {
    IntervalIsHalfOpen(lo, n);
    IntervalIsHalfOpen(lo + d, n);
    IntervalIsHalfOpen(lo, n + d);
    var front, back, whole := Interval(lo, n), Interval(lo + d, n), Interval(lo, n + d);
    forall id ensures id in front + back <==> id in whole {
    }
  }

  /**
    Two ranges of `count` IDs whose starts are `d` apart, with `0 < d < count`,
    share `count - d` IDs, which the length counts twice: it exceeds the
    number of distinct covered IDs.
  */
  lemma OverlapOverCounts(earlier: IdRangeMap, later: IdRangeMap)
    requires earlier.Valid() && later.Valid() && earlier.count == later.count
    requires earlier.first < later.first < earlier.first + earlier.count
    ensures PoolLength([earlier, later]) == 2 * earlier.count
    ensures |Covered([earlier, later])| == earlier.count + (later.first - earlier.first)
    ensures |Covered([earlier, later])| < PoolLength([earlier, later])
  {
    TwoRangePool(earlier, later);
    IntervalOverlapUnion(earlier.first, earlier.count, later.first - earlier.first);
  }

  /** An ID covered by both ranges of a two-range pool is mapped by the one appended first. */
  lemma OverlapFirstWins(earlier: IdRangeMap, later: IdRangeMap, key: int)
    requires earlier.Contains(key) && later.Contains(key)
    ensures PoolGet([earlier, later], key) == earlier.Get(key)
    ensures PoolGet([later, earlier], key) == later.Get(key)
  {
    assert IsFirstMatch([earlier, later], key, 0);
    assert IsFirstMatch([later, earlier], key, 0);
  }

  /** A provisioning session: two blocks appended to a fresh pool, then queried. */
  method ExampleSession() {
    var m := new IdMap();
    var o := m.AppendIdRange(1000, 10, Some(50000));
    assert o == Pass;
    o := m.AppendIdRange(2000, 5);
    assert o == Pass;
    var bad := m.AppendIdRange(2100, 0, Some(7));
    assert bad == Fail(InvalidArgument(Count, 0));
    assert m.pool == [IdRangeMap(1000, 10, Some(50000)), IdRangeMap(2000, 5, None)];

    var b := m.Contains(1005);
    assert m.pool[0].Contains(1005);
    assert b;
    var r := m.Get(1005);
    assert IsFirstMatch(m.pool, 1005, 0);
    assert r == Ok(Some(50005));

    b := m.Contains(2002);
    assert m.pool[1].Contains(2002);
    assert b;
    r := m.Get(2002);
    assert IsFirstMatch(m.pool, 2002, 1);
    assert r == Ok(None);

    b := m.Contains(500);
    assert !b;
    r := m.Get(500);
    assert r == Err(KeyNotFound(500));

    var n := m.Length();
    assert m.pool[..1] == [m.pool[0]];
    assert n == 15;
  }
}
