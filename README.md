# Cirdan ID-range mapping, modelled in Dafny

Cirdan gives each container an exclusive block of host subordinate user and group IDs. The container then remaps its internal IDs onto that block. This project models the ID-mapping core of Cirdan, `src/python/cirdan/id_map.py`, and proves properties of it.

- `wrappers.dfy` (module `Wrappers`): `Option`, `Result` and `Outcome`. `Option` keeps "no mapping" (`None`) distinct from a mapping to 0.
- `id_range_map.dfy` (module `IdRanges`): the immutable range value `IdRangeMap(first, count, target)`.
  - `New` is its validated construction. It checks `first`, then `count`, then `target`, and reports the first argument that fails as `InvalidArgument(arg, value)`. This stands in for Python's `ValueError`.
  - `Contains` is the half-open membership test on `[first, first + count)`.
  - `Get` is the lookup. It returns `KeyNotFound(key)` in place of Python's `KeyError`, `Ok(None)` for an unmapped range, and `Ok(Some(target + key - first))` otherwise.
  - `Len` returns `count`.
  - `target` defaults to `None` in `New` and in `IdMap.AppendIdRange`, as in the source.
- `id_map.dfy` (module `IdMaps`): the pool `IdMap`, a class whose `pool: seq<IdRangeMap>` field holds the ranges in insertion order.
  - `AppendIdRange` grows that sequence.
  - `Contains`, `Get` and `Length` are the source's `for` loops, with their invariants.
  - Each method is proved against a specification function over the sequence: `PoolContains` (some range covers the ID), `PoolGet` (the earliest covering range decides the lookup) and `PoolLength` (the sum of counts).
  - The lemmas relate these functions to appending, to the set of distinct covered IDs (`Covered`) and to overlapping ranges.
  - `ExampleSession` is a client of the class. It replays a provisioning session: append `(1000, 10, 50000)` and `(2000, 5)`, reject a zero count, then query IDs 1005, 2002 and 500 and the length 15.

## Model

| member | source | states |
|---|---|---|
| IdRanges.New | src/python/cirdan/id_map.py:45-88 | construction succeeds exactly when `first >= 0`, `count >= 1` and a present `target` is `>= 0`; on success the fields equal the arguments; otherwise the first failing check among first, count and target is reported with its value |
| IdRanges.NewFailsExactlyWhenOutOfDomain | src/python/cirdan/id_map.py:45-79 | construction fails exactly when some argument is out of its domain, and every construction failure is an `InvalidArgument` |
| IdRanges.IdRangeMap.Contains | src/python/cirdan/id_map.py:93-97 | the half-open membership test passes exactly the members of the range's block; with `ContainsExactlyCount` that block is `[first, first + count)` and holds `count` IDs |
| IdRanges.IdRangeMap.Len | src/python/cirdan/id_map.py:124-127 | the length of a valid range is at least 1; `ContainsExactlyCount` proves it equals the number of IDs the range contains |
| IdRanges.IdRangeMap.Get | src/python/cirdan/id_map.py:116-122 | lookup succeeds exactly for keys in the range, and otherwise fails with `KeyNotFound(key)`; an unmapped range answers "no mapping"; a mapped range answers an ID in `[target, target + count)` at the key's offset from `first` |
| IdRanges.GetIsBijection | src/python/cirdan/id_map.py:116-118 | on a valid mapped range, lookup maps the host block onto the whole target block, and distinct keys map to distinct IDs |
| IdRanges.ContainsExactlyCount | src/python/cirdan/id_map.py:93-97 | a valid range contains exactly the members of `[first, first + count)`, there are `count` of them, and the length `count` is at least 1 |
| IdRanges.IntervalIsHalfOpen | src/python/cirdan/id_map.py:97 | the set `Members()` is built from holds exactly the integers `lo <= id < lo + n`, `n` of them |
| IdMaps.PoolGet | src/python/cirdan/id_map.py:169-175 | pool lookup fails with `KeyNotFound(key)` exactly when no range covers the key; otherwise it equals the lookup of the earliest range that covers it |
| IdMaps.PoolLength | src/python/cirdan/id_map.py:177-184 | the pool length, the sum of the ranges' counts, is at least the number of ranges when every range is valid |
| IdMaps.IdMap.constructor | src/python/cirdan/id_map.py:137-141 | a new pool is empty, contains no ID and has length 0 |
| IdMaps.IdMap.Contains | src/python/cirdan/id_map.py:146-152 | the insertion-order scan returns true exactly when some range of the pool contains the ID |
| IdMaps.IdMap.Get | src/python/cirdan/id_map.py:154-175 | the insertion-order scan returns the first covering range's lookup, or `KeyNotFound` |
| IdMaps.IdMap.Length | src/python/cirdan/id_map.py:177-184 | the accumulating loop returns the sum of the ranges' counts |
| IdMaps.IdMap.AppendIdRange | src/python/cirdan/id_map.py:189-197 | on valid arguments one range equal to the arguments is added at the end, earlier entries are unchanged and the length grows by `count`; on invalid arguments the construction error is returned and the pool is unchanged; the pool stays valid |
| IdMaps.LengthAppend | src/python/cirdan/id_map.py:180-184 | appending a range raises the pool length by exactly its count, whether or not it overlaps earlier ranges |
| IdMaps.ContainsAppend | src/python/cirdan/id_map.py:149-152 | after an append the pool contains an ID exactly when the old pool or the new range contains it |
| IdMaps.GetAppend | src/python/cirdan/id_map.py:170-175 | first match wins: an append never changes the lookup of an ID the pool already covers, and an ID it did not cover is looked up in the new range |
| IdMaps.PoolGetFirstMatch | src/python/cirdan/id_map.py:170-175 | every ID the pool contains has an earliest covering range, and the pool lookup is that range's lookup |
| IdMaps.CoveredIsContains | src/python/cirdan/id_map.py:149-152 | an ID is in the union of the ranges' blocks exactly when the pool contains it |
| IdMaps.LengthBoundsCovered | src/python/cirdan/id_map.py:180-184 | the pool length is at least the number of distinct covered IDs; it equals that number exactly when the ranges are pairwise disjoint, and exceeds it as soon as two ranges overlap |
| IdMaps.OverlapOverCounts | src/python/cirdan/id_map.py:180-184 | for two same-size ranges whose starts are `d` apart and overlap, the length is `2 * count` while only `count + d` distinct IDs are covered, so the length over-counts |
| IdMaps.OverlapFirstWins | src/python/cirdan/id_map.py:170-175 | an ID covered by both ranges of a two-range pool is mapped by whichever range comes first, in either order |

## Left out

- The `isinstance` checks and their `TypeError` branches in the range constructor and in both `__getitem__` methods, together with the rule that a non-integer item is "not contained". Dafny's static types make a non-integer argument impossible.
- The wording of the error messages. Only the error kind is modelled, with the rejected argument and its value, or the missing key.
- `src/python/cirdan/config.py` is not part of this model. It reads a configuration file through `configparser` and checks that one section and two options exist.
- `src/python/cirdan/lond.py` is not part of this model. It creates containers through the native `lxc` library and checks a directory on the filesystem.
- Python's private-attribute name mangling (`__first`, `__id_pool`) is not modelled. In Dafny the fields are ordinary fields, and `IdRangeMap` values can be built directly as well as through `New`. For that reason lemmas about ranges state `Valid()` as a precondition.
- IdMaps.IdMap.Length: the size limit of Python's `len()` is not modelled. CPython raises `OverflowError` when `__len__` returns more than `sys.maxsize`, which happens at line 182 for a range with such a count and at the caller of `len(m)` once the sum of counts passes it. The model's lengths (`IdRanges.IdRangeMap.Len`, `IdMaps.PoolLength`, `IdMaps.IdMap.Length`) are unbounded integers, because `sys.maxsize` is platform-dependent.
- Concurrent access to one pool is not modelled. The source is single-threaded.
