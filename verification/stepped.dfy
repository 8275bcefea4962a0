/**
 Stepped value sets: the integer values `range(first, last + 1, step)` that a
 `steppedValueSet` element contributes to the sweep.
 */
module Stepped {
  import opened Wrappers
  import opened Arith

  /** A `steppedValueSet` element with its integer attributes already read. */
  datatype SteppedSet = SteppedSet(variable: string, first: int, last: int, step: int)

  /** Python's `range` refuses a zero step with a `ValueError`; that aborts the whole program. */
  datatype Error = ZeroStep(variable: string)

  /**
   Python's `range(start, stop, step)` for a non-zero step: `start`,
   `start + step`, ... while strictly below `stop` (positive step) or strictly
   above it (negative step).
   */
  function PyRange(start: int, stop: int, step: int): (r: seq<int>)
    requires step != 0
    ensures forall i :: 0 <= i < |r| ==> r[i] == start + i * step
    ensures step > 0 ==> (forall i :: 0 <= i < |r| ==> r[i] < stop) && start + |r| * step >= stop
    ensures step < 0 ==> (forall i :: 0 <= i < |r| ==> r[i] > stop) && start + |r| * step <= stop
    decreases if step > 0 then stop - start else start - stop
  {
    if (step > 0 && start >= stop) || (step < 0 && start <= stop) then
      []
    else
      var rest := PyRange(start + step, stop, step);
      var r := [start] + rest;
      forall i | 1 <= i < |r|
        ensures r[i] == start + i * step
      {
        Distribute(i - 1, step);
      }
      Distribute(|rest|, step);
      r
  }

  /** The values of a stepped set, or the error `range` raises for a zero step. */
  function SteppedValues(s: SteppedSet): (r: Result<seq<int>, Error>)
    ensures r.Err? <==> s.step == 0
    ensures r.Err? ==> r.error == ZeroStep(s.variable)
  {
    if s.step == 0 then Err(ZeroStep(s.variable)) else Ok(PyRange(s.first, s.last + 1, s.step))
  }

  /**
   With a positive step the values are `first, first + step, ...` up to and
   including `last` when it is reached: none exceeds `last`, the list is empty
   exactly when `first > last`, it has `(last - first) / step + 1` values
   otherwise, and `last` itself is included exactly when `step` divides
   `last - first`.
   */
  lemma SteppedPositive(s: SteppedSet)
    requires s.step > 0
    ensures SteppedValues(s).Ok?
    ensures forall v :: v in SteppedValues(s).value ==> s.first <= v <= s.last
    ensures SteppedValues(s).value == [] <==> s.first > s.last
    ensures s.first <= s.last ==> |SteppedValues(s).value| == (s.last - s.first) / s.step + 1
    ensures s.last in SteppedValues(s).value <==> s.first <= s.last && (s.last - s.first) % s.step == 0
  {
    if s.first <= s.last {
      SteppedCount(s);
      SteppedReachesLast(s);
    }
  }

  /** The number of values of a non-empty stepped set with a positive step. */
  lemma SteppedCount(s: SteppedSet)
    requires s.step > 0 && s.first <= s.last
    ensures |SteppedValues(s).value| == (s.last - s.first) / s.step + 1
  {
    var r := SteppedValues(s).value;
    var n := |r|;
    assert n > 0;
    assert r[n - 1] == s.first + (n - 1) * s.step;
    assert (n - 1) * s.step <= s.last - s.first < n * s.step;
    DivUnique(s.last - s.first, s.step, n - 1);
  }

  /** `last` is produced exactly when the step divides `last - first`. */
  lemma SteppedReachesLast(s: SteppedSet)
    requires s.step > 0 && s.first <= s.last
    ensures s.last in SteppedValues(s).value <==> (s.last - s.first) % s.step == 0
  {
    var r := SteppedValues(s).value;
    if s.last in r {
      var i :| 0 <= i < |r| && r[i] == s.last;
      assert s.last - s.first == i * s.step;
      ModOfMultiple(i, s.step);
    }
    if (s.last - s.first) % s.step == 0 {
      var q := (s.last - s.first) / s.step;
      assert q < |r| by {
        SteppedCount(s);
      }
      assert q * s.step == s.last - s.first;
      assert r[q] == s.last;
    }
  }

  /**
   With a negative step the stop value `last + 1` cuts the sequence off
   before `last`: every value exceeds `last + 1`, so `last` is never
   produced, and the list is empty exactly when `first <= last + 1`.
   */
  lemma SteppedNegative(s: SteppedSet)
    requires s.step < 0
    ensures SteppedValues(s).Ok?
    ensures forall v :: v in SteppedValues(s).value ==> s.last + 1 < v <= s.first
    ensures s.last !in SteppedValues(s).value
    ensures SteppedValues(s).value == [] <==> s.first <= s.last + 1
  {
  }
}
