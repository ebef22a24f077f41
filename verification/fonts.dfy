/** The Font Size menu offers the values of Python's `range(8, 32, 2)`. */
module Fonts {

  /** Python's `range(start, stop, step)` for a positive step. */
  function PyRange(start: int, stop: int, step: int): seq<int>
    requires step > 0
    decreases stop - start
  {
    if start >= stop then []
    else [start] + PyRange(start + step, stop, step)
  }

  const SizeOptions := PyRange(8, 32, 2)
  const DefaultSize := 14

  /** The k-th element of a range is `start + k * step`. */
  lemma {:induction false} PyRangeElements(start: int, stop: int, step: int)
    requires step > 0
    ensures forall k :: 0 <= k < |PyRange(start, stop, step)| ==>
      PyRange(start, stop, step)[k] == start + k * step
    decreases stop - start
  {
    if start < stop {
      var r := PyRange(start, stop, step);
      var rest := PyRange(start + step, stop, step);
      PyRangeElements(start + step, stop, step);
      forall k | 0 < k < |r|
        ensures r[k] == start + k * step
      {
        assert r[k] == rest[k - 1];
        assert rest[k - 1] == start + step + (k - 1) * step;
        assert (k - 1) * step + step == k * step;
      }
    }
  }

  /** The length of a range: the number of steps that fit before `stop`. */
  lemma {:induction false} PyRangeLength(start: int, stop: int, step: int)
    requires step > 0
    ensures var n := |PyRange(start, stop, step)|;
      start < stop ==> (n - 1) * step < stop - start <= n * step
    ensures start >= stop ==> PyRange(start, stop, step) == []
    decreases stop - start
  {
    if start < stop {
      var n := |PyRange(start, stop, step)|;
      if start + step < stop {
        PyRangeLength(start + step, stop, step);
        assert (n - 1) * step == (n - 2) * step + step;
        assert n * step == (n - 1) * step + step;
      }
    }
  }

  /** The k-th menu entry is 8 + 2k: even and between 8 and 30. */
  lemma SizeAt(k: int)
    requires 0 <= k < |SizeOptions|
    ensures SizeOptions[k] == 2 * (4 + k)
    ensures 8 <= SizeOptions[k] <= 30 && SizeOptions[k] % 2 == 0
  {
    PyRangeLength(8, 32, 2);
    PyRangeElements(8, 32, 2);
  }

  /** Every selectable size is even and between 8 and 30; there are 12 of
      them, and the initial size 14 is one. */
  lemma SizeOptionsAreEvenEightToThirty()
    ensures forall x :: x in SizeOptions <==> 8 <= x <= 30 && x % 2 == 0
    ensures |SizeOptions| == 12
    ensures DefaultSize in SizeOptions
  {
    PyRangeLength(8, 32, 2);
    forall x ensures x in SizeOptions <==> 8 <= x <= 30 && x % 2 == 0 {
      if x in SizeOptions {
        var k :| 0 <= k < |SizeOptions| && SizeOptions[k] == x;
        SizeAt(k);
      }
      if 8 <= x <= 30 && x % 2 == 0 {
        var k := (x - 8) / 2;
        SizeAt(k);
      }
    }
  }
}
