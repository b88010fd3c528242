/** The continuous-glucose-monitor upload handler (app.py lines 97-107): the readings are sorted
    by timestamp, an in-range flag is added to each, and the handler reports the time in range,
    the mean glucose, the numbers of low and of very high readings, and an advisory for each
    of the last two when it reaches two. */
module Cgm {
  import opened Optional
  import opened Sorting
  import opened RealArith

  /** One parsed row of the CGM table. */
  datatype Reading = Reading(timestamp: int, glucose: real)

  /** The sort key of the table. */
  function Time(r: Reading): int
  {
    r.timestamp
  }

  /** `Series.between(70, 180)`: both bounds are included. */
  predicate InRange(g: real)
  {
    70.0 <= g <= 180.0
  }

  /** A low reading, below 70 mg/dL. */
  predicate IsLow(g: real)
  {
    g < 70.0
  }

  /** A very high reading, above 250 mg/dL. */
  predicate IsHigh(g: real)
  {
    g > 250.0
  }

  /** The number of readings whose glucose satisfies `p`; at most the number of readings. */
  function Count(rs: seq<Reading>, p: real -> bool): (c: nat)
    ensures c <= |rs|
  {
    if rs == [] then 0
    else Count(rs[..|rs| - 1], p) + (if p(rs[|rs| - 1].glucose) then 1 else 0)
  }

  /** The sum of the glucose values. */
  function Total(rs: seq<Reading>): real
  {
    if rs == [] then 0.0 else Total(rs[..|rs| - 1]) + rs[|rs| - 1].glucose
  }

  /** The advisory rule: an advisory is raised once at least two readings cross the threshold. */
  predicate Advisory(count: nat)
  {
    count >= 2
  }

  /** The summary the handler displays. A statistic over an empty table is `None` (pandas gives
      NaN there). `inRange` is the added `in_range` column, 1 or 0 per reading. */
  datatype CgmSummary = CgmSummary(
    readings: seq<Reading>,
    inRange: seq<int>,
    timeInRange: Option<real>,
    meanGlucose: Option<real>,
    lows: nat,
    highs: nat,
    lowAdvisory: bool,
    highAdvisory: bool)

  /** Sorts the readings, adds the `in_range` column and computes the summary. */
  method SummarizeCgm(readings: seq<Reading>) returns (s: CgmSummary)
    ensures SortedBy(s.readings, Time) && multiset(s.readings) == multiset(readings)
    ensures |s.inRange| == |s.readings|
    ensures forall k :: 0 <= k < |s.inRange| ==>
              s.inRange[k] == (if InRange(s.readings[k].glucose) then 1 else 0)
    ensures s.lows == Count(readings, IsLow) && s.highs == Count(readings, IsHigh)
    ensures s.lows + Count(readings, InRange) + s.highs <= |readings|
    ensures s.timeInRange == if |readings| == 0 then None
                             else Some(100.0 * (Count(readings, InRange) as real) / (|readings| as real))
    ensures s.timeInRange.Some? ==> 0.0 <= s.timeInRange.value <= 100.0
    ensures s.meanGlucose == if |readings| == 0 then None else Some(Total(readings) / (|readings| as real))
    ensures s.lowAdvisory == Advisory(s.lows) && s.highAdvisory == Advisory(s.highs)
  {
    var cgm := new Reading[|readings|](i requires 0 <= i < |readings| => readings[i]);
    assert cgm[..] == readings;
    SortByKey(cgm, Time);
    var sorted := cgm[..];
    var inRange := InRangeColumn(sorted);
    var inCount, lows, highs, total := Tally(sorted);
    CountPermutation(sorted, readings, InRange);
    CountPermutation(sorted, readings, IsLow);
    CountPermutation(sorted, readings, IsHigh);
    TotalPermutation(sorted, readings);
    CountsDisjoint(readings);
    var n := |sorted|;
    var tir, mean := None, None;
    if n > 0 {
      PercentBounds(inCount, n);
      tir := Some(100.0 * (inCount as real) / (n as real));
      mean := Some(total / (n as real));
    }
    s := CgmSummary(sorted, inRange, tir, mean, lows, highs, Advisory(lows), Advisory(highs));
  }

  /** `cgm["glucose_mg_dl"].between(70, 180).astype(int)`: 1 for a reading in range, else 0. */
  method InRangeColumn(rs: seq<Reading>) returns (col: seq<int>)
    ensures |col| == |rs|
    ensures forall k :: 0 <= k < |rs| ==> col[k] == (if InRange(rs[k].glucose) then 1 else 0)
  {
    col := [];
    for i := 0 to |rs|
      invariant |col| == i
      invariant forall k :: 0 <= k < i ==> col[k] == (if InRange(rs[k].glucose) then 1 else 0)
    {
      col := col + [if InRange(rs[i].glucose) then 1 else 0];
    }
  }

  /** One pass over the readings: the number in range (the sum of the `in_range` column), the
      numbers of low and of very high readings, and the sum of the glucose values. */
  method Tally(rs: seq<Reading>) returns (inCount: nat, lows: nat, highs: nat, total: real)
    ensures inCount == Count(rs, InRange)
    ensures lows == Count(rs, IsLow) && highs == Count(rs, IsHigh)
    ensures total == Total(rs)
  {
    inCount, lows, highs, total := 0, 0, 0, 0.0;
    for i := 0 to |rs|
      invariant inCount == Count(rs[..i], InRange)
      invariant lows == Count(rs[..i], IsLow)
      invariant highs == Count(rs[..i], IsHigh)
      invariant total == Total(rs[..i])
    {
      var g := rs[i].glucose;
      assert rs[..i + 1][..i] == rs[..i];
      if InRange(g) { inCount := inCount + 1; }
      if IsLow(g) { lows := lows + 1; }
      if IsHigh(g) { highs := highs + 1; }
      total := total + g;
    }
    assert rs[..|rs|] == rs;
  }

  /** `cv = round(100 * std / mean, 1) if mean_glu else None`, where `mean_glu` is the mean
      rounded to one decimal: the coefficient of variation is withheld exactly when the rounded
      mean is 0. `round1` stands for `round(_, 1)`, which maps 0 to 0, so the guard keeps the
      division away from a zero mean. */
  function CoefficientOfVariation(mean: real, std: real, round1: real -> real): (cv: Option<real>)
    requires round1(0.0) == 0.0
    ensures cv.None? <==> round1(mean) == 0.0
    ensures cv.Some? ==> mean != 0.0 && cv.value == round1(100.0 * std / mean)
  {
    if round1(mean) != 0.0 then Some(round1(100.0 * std / mean)) else None
  }

  // ---------------------------------------------------------------------------------------
  // Lemmas

  /** A percentage of a non-empty table lies between 0 and 100. */
  lemma PercentBounds(c: nat, n: nat)
    requires 0 < n && c <= n
    ensures 0.0 <= 100.0 * (c as real) / (n as real) <= 100.0
  {
    QuotientSign(100.0 * (c as real), n as real);
    QuotientOrder(100.0 * (c as real), 100.0 * (n as real), n as real, n as real);
    assert 100.0 * (n as real) / (n as real) == 100.0;
  }

  /** Counting distributes over concatenation. */
  lemma {:induction false} CountAppend(a: seq<Reading>, b: seq<Reading>, p: real -> bool)
    ensures Count(a + b, p) == Count(a, p) + Count(b, p)
  {
    if b != [] {
      assert (a + b)[..|a + b| - 1] == a + b[..|b| - 1];
      CountAppend(a, b[..|b| - 1], p);
    } else {
      assert a + b == a;
    }
  }

  /** Summing distributes over concatenation. */
  lemma {:induction false} TotalAppend(a: seq<Reading>, b: seq<Reading>)
    ensures Total(a + b) == Total(a) + Total(b)
  {
    if b != [] {
      assert (a + b)[..|a + b| - 1] == a + b[..|b| - 1];
      TotalAppend(a, b[..|b| - 1]);
    } else {
      assert a + b == a;
    }
  }

  /** Taking out the element at index `j` lowers the count by that element's share. */
  lemma CountRemoveAt(b: seq<Reading>, j: nat, p: real -> bool)
    requires j < |b|
    ensures Count(b, p) == Count(b[..j] + b[j + 1..], p) + (if p(b[j].glucose) then 1 else 0)
  {
    var x, front, back := b[j], b[..j], b[j + 1..];
    assert b[..j + 1] == front + [x];
    assert b == b[..j + 1] + back;
    CountMiddle(front, x, back, p);
  }

  /** An element between two pieces adds its own share to the count of the pieces. */
  lemma CountMiddle(front: seq<Reading>, x: Reading, back: seq<Reading>, p: real -> bool)
    ensures Count(front + [x] + back, p) == Count(front + back, p) + (if p(x.glucose) then 1 else 0)
  {
    CountAppend(front + [x], back, p);
    CountAppend(front, [x], p);
    CountAppend(front, back, p);
    assert [x][..0] == [];
  }

  /** Taking out the element at index `j` lowers the total by that element's glucose. */
  lemma TotalRemoveAt(b: seq<Reading>, j: nat)
    requires j < |b|
    ensures Total(b) == Total(b[..j] + b[j + 1..]) + b[j].glucose
  {
    var x := b[j];
    assert b == b[..j] + [x] + b[j + 1..];
    TotalAppend(b[..j] + [x], b[j + 1..]);
    TotalAppend(b[..j], [x]);
    TotalAppend(b[..j], b[j + 1..]);
    assert [x][..0] == [];
  }

  /** The last element of `a` sits at some index `j` of `b`, a permutation of `a`; the rest of
      `a` is then a permutation of `b` without index `j`. */
  lemma LastElementSplit(a: seq<Reading>, b: seq<Reading>) returns (j: nat)
    requires a != [] && multiset(a) == multiset(b)
    ensures j < |b| && b[j] == a[|a| - 1]
    ensures multiset(a[..|a| - 1]) == multiset(b[..j] + b[j + 1..])
  {
    var x := a[|a| - 1];
    assert a == a[..|a| - 1] + [x];
    assert x in multiset(b);
    j :| 0 <= j < |b| && b[j] == x;
    assert b == b[..j] + [x] + b[j + 1..];
    assert multiset(a[..|a| - 1]) == multiset(a) - multiset{x};
    assert multiset(b[..j] + b[j + 1..]) == multiset(b) - multiset{x};
  }

  /** The counts do not depend on the order of the readings, so counting the sorted table
      gives the counts of the input. */
  lemma {:induction false} CountPermutation(a: seq<Reading>, b: seq<Reading>, p: real -> bool)
    requires multiset(a) == multiset(b)
    ensures Count(a, p) == Count(b, p)
    decreases |a|
  {
    if a == [] {
      assert |b| == |multiset(b)| == 0;
    } else {
      var j := LastElementSplit(a, b);
      CountPermutation(a[..|a| - 1], b[..j] + b[j + 1..], p);
      CountRemoveAt(b, j, p);
    }
  }

  /** The total glucose does not depend on the order of the readings. */
  lemma {:induction false} TotalPermutation(a: seq<Reading>, b: seq<Reading>)
    requires multiset(a) == multiset(b)
    ensures Total(a) == Total(b)
    decreases |a|
  {
    if a == [] {
      assert |b| == |multiset(b)| == 0;
    } else {
      var j := LastElementSplit(a, b);
      TotalPermutation(a[..|a| - 1], b[..j] + b[j + 1..]);
      TotalRemoveAt(b, j);
    }
  }

  /** Low, in-range and very high readings are pairwise disjoint, so together they number at
      most the readings. */
  lemma {:induction false} CountsDisjoint(rs: seq<Reading>)
    ensures Count(rs, IsLow) + Count(rs, InRange) + Count(rs, IsHigh) <= |rs|
  {
    if rs != [] {
      CountsDisjoint(rs[..|rs| - 1]);
    }
  }

  /** Some reading satisfies `p` exactly when the count is at least one. */
  lemma {:induction false} CountPositive(rs: seq<Reading>, p: real -> bool)
    ensures Count(rs, p) >= 1 <==> exists i :: 0 <= i < |rs| && p(rs[i].glucose)
  {
    if rs != [] {
      var front := rs[..|rs| - 1];
      CountPositive(front, p);
      if exists i :: 0 <= i < |front| && p(front[i].glucose) {
        var i :| 0 <= i < |front| && p(front[i].glucose);
        assert rs[i] == front[i];
      }
      if exists i :: 0 <= i < |rs| && p(rs[i].glucose) {
        var i :| 0 <= i < |rs| && p(rs[i].glucose);
        if i < |front| {
          assert front[i] == rs[i];
        }
      }
    }
  }

  /** The advisory for a threshold is raised exactly when two different readings cross it: one
      low reading alone raises no low advisory. */
  lemma {:induction false} AdvisoryIffTwoReadings(rs: seq<Reading>, p: real -> bool)
    ensures Advisory(Count(rs, p)) <==>
            exists i, j :: 0 <= i < j < |rs| && p(rs[i].glucose) && p(rs[j].glucose)
  {
    if rs != [] {
      var front := rs[..|rs| - 1];
      var last := |rs| - 1;
      AdvisoryIffTwoReadings(front, p);
      CountPositive(front, p);
      if exists i, j :: 0 <= i < j < |rs| && p(rs[i].glucose) && p(rs[j].glucose) {
        var i, j :| 0 <= i < j < |rs| && p(rs[i].glucose) && p(rs[j].glucose);
        assert rs[i] == front[i];
        if j < last {
          assert rs[j] == front[j];
        }
      }
      if exists i, j :: 0 <= i < j < |front| && p(front[i].glucose) && p(front[j].glucose) {
        var i, j :| 0 <= i < j < |front| && p(front[i].glucose) && p(front[j].glucose);
        assert rs[i] == front[i] && rs[j] == front[j];
      }
      if Count(front, p) >= 1 && p(rs[last].glucose) {
        var i :| 0 <= i < |front| && p(front[i].glucose);
        assert rs[i] == front[i];
      }
    }
  }
}
