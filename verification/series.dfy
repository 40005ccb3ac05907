/** StepSeries: a countdown sampler that appends its counter's value every
    `interval` ticks of the once-per-second clock. */
module Series {
  import opened Wrappers
  import opened Ints

  /** StepSeriesInterval: seconds is the only unit the source defines. */
  datatype Unit = Seconds

  /** `interval` is the reset amount, `countdown` the ticks left before the
      next capture, `values` the captured counter values, oldest first. */
  datatype StepSeries = StepSeries(unit: Unit, interval: Int32, countdown: Int32, values: seq<Int64>)

  /** Appends the owning counter's current value; with no owning counter
      (a null reference) nothing is captured. */
  function CaptureValue(s: StepSeries, owner: Option<Int64>): (r: StepSeries)
    ensures r.unit == s.unit && r.interval == s.interval && r.countdown == s.countdown
    ensures owner.Some? ==> r.values == s.values + [owner.value]
    ensures owner.None? ==> r.values == s.values
  {
    match owner
    case None => s
    case Some(v) => s.(values := s.values + [v])
  }

  /** The constructor: the countdown keeps its default of zero and the
      owner's value is captured once, before any tick. */
  function Create(unit: Unit, intervalAmount: Int32, owner: Option<Int64>): (s: StepSeries)
    ensures s.unit == unit && s.interval == intervalAmount && s.countdown == 0
    ensures owner.Some? ==> s.values == [owner.value]
    ensures owner.None? ==> s.values == []
  {
    CaptureValue(StepSeries(unit, intervalAmount, 0, []), owner)
  }

  /** One EverySecond notification: the countdown drops by one (as a 32-bit
      int) and, once it is at or below zero, is reset to the interval and the
      owner's value is captured. */
  function Tick(s: StepSeries, owner: Option<Int64>): (r: StepSeries)
    ensures r.unit == s.unit && r.interval == s.interval
    ensures |s.values| <= |r.values| <= |s.values| + 1 && r.values[..|s.values|] == s.values
    ensures |r.values| > |s.values| ==> owner.Some? && r.values[|s.values|] == owner.value
    ensures owner.None? ==> r.values == s.values
    ensures owner.Some? ==> (|r.values| > |s.values| <==> MIN_INT32 < s.countdown <= 1)
    ensures MIN_INT32 < s.countdown <= 1 ==> r.countdown == s.interval
    ensures !(MIN_INT32 < s.countdown <= 1) ==> r.countdown == Wrap32(s.countdown - 1)
  {
    var left := if s.countdown == MIN_INT32 then MAX_INT32 else s.countdown - 1;
    if left <= 0 then CaptureValue(s.(countdown := s.interval), owner)
    else s.(countdown := left)
  }

  /** The series after one tick per element of `owners`, the counter holding
      that element's value at that tick. */
  function Ticks(s: StepSeries, owners: seq<Int64>): StepSeries
  {
    if |owners| == 0 then s else Tick(Ticks(s, owners[..|owners| - 1]), Some(owners[|owners| - 1]))
  }

  /** The countdown starts at zero, so the very first tick already captures. */
  lemma FirstTickCaptures(unit: Unit, interval: Int32, v: Int64, w: Int64)
    ensures Tick(Create(unit, interval, Some(v)), Some(w)).values == [v, w]
  {
  }

  /** A positive multiple of a positive number is at least that number. */
  lemma {:induction false} MulAtLeast(n: int, d: int)
    requires n > 0 && d >= 1
    ensures n * d >= n
  {
    if d > 1 {
      MulAtLeast(n, d - 1);
      assert n * d == n * (d - 1) + n;
    }
  }

  /** Euclidean division by a positive number is determined by quotient and remainder. */
  lemma DivModUnique(a: int, n: int, q: int, r: int)
    requires n > 0 && 0 <= r < n && a == n * q + r
    ensures a / n == q && a % n == r
  {
    var q' := a / n;
    var r' := a % n;
    assert a == n * q' + r';
    assert n * (q - q') == r' - r;
    if q > q' {
      MulAtLeast(n, q - q');
    } else if q < q' {
      MulAtLeast(n, q' - q);
    }
  }

  /** Quotient and remainder of `k + 1` from those of `k`. */
  lemma DivModStep(k: nat, n: int)
    requires n >= 1
    ensures k % n == n - 1 ==> (k + 1) / n == k / n + 1 && (k + 1) % n == 0
    ensures k % n != n - 1 ==> (k + 1) / n == k / n && (k + 1) % n == k % n + 1
  {
    var q := k / n;
    var r := k % n;
    assert k == n * q + r;
    if r == n - 1 {
      assert k + 1 == n * (q + 1) + 0;
      DivModUnique(k + 1, n, q + 1, 0);
    } else {
      DivModUnique(k + 1, n, q, r + 1);
    }
  }

  /** values[i], for i >= 1, is the counter value of tick 1 + (i-1)*n. */
  ghost predicate Sampled(values: seq<Int64>, n: int, owners: seq<Int64>)
  {
    forall i :: 1 <= i < |values| ==> 0 <= SampleTick(i, n) < |owners| && values[i] == owners[SampleTick(i, n)]
  }

  /** The tick, counted from 0, whose value is values[i]. */
  function SampleTick(i: int, n: int): int
  {
    (i - 1) * n
  }

  lemma SampledExtend(values: seq<Int64>, n: int, owners: seq<Int64>)
    requires |owners| >= 1 && Sampled(values, n, owners[..|owners| - 1])
    ensures Sampled(values, n, owners)
  {
    var prefix := owners[..|owners| - 1];
    forall i | 1 <= i < |values|
      ensures 0 <= SampleTick(i, n) < |owners| && values[i] == owners[SampleTick(i, n)]
    {
      var j := SampleTick(i, n);
      assert 0 <= j < |prefix| && values[i] == prefix[j];
      assert prefix[j] == owners[j];
    }
  }

  lemma SampledAppend(values: seq<Int64>, n: int, owners: seq<Int64>)
    requires |values| >= 1 && |owners| >= 1 && Sampled(values, n, owners)
    requires (|values| - 1) * n == |owners| - 1
    ensures Sampled(values + [owners[|owners| - 1]], n, owners)
  {
    var extended := values + [owners[|owners| - 1]];
    forall i | 1 <= i < |extended|
      ensures 0 <= SampleTick(i, n) < |owners| && extended[i] == owners[SampleTick(i, n)]
    {
      if i < |values| {
        assert extended[i] == values[i];
      } else {
        assert i - 1 == |values| - 1;
      }
    }
  }

  /** The state of a series of interval `n` created with value `v` after one
      tick per element of `owners` (at least one): see TicksSchedule. */
  ghost predicate Scheduled(r: StepSeries, unit: Unit, n: Int32, v: Int64, owners: seq<Int64>)
    requires n >= 1 && |owners| >= 1
  {
    && r.unit == unit && r.interval == n
    && r.countdown == n - (|owners| - 1) % n
    && |r.values| == 2 + (|owners| - 1) / n
    && r.values[0] == v
    && Sampled(r.values, n, owners)
  }

  lemma ScheduleStep(p: StepSeries, unit: Unit, n: Int32, v: Int64, owners: seq<Int64>)
    requires n >= 1 && |owners| >= 2
    requires Scheduled(p, unit, n, v, owners[..|owners| - 1])
    ensures Scheduled(Tick(p, Some(owners[|owners| - 1])), unit, n, v, owners)
  {
    var k := |owners| - 1;
    var r := Tick(p, Some(owners[k]));
    DivModStep(k - 1, n);
    SampledExtend(p.values, n, owners);
    if (k - 1) % n == n - 1 {
      assert p.countdown == 1;
      assert r.values == p.values + [owners[k]];
      var q := k / n;
      assert k == n * q by {
        assert k == n * (k / n) + k % n;
      }
      assert |p.values| - 1 == q;
      SampledAppend(p.values, n, owners);
    } else {
      assert p.countdown > 1;
      assert r.values == p.values;
    }
  }

  /** For an interval N >= 1, after k >= 1 ticks the series holds 2 + (k-1)/N
      values: the construction-time value, then the counter's value at ticks
      1, 1+N, 1+2N, ...; the countdown is N - (k-1)%N. */
  lemma {:induction false} TicksSchedule(unit: Unit, n: Int32, v: Int64, owners: seq<Int64>)
    requires n >= 1 && |owners| >= 1
    ensures Scheduled(Ticks(Create(unit, n, Some(v)), owners), unit, n, v, owners)
  {
    var s0 := Create(unit, n, Some(v));
    var k := |owners| - 1;
    if k == 0 {
      assert Ticks(s0, owners[..0]) == s0;
    } else {
      TicksSchedule(unit, n, v, owners[..k]);
      ScheduleStep(Ticks(s0, owners[..k]), unit, n, v, owners);
    }
  }
}
