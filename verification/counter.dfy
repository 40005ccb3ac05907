/** Counter: a named 64-bit accumulator with an insertion-ordered snapshot
    log (label -> value) and an optional step series. */
module Counters {
  import opened Wrappers
  import opened Ints
  import Series
  import Dict

  /** `flushCount` is the internal `_count` that only numbers the files of
      ResetAndFlushCounterToDisk. */
  datatype Counter = Counter(
    name: string,
    value: Int64,
    snapshots: Dict.Dict<string, Int64>,
    series: Option<Series.StepSeries>,
    flushCount: Int64)

  /** The constructor: the name, a zero value, no snapshot log, no series. */
  function New(name: string): (c: Counter)
    ensures c.name == name && c.value == 0 && c.snapshots == [] && c.series == None && c.flushCount == 0
  {
    Counter(name, 0, [], None, 0)
  }

  /** Interlocked.Add: adds `amount` with 64-bit wrap-around and returns the new value. */
  function Increment(c: Counter, amount: Int64): (r: (Counter, Int64))
    ensures r.0.value == r.1 == Wrap64(c.value + amount)
    ensures r.0.name == c.name && r.0.snapshots == c.snapshots && r.0.series == c.series && r.0.flushCount == c.flushCount
    ensures (c.value + amount - r.1) % TWO_64 == 0
    ensures MIN_INT64 <= c.value + amount <= MAX_INT64 ==> r.1 == c.value + amount
  {
    var v := Wrap64(c.value + amount);
    (c.(value := v), v)
  }

  lemma IncrementValue(c: Counter, v: Int64, amount: Int64)
    requires c.value == v
    ensures Increment(c, amount).0.value == Wrap64(v + amount)
  {
  }

  /** Interlocked.Exchange: the value becomes `value` (zero by default), whatever it was. */
  function Reset(c: Counter, value: Int64 := 0): (r: Counter)
    ensures r.value == value
    ensures r.name == c.name && r.snapshots == c.snapshots && r.series == c.series && r.flushCount == c.flushCount
  {
    c.(value := value)
  }

  /** `_count++` in ResetAndFlushCounterToDisk: unchecked, so past 2^63 - 1 it wraps to -2^63. */
  function CountFlush(c: Counter): (r: Counter)
    ensures r.flushCount == Wrap64(c.flushCount + 1)
    ensures c.flushCount < MAX_INT64 ==> r.flushCount == c.flushCount + 1
    ensures r.name == c.name && r.value == c.value && r.snapshots == c.snapshots && r.series == c.series
  {
    c.(flushCount := Wrap64(c.flushCount + 1))
  }

  /** OrderedDictionary.Add(tag, value): appends (tag, current value) to the
      log; a tag already in the log throws. The value is never touched. */
  function Snapshot(c: Counter, tag: string): (r: Result<Counter, Dict.DuplicateKey<string>>)
    ensures r.Err? <==> Dict.HasKey(c.snapshots, tag)
    ensures r.Ok? ==> r.value.snapshots == c.snapshots + [(tag, c.value)]
    ensures r.Ok? ==> r.value.value == c.value && r.value.name == c.name && r.value.series == c.series
    ensures r.Ok? ==> r.value.flushCount == c.flushCount
    ensures r.Ok? && Dict.Wf(c.snapshots) ==> Dict.Wf(r.value.snapshots)
  {
    match Dict.Add(c.snapshots, tag, c.value)
    case Err(e) => Err(e)
    case Ok(log) => Ok(c.(snapshots := log))
  }

  /** A non-positive interval only logs an error. Otherwise a fresh series is
      installed; an existing one is reported but still replaced. */
  function CaptureStepSeries(c: Counter, intervalSeconds: Int32): (r: Counter)
    ensures intervalSeconds <= 0 ==> r == c
    ensures intervalSeconds > 0 ==>
      && r.series.Some?
      && r.series.value.unit == Series.Seconds
      && r.series.value.interval == intervalSeconds
      && r.series.value.countdown == 0
      && r.series.value.values == [c.value]
    ensures r.name == c.name && r.value == c.value && r.snapshots == c.snapshots && r.flushCount == c.flushCount
  {
    if intervalSeconds <= 0 then c
    else c.(series := Some(Series.Create(Series.Seconds, intervalSeconds, Some(c.value))))
  }

  /** An EverySecond notification reaching this counter's series, which reads
      the counter's current value. */
  function TickSeries(c: Counter): (r: Counter)
    ensures r.name == c.name && r.value == c.value && r.snapshots == c.snapshots && r.flushCount == c.flushCount
    ensures c.series.None? <==> r.series.None?
    ensures c.series.Some? ==> r.series.value == Series.Tick(c.series.value, Some(c.value))
  {
    match c.series
    case None => c
    case Some(s) => c.(series := Some(Series.Tick(s, Some(c.value))))
  }

  /** `k` EverySecond notifications in a row; the value does not change in between. */
  function TickSeriesTimes(c: Counter, k: nat): (r: Counter)
    ensures r.name == c.name && r.value == c.value && r.snapshots == c.snapshots && r.flushCount == c.flushCount
    ensures c.series.None? ==> r == c
    ensures c.series.Some? ==> r.series.Some? && r.series.value.interval == c.series.value.interval
  {
    if k == 0 then c else TickSeries(TickSeriesTimes(c, k - 1))
  }

  function Sum(amounts: seq<Int64>): int
  {
    if |amounts| == 0 then 0 else Sum(amounts[..|amounts| - 1]) + amounts[|amounts| - 1]
  }

  /** The counter after Increment(a1), ..., Increment(an) in order. */
  function IncrementAll(c: Counter, amounts: seq<Int64>): Counter
  {
    if |amounts| == 0 then c else Increment(IncrementAll(c, amounts[..|amounts| - 1]), amounts[|amounts| - 1]).0
  }

  /** Increments accumulate: from a fresh counter the value is the 64-bit
      wrap of the sum of the amounts (the exact sum when it fits). */
  lemma {:induction false} IncrementsSum(name: string, amounts: seq<Int64>)
    ensures IncrementAll(New(name), amounts).value == Wrap64(Sum(amounts))
  {
    if |amounts| > 0 {
      var last := |amounts| - 1;
      IncrementsSum(name, amounts[..last]);
      Wrap64Add(Sum(amounts[..last]), amounts[last]);
      var r := Increment(IncrementAll(New(name), amounts[..last]), amounts[last]);
      Wrap64Unique(Sum(amounts), r.1);
    }
  }

  /** Reset(v) then Increment(a) leaves v + a (wrapped to 64 bits). */
  lemma ResetThenIncrement(c: Counter, v: Int64, a: Int64)
    ensures Increment(Reset(c, v), a).1 == Wrap64(v + a)
  {
    Wrap64Unique(v + a, Increment(Reset(c, v), a).1);
  }
}
