/** GameSimManager's counter registry: lazily created counters keyed by name,
    a shutdown flag that blocks mutation, unique snapshot labels, step-series
    enabling with a 15-second minimum, and numbered flushes. Each public
    operation is one atomic step; the lock and Interlocked calls are not modelled. */
module SimManager {
  import opened Wrappers
  import opened Ints
  import Decimal
  import Dict
  import Series
  import Counters
  import Clock

  type Counter = Counters.Counter

  /** `counters` is `_counters` in enumeration order, `labels` is
      `_snapshotLabels`, `sequence` is `_countersSequence`, and `clock` is
      the TickManager singleton. */
  datatype Manager = Manager(
    counters: Dict.Dict<string, Counter>,
    labels: set<string>,
    shuttingDown: bool,
    sequence: nat,
    clock: Clock.Clock)

  const Initial: Manager := Manager([], {}, false, 0, Clock.Initial)

  /** CaptureStepSeries raises smaller intervals to this. */
  const MIN_STEP_INTERVAL: Int32 := 15

  /** Run metadata; the settings string is absent when no supplier is registered. */
  datatype Metadata = Metadata(instanceId: string, attemptId: string, gameSimSettings: Option<string>)

  /** The document of a flush: the metadata and every registered counter. */
  datatype CountersData = CountersData(metadata: Metadata, items: seq<Counter>)

  /** What a flush hands to the file writer. */
  datatype CountersFile = CountersFile(fileName: string, data: CountersData)

  /** What ResetAndFlushCounterToDisk hands to the file writer: the file
      name and the JSON text of the counter. */
  datatype CounterText = CounterText(fileName: string, json: string)

  /** The file ResetAndFlushCounterToDisk evidently means to write: the
      counter itself, under the same name. */
  datatype CounterFile = CounterFile(fileName: string, counter: Counter)

  function Lookup(m: Manager, name: string): Option<Counter>
  {
    Dict.Get(m.counters, name)
  }

  /** The value a counter has before an operation, a lazily created one starting at 0. */
  function ValueOf(m: Manager, name: string): Int64
  {
    match Lookup(m, name)
    case None => 0
    case Some(c) => c.value
  }

  ghost predicate CounterOk(name: string, c: Counter, labels: set<string>)
  {
    && c.name == name
    && Dict.Wf(c.snapshots)
    && forall j :: 0 <= j < |c.snapshots| ==> c.snapshots[j].0 in labels
  }

  /** The registry invariant: one entry per name, each counter carrying its
      own name, and every snapshot label recorded as used. */
  ghost predicate Valid(m: Manager)
  {
    && Dict.Wf(m.counters)
    && forall n :: Lookup(m, n).Some? ==> CounterOk(n, Lookup(m, n).value, m.labels)
  }

  /** A registry without counters is valid, whatever labels it has used. */
  lemma EmptyValid(m: Manager)
    requires m.counters == []
    ensures Valid(m)
  {
    forall n ensures Lookup(m, n).None? {
      assert !Dict.HasKey(m.counters, n);
    }
  }

  lemma InitialValid()
    ensures Valid(Initial)
  {
    EmptyValid(Initial);
  }

  /** After writing a counter that carries its own name and only used
      labels, every entry still satisfies the registry invariant. */
  lemma StoreLookupOk(m: Manager, name: string, c: Counter, n: string)
    requires Valid(m) && CounterOk(name, c, m.labels)
    ensures var r := Dict.Set(m.counters, name, c);
      Dict.Get(r, n).Some? ==> CounterOk(n, Dict.Get(r, n).value, m.labels)
  {
    if n != name {
      assert Dict.Get(Dict.Set(m.counters, name, c), n) == Lookup(m, n);
    }
  }

  /** Writing a counter that carries its own name and only used labels keeps the registry valid. */
  lemma StoreValid(m: Manager, name: string, c: Counter)
    ensures Valid(m) && CounterOk(name, c, m.labels) ==> Valid(m.(counters := Dict.Set(m.counters, name, c)))
  {
    if Valid(m) && CounterOk(name, c, m.labels) {
      var r := m.(counters := Dict.Set(m.counters, name, c));
      forall n | Lookup(r, n).Some? ensures CounterOk(n, Lookup(r, n).value, r.labels) {
        StoreLookupOk(m, name, c, n);
      }
    }
  }

  /** `_counters[name] = c`. */
  function Store(m: Manager, name: string, c: Counter): (r: Manager)
    ensures Lookup(r, name) == Some(c)
    ensures forall n :: n != name ==> Lookup(r, n) == Lookup(m, n)
    ensures r == m.(counters := r.counters)
    ensures Lookup(m, name).Some? ==> Dict.Keys(r.counters) == Dict.Keys(m.counters)
    ensures Valid(m) && CounterOk(name, c, m.labels) ==> Valid(r)
  {
    StoreValid(m, name, c);
    m.(counters := Dict.Set(m.counters, name, c))
  }

  /** Returns the counter registered under `name`, registering a new zero
      counter first when there is none. Nothing is ever removed. */
  function GetCounter(m: Manager, name: string): (r: (Manager, Counter))
    ensures Lookup(r.0, name) == Some(r.1)
    ensures Lookup(m, name).Some? ==> r == (m, Lookup(m, name).value)
    ensures Lookup(m, name).None? ==> r.1 == Counters.New(name)
    ensures Lookup(m, name).None? ==> Dict.Keys(r.0.counters) == Dict.Keys(m.counters) + [name]
    ensures forall n :: n != name ==> Lookup(r.0, n) == Lookup(m, n)
    ensures r.0 == m.(counters := r.0.counters)
    ensures Valid(m) ==> Valid(r.0) && r.1.name == name
  {
    match Lookup(m, name)
    case Some(c) => (m, c)
    case None =>
      var c := Counters.New(name);
      assert CounterOk(name, c, m.labels);
      assert !Dict.HasKey(m.counters, name);
      (Store(m, name, c), c)
  }

  /** The incremented counter holds the old value plus `amount`, wrapped. */
  lemma IncrementedValue(m: Manager, name: string, amount: Int64)
    ensures var (m1, c) := GetCounter(m, name);
      Lookup(Store(m1, name, Counters.Increment(c, amount).0), name) == Some(Counters.Increment(c, amount).0)
      && Counters.Increment(c, amount).0.value == Wrap64(ValueOf(m, name) + amount)
  {
    var (m1, c) := GetCounter(m, name);
    var v := ValueOf(m, name);
    assert c.value == v by {
      if Lookup(m, name).None? {
        assert c == Counters.New(name);
      }
    }
    Counters.IncrementValue(c, v, amount);
  }

  /** Adds `amount` to the named counter (creating it) unless shutting down,
      in which case nothing at all changes. */
  function IncrementCounter(m: Manager, name: string, amount: Int64): (r: Manager)
    ensures m.shuttingDown ==> r == m
    ensures !m.shuttingDown ==> Lookup(r, name).Some? && Lookup(r, name).value.value == Wrap64(ValueOf(m, name) + amount)
    ensures !m.shuttingDown ==> Lookup(r, name) == Some(Counters.Increment(GetCounter(m, name).1, amount).0)
    ensures !m.shuttingDown ==> forall n :: n != name ==> Lookup(r, n) == Lookup(m, n)
    ensures Dict.Keys(r.counters) == if m.shuttingDown || Lookup(m, name).Some? then Dict.Keys(m.counters) else Dict.Keys(m.counters) + [name]
    ensures r == m.(counters := r.counters)
    ensures Valid(m) ==> Valid(r)
  {
    if m.shuttingDown then m
    else
      IncrementedValue(m, name, amount);
      var (m1, c) := GetCounter(m, name);
      Store(m1, name, Counters.Increment(c, amount).0)
  }

  /** Sets the named counter (creating it) to `value` unless shutting down. */
  function SetCounter(m: Manager, name: string, value: Int64): (r: Manager)
    ensures m.shuttingDown ==> r == m
    ensures !m.shuttingDown ==> Lookup(r, name).Some? && Lookup(r, name).value.value == value
    ensures !m.shuttingDown ==> Lookup(r, name) == Some(Counters.Reset(GetCounter(m, name).1, value))
    ensures !m.shuttingDown ==> forall n :: n != name ==> Lookup(r, n) == Lookup(m, n)
    ensures Dict.Keys(r.counters) == if m.shuttingDown || Lookup(m, name).Some? then Dict.Keys(m.counters) else Dict.Keys(m.counters) + [name]
    ensures r == m.(counters := r.counters)
    ensures Valid(m) ==> Valid(r)
  {
    if m.shuttingDown then m
    else
      var (m1, c) := GetCounter(m, name);
      var c1 := Counters.Reset(c, value);
      assert Lookup(m1, name) == Some(c) && c.value == ValueOf(m, name);
      assert Valid(m) ==> CounterOk(name, c1, m1.labels);
      Store(m1, name, c1)
  }

  /** Sets the named counter to zero unless shutting down. */
  function ResetCounter(m: Manager, name: string): (r: Manager)
    ensures m.shuttingDown ==> r == m
    ensures !m.shuttingDown ==> Lookup(r, name).Some? && Lookup(r, name).value.value == 0
    ensures !m.shuttingDown ==> Lookup(r, name) == Some(Counters.Reset(GetCounter(m, name).1, 0))
    ensures !m.shuttingDown ==> forall n :: n != name ==> Lookup(r, n) == Lookup(m, n)
    ensures Dict.Keys(r.counters) == if m.shuttingDown || Lookup(m, name).Some? then Dict.Keys(m.counters) else Dict.Keys(m.counters) + [name]
    ensures r == m.(counters := r.counters)
    ensures r == SetCounter(m, name, 0)
    ensures Valid(m) ==> Valid(r)
  {
    SetCounter(m, name, 0)
  }

  /** `tag + '-' + i`. */
  function Suffixed(tag: string, i: nat): string
  {
    tag + "-" + Decimal.NatToString(i)
  }

  lemma SuffixedInjective(tag: string, i: nat, j: nat)
    requires Suffixed(tag, i) == Suffixed(tag, j)
    ensures i == j
  {
    var a := Suffixed(tag, i);
    assert a[|tag| + 1..] == Decimal.NatToString(i);
    assert Suffixed(tag, j)[|tag| + 1..] == Decimal.NatToString(j);
    Decimal.NatToStringInjective(i, j);
  }

  /** Pigeonhole: `used` cannot hold more distinct suffixed labels than it has elements. */
  lemma {:induction false} UsedBound(tag: string, used: set<string>, i: nat)
    requires forall j :: 0 <= j < i ==> Suffixed(tag, j) in used
    ensures i <= |used|
  {
    if i > 0 {
      var x := Suffixed(tag, i - 1);
      var rest := used - {x};
      forall j | 0 <= j < i - 1
        ensures Suffixed(tag, j) in rest
      {
        if Suffixed(tag, j) == x {
          SuffixedInjective(tag, j, i - 1);
        }
      }
      UsedBound(tag, rest, i - 1);
    }
  }

  /** The loop `while (used.Contains(tag-i)) i++`, started at `i`: the first
      unused suffix. It terminates because `used` is finite. */
  function FirstFree(tag: string, used: set<string>, i: nat): (r: nat)
    requires forall j :: 0 <= j < i ==> Suffixed(tag, j) in used
    ensures i <= r && Suffixed(tag, r) !in used
    ensures forall j :: 0 <= j < r ==> Suffixed(tag, j) in used
    decreases |used| - i
  {
    UsedBound(tag, used, i);
    if Suffixed(tag, i) !in used then i
    else
      UsedBound(tag, used, i + 1);
      FirstFree(tag, used, i + 1)
  }

  /** The label SnapshotCounters uses: `tag` if unused, else the first unused
      of tag-0, tag-1, ... */
  function UniqueLabel(used: set<string>, tag: string): (r: string)
    ensures r !in used
    ensures tag !in used ==> r == tag
    ensures tag in used ==> r == Suffixed(tag, FirstFree(tag, used, 0))
  {
    if tag !in used then tag else Suffixed(tag, FirstFree(tag, used, 0))
  }

  /** Snapshot of every counter under `tag`, in enumeration order; the first
      counter already holding `tag` throws. */
  function SnapshotAll(d: Dict.Dict<string, Counter>, tag: string): (r: Result<Dict.Dict<string, Counter>, Dict.DuplicateKey<string>>)
    ensures r.Ok? ==> |r.value| == |d|
    ensures r.Ok? ==> forall i :: 0 <= i < |d| ==> r.value[i].0 == d[i].0 && Counters.Snapshot(d[i].1, tag) == Ok(r.value[i].1)
    ensures (forall i :: 0 <= i < |d| ==> !Dict.HasKey(d[i].1.snapshots, tag)) <==> r.Ok?
  {
    if |d| == 0 then Ok([])
    else
      match Counters.Snapshot(d[0].1, tag)
      case Err(e) => Err(e)
      case Ok(c) =>
        match SnapshotAll(d[1..], tag)
        case Err(e) => Err(e)
        case Ok(rest) => Ok([(d[0].0, c)] + rest)
  }

  /** After a successful sweep each counter has gained exactly (tag, its value). */
  lemma SweepLookup(d: Dict.Dict<string, Counter>, tag: string, cs: Dict.Dict<string, Counter>, n: string)
    requires SnapshotAll(d, tag) == Ok(cs) && Dict.Get(d, n).Some?
    ensures var c := Dict.Get(d, n).value;
            Dict.Get(cs, n) == Some(c.(snapshots := c.snapshots + [(tag, c.value)]))
            && Counters.Snapshot(c, tag) == Ok(Dict.Get(cs, n).value)
  {
    assert Dict.Keys(cs) == Dict.Keys(d);
    Dict.FindSameKeys(cs, d, n);
  }

  /** A successful sweep keeps the keys and extends every counter's log. */
  lemma SweepLookupAll(m: Manager, tag: string, cs: Dict.Dict<string, Counter>)
    requires SnapshotAll(m.counters, tag) == Ok(cs)
    ensures Dict.Keys(cs) == Dict.Keys(m.counters)
    ensures forall n :: Lookup(m, n).Some? ==>
      var c := Lookup(m, n).value;
      Dict.Get(cs, n) == Some(c.(snapshots := c.snapshots + [(tag, c.value)]))
  {
    forall n | Lookup(m, n).Some? ensures
      var c := Lookup(m, n).value;
      Dict.Get(cs, n) == Some(c.(snapshots := c.snapshots + [(tag, c.value)]))
    {
      SweepLookup(m.counters, tag, cs, n);
    }
    assert Dict.Keys(cs) == Dict.Keys(m.counters);
  }

  /** In a valid registry no counter holds an unused label, so the sweep cannot throw. */
  lemma SweepSucceeds(m: Manager, tag: string)
    requires tag !in m.labels
    ensures Valid(m) ==> SnapshotAll(m.counters, tag).Ok?
  {
    if Valid(m) {
      forall i | 0 <= i < |m.counters| ensures !Dict.HasKey(m.counters[i].1.snapshots, tag) {
        var n := m.counters[i].0;
        Dict.WfFind(m.counters, i);
        assert Lookup(m, n) == Some(m.counters[i].1);
      }
    }
  }

  lemma SnapshotKeepsOk(n: string, c: Counter, labels: set<string>, tag: string)
    requires CounterOk(n, c, labels) && Counters.Snapshot(c, tag).Ok?
    ensures CounterOk(n, Counters.Snapshot(c, tag).value, labels + {tag})
  {
    var c' := Counters.Snapshot(c, tag).value;
    forall j | 0 <= j < |c'.snapshots| ensures c'.snapshots[j].0 in labels + {tag} {
      if j < |c.snapshots| {
        assert c'.snapshots[j] == c.snapshots[j];
      }
    }
  }

  lemma SweepValid(m: Manager, tag: string, cs: Dict.Dict<string, Counter>)
    requires SnapshotAll(m.counters, tag) == Ok(cs)
    ensures Valid(m) ==> Valid(m.(counters := cs, labels := m.labels + {tag}))
  {
    if Valid(m) {
      var r := m.(counters := cs, labels := m.labels + {tag});
      assert Dict.Keys(cs) == Dict.Keys(m.counters);
      Dict.WfSameKeys(m.counters, cs);
      forall n | Lookup(r, n).Some? ensures CounterOk(n, Lookup(r, n).value, r.labels) {
        Dict.FindSameKeys(cs, m.counters, n);
        var c := Lookup(m, n).value;
        assert CounterOk(n, c, m.labels);
        SweepLookup(m.counters, tag, cs, n);
        SnapshotKeepsOk(n, c, m.labels, tag);
      }
    }
  }

  /** Records `chosen` as used and snapshots every counter under it. */
  function Sweep(m: Manager, chosen: string): (r: Result<Manager, Dict.DuplicateKey<string>>)
    ensures r.Ok? ==> r.value == m.(counters := r.value.counters, labels := m.labels + {chosen})
    ensures r.Ok? ==> Dict.Keys(r.value.counters) == Dict.Keys(m.counters)
    ensures r.Ok? ==> forall n :: Lookup(m, n).Some? ==>
      var c := Lookup(m, n).value;
      Lookup(r.value, n) == Some(c.(snapshots := c.snapshots + [(chosen, c.value)]))
    ensures r.Ok? && Valid(m) ==> Valid(r.value)
    ensures chosen !in m.labels && Valid(m) ==> r.Ok?
  {
    match SnapshotAll(m.counters, chosen)
    case Err(e) =>
      if chosen !in m.labels then SweepSucceeds(m, chosen); Err(e) else Err(e)
    case Ok(cs) =>
      SweepValid(m, chosen, cs);
      SweepLookupAll(m, chosen, cs);
      Ok(m.(counters := cs, labels := m.labels + {chosen}))
  }

  /** Picks a label never used before, records it, and appends it with the
      current value to every registered counter's log. Not blocked by shutdown. */
  function SnapshotCounters(m: Manager, tag: string): (r: Result<Manager, Dict.DuplicateKey<string>>)
    ensures r.Ok? ==> r.value.labels == m.labels + {UniqueLabel(m.labels, tag)}
    ensures r.Ok? ==> r.value == m.(counters := r.value.counters, labels := r.value.labels)
    ensures r.Ok? ==> Dict.Keys(r.value.counters) == Dict.Keys(m.counters)
    ensures r.Ok? ==> forall n :: Lookup(m, n).Some? ==>
      var c := Lookup(m, n).value;
      Lookup(r.value, n) == Some(c.(snapshots := c.snapshots + [(UniqueLabel(m.labels, tag), c.value)]))
    ensures Valid(m) ==> r.Ok? && Valid(r.value)
  {
    Sweep(m, UniqueLabel(m.labels, tag))
  }

  /** Validity depends on the registry and the used labels only. */
  lemma ValidOtherFields(m: Manager, r: Manager)
    requires r.counters == m.counters && r.labels == m.labels
    ensures Valid(m) ==> Valid(r)
  {
    if Valid(m) {
      forall n | Lookup(r, n).Some? ensures CounterOk(n, Lookup(r, n).value, r.labels) {
        assert Lookup(r, n) == Lookup(m, n);
      }
    }
  }

  /** Applying a name- and log-preserving update to every counter keeps the
      registry's names and its validity. */
  lemma MapCounters(m: Manager, f: Counter -> Counter)
    requires forall c: Counter :: f(c).name == c.name && f(c).snapshots == c.snapshots
    ensures var r := m.(counters := Dict.MapValues(m.counters, f));
      && (forall n :: Lookup(r, n) == (match Lookup(m, n) case None => None case Some(c) => Some(f(c))))
      && (Valid(m) ==> Valid(r))
  {
    var r := m.(counters := Dict.MapValues(m.counters, f));
    forall n ensures Lookup(r, n) == (match Lookup(m, n) case None => None case Some(c) => Some(f(c))) {
      Dict.MapValuesGet(m.counters, f, n);
    }
    if Valid(m) {
      Dict.WfSameKeys(m.counters, r.counters);
      forall n | Lookup(r, n).Some? ensures CounterOk(n, Lookup(r, n).value, r.labels) {
        assert Lookup(m, n).Some?;
      }
    }
  }

  /** Raises an interval below 15 seconds to 15, registers the counter if
      needed, installs a fresh series on it and enables the clock. Not
      blocked by shutdown. */
  function CaptureStepSeries(m: Manager, intervalSeconds: Int32, name: string): (r: Manager)
    ensures Lookup(r, name).Some?
    ensures var c := Lookup(r, name).value;
      && c.value == ValueOf(m, name)
      && c.series.Some?
      && c.series.value.interval >= MIN_STEP_INTERVAL
      && (intervalSeconds >= MIN_STEP_INTERVAL ==> c.series.value.interval == intervalSeconds)
      && (intervalSeconds < MIN_STEP_INTERVAL ==> c.series.value.interval == MIN_STEP_INTERVAL)
      && c.series.value.countdown == 0
      && c.series.value.values == [ValueOf(m, name)]
    ensures Lookup(m, name).Some? ==> Lookup(r, name).value.snapshots == Lookup(m, name).value.snapshots
    ensures Lookup(r, name) == Some(Counters.CaptureStepSeries(GetCounter(m, name).1, if intervalSeconds < MIN_STEP_INTERVAL then MIN_STEP_INTERVAL else intervalSeconds))
    ensures forall n :: n != name ==> Lookup(r, n) == Lookup(m, n)
    ensures Dict.Keys(r.counters) == if Lookup(m, name).Some? then Dict.Keys(m.counters) else Dict.Keys(m.counters) + [name]
    ensures r.clock.active && r.clock.secondsLeft == m.clock.secondsLeft
    ensures r.labels == m.labels && r.shuttingDown == m.shuttingDown && r.sequence == m.sequence
    ensures Valid(m) ==> Valid(r)
  {
    var interval := if intervalSeconds < MIN_STEP_INTERVAL then MIN_STEP_INTERVAL else intervalSeconds;
    var (m1, c) := GetCounter(m, name);
    var m2 := Store(m1, name, Counters.CaptureStepSeries(c, interval));
    ValidOtherFields(m2, m2.(clock := Clock.Enable(m2.clock)));
    m2.(clock := Clock.Enable(m2.clock))
  }

  /** `counters_{sequence}.json`. */
  function FlushFileName(sequence: nat): string
  {
    "counters_" + Decimal.NatToString(sequence) + ".json"
  }

  /** Distinct sequence numbers name distinct files. */
  lemma FlushFileNameInjective(i: nat, j: nat)
    requires FlushFileName(i) == FlushFileName(j)
    ensures i == j
  {
    var a := FlushFileName(i);
    assert a[9..|a| - 5] == Decimal.NatToString(i);
    var b := FlushFileName(j);
    assert b[9..|b| - 5] == Decimal.NatToString(j);
    Decimal.NatToStringInjective(i, j);
  }

  /** FlushCountersToDisk, state part: a document holding the metadata and
      every registered counter in enumeration order, under the next
      sequence number, which is then consumed. The counters are untouched. */
  function Flush(m: Manager, metadata: Metadata): (r: (Manager, CountersFile))
    ensures r.0 == m.(sequence := m.sequence + 1)
    ensures r.1.fileName == FlushFileName(m.sequence)
    ensures r.1.data.metadata == metadata
    ensures |r.1.data.items| == |m.counters|
    ensures forall i :: 0 <= i < |m.counters| ==> r.1.data.items[i] == m.counters[i].1
  {
    (m.(sequence := m.sequence + 1), CountersFile(FlushFileName(m.sequence), CountersData(metadata, Dict.Values(m.counters))))
  }

  /** In a valid registry a flush lists each registered counter exactly
      once and nothing else: item i is the counter registered under its own name. */
  lemma FlushListsRegistry(m: Manager, metadata: Metadata)
    requires Valid(m)
    ensures var items := Flush(m, metadata).1.data.items;
      && (forall n :: Lookup(m, n).Some? ==> exists i :: 0 <= i < |items| && items[i] == Lookup(m, n).value)
      && (forall i :: 0 <= i < |items| ==> Lookup(m, items[i].name) == Some(items[i]))
      && (forall i, j :: 0 <= i < j < |items| ==> items[i].name != items[j].name)
  {
    var items := Flush(m, metadata).1.data.items;
    forall n | Lookup(m, n).Some?
      ensures exists i :: 0 <= i < |items| && items[i] == Lookup(m, n).value
    {
      var i := Dict.Find(m.counters, n).value;
      assert items[i] == m.counters[i].1;
    }
    forall i | 0 <= i < |items| ensures Lookup(m, items[i].name) == Some(items[i]) {
      Dict.WfFind(m.counters, i);
      assert Lookup(m, m.counters[i].0) == Some(m.counters[i].1);
    }
    forall i, j | 0 <= i < j < |items| ensures items[i].name != items[j].name {
      Dict.WfFind(m.counters, i);
      Dict.WfFind(m.counters, j);
      assert Lookup(m, m.counters[i].0) == Some(m.counters[i].1);
      assert Lookup(m, m.counters[j].0) == Some(m.counters[j].1);
    }
  }

  /** Successive flushes never reuse a file name. */
  lemma FlushNamesDistinct(m: Manager, md1: Metadata, md2: Metadata)
    ensures var (m1, f1) := Flush(m, md1);
      Flush(m1, md2).1.fileName != f1.fileName
  {
    if Flush(Flush(m, md1).0, md2).1.fileName == Flush(m, md1).1.fileName {
      FlushFileNameInjective(m.sequence + 1, m.sequence);
    }
  }

  /** The shutdown notification: the flag is raised, then the counters are flushed. */
  function ShutdownHandler(m: Manager, metadata: Metadata): (r: (Manager, CountersFile))
    ensures r.0.shuttingDown
    ensures r.0 == m.(shuttingDown := true, sequence := m.sequence + 1)
    ensures r.1 == Flush(m, metadata).1
  {
    Flush(m.(shuttingDown := true), metadata)
  }

  /** Every registered counter goes back to zero; nothing else changes. Not
      blocked by shutdown. */
  function ResetCounters(m: Manager): (r: Manager)
    ensures r == m.(counters := r.counters)
    ensures Dict.Keys(r.counters) == Dict.Keys(m.counters)
    ensures forall n :: Lookup(r, n).Some? <==> Lookup(m, n).Some?
    ensures forall n :: Lookup(m, n).Some? ==> Lookup(r, n) == Some(Counters.Reset(Lookup(m, n).value))
    ensures Valid(m) ==> Valid(r)
  {
    var f := (c: Counter) => Counters.Reset(c);
    MapCounters(m, f);
    m.(counters := Dict.MapValues(m.counters, f))
  }

  /** Flushes, then resets every counter when asked to (the default). */
  function FlushAllCountersToDiskAndReset(m: Manager, metadata: Metadata, resetCounters: bool := true): (r: (Manager, CountersFile))
    ensures r.1 == Flush(m, metadata).1
    ensures resetCounters ==> r.0 == ResetCounters(m).(sequence := m.sequence + 1)
    ensures !resetCounters ==> r.0 == m.(sequence := m.sequence + 1)
  {
    var (m1, file) := Flush(m, metadata);
    (if resetCounters then ResetCounters(m1) else m1, file)
  }

  /** `{name}_{count}.json`. */
  function CounterFileName(name: string, count: Int64): string
  {
    name + "_" + Decimal.IntToString(count) + ".json"
  }

  /** The registry after writing `c` out: its flush number advanced and,
      when asked, its value reset. */
  function StoreFlushed(m: Manager, name: string, c: Counter, resetCounter: bool): (r: Manager)
    requires Lookup(m, name) == Some(c)
    ensures Lookup(r, name).Some?
    ensures var c' := Lookup(r, name).value;
      && c'.flushCount == Wrap64(c.flushCount + 1)
      && c'.value == (if resetCounter then 0 else c.value)
      && c'.snapshots == c.snapshots && c'.series == c.series
    ensures forall n :: n != name ==> Lookup(r, n) == Lookup(m, n)
    ensures r == m.(counters := r.counters)
    ensures Valid(m) ==> Valid(r)
  {
    var counted := Counters.CountFlush(c);
    var after := if resetCounter then Counters.Reset(counted) else counted;
    assert Valid(m) ==> CounterOk(name, after, m.labels);
    Store(m, name, after)
  }

  /** `JsonUtility.ToJson(counter)`: Unity's serialiser writes public fields
      and fields marked `[SerializeField]` only. Every field of Counter is
      private or internal and carries Json.NET's `[JsonProperty]` alone, so
      the text is the empty object whatever the counter holds. */
  function JsonUtilityText(c: Counter): string
  {
    "{}"
  }

  /** ResetAndFlushCounterToDisk as written: a registered counter's JSON text
      is handed to the writer under its name and its per-counter flush
      number; that number is incremented (64-bit) and the value reset when
      asked to (the default). An unregistered name does nothing. Not blocked
      by shutdown. */
  function ResetAndFlushCounterToDisk(m: Manager, name: string, resetCounter: bool := true): (r: (Manager, Option<CounterText>))
    ensures Lookup(m, name).None? <==> r.1.None?
    ensures Lookup(m, name).None? ==> r.0 == m
    ensures Lookup(m, name).Some? ==>
      var c := Lookup(m, name).value;
      && r.1 == Some(CounterText(CounterFileName(name, c.flushCount), JsonUtilityText(c)))
      && Lookup(r.0, name).Some?
      && Lookup(r.0, name).value.flushCount == Wrap64(c.flushCount + 1)
      && Lookup(r.0, name).value.value == (if resetCounter then 0 else c.value)
      && Lookup(r.0, name).value.snapshots == c.snapshots
      && Lookup(r.0, name).value.series == c.series
    ensures forall n :: n != name ==> Lookup(r.0, n) == Lookup(m, n)
    ensures r.0 == m.(counters := r.0.counters)
    ensures Valid(m) ==> Valid(r.0)
  {
    match Lookup(m, name)
    case None => (m, None)
    case Some(c) =>
      (StoreFlushed(m, name, c, resetCounter), Some(CounterText(CounterFileName(name, c.flushCount), JsonUtilityText(c))))
  }

  /** ResetAndFlushCounterToDisk as intended: the same registry update, with
      the counter as it was before the update handed to the writer. */
  function ResetAndFlushCounterToDiskIntended(m: Manager, name: string, resetCounter: bool := true): (r: (Manager, Option<CounterFile>))
    ensures r.0 == ResetAndFlushCounterToDisk(m, name, resetCounter).0
    ensures Lookup(m, name).None? <==> r.1.None?
    ensures Lookup(m, name).Some? ==>
      r.1 == Some(CounterFile(ResetAndFlushCounterToDisk(m, name, resetCounter).1.value.fileName, Lookup(m, name).value))
  {
    var (m1, text) := ResetAndFlushCounterToDisk(m, name, resetCounter);
    match Lookup(m, name)
    case None => (m1, None)
    case Some(c) => (m1, Some(CounterFile(text.value.fileName, c)))
  }

  /** The text as written does not depend on the counter: two registries
      whose counters under `name` differ only in their values hand the
      writer the same file, while the intended files differ. */
  lemma FlushTextLosesValue(m: Manager, m': Manager, name: string)
    requires Lookup(m, name).Some? && Lookup(m', name).Some?
    requires Lookup(m', name).value == Lookup(m, name).value.(value := Lookup(m', name).value.value)
    requires Lookup(m', name).value.value != Lookup(m, name).value.value
    ensures ResetAndFlushCounterToDisk(m, name).1 == ResetAndFlushCounterToDisk(m', name).1
    ensures ResetAndFlushCounterToDiskIntended(m, name).1 != ResetAndFlushCounterToDiskIntended(m', name).1
  {
  }

  /** One frame of `delta` seconds: the clock fires k notifications and each
      registered counter's series ticks k times; values do not change. */
  function Frame(m: Manager, delta: real): (r: (Manager, nat))
    ensures r.0 == m.(counters := r.0.counters, clock := r.0.clock)
    ensures (r.0.clock, r.1) == Clock.Update(m.clock, delta)
    ensures Dict.Keys(r.0.counters) == Dict.Keys(m.counters)
    ensures forall i :: 0 <= i < |m.counters| ==> r.0.counters[i].1 == Counters.TickSeriesTimes(m.counters[i].1, r.1)
    ensures !m.clock.active ==> r == (m, 0)
    ensures Valid(m) ==> Valid(r.0)
  {
    var (clock, k) := Clock.Update(m.clock, delta);
    if k == 0 then
      ValidOtherFields(m, m.(clock := clock));
      (m.(clock := clock), 0)
    else
      var f := (c: Counter) => Counters.TickSeriesTimes(c, k);
      MapCounters(m, f);
      var r := m.(counters := Dict.MapValues(m.counters, f));
      ValidOtherFields(r, r.(clock := clock));
      (r.(clock := clock), k)
  }

  /** Once the shutdown flag is raised, increments and sets change nothing. */
  lemma ShutdownBlocksMutation(m: Manager, metadata: Metadata, name: string, amount: Int64, value: Int64)
    ensures var down := ShutdownHandler(m, metadata).0;
      && IncrementCounter(down, name, amount) == down
      && SetCounter(down, name, value) == down
      && ResetCounter(down, name) == down
  {
  }

  /** The flag is never lowered: every operation keeps a raised flag raised. */
  lemma ShutdownPermanent(m: Manager, name: string, tag: string, amount: Int64, interval: Int32, metadata: Metadata, delta: real, flag: bool)
    requires m.shuttingDown
    ensures IncrementCounter(m, name, amount).shuttingDown
    ensures SetCounter(m, name, amount).shuttingDown
    ensures ResetCounter(m, name).shuttingDown
    ensures SnapshotCounters(m, tag).Ok? ==> SnapshotCounters(m, tag).value.shuttingDown
    ensures CaptureStepSeries(m, interval, name).shuttingDown
    ensures Flush(m, metadata).0.shuttingDown
    ensures ResetCounters(m).shuttingDown
    ensures FlushAllCountersToDiskAndReset(m, metadata, flag).0.shuttingDown
    ensures ResetAndFlushCounterToDisk(m, name, flag).0.shuttingDown
    ensures Frame(m, delta).0.shuttingDown
  {
  }
}
