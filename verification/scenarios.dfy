/** Worked scenarios of the counter registry: short sequences of public
    calls from an empty registry and what they leave behind. */
module ManagerScenarios {
  import opened Wrappers
  import opened Ints
  import Decimal
  import Dict
  import opened SimManager

  /** What one increment does to the incremented name and the registry's names. */
  lemma IncrementStep(m: Manager, name: string, a: Int64)
    requires !m.shuttingDown
    ensures var r := IncrementCounter(m, name, a);
      && ValueOf(r, name) == Wrap64(ValueOf(m, name) + a)
      && Lookup(r, name).Some?
      && Dict.Keys(r.counters) == (if Lookup(m, name).Some? then Dict.Keys(m.counters) else Dict.Keys(m.counters) + [name])
      && !r.shuttingDown && r.sequence == m.sequence
  {
  }

  /** The first increment on an empty registry registers just that name,
      holding the amount. */
  lemma FirstIncrement(m0: Manager, name: string, a: Int64)
    requires m0.counters == [] && !m0.shuttingDown
    ensures var m1 := IncrementCounter(m0, name, a);
      && Dict.Keys(m1.counters) == [name]
      && Lookup(m1, name).Some?
      && ValueOf(m1, name) == Wrap64(a)
      && !m1.shuttingDown && m1.sequence == m0.sequence
  {
    assert Lookup(m0, name).None?;
    IncrementStep(m0, name, a);
  }

  /** A registry holding one name holds just that name's counter. */
  lemma SingleEntry(m: Manager, name: string)
    requires Dict.Keys(m.counters) == [name]
    ensures |m.counters| == 1 && m.counters[0].1.value == ValueOf(m, name)
    ensures Valid(m) ==> m.counters[0].1.name == name
  {
    assert m.counters[0].0 == name;
    assert Lookup(m, name) == Some(m.counters[0].1);
  }

  /** Adding 5 to a registry holding only "score" at 10. */
  lemma ScoreSecondIncrement(m1: Manager)
    requires Dict.Keys(m1.counters) == ["score"] && ValueOf(m1, "score") == 10
    requires !m1.shuttingDown && Valid(m1)
    ensures var m := IncrementCounter(m1, "score", 5);
      && |m.counters| == 1 && m.counters[0].1.name == "score" && m.counters[0].1.value == 15
      && !m.shuttingDown && m.sequence == m1.sequence
  {
    var m := IncrementCounter(m1, "score", 5);
    assert Lookup(m1, "score").Some? by {
      assert m1.counters[0].0 == "score";
    }
    IncrementStep(m1, "score", 5);
    assert Wrap64(10 + 5) == 15;
    SingleEntry(m, "score");
  }

  /** A registry without counters, whatever its other fields, after
      incrementing "score" by 10 and then by 5. */
  lemma ScoreRegistry(m0: Manager)
    requires m0.counters == [] && !m0.shuttingDown
    ensures var m := IncrementCounter(IncrementCounter(m0, "score", 10), "score", 5);
      && |m.counters| == 1 && m.counters[0].1.name == "score" && m.counters[0].1.value == 15
      && !m.shuttingDown && m.sequence == m0.sequence
  {
    var m1 := IncrementCounter(m0, "score", 10);
    FirstIncrement(m0, "score", 10);
    assert Wrap64(10) == 10;
    EmptyValid(m0);
    ScoreSecondIncrement(m1);
  }

  /** The first flush is counters_0.json. */
  lemma FirstFlushName()
    ensures FlushFileName(0) == "counters_0.json"
  {
    assert Decimal.NatToString(0) == "0";
  }

  /** Incrementing "score" by 10 and then 5 and shutting down writes
      counters_0.json holding one counter, "score", with value 15. */
  lemma ScoreScenario(m0: Manager, metadata: Metadata)
    requires m0 == Initial
    ensures var m := IncrementCounter(IncrementCounter(m0, "score", 10), "score", 5);
      var (down, file) := ShutdownHandler(m, metadata);
      && file.fileName == "counters_0.json"
      && |file.data.items| == 1
      && file.data.items[0].name == "score"
      && file.data.items[0].value == 15
      && down.shuttingDown && down.sequence == 1
  {
    ScoreRegistry(m0);
    FirstFlushName();
  }

  /** Snapshotting twice under "run1" uses "run1" and then "run1-0". */
  lemma SnapshotTwice(m: Manager)
    requires Valid(m) && m.labels == {}
    ensures var r1 := SnapshotCounters(m, "run1");
      && r1.Ok? && r1.value.labels == {"run1"}
      && SnapshotCounters(r1.value, "run1").Ok?
      && SnapshotCounters(r1.value, "run1").value.labels == {"run1", "run1-0"}
  {
    assert UniqueLabel({"run1"}, "run1") == "run1-0";
  }

  /** Incrementing a counter and then writing it out with the default reset
      hands a file to the writer and leaves the counter at zero; the file
      meant to be written holds the incremented value. */
  lemma IncrementThenResetAndFlush(m: Manager, name: string)
    requires !m.shuttingDown
    ensures var m1 := IncrementCounter(m, name, 1);
      var (m2, file) := ResetAndFlushCounterToDisk(m1, name);
      && file.Some?
      && file.value.fileName == CounterFileName(name, GetCounter(m, name).1.flushCount)
      && GetCounter(m2, name).1.value == 0
      && ValueOf(m2, name) == 0
      && ResetAndFlushCounterToDiskIntended(m1, name).1.value.counter.value == Wrap64(ValueOf(m, name) + 1)
  {
  }
}
